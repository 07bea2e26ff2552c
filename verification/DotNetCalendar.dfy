/** The dates System.DateTime holds, and what the client's day numbers make of them. */
module DotNetCalendar {
  import opened Calendar

  // System.DateTime counts by the Gregorian rule in all years from 1 to 9999.
  predicate IsGregorianLeap(year: int) {
    year % 4 == 0 && (year % 100 != 0 || year % 400 == 0)
  }

  function GregorianMonthLength(year: int, month: int): int
    requires 1 <= month <= 12
  {
    if month == 2 then if IsGregorianLeap(year) then 29 else 28
    else if month in {4, 6, 9, 11} then 30
    else 31
  }

  predicate DotNetDate(d: Date) {
    && 1 <= d.year <= 9999
    && 1 <= d.month <= 12
    && 1 <= d.day <= GregorianMonthLength(d.year, d.month)
  }

  const FIRST_DATE := Date(1, 1, 1)
  const LAST_DATE := Date(9999, 12, 31)
  const LEAP_DAY_OF_YEAR_4 := Date(4, 2, 29)

  // One of the ten days the reform dropped, which System.DateTime has.
  predicate Dropped(d: Date) {
    d.year == GREG_YEAR && d.month == GREG_MONTH && GREG_FIRST_DAY <= d.day <= GREG_LAST_DAY
  }

  // The two calendars disagree on a date of System.DateTime in eleven cases only.
  lemma DotNetIsValid(d: Date)
    requires DotNetDate(d)
    ensures ValidDate(d) <==> !Dropped(d) && d != LEAP_DAY_OF_YEAR_4
  {
  }

  // The valid date that has the number of a date of System.DateTime.
  function Canonical(d: Date): Date {
    if Dropped(d) then d.(day := d.day + 10)
    else if d == LEAP_DAY_OF_YEAR_4 then Date(4, 3, 1)
    else d
  }

  lemma CanonicalHasSameNumber(d: Date)
    requires DotNetDate(d)
    ensures ValidDate(Canonical(d)) && DotNetDate(Canonical(d))
    ensures GetDays(Canonical(d)) == GetDays(d)
  {
    DotNetIsValid(d);
    if Dropped(d) {
      DroppedHasLaterNumber(d);
    }
  }

  lemma DroppedHasLaterNumber(d: Date)
    requires Dropped(d)
    ensures GetDays(d.(day := d.day + 10)) == GetDays(d)
  {
  }

  // What comes back for the number of a date.
  function CameBack(d: Date): Date
    requires DotNetDate(d)
  {
    CanonicalHasSameNumber(d);
    var c := Canonical(d);
    if InYear4Window(c) then JulianYesterday(c) else c
  }

  lemma NumberOfDotNetDate(d: Date)
    requires DotNetDate(d)
    ensures GetDate(GetDays(d)) == DatedEra(CameBack(d), AD)
  {
    CanonicalHasSameNumber(d);
    DateOfDays(Canonical(d));
  }

  lemma CameBackIsDotNet(d: Date)
    requires DotNetDate(d)
    ensures DotNetDate(CameBack(d))
    ensures CameBack(d) == d <==> !Dropped(d) && !InYear4Window(d)
  {
    CanonicalHasSameNumber(d);
    if InYear4Window(Canonical(d)) {
      YesterdayIsDotNet(Canonical(d));
    }
  }

  lemma EndsComeBack(d: Date)
    requires DotNetDate(d)
    ensures CameBack(d) == FIRST_DATE <==> d == FIRST_DATE
    ensures CameBack(d) == LAST_DATE <==> d == LAST_DATE
  {
  }

  // A date of System.DateTime comes back from its day number as itself exactly when it is neither
  // in March to December of AD 4 nor one of the ten dropped days; what comes back is again a date
  // of System.DateTime.
  lemma DateOfDotNetDays(d: Date)
    requires DotNetDate(d)
    ensures GetDate(GetDays(d)) == DatedEra(CameBack(d), AD)
    ensures DotNetDate(CameBack(d))
    ensures CameBack(d) == d <==> !Dropped(d) && !InYear4Window(d)
  {
    NumberOfDotNetDate(d);
    CameBackIsDotNet(d);
  }

  // The ten days that were dropped come back ten days later: they share the numbers of those days.
  lemma DroppedDayComesBackLater(day: int)
    requires GREG_FIRST_DAY <= day <= GREG_LAST_DAY
    ensures var d := Date(GREG_YEAR, GREG_MONTH, day);
            var later := d.(day := day + 10);
            && DotNetDate(d) && DotNetDate(later)
            && GetDays(d) == GetDays(later)
            && GetDate(GetDays(d)) == DatedEra(later, AD)
  {
    var d := Date(GREG_YEAR, GREG_MONTH, day);
    CanonicalHasSameNumber(d);
    DateOfDotNetDays(d);
  }

  // System.DateTime ends with year 9999, far inside the 24 bits of the wire.
  lemma DotNetDatesFit(d: Date)
    requires DotNetDate(d)
    ensures 1 <= GetDays(d) <= 3652061 < 0x80_0000
  {
    CanonicalHasSameNumber(d);
    var c := Canonical(d);
    CutoverJdn(c);
    YearBounds(c);
    YearsInOrder(c.year + 1, 10000);
  }

  // A leap day by the Julian rule only: 29 February of 100, 200, 300, 500 and so on up to 1500.
  predicate JulianLeapDay(d: Date) {
    d.month == 2 && d.day == 29 && !IsGregorianLeap(d.year)
  }

  lemma ValidDateIsDotNet(d: Date)
    requires ValidDate(d) && d.year <= 9999
    ensures DotNetDate(d) <==> !JulianLeapDay(d)
  {
  }

  lemma YesterdayIsDotNet(d: Date)
    requires ValidDate(d) && InYear4Window(d)
    ensures DotNetDate(JulianYesterday(d)) && !JulianLeapDay(JulianYesterday(d))
  {
  }
}
