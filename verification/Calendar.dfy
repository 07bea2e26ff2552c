/** The civil calendar of the .NET client: dates to day numbers (GetDays), day numbers to dates
    (GetDate), across the Julian/Gregorian cutover of October 1582. */
module Calendar {
  import Division

  const GREG_YEAR := 1582
  const GREG_MONTH := 10
  const GREG_FIRST_DAY := 5
  const GREG_LAST_DAY := 14
  const NICAEA_SHIFT := (GREG_YEAR / 100 - GREG_YEAR / 400) - (GREG_LAST_DAY - GREG_FIRST_DAY + 1)

  datatype Era = AD | BC
  datatype Date = Date(year: int, month: int, day: int)
  datatype DatedEra = DatedEra(date: Date, era: Era)

  // C# division truncates toward zero, also for a negative dividend.
  function Quot(a: int, b: int): int
    requires b > 0
  {
    if a >= 0 then a / b else -(-a / b)
  }

  function Rem(a: int, b: int): int
    requires b > 0
  {
    a - Quot(a, b) * b
  }

  predicate IsLeapYear(year: int) {
    if Rem(year, 4) != 0 then false
    else if year > GREG_YEAR then Rem(year, 100) != 0 || Rem(year, 400) == 0
    else year != 4
  }

  // The two month tables of the source: days of the year before each month.
  function ToMonthDays(leap: bool, month: int): int
    requires 1 <= month <= 12
  {
    if leap then [0, 31, 60, 91, 121, 152, 182, 213, 244, 274, 305, 335][month - 1]
    else [0, 31, 59, 90, 120, 151, 181, 212, 243, 273, 304, 334][month - 1]
  }

  function MonthLength(year: int, month: int): int
    requires 1 <= month <= 12
  {
    if month == 2 then if IsLeapYear(year) then 29 else 28
    else if month in {4, 6, 9, 11} then 30
    else 31
  }

  // A date the code's own tables admit: AD, inside its month, and not one of the ten days
  // dropped by the reform.
  predicate ValidDate(d: Date) {
    && 1 <= d.year
    && 1 <= d.month <= 12
    && 1 <= d.day <= MonthLength(d.year, d.month)
    && !(d.year == GREG_YEAR && d.month == GREG_MONTH && GREG_FIRST_DAY <= d.day <= GREG_LAST_DAY)
  }

  predicate AfterCutover(d: Date) {
    || d.year > GREG_YEAR
    || (d.year == GREG_YEAR
        && (d.month > GREG_MONTH || (d.month == GREG_MONTH && d.day > GREG_LAST_DAY)))
  }

  function GetDays(d: Date): int
    requires 1 <= d.month <= 12
  {
    var prevYear := d.year - 1;
    var days := prevYear * 365 + Quot(prevYear, 4);
    var shifted := if AfterCutover(d)
                   then days + Quot(prevYear, 400) - Quot(prevYear, 100) + NICAEA_SHIFT
                   else days;
    shifted + ToMonthDays(IsLeapYear(d.year), d.month) + d.day
  }

  const JDN_OFFSET := 1721423
  const GREG_JDN := 2299161
  const YEAR_5_JDN := 1722884

  // Gregorian branch, first half: years and days since 1 March 4801 BC, by 400, 100, 4 and 1 years.
  function GregorianYearAndDay(jdn: int): (int, int) {
    var mj := jdn + 32044;
    InFourCenturies(Quot(mj, 146097) * 400, Rem(mj, 146097))
  }

  function InFourCenturies(y: int, dg: int): (int, int) {
    var c := ThirdsUp(dg, 36524);
    InCentury(y + c * 100, dg - c * 36524)
  }

  function InCentury(y: int, dc: int): (int, int) {
    InFourYears(y + Quot(dc, 1461) * 4, Rem(dc, 1461))
  }

  function InFourYears(y: int, db: int): (int, int) {
    var a := ThirdsUp(db, 365);
    (y + a, db - a * 365)
  }

  // A quotient of 0 to 4 with 4 taken as 3, for the long last part of a cycle.
  function ThirdsUp(days: int, part: int): int
    requires part > 0
  {
    Quot((Quot(days, part) + 1) * 3, 4)
  }

  // Gregorian branch, second half: the civil date.
  function GregorianCivil(y: int, da: int): Date {
    var m := Quot(da * 5 + 308, 153) - 2;
    var d := da - Quot((m + 4) * 153, 5) + 122;
    Date(y - 4800 + Quot(m + 2, 12), Rem(m + 2, 12) + 1, d + 1)
  }

  function GregorianDate(jdn: int): Date {
    var (y, da) := GregorianYearAndDay(jdn);
    GregorianCivil(y, da)
  }

  function JulianDate(jdn: int): Date {
    var c := jdn + 32082;
    var d := Quot(4 * c + 3, 1461);
    var e := c - Quot(1461 * d, 4);
    var m := Quot(5 * e + 2, 153);
    var year := d - 4800 + Quot(m, 10);
    Date(if year < 0 then year - 1 else year,
         m + 3 - 12 * Quot(m, 10),
         e - Quot(153 * m + 2, 5) + 1)
  }

  function GetDate(days: int): DatedEra {
    var jdn := days + JDN_OFFSET;
    var civil := if GREG_JDN <= jdn then GregorianDate(jdn)
                 else if YEAR_5_JDN == jdn then Date(5, 1, 1)
                 else JulianDate(jdn);
    if civil.year < 0 then DatedEra(civil.(year := -civil.year), BC)
    else DatedEra(civil, AD)
  }

  // ---------------------------------------------------------------------------------------
  // March-based years: both conversions agree on (years since 1 March 4801 BC, day of the year)
  // ---------------------------------------------------------------------------------------

  // Years from 1 March 4801 BC to the last 1 March on or before the date.
  ghost function MarchYear(d: Date): int {
    d.year + 4800 - (if d.month <= 2 then 1 else 0)
  }

  // Months since March.
  ghost function MarchMonth(d: Date): int {
    if d.month <= 2 then d.month + 9 else d.month - 3
  }

  // Days since the last 1 March.
  ghost function MarchDay(d: Date): int
  {
    (153 * MarchMonth(d) + 2) / 5 + d.day - 1
  }

  // In-month bounds without any leap rule.
  ghost predicate MarchShaped(d: Date) {
    && 1 <= d.month <= 12
    && 1 <= d.day
    && (d.month == 2 ==> d.day <= 29)
    && (d.month in {4, 6, 9, 11} ==> d.day <= 30)
    && d.day <= 31
  }

  // The rounded 153/5 line separates the months: the day of the March-based year determines
  // the month and the day of the month.
  lemma MonthLine(m: int, e: int, day: int)
    requires 0 <= m <= 11 && 1 <= day
    requires e == (153 * m + 2) / 5 + day - 1 < (153 * (m + 1) + 2) / 5
    ensures (5 * e + 2) / 153 == m
    ensures (5 * e + 308) / 153 - 2 == m
    ensures (153 * (m + 4)) / 5 == (153 * m + 2) / 5 + 122
  {
    Division.Unique(5 * e + 2, 153, m, 5 * e + 2 - 153 * m);
    Division.Unique(5 * e + 308, 153, m + 2, 5 * e + 2 - 153 * m);
    Division.Shift(153 * m + 2, 5, 122);
  }

  lemma MarchDayBounds(d: Date)
    requires MarchShaped(d)
    ensures 0 <= MarchDay(d) <= 365
    ensures d.month > 2 ==> MarchDay(d) <= 305
    ensures d.month <= 2 ==> 306 <= MarchDay(d)
    ensures MarchDay(d) == 365 <==> d.month == 2 && d.day == 29
    ensures MarchDay(d) < (153 * (MarchMonth(d) + 1) + 2) / 5
  {
  }

  // The Julian branch, on a year count z, days e since 1 March, month m since March.
  lemma JulianYear(c: int, z: int, e: int)
    requires z >= 0 && 0 <= e <= 365 && c == 365 * z + z / 4 + e
    requires e == 365 ==> z % 4 == 3
    ensures Quot(4 * c + 3, 1461) == z && c - Quot(1461 * z, 4) == e
  {
    Division.Unique(4 * c + 3, 1461, z, 4 * (z / 4) - z + 4 * e + 3);
    Division.Shift(z, 4, 365 * z);
  }

  lemma JulianCivil(jdn: int, z: int, e: int, m: int, day: int)
    requires z >= 0 && 0 <= e && 0 <= m <= 11
    requires Quot(4 * (jdn + 32082) + 3, 1461) == z && jdn + 32082 - Quot(1461 * z, 4) == e
    requires (5 * e + 2) / 153 == m && e - (153 * m + 2) / 5 + 1 == day
    ensures var year := z - 4800 + (if m >= 10 then 1 else 0);
            JulianDate(jdn) == Date(if year < 0 then year - 1 else year,
                                    if m >= 10 then m - 9 else m + 3,
                                    day)
  {
  }

  lemma JulianInverse(jdn: int, d: Date)
    requires MarchShaped(d) && MarchYear(d) >= 0
    requires jdn + 32082 == 365 * MarchYear(d) + MarchYear(d) / 4 + MarchDay(d)
    requires MarchDay(d) == 365 ==> MarchYear(d) % 4 == 3
    ensures JulianDate(jdn) == d.(year := if d.year < 0 then d.year - 1 else d.year)
  {
    MarchDayBounds(d);
    MonthLine(MarchMonth(d), MarchDay(d), d.day);
    JulianYear(jdn + 32082, MarchYear(d), MarchDay(d));
    JulianCivil(jdn, MarchYear(d), MarchDay(d), MarchMonth(d), d.day);
  }

  // A year count split into 400-, 100-, 4- and 1-year parts, and the leap days it contains.
  lemma YearDigits(z: int, g: int, c: int, b: int, a: int)
    requires z >= 0
    requires g == z / 400 && c == z % 400 / 100 && b == z % 100 / 4 && a == z % 4
    ensures z == 400 * g + 100 * c + 4 * b + a
    ensures 0 <= c <= 3 && 0 <= b <= 24 && 0 <= a <= 3
    ensures 365 * z + z / 4 - z / 100 + z / 400 == 146097 * g + 36524 * c + 1461 * b + 365 * a
  {
    assert z / 100 == 4 * g + c;
    assert z / 4 == 100 * g + 25 * c + b;
  }

  // A year that ends in a Gregorian leap day.
  lemma LeapDigits(z: int, g: int, c: int, b: int, a: int)
    requires z == 400 * g + 100 * c + 4 * b + a
    requires 0 <= c <= 3 && 0 <= b <= 24 && 0 <= a <= 3
    requires (z + 1) % 4 == 0 && ((z + 1) % 100 != 0 || (z + 1) % 400 == 0)
    ensures a == 3 && (b < 24 || c == 3)
  {
    Division.Shift(a + 1, 4, 100 * g + 25 * c + b);
    if b == 24 && a == 3 {
      Division.Shift(0, 100, 4 * g + c + 1);
      Division.Shift(100 * (c + 1), 400, g);
    }
  }

  // One step of the source's cascade: a quotient and remainder determine each other.
  lemma QuotRem(n: int, k: int, q: int, r: int)
    requires k > 0 && q >= 0 && 0 <= r < k && n == k * q + r
    ensures Quot(n, k) == q && Rem(n, k) == r
  {
    Division.Unique(n, k, q, r);
  }

  lemma LongLastPart(days: int, part: int, q: int, r: int)
    requires part > 1 && 0 <= q <= 3 && 0 <= r && days == part * q + r
    requires r < part || (q == 3 && r == part)
    ensures ThirdsUp(days, part) == q
  {
    if r < part {
      QuotRem(days, part, q, r);
    } else {
      QuotRem(days, part, 4, 0);
    }
  }

  // The source's cascade of divisions recovers those parts.
  lemma FourYearsCascade(y: int, db: int, a: int, e: int)
    requires 0 <= a <= 3 && 0 <= e && (e < 365 || (a == 3 && e == 365)) && db == 365 * a + e
    ensures InFourYears(y, db) == (y + a, e)
  {
    LongLastPart(db, 365, a, e);
  }

  lemma CenturyCascade(y: int, dc: int, b: int, a: int, e: int)
    requires 0 <= b && 0 <= a <= 3 && 0 <= e && (e < 365 || (a == 3 && e == 365))
    requires dc == 1461 * b + (365 * a + e)
    ensures InCentury(y, dc) == (y + 4 * b + a, e)
  {
    QuotRem(dc, 1461, b, 365 * a + e);
    FourYearsCascade(y + Quot(dc, 1461) * 4, Rem(dc, 1461), a, e);
  }

  lemma FourCenturiesCascade(y: int, dg: int, c: int, b: int, a: int, e: int)
    requires 0 <= c <= 3 && 0 <= b <= 24 && 0 <= a <= 3 && 0 <= e <= 365
    requires e == 365 ==> a == 3 && (b < 24 || c == 3)
    requires dg == 36524 * c + (1461 * b + (365 * a + e))
    ensures InFourCenturies(y, dg) == (y + 100 * c + 4 * b + a, e)
  {
    LongLastPart(dg, 36524, c, 1461 * b + (365 * a + e));
    CenturyCascade(y + ThirdsUp(dg, 36524) * 100, dg - ThirdsUp(dg, 36524) * 36524, b, a, e);
  }

  lemma GregorianCascade(jdn: int, g: int, c: int, b: int, a: int, e: int)
    requires g >= 0 && 0 <= c <= 3 && 0 <= b <= 24 && 0 <= a <= 3 && 0 <= e <= 365
    requires e == 365 ==> a == 3 && (b < 24 || c == 3)
    requires jdn + 32044 == 146097 * g + 36524 * c + 1461 * b + 365 * a + e
    ensures GregorianYearAndDay(jdn) == (400 * g + 100 * c + 4 * b + a, e)
  {
    var mj := jdn + 32044;
    QuotRem(mj, 146097, g, 36524 * c + (1461 * b + (365 * a + e)));
    FourCenturiesCascade(Quot(mj, 146097) * 400, Rem(mj, 146097), c, b, a, e);
  }

  lemma GregorianYear(jdn: int, z: int, e: int)
    requires z >= 0 && 0 <= e <= 365
    requires jdn + 32044 == 365 * z + z / 4 - z / 100 + z / 400 + e
    requires e == 365 ==> (z + 1) % 4 == 0 && ((z + 1) % 100 != 0 || (z + 1) % 400 == 0)
    ensures GregorianYearAndDay(jdn) == (z, e)
  {
    var g, c, b, a := z / 400, z % 400 / 100, z % 100 / 4, z % 4;
    YearDigits(z, g, c, b, a);
    if e == 365 {
      LeapDigits(z, g, c, b, a);
    }
    GregorianCascade(jdn, g, c, b, a, e);
  }

  lemma GregorianInverse(jdn: int, d: Date)
    requires MarchShaped(d) && MarchYear(d) >= 4800
    requires var z := MarchYear(d);
             jdn + 32044 == 365 * z + z / 4 - z / 100 + z / 400 + MarchDay(d)
    requires MarchDay(d) == 365 ==>
               var z := MarchYear(d) + 1; z % 4 == 0 && (z % 100 != 0 || z % 400 == 0)
    ensures GregorianDate(jdn) == d
  {
    MarchDayBounds(d);
    GregorianYear(jdn, MarchYear(d), MarchDay(d));
    GregorianCivilInverse(d);
  }

  lemma GregorianCivilInverse(d: Date)
    requires MarchShaped(d)
    ensures GregorianCivil(MarchYear(d), MarchDay(d)) == d
  {
    MarchDayBounds(d);
    MonthLine(MarchMonth(d), MarchDay(d), d.day);
  }

  // ---------------------------------------------------------------------------------------
  // GetDays in the same March-based terms
  // ---------------------------------------------------------------------------------------

  // 1 March to 31 December of AD 4, which the tables treat as common and GetDate as leap.
  predicate InYear4Window(d: Date) {
    d.year == 4 && d.month >= 3
  }

  lemma MonthTable(d: Date)
    requires 1 <= d.month <= 12
    ensures d.month > 2 ==>
              ToMonthDays(IsLeapYear(d.year), d.month) + d.day
              == MarchDay(d) + 60 + (if IsLeapYear(d.year) then 1 else 0)
    ensures d.month <= 2 ==>
              ToMonthDays(IsLeapYear(d.year), d.month) + d.day == MarchDay(d) - 305
  {
  }

  lemma JulianDays(d: Date)
    requires ValidDate(d) && !AfterCutover(d)
    ensures MarchShaped(d)
    ensures GetDays(d) + JDN_OFFSET + 32082
            == 365 * MarchYear(d) + MarchYear(d) / 4 + MarchDay(d)
               - (if InYear4Window(d) then 1 else 0)
    ensures MarchDay(d) == 365 ==> MarchYear(d) % 4 == 3
  {
    MonthTable(d);
    MarchDayBounds(d);
  }

  // Leap days up to the end of February of year y, counted from January and from March.
  lemma LeapDaysStep(y: int)
    requires y >= 1
    ensures var leap := y % 4 == 0 && (y % 100 != 0 || y % 400 == 0);
            y / 4 - y / 100 + y / 400
            == (y - 1) / 4 - (y - 1) / 100 + (y - 1) / 400 + (if leap then 1 else 0)
  {
    Division.Step(y, 4);
    Division.Step(y, 100);
    Division.Step(y, 400);
    Multiples(y);
  }

  lemma Multiples(y: int)
    ensures y % 100 == 0 ==> y % 4 == 0
    ensures y % 400 == 0 ==> y % 100 == 0
  {
  }

  lemma LeapDaysShift(y: int)
    ensures (y + 4800) / 4 == y / 4 + 1200
    ensures (y + 4800) / 100 == y / 100 + 48
    ensures (y + 4800) / 400 == y / 400 + 12
  {
    Division.Shift(y, 4, 1200);
    Division.Shift(y, 100, 48);
    Division.Shift(y, 400, 12);
  }

  // The Gregorian day count of a date of year y, `e` days after 1 March, from either end of the
  // year: `days` is what GetDays adds up, `z` the March-based year.
  lemma GregorianCount(y: int, z: int, days: int, e: int)
    requires y >= 1
    requires var leap := y % 4 == 0 && (y % 100 != 0 || y % 400 == 0);
             var before := 365 * (y - 1) + (y - 1) / 4 - (y - 1) / 100 + (y - 1) / 400;
             || (z == y + 4800 && days == before + e + 60 + (if leap then 1 else 0))
             || (z == y + 4799 && days == before + e - 305)
    ensures days + 1753469 == 365 * z + z / 4 - z / 100 + z / 400 + e
  {
    LeapDaysStep(y);
    LeapDaysShift(y);
    LeapDaysShift(y - 1);
  }

  lemma GregorianShape(d: Date)
    requires ValidDate(d) && AfterCutover(d)
    ensures MarchShaped(d)
    ensures MarchDay(d) == 365 ==>
              var z := MarchYear(d) + 1; z % 4 == 0 && (z % 100 != 0 || z % 400 == 0)
  {
    MarchDayBounds(d);
    if MarchDay(d) == 365 {
      LeapShift(d.year);
    }
  }

  lemma LeapShift(y: int)
    requires y % 4 == 0 && (y % 100 != 0 || y % 400 == 0)
    ensures (y + 4800) % 4 == 0 && ((y + 4800) % 100 != 0 || (y + 4800) % 400 == 0)
  {
    Division.Shift(y, 4, 1200);
    Division.Shift(y, 100, 48);
    Division.Shift(y, 400, 12);
  }

  lemma GregorianDays(d: Date)
    requires ValidDate(d) && AfterCutover(d)
    ensures MarchShaped(d)
    ensures var z := MarchYear(d);
            GetDays(d) + JDN_OFFSET + 32044 == 365 * z + z / 4 - z / 100 + z / 400 + MarchDay(d)
  {
    GregorianShape(d);
    MonthTable(d);
    GregorianCount(d.year, MarchYear(d), GetDays(d) - NICAEA_SHIFT, MarchDay(d));
  }

  lemma CutoverJdn(d: Date)
    requires ValidDate(d)
    ensures AfterCutover(d) <==> GetDays(d) + JDN_OFFSET >= GREG_JDN
    ensures GetDays(d) >= 1
  {
    if AfterCutover(d) {
      GregorianDays(d);
    } else {
      JulianDays(d);
    }
    MarchDayBounds(d);
  }

  // ---------------------------------------------------------------------------------------
  // GetDate after GetDays
  // ---------------------------------------------------------------------------------------

  // The day before a date of AD 4 on the proleptic Julian calendar, where that year is leap.
  function JulianYesterday(d: Date): Date
    requires InYear4Window(d) && ValidDate(d)
  {
    if d.day > 1 then d.(day := d.day - 1)
    else if d.month == 3 then Date(4, 2, 29)
    else Date(4, d.month - 1, MonthLength(4, d.month - 1))
  }

  lemma JulianYesterdayMarch(d: Date)
    requires InYear4Window(d) && ValidDate(d)
    ensures var p := JulianYesterday(d);
            && MarchShaped(p) && p.year == 4
            && 365 * MarchYear(p) + MarchYear(p) / 4 + MarchDay(p)
               == 365 * MarchYear(d) + MarchYear(d) / 4 + MarchDay(d) - 1
            && (MarchDay(p) == 365 ==> MarchYear(p) % 4 == 3)
  {
    MarchDayBounds(d);
    MarchDayBounds(JulianYesterday(d));
  }

  lemma DateOfGregorianDays(d: Date)
    requires ValidDate(d) && AfterCutover(d)
    ensures GregorianDate(GetDays(d) + JDN_OFFSET) == d
  {
    GregorianShape(d);
    GregorianDays(d);
    GregorianInverse(GetDays(d) + JDN_OFFSET, d);
  }

  lemma DateOfJulianDays(d: Date)
    requires ValidDate(d) && !AfterCutover(d)
    ensures JulianDate(GetDays(d) + JDN_OFFSET)
            == if InYear4Window(d) then JulianYesterday(d) else d
  {
    JulianDays(d);
    if InYear4Window(d) {
      JulianYesterdayMarch(d);
      JulianInverse(GetDays(d) + JDN_OFFSET, JulianYesterday(d));
    } else {
      JulianInverse(GetDays(d) + JDN_OFFSET, d);
    }
  }

  lemma BranchOfNumber(n: int)
    requires n != YEAR_5_JDN - JDN_OFFSET
    ensures var jdn := n + JDN_OFFSET;
            var civil := if GREG_JDN <= jdn then GregorianDate(jdn) else JulianDate(jdn);
            civil.year >= 0 ==> GetDate(n) == DatedEra(civil, AD)
  {
  }

  // GetDate undoes GetDays on every valid date of every year, except that it answers one day
  // early from 1 March to 31 December of AD 4.
  lemma DateOfDays(d: Date)
    requires ValidDate(d)
    ensures GetDate(GetDays(d))
            == DatedEra(if InYear4Window(d) then JulianYesterday(d) else d, AD)
    ensures GetDate(GetDays(d)) == DatedEra(d, AD) <==> !InYear4Window(d)
  {
    CutoverJdn(d);
    NotYear5Jdn(d);
    BranchOfNumber(GetDays(d));
    if AfterCutover(d) {
      DateOfGregorianDays(d);
    } else {
      DateOfJulianDays(d);
    }
  }

  // The one day number that GetDate patches belongs to no date.
  lemma NotYear5Jdn(d: Date)
    requires ValidDate(d)
    ensures GetDays(d) != YEAR_5_JDN - JDN_OFFSET
  {
    CutoverJdn(d);
    if !AfterCutover(d) {
      JulianDays(d);
      MarchDayBounds(d);
    }
  }

  // ---------------------------------------------------------------------------------------
  // Day numbers count days
  // ---------------------------------------------------------------------------------------

  // The calendar's own successor, defined from month lengths alone.
  function Tomorrow(d: Date): Date
    requires ValidDate(d)
  {
    if d == Date(GREG_YEAR, GREG_MONTH, GREG_FIRST_DAY - 1) then
      Date(GREG_YEAR, GREG_MONTH, GREG_LAST_DAY + 1)
    else if d.day < MonthLength(d.year, d.month) then d.(day := d.day + 1)
    else if d.month < 12 then Date(d.year, d.month + 1, 1)
    else Date(d.year + 1, 1, 1)
  }

  const LAST_OF_YEAR_4 := Date(4, 12, 31)

  lemma DaysOfTomorrowInYear(d: Date)
    requires ValidDate(d) && !(d.month == 12 && d.day == 31)
    ensures ValidDate(Tomorrow(d)) && GetDays(Tomorrow(d)) == GetDays(d) + 1
  {
    if d == Date(GREG_YEAR, GREG_MONTH, GREG_FIRST_DAY - 1) {
    } else if d.day < MonthLength(d.year, d.month) {
    } else {
      assert ToMonthDays(IsLeapYear(d.year), d.month + 1)
             == ToMonthDays(IsLeapYear(d.year), d.month) + d.day;
    }
  }

  lemma DaysOfNewYear(y: int)
    requires y >= 1
    ensures GetDays(Date(y + 1, 1, 1))
            == GetDays(Date(y, 12, 31)) + (if y == 4 then 2 else 1)
  {
    if y > GREG_YEAR {
      GregorianNewYear(y);
    } else {
      JulianNewYear(y);
    }
  }

  lemma JulianNewYear(y: int)
    requires 1 <= y <= GREG_YEAR
    ensures GetDays(Date(y + 1, 1, 1))
            == GetDays(Date(y, 12, 31)) + (if y == 4 then 2 else 1)
  {
    Division.Step(y, 4);
  }

  lemma GregorianNewYear(y: int)
    requires y > GREG_YEAR
    ensures GetDays(Date(y + 1, 1, 1)) == GetDays(Date(y, 12, 31)) + 1
  {
    LeapDaysStep(y);
  }

  lemma DaysOfTomorrow(d: Date)
    requires ValidDate(d)
    ensures ValidDate(Tomorrow(d))
    ensures GetDays(Tomorrow(d)) == GetDays(d) + (if d == LAST_OF_YEAR_4 then 2 else 1)
  {
    if d.month == 12 && d.day == 31 {
      DaysOfNewYear(d.year);
    } else {
      DaysOfTomorrowInYear(d);
    }
  }

  // The n-th day of the calendar, counting 1 January AD 1 as the first.
  ghost function NthDate(n: nat): (d: Date)
    requires n >= 1
    ensures ValidDate(d)
  {
    if n == 1 then Date(1, 1, 1)
    else
      TomorrowIsValid(NthDate(n - 1));
      Tomorrow(NthDate(n - 1))
  }

  lemma TomorrowIsValid(d: Date)
    requires ValidDate(d)
    ensures ValidDate(Tomorrow(d))
  {
  }

  // GetDays is the position of a date on the calendar, with one number skipped after AD 4.
  lemma {:induction false} DaysOfNthDate(n: nat)
    requires n >= 1
    ensures GetDays(NthDate(n)) == if n <= 1460 then n else n + 1
  {
    if n == 1 {
      FirstDay();
    } else {
      DaysOfNthDate(n - 1);
      NumberOfNext(n);
    }
  }

  lemma FirstDay()
    ensures GetDays(NthDate(1)) == 1
  {
  }

  lemma NumberOfNext(n: nat)
    requires n >= 2 && GetDays(NthDate(n - 1)) == if n - 1 <= 1460 then n - 1 else n
    ensures GetDays(NthDate(n)) == if n <= 1460 then n else n + 1
  {
    NextNumber(NthDate(n - 1), n - 1);
  }

  lemma NextNumber(d: Date, n: nat)
    requires ValidDate(d) && GetDays(d) == if n <= 1460 then n else n + 1
    ensures ValidDate(Tomorrow(d))
    ensures GetDays(Tomorrow(d)) == if n + 1 <= 1460 then n + 1 else n + 2
  {
    DaysOfTomorrow(d);
    Year4Numbers(d);
  }

  lemma Year4Numbers(d: Date)
    requires ValidDate(d)
    ensures d == LAST_OF_YEAR_4 <==> GetDays(d) == 1460
    ensures InYear4Window(d) <==> 1155 <= GetDays(d) <= 1460
  {
    CutoverJdn(d);
    if !AfterCutover(d) {
      JulianDays(d);
      MarchDayBounds(d);
    }
  }

  predicate Before(d: Date, e: Date) {
    || d.year < e.year
    || (d.year == e.year && (d.month < e.month || (d.month == e.month && d.day < e.day)))
  }

  lemma YearBounds(d: Date)
    requires ValidDate(d)
    ensures GetDays(Date(d.year, 1, 1)) <= GetDays(d) < GetDays(Date(d.year + 1, 1, 1))
  {
    DaysOfNewYear(d.year);
    InYear(Date(d.year, 1, 1), d);
    InYear(d, Date(d.year, 12, 31));
  }

  lemma InYear(d: Date, e: Date)
    requires ValidDate(d) && ValidDate(e) && d.year == e.year && !Before(e, d)
    ensures GetDays(d) <= GetDays(e)
    ensures d != e ==> GetDays(d) < GetDays(e)
  {
    if d.month < e.month {
      MonthsInOrder(d, e);
    }
  }

  lemma {:induction false} YearsInOrder(x: int, y: int)
    requires 1 <= x <= y
    ensures GetDays(Date(x, 1, 1)) <= GetDays(Date(y, 1, 1))
    decreases y - x
  {
    if x == y {
    } else {
      YearBounds(Date(x, 1, 1));
      YearsInOrder(x + 1, y);
    }
  }

  lemma MonthsInOrder(d: Date, e: Date)
    requires ValidDate(d) && ValidDate(e) && d.year == e.year && d.month < e.month
    ensures ToMonthDays(IsLeapYear(d.year), d.month) + d.day
            <= ToMonthDays(IsLeapYear(d.year), e.month)
  {
  }

  lemma BeforeHasSmallerNumber(d: Date, e: Date)
    requires ValidDate(d) && ValidDate(e) && Before(d, e)
    ensures GetDays(d) < GetDays(e)
  {
    if d.year < e.year {
      YearBounds(d);
      YearsInOrder(d.year + 1, e.year);
      YearBounds(e);
    } else {
      InYear(d, e);
    }
  }

  // Day numbers order dates exactly as the calendar does.
  lemma DaysOrderDates(d: Date, e: Date)
    requires ValidDate(d) && ValidDate(e)
    ensures Before(d, e) <==> GetDays(d) < GetDays(e)
    ensures d == e <==> GetDays(d) == GetDays(e)
  {
    if Before(d, e) {
      BeforeHasSmallerNumber(d, e);
    } else if Before(e, d) {
      BeforeHasSmallerNumber(e, d);
    }
  }

  // The image of GetDays: every number from 1 on, except 1461.
  lemma DaysImage(n: int)
    ensures n >= 1 && n != 1461 <==> exists d :: ValidDate(d) && GetDays(d) == n
  {
    if n >= 1 && n != 1461 {
      var k := if n <= 1460 then n else n - 1;
      DaysOfNthDate(k);
      assert ValidDate(NthDate(k)) && GetDays(NthDate(k)) == n;
    }
    forall d | ValidDate(d) && GetDays(d) == n
      ensures n >= 1 && n != 1461
    {
      CutoverJdn(d);
      NotYear5Jdn(d);
    }
  }

  // ---------------------------------------------------------------------------------------
  // GetDays after GetDate
  // ---------------------------------------------------------------------------------------

  lemma DaysOfYesterday(d: Date)
    requires InYear4Window(d) && ValidDate(d)
    ensures var p := JulianYesterday(d);
            && 1 <= p.month <= 12
            && GetDays(p) == GetDays(d) - (if p == Date(4, 2, 29) then 0 else 1)
            && (p == Date(4, 2, 29) <==> GetDays(d) == 1155)
  {
  }

  // On a day number of AD 4 from 1 March on, GetDate still walks the leap year.
  lemma DateInYear4(n: int)
    requires 1155 <= n <= 1461
    ensures var r := GetDate(n);
            && r.era == AD
            && 1 <= r.date.month <= 12
            && !(ValidDate(r.date) && GetDays(r.date) == n)
            && (GetDays(r.date) == n <==> n == 1155)
  {
    if n <= 1460 {
      DaysImage(n);
      var d :| ValidDate(d) && GetDays(d) == n;
      Year4Numbers(d);
      DateOfDays(d);
      DaysOfYesterday(d);
    }
  }

  // GetDays undoes GetDate on every day number from 1 on, outside the numbers of AD 4 above;
  // on 1155 alone it gives the number back for a date (29 February AD 4) the tables do not have.
  lemma DaysOfDate(n: int)
    requires n >= 1
    ensures var r := GetDate(n);
            && r.era == AD
            && 1 <= r.date.month <= 12
            && (ValidDate(r.date) && GetDays(r.date) == n <==> !(1155 <= n <= 1461))
            && (GetDays(r.date) == n <==> !(1156 <= n <= 1461))
  {
    if 1155 <= n <= 1461 {
      DateInYear4(n);
    } else {
      DaysImage(n);
      var d :| ValidDate(d) && GetDays(d) == n;
      Year4Numbers(d);
      DateOfDays(d);
    }
  }

  // The patched number gives 1 January AD 5, as the number after it does.
  lemma PatchedNumber(n: int)
    requires n == 1461
    ensures GetDate(n) == GetDate(n + 1) == DatedEra(Date(5, 1, 1), AD)
  {
    NewYear5(Date(5, 1, 1));
    OutsideYear4(Date(5, 1, 1), n + 1);
  }

  lemma NewYear5(d: Date)
    requires d == Date(5, 1, 1)
    ensures ValidDate(d) && GetDays(d) == 1462
  {
  }

  // GetDate lists the calendar in order: consecutive numbers, consecutive days.
  lemma DateOfNextNumber(n: int)
    requires n >= 1 && !(1154 <= n <= 1461)
    ensures ValidDate(GetDate(n).date)
    ensures GetDate(n + 1) == DatedEra(Tomorrow(GetDate(n).date), AD)
  {
    DaysOfDate(n);
    DateOfTomorrow(GetDate(n).date, n);
  }

  lemma DateOfTomorrow(d: Date, n: int)
    requires ValidDate(d) && GetDays(d) == n && !(1154 <= n <= 1461)
    ensures GetDate(n + 1) == DatedEra(Tomorrow(d), AD)
  {
    var t := Tomorrow(d);
    DaysOfTomorrow(d);
    Year4Numbers(d);
    OutsideYear4(t, n + 1);
  }

  lemma OutsideYear4(t: Date, m: int)
    requires ValidDate(t) && GetDays(t) == m && !(1155 <= m <= 1460)
    ensures GetDate(m) == DatedEra(t, AD)
  {
    Year4Numbers(t);
    DateOfDays(t);
  }

  // ---------------------------------------------------------------------------------------
  // Before AD 1: years counted astronomically (0 is 1 BC, -1 is 2 BC)
  // ---------------------------------------------------------------------------------------

  function JulianMonthLength(year: int, month: int): int
    requires 1 <= month <= 12
  {
    if month == 2 then if year % 4 == 0 then 29 else 28
    else if month in {4, 6, 9, 11} then 30
    else 31
  }

  // A proleptic Julian date no earlier than 1 March 4801 BC and no later than 31 December 1 BC.
  predicate BeforeChrist(d: Date) {
    && d.year <= 0
    && (d.year > -4800 || (d.year == -4800 && d.month >= 3))
    && 1 <= d.month <= 12
    && 1 <= d.day <= JulianMonthLength(d.year, d.month)
  }

  function JulianYesterdayBC(d: Date): Date
    requires 1 <= d.month <= 12
  {
    if d.day > 1 then d.(day := d.day - 1)
    else if d.month > 1 then Date(d.year, d.month - 1, JulianMonthLength(d.year, d.month - 1))
    else Date(d.year - 1, 12, 31)
  }

  // The number of a date, continuing downward from 1 January AD 1.
  ghost function JulianNumber(d: Date): int {
    365 * MarchYear(d) + MarchYear(d) / 4 + MarchDay(d) - 32082 - JDN_OFFSET
  }

  lemma JulianNumbersCountDown(d: Date)
    requires BeforeChrist(d)
    ensures JulianNumber(JulianYesterdayBC(d)) == JulianNumber(d) - 1
  {
    if d.day == 1 && d.month == 3 {
      Division.Step(d.year + 4800, 4);
      Division.Shift(d.year, 4, 1200);
    }
  }

  // The numbering joins on to GetDays at the turn of the era.
  lemma JulianNumbersJoin()
    ensures JulianYesterdayBC(Date(1, 1, 1)) == Date(0, 12, 31)
    ensures JulianNumber(Date(0, 12, 31)) == GetDays(Date(1, 1, 1)) - 1
    ensures BeforeChrist(Date(0, 12, 31)) && BeforeChrist(Date(-4800, 3, 1))
    ensures JulianNumber(Date(-4800, 3, 1)) == -1753505
  {
  }

  lemma JulianBranch(n: int)
    requires n <= 0
    ensures var civil := JulianDate(n + JDN_OFFSET);
            GetDate(n) == if civil.year < 0 then DatedEra(civil.(year := -civil.year), BC)
                          else DatedEra(civil, AD)
  {
  }

  lemma NumberBeforeChrist(d: Date)
    requires BeforeChrist(d)
    ensures MarchShaped(d) && MarchYear(d) >= 0 && JulianNumber(d) <= 0
    ensures MarchDay(d) == 365 ==> MarchYear(d) % 4 == 3
  {
    MarchDayBounds(d);
    Division.Shift(d.year, 4, 1200);
    Division.Step(d.year + 4800, 4);
  }

  // GetDate names years before AD 1 correctly from 2 BC back; 1 BC comes out as AD 0.
  lemma DateBeforeChrist(d: Date)
    requires BeforeChrist(d)
    ensures GetDate(JulianNumber(d))
            == if d.year == 0 then DatedEra(d, AD) else DatedEra(d.(year := 1 - d.year), BC)
    ensures GetDate(JulianNumber(d)) == DatedEra(d.(year := 1 - d.year), BC) <==> d.year != 0
  {
    NumberBeforeChrist(d);
    NamedBeforeChrist(d, JulianNumber(d), JulianNumber(d) + JDN_OFFSET);
  }

  lemma NamedBeforeChrist(d: Date, n: int, jdn: int)
    requires MarchShaped(d) && MarchYear(d) >= 0 && d.year <= 0 && n <= 0
    requires MarchDay(d) == 365 ==> MarchYear(d) % 4 == 3
    requires n == JulianNumber(d) && jdn == n + JDN_OFFSET
    ensures GetDate(n)
            == if d.year == 0 then DatedEra(d, AD) else DatedEra(d.(year := 1 - d.year), BC)
  {
    JulianInverse(jdn, d);
    JulianBranch(n);
  }
}
