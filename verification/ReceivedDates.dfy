/** Which received day numbers make a date System.DateTime has; for the others its constructor
    throws. */
module ReceivedDates {
  import Division
  import opened Calendar
  import opened DotNetCalendar

  const LAST_NUMBER := 3652061
  const FIRST_JULIAN_NUMBER := -1753505
  const DAYS_OF_1_BC := 366

  // 29 February of 100, 200, 300, 500 and so on up to 1500, as a number.
  predicate JulianLeapNumber(n: int) {
    (n + 306) % 36525 == 0 && LeapCentury((n + 306) / 36525)
  }

  // A century year that is leap by the Julian rule only, before the reform.
  predicate LeapCentury(c: int) {
    1 <= c <= 15 && c % 4 != 0
  }

  // Up to 31 December 9999 and back to 1 March 4801 BC: not a Julian leap day, not in 1 BC.
  predicate HasDotNetDate(n: int) {
    if n >= 1 then n <= LAST_NUMBER && !JulianLeapNumber(n)
    else FIRST_JULIAN_NUMBER <= n <= -DAYS_OF_1_BC && (n + 306) % 1461 != 0
  }

  // ---------------------------------------------------------------------------------------
  // Numbers from 1 on
  // ---------------------------------------------------------------------------------------

  lemma ReceivedDateInRange(n: int)
    requires n >= 1 && GetDate(n).date.year <= 9999
    ensures DotNetDate(GetDate(n).date) <==> !JulianLeapDay(GetDate(n).date)
  {
    if 1155 <= n <= 1460 {
      ReceivedInYear4(n);
    } else if n != 1461 {
      DaysOfDate(n);
      ValidDateIsDotNet(GetDate(n).date);
    }
  }

  lemma ReceivedInYear4(n: int)
    requires 1155 <= n <= 1460
    ensures DotNetDate(GetDate(n).date) && !JulianLeapDay(GetDate(n).date)
    ensures GetDate(n).date.year == 4
  {
    DaysImage(n);
    var d :| ValidDate(d) && GetDays(d) == n;
    Year4Numbers(d);
    DateOfDays(d);
    YesterdayIsDotNet(d);
  }

  // By the date: a date of System.DateTime up to year 9999, unless it is such a leap day.
  lemma ReceivedDateExactly(n: int)
    requires n >= 1
    ensures var d := GetDate(n).date;
            DotNetDate(d) <==> d.year <= 9999 && !JulianLeapDay(d)
  {
    if GetDate(n).date.year <= 9999 {
      ReceivedDateInRange(n);
    }
  }

  lemma CenturyLeapDay(c: int)
    requires 1 <= c <= 15
    ensures GetDays(Date(100 * c, 2, 29)) == 36525 * c - 306
    ensures ValidDate(Date(100 * c, 2, 29))
  {
    Division.Unique(100 * c - 1, 4, 25 * c - 1, 3);
    Division.Unique(100 * c, 4, 25 * c, 0);
  }

  lemma LeapOfCentury(c: int)
    ensures IsGregorianLeap(100 * c) <==> c % 4 == 0
  {
    Division.Unique(100 * c, 4, 25 * c, 0);
    Division.Unique(100 * c, 100, c, 0);
    Division.Unique(100 * c, 400, c / 4, 100 * (c % 4));
  }

  lemma JulianLeapDayIsCentury(d: Date)
    requires ValidDate(d) && JulianLeapDay(d)
    ensures d == Date(100 * (d.year / 100), 2, 29) && LeapCentury(d.year / 100)
  {
    LeapOfCentury(d.year / 100);
  }

  lemma LeapDayByNumber(n: int, d: Date)
    requires ValidDate(d) && GetDays(d) == n
    ensures JulianLeapDay(d) <==> JulianLeapNumber(n)
  {
    if JulianLeapDay(d) {
      JulianLeapDayIsCentury(d);
      var c := d.year / 100;
      CenturyLeapDay(c);
      Division.Unique(n + 306, 36525, c, 0);
    }
    if JulianLeapNumber(n) {
      var c := (n + 306) / 36525;
      CenturyLeapDay(c);
      LeapOfCentury(c);
      DaysOrderDates(d, Date(100 * c, 2, 29));
    }
  }

  lemma YearByNumber(n: int, d: Date)
    requires ValidDate(d) && GetDays(d) == n
    ensures d.year <= 9999 <==> n <= LAST_NUMBER
  {
    YearBounds(d);
    if d.year <= 9999 {
      YearsInOrder(d.year + 1, 10000);
    } else {
      YearsInOrder(10000, d.year);
    }
  }

  lemma PositiveNumber(n: int)
    requires n >= 1
    ensures DotNetDate(GetDate(n).date) <==> HasDotNetDate(n)
  {
    if 1155 <= n <= 1460 {
      ReceivedInYear4(n);
      Division.Unique(n + 306, 36525, 0, n + 306);
    } else if n != 1461 {
      DaysOfDate(n);
      var d := GetDate(n).date;
      YearByNumber(n, d);
      LeapDayByNumber(n, d);
      ReceivedDateExactly(n);
    }
  }

  lemma LeapDayOfCentury(year: int, d: Date)
    requires 1 <= year <= GREG_YEAR && year % 100 == 0 && year % 400 != 0 && d == Date(year, 2, 29)
    ensures ValidDate(d) && JulianLeapDay(d) && !DotNetDate(d) && !InYear4Window(d)
  {
    var c := year / 100;
    Division.Unique(year, 4, 25 * c, 0);
  }

  // Such leap days are received, as dates of the calendar.
  lemma JulianLeapDayIsReceived(year: int, d: Date)
    requires 1 <= year <= GREG_YEAR && year % 100 == 0 && year % 400 != 0 && d == Date(year, 2, 29)
    ensures ValidDate(d) && GetDate(GetDays(d)) == DatedEra(d, AD) && !DotNetDate(d)
    ensures JulianLeapNumber(GetDays(d))
  {
    LeapDayOfCentury(year, d);
    DateOfDays(d);
    LeapDayByNumber(GetDays(d), d);
  }

  // ---------------------------------------------------------------------------------------
  // Numbers below 1
  // ---------------------------------------------------------------------------------------

  // Days since 1 March 4801 BC, split into March-based years and days.
  lemma MarchSplit(c: int)
    requires c >= 0
    ensures var z := (4 * c + 3) / 1461;
            var e := c - 1461 * z / 4;
            && z >= 0 && 0 <= e <= 365 && c == 365 * z + z / 4 + e
            && (e == 365 <==> c % 1461 == 1460)
            && (e == 365 ==> z % 4 == 3)
  {
    var k, r := c / 1461, c % 1461;
    var s := (4 * r + 3) / 1461;
    assert 0 <= s <= 3;
    Division.Unique(4 * c + 3, 1461, 4 * k + s, 4 * r + 3 - 1461 * s);
    Division.Unique(4 * k + s, 4, k, s);
    Division.Unique(1461 * (4 * k + s), 4, 1461 * k + 365 * s, s);
  }

  // Days since 1 March, split into month and day.
  lemma MonthSplit(e: int, year: int)
    requires 0 <= e <= 365
    ensures var m := (5 * e + 2) / 153;
            var d := Date(year, if m >= 10 then m - 9 else m + 3, e - (153 * m + 2) / 5 + 1);
            && 0 <= m <= 11 && MarchShaped(d)
            && (d.month == 2 && d.day == 29 <==> e == 365)
            && (m >= 10 <==> e >= 306)
  {
  }

  // The date in March-based year z, e days after 1 March; years before AD 1 named as BC.
  ghost function CivilOf(z: int, e: int): Date {
    var m := (5 * e + 2) / 153;
    var year := z - 4800 + (if m >= 10 then 1 else 0);
    Date(if year < 0 then 1 - year else year,
         if m >= 10 then m - 9 else m + 3,
         e - (153 * m + 2) / 5 + 1)
  }

  lemma DateOfFields(n: int, jdn: int, z: int, e: int)
    requires FIRST_JULIAN_NUMBER <= n <= 0 && jdn == n + JDN_OFFSET && z >= 0 && 0 <= e <= 365
    requires z == (4 * (jdn + 32082) + 3) / 1461 && e == jdn + 32082 - 1461 * z / 4
    ensures GetDate(n).date == CivilOf(z, e)
  {
    var m := (5 * e + 2) / 153;
    MonthSplit(e, 0);
    JulianCivil(jdn, z, e, m, e - (153 * m + 2) / 5 + 1);
    JulianBranch(n);
  }

  lemma CivilFields(z: int, e: int, year: int)
    requires 0 <= e <= 365 && (e == 365 ==> z % 4 == 3)
    requires year == z - 4800 + (if e >= 306 then 1 else 0) && -4800 <= year <= 0
    ensures var d := CivilOf(z, e);
            && MarchShaped(d)
            && d.year == (if year < 0 then 1 - year else 0)
            && (d.month == 2 && d.day == 29 <==> e == 365)
            && (e == 365 ==> year % 4 == 0)
  {
    MonthSplit(e, 0);
    if e == 365 {
      Division.Unique(z - 4799, 4, z / 4 - 1199, 0);
    }
  }

  // What GetDate makes of a number below 1, down to 1 March 4801 BC.
  lemma JulianFields(n: int)
    requires FIRST_JULIAN_NUMBER <= n <= 0
    ensures var d := GetDate(n).date;
            && MarchShaped(d)
            && (d.year == 0 <==> n > -DAYS_OF_1_BC)
            && 0 <= d.year <= 4801
            && (d.month == 2 && d.day == 29 <==> (n + 306) % 1461 == 0)
            && (d.month == 2 && d.day == 29 ==> d.year == 0 || d.year % 4 == 1)
  {
    var c := n - FIRST_JULIAN_NUMBER;
    var z := (4 * c + 3) / 1461;
    var e := c - 1461 * z / 4;
    MarchSplit(c);
    DateOfFields(n, n + JDN_OFFSET, z, e);
    YearsBeforeChrist(n, z, e);
    var year := z - 4800 + (if e >= 306 then 1 else 0);
    CivilFields(z, e, year);
    LeapDayBeforeChrist(n, c);
  }

  lemma YearsBeforeChrist(n: int, z: int, e: int)
    requires FIRST_JULIAN_NUMBER <= n <= 0 && z >= 0 && 0 <= e <= 365
    requires n - FIRST_JULIAN_NUMBER == 365 * z + z / 4 + e
    ensures var year := z - 4800 + (if e >= 306 then 1 else 0);
            -4800 <= year <= 0 && (year == 0 <==> n > -DAYS_OF_1_BC)
  {
  }

  lemma LeapDayBeforeChrist(n: int, c: int)
    requires c == n - FIRST_JULIAN_NUMBER
    ensures c % 1461 == 1460 <==> (n + 306) % 1461 == 0
  {
    Division.Shift(n + 306, 1461, 1200);
    Division.Step(c + 1, 1461);
  }

  // The divisions truncate toward zero: further back the day of the month is not even positive.
  lemma FurtherBack(n: int)
    requires n < FIRST_JULIAN_NUMBER
    ensures GetDate(n).date.day <= 0
  {
    var c := n - FIRST_JULIAN_NUMBER;
    var d := Quot(4 * c + 3, 1461);
    var e := c - Quot(1461 * d, 4);
    NegativeYear(c, d);
    NegativeDay(e);
  }

  lemma NegativeYear(c: int, d: int)
    requires c < 0 && d == Quot(4 * c + 3, 1461)
    ensures c - Quot(1461 * d, 4) < 0
  {
  }

  lemma NegativeDay(e: int)
    requires e < 0
    ensures e - Quot(153 * Quot(5 * e + 2, 153) + 2, 5) + 1 <= 0
  {
    var k := (-5 * e - 2) / 153;
    assert Quot(5 * e + 2, 153) == -k;
  }

  lemma NonPositiveNumber(n: int)
    requires n <= 0
    ensures DotNetDate(GetDate(n).date) <==> HasDotNetDate(n)
  {
    if n < FIRST_JULIAN_NUMBER {
      FurtherBack(n);
    } else {
      JulianFields(n);
    }
  }

  // ---------------------------------------------------------------------------------------

  // Every received day number: it makes a date System.DateTime has exactly when the number is in
  // the two ranges above, no Julian leap day, and not in 1 BC.
  lemma ReceivedNumberExactly(n: int)
    ensures DotNetDate(GetDate(n).date) <==> HasDotNetDate(n)
  {
    if n >= 1 {
      PositiveNumber(n);
    } else {
      NonPositiveNumber(n);
    }
  }

  // The first and the last date System.DateTime has are received for one number each.
  lemma EndsOfCalendar(n: int)
    requires HasDotNetDate(n)
    ensures GetDate(n).date == FIRST_DATE <==> n == 1
    ensures GetDate(n).date == LAST_DATE <==> n == LAST_NUMBER
  {
    if n < 1 {
      JulianFields(n);
    } else if 1155 <= n <= 1460 {
      ReceivedInYear4(n);
    } else if n != 1461 {
      DaysOfDate(n);
      EndsOfNumbers(n, GetDate(n).date);
    }
  }

  lemma EndsOfNumbers(n: int, d: Date)
    requires ValidDate(d) && GetDays(d) == n
    ensures d == FIRST_DATE <==> n == 1
    ensures d == LAST_DATE <==> n == LAST_NUMBER
  {
    FirstNumber(FIRST_DATE);
    LastNumber(LAST_DATE, 9998);
    DaysOrderDates(d, FIRST_DATE);
    DaysOrderDates(d, LAST_DATE);
  }

  lemma FirstNumber(d: Date)
    requires d == FIRST_DATE
    ensures ValidDate(d) && GetDays(d) == 1
  {
  }

  lemma LastNumber(d: Date, prevYear: int)
    requires d == LAST_DATE && prevYear == d.year - 1
    ensures ValidDate(d) && GetDays(d) == LAST_NUMBER
  {
    assert prevYear / 4 == 2499 && prevYear / 100 == 99 && prevYear / 400 == 24;
  }
}
