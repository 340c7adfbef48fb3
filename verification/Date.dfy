/** Julian days and proleptic Gregorian dates. Lua's floor(x / y) is Dafny's division, the divisors being positive. */
module Date {
  datatype Date = Date(year: int, month: int, day: int)

  function ToJulianDay(date: Date): int {
    var a := (14 - date.month) / 12;
    var y := date.year + 4800 - a;
    var m := date.month + 12 * a - 3;
    date.day + (153 * m + 2) / 5 + y * 365 + y / 4 - y / 100 + y / 400 - 32045
  }

  function FromJulianDay(jd: int): Date {
    var a := jd + 32044;
    var b := (4 * a + 3) / 146097;
    var c := a - b * 146097 / 4;
    var d := (4 * c + 3) / 1461;
    var e := c - 1461 * d / 4;
    var m := (5 * e + 2) / 153;
    Date(b * 100 + d - 4800 + m / 10, m + 3 - 12 * (m / 10), e - (153 * m + 2) / 5 + 1)
  }

  function DayOfWeek(date: Date): int {
    var a := (14 - date.month) / 12;
    var y := date.year - a;
    var m := date.month + 12 * a - 2;
    (date.day + y + y / 4 - y / 100 + y / 400 + 31 * m / 12) % 7 + 1
  }

  function DaysInMonth(year: int, month: int): int
    requires 1 <= month <= 12
  {
    if month == 2 then
      if year % 400 == 0 then 29
      else if year % 100 == 0 then 28
      else if year % 4 == 0 then 29
      else 28
    else
      [31, 0, 31, 30, 31, 30, 31, 31, 30, 31, 30, 31][month - 1]
  }

  predicate Valid(date: Date) {
    1 <= date.month <= 12 && 1 <= date.day <= DaysInMonth(date.year, date.month)
  }

  predicate Before(x: Date, y: Date) {
    x.year < y.year || (x.year == y.year && (x.month < y.month || (x.month == y.month && x.day < y.day)))
  }

  function FirstOfNextMonth(year: int, month: int): Date {
    if month == 12 then Date(year + 1, 1, 1) else Date(year, month + 1, 1)
  }

  // ---------- Years that begin in March ----------

  /** Days before the March-year y. */
  function YearStart(y: int): int {
    y * 365 + y / 4 - y / 100 + y / 400
  }

  /** Days before month m of a March-year; March is 0. */
  function MonthStart(m: int): int {
    (153 * m + 2) / 5
  }

  function MarchYear(date: Date): int {
    if date.month <= 2 then date.year + 4799 else date.year + 4800
  }

  function MarchMonth(date: Date): int {
    if date.month <= 2 then date.month + 9 else date.month - 3
  }

  lemma InMarchYears(date: Date)
    requires 1 <= date.month <= 12
    ensures ToJulianDay(date) == date.day + MonthStart(MarchMonth(date)) + YearStart(MarchYear(date)) - 32045
    ensures 0 <= MarchMonth(date) < 12
  {
    assert (14 - date.month) / 12 == if date.month <= 2 then 1 else 0;
  }

  predicate IsLeap(year: int) {
    year % 4 == 0 && (year % 100 == 0 ==> year % 400 == 0)
  }

  lemma Leap(year: int)
    ensures DaysInMonth(year, 2) == if IsLeap(year) then 29 else 28
    ensures IsLeap(year + 4800) == IsLeap(year)
  {
    MultiplesNest(year);
    SameFours(year);
    SameHundreds(year);
    SameFourHundreds(year);
  }

  lemma SameFours(year: int)
    ensures (year + 4800) % 4 == year % 4
  {
  }

  lemma SameHundreds(year: int)
    ensures (year + 4800) % 100 == year % 100
  {
  }

  lemma SameFourHundreds(year: int)
    ensures (year + 4800) % 400 == year % 400
  {
  }

  /** A March-year ends with the February of the next year, and is longer when that is leap. */
  lemma YearLength(y: int)
    ensures YearStart(y + 1) - YearStart(y) == if IsLeap(y + 1) then 366 else 365
  {
    QuotientStep(y);
    MultiplesNest(y + 1);
  }

  lemma MultiplesNest(n: int)
    ensures n % 400 == 0 ==> n % 100 == 0
    ensures n % 100 == 0 ==> n % 4 == 0
  {
  }

  lemma QuotientStep(y: int)
    ensures (y + 1) / 4 - y / 4 == if (y + 1) % 4 == 0 then 1 else 0
    ensures (y + 1) / 100 - y / 100 == if (y + 1) % 100 == 0 then 1 else 0
    ensures (y + 1) / 400 - y / 400 == if (y + 1) % 400 == 0 then 1 else 0
  {
  }

  lemma MonthEnds(date: Date)
    requires Valid(date)
    ensures var m := MarchMonth(date);
            if m == 11 then date.day + MonthStart(11) <= YearStart(MarchYear(date) + 1) - YearStart(MarchYear(date))
            else date.day + MonthStart(m) <= MonthStart(m + 1)
  {
    if date.month == 2 {
      Leap(date.year);
      YearLength(date.year + 4799);
    }
  }

  /** The length of a month is the distance between two firsts. */
  lemma MonthLengths(year: int, month: int)
    requires 1 <= month <= 12
    ensures ToJulianDay(FirstOfNextMonth(year, month)) - ToJulianDay(Date(year, month, 1)) == DaysInMonth(year, month)
  {
    hide ToJulianDay, YearStart, IsLeap;
    InMarchYears(Date(year, month, 1));
    InMarchYears(FirstOfNextMonth(year, month));
    if month == 2 {
      Leap(year);
      YearLength(year + 4799);
    }
  }

  /** Day e of March-year 100 b + d, taken apart the way FromJulianDay does it. */
  lemma YearTakenApart(b: int, d: int, e: int)
    requires 0 <= d < 100 && 0 <= e < YearStart(100 * b + d + 1) - YearStart(100 * b + d)
    ensures var a := YearStart(100 * b + d) + e;
            && (4 * a + 3) / 146097 == b
            && a - b * 146097 / 4 == 1461 * d / 4 + e
            && (4 * (1461 * d / 4 + e) + 3) / 1461 == d
  {
    var k, r, h, t := b / 4, b % 4, d / 4, d % 4;
    YearLength(100 * b + d);
    YearStartSplit(b, d);
    assert b * 146097 / 4 == 36524 * b + k && 1461 * d / 4 == 365 * d + h;
    if e == 365 {
      LeapSplit(b, d);
    }
    var c := 365 * d + h + e;
    assert 0 <= 4 * c + 3 - r < 146097;
    assert 4 * (YearStart(100 * b + d) + e) + 3 == 146097 * b + (4 * c + 3 - r);
    assert 4 * c + 3 == 1461 * d + (4 * e + 3 - t);
  }

  lemma YearStartSplit(b: int, d: int)
    requires 0 <= d < 100
    ensures YearStart(100 * b + d) == 36524 * b + b / 4 + 365 * d + d / 4
  {
    var y := 100 * b + d;
    assert y / 100 == b;
    assert y / 400 == b / 4;
    assert y / 4 == 25 * b + d / 4;
  }

  lemma LeapSplit(b: int, d: int)
    requires 0 <= d < 100 && IsLeap(100 * b + d + 1)
    ensures d % 4 == 3 && (d == 99 ==> b % 4 == 3)
  {
    var y := 100 * b + d + 1;
    assert y % 4 == (d + 1) % 4;
    if d == 99 {
      assert y == 100 * (b + 1);
      assert (b + 1) % 4 == 0;
    }
  }

  lemma MonthTakenApart(m: int, k: int)
    requires 0 <= m < 12 && 0 <= k && (if m == 11 then k < 30 else MonthStart(m) + k < MonthStart(m + 1))
    ensures (5 * (MonthStart(m) + k) + 2) / 153 == m
  {
  }

  /** Any day number is day e of some March-year 100 b + d. */
  lemma DayTakenApart(a: int) returns (b: int, d: int, e: int)
    ensures b == (4 * a + 3) / 146097 && d == (4 * (a - b * 146097 / 4) + 3) / 1461
    ensures e == a - b * 146097 / 4 - 1461 * d / 4
    ensures 0 <= d < 100 && 0 <= e < YearStart(100 * b + d + 1) - YearStart(100 * b + d)
    ensures a == YearStart(100 * b + d) + e
  {
    b := (4 * a + 3) / 146097;
    var k, r := b / 4, b % 4;
    assert b * 146097 / 4 == 36524 * b + k;
    var c := a - b * 146097 / 4;
    assert 0 <= 4 * c + 3 - r < 146097;
    d := (4 * c + 3) / 1461;
    var h, t := d / 4, d % 4;
    assert 1461 * d / 4 == 365 * d + h;
    e := c - 1461 * d / 4;
    assert 0 <= 4 * e + 3 - t < 1461;
    YearStartSplit(b, d);
    YearLength(100 * b + d);
    if e == 365 {
      LeapJoin(b, d);
    }
  }

  lemma LeapJoin(b: int, d: int)
    requires 0 <= d < 100 && d % 4 == 3 && (d == 99 ==> b % 4 == 3)
    ensures IsLeap(100 * b + d + 1)
  {
    var y := 100 * b + d + 1;
    assert y % 4 == (d + 1) % 4;
    if d == 99 {
      assert y == 400 * ((b + 1) / 4);
    } else {
      assert y % 100 == d + 1;
    }
  }

  lemma MonthOfDay(e: int)
    requires 0 <= e <= 365
    ensures var m := (5 * e + 2) / 153; 0 <= m < 12 && MonthStart(m) <= e && (m < 11 ==> e < MonthStart(m + 1))
  {
  }

  /** The date of day e of a March-year, as FromJulianDay writes it. */
  function DateOf(y: int, e: int): Date {
    var m := (5 * e + 2) / 153;
    Date(y - 4800 + m / 10, m + 3 - 12 * (m / 10), e - MonthStart(m) + 1)
  }

  lemma DateOfIsValid(y: int, e: int)
    requires 0 <= e < YearStart(y + 1) - YearStart(y)
    ensures var date := DateOf(y, e);
            Valid(date) && MarchYear(date) == y && MonthStart(MarchMonth(date)) + date.day - 1 == e
  {
    hide YearStart, IsLeap;
    YearLength(y);
    MonthOfDay(e);
    Leap(y - 4799);
  }

  lemma FromTakenApart(b: int, d: int, e: int)
    requires 0 <= d < 100 && 0 <= e < YearStart(100 * b + d + 1) - YearStart(100 * b + d)
    ensures FromJulianDay(YearStart(100 * b + d) + e - 32044) == DateOf(100 * b + d, e)
  {
    hide YearStart;
    YearTakenApart(b, d, e);
  }

  lemma DateOfDay(date: Date)
    requires Valid(date)
    ensures var y, e := MarchYear(date), MonthStart(MarchMonth(date)) + date.day - 1;
            0 <= e < YearStart(y + 1) - YearStart(y) && DateOf(y, e) == date
  {
    hide YearStart, IsLeap, DaysInMonth;
    MonthEnds(date);
    YearLength(MarchYear(date));
    MonthTakenApart(MarchMonth(date), date.day - 1);
  }

  /** Dates come back from their Julian days. */
  lemma DateReadsBack(date: Date)
    requires Valid(date)
    ensures FromJulianDay(ToJulianDay(date)) == date
  {
    hide ToJulianDay, FromJulianDay, YearStart, IsLeap, DaysInMonth, MarchYear, MarchMonth;
    InMarchYears(date);
    DateOfDay(date);
    var y, e := MarchYear(date), MonthStart(MarchMonth(date)) + date.day - 1;
    assert y == 100 * (y / 100) + y % 100;
    FromTakenApart(y / 100, y % 100, e);
  }

  lemma MonthInRange(date: Date)
    requires Valid(date)
    ensures 1 <= date.month <= 12
  {
  }

  /** Every integer is the Julian day of a valid date, the one FromJulianDay gives. */
  lemma JulianDayReadsBack(jd: int)
    ensures Valid(FromJulianDay(jd)) && ToJulianDay(FromJulianDay(jd)) == jd
  {
    hide ToJulianDay, FromJulianDay, YearStart, IsLeap, DaysInMonth, Valid, DateOf, MarchYear, MarchMonth, MonthStart;
    var b, d, e := DayTakenApart(jd + 32044);
    DateOfIsValid(100 * b + d, e);
    FromTakenApart(b, d, e);
    MonthInRange(FromJulianDay(jd));
    InMarchYears(FromJulianDay(jd));
  }

  lemma {:induction false} YearsInOrder(x: int, y: int)
    requires x < y
    ensures YearStart(x + 1) <= YearStart(y)
    decreases y - x
  {
    hide YearStart, IsLeap;
    if x + 1 < y {
      YearLength(y - 1);
      YearsInOrder(x, y - 1);
    }
  }

  lemma EarlierHasSmallerDay(x: Date, y: Date)
    requires Valid(x) && Valid(y) && Before(x, y)
    ensures ToJulianDay(x) < ToJulianDay(y)
  {
    hide ToJulianDay, YearStart, IsLeap, DaysInMonth;
    InMarchYears(x);
    InMarchYears(y);
    MonthEnds(x);
    if MarchYear(x) < MarchYear(y) {
      YearsInOrder(MarchYear(x), MarchYear(y));
      YearLength(MarchYear(x));
    }
  }

  /** Julian days are in the order of the dates. */
  lemma OrderKept(x: Date, y: Date)
    requires Valid(x) && Valid(y)
    ensures Before(x, y) <==> ToJulianDay(x) < ToJulianDay(y)
  {
    hide ToJulianDay, Valid;
    if Before(x, y) {
      EarlierHasSmallerDay(x, y);
    } else if Before(y, x) {
      EarlierHasSmallerDay(y, x);
    } else {
      assert x == y;
    }
  }

  lemma SameRemainder(x: int, k: int)
    ensures (x + 7 * k) % 7 == x % 7
  {
  }

  lemma Shifted(y: int)
    ensures YearStart(y + 4800) == YearStart(y) + 1753164
  {
    assert (y + 4800) / 4 == y / 4 + 1200;
    assert (y + 4800) / 100 == y / 100 + 48;
    assert (y + 4800) / 400 == y / 400 + 12;
  }

  lemma WeekMonths(m: int)
    requires 0 <= m < 12
    ensures 31 * (m + 1) / 12 + 28 * m == MonthStart(m) + 2
  {
  }

  /** The day of the week goes round with the Julian day. */
  lemma WeekFollowsJulianDay(date: Date)
    requires 1 <= date.month <= 12
    ensures DayOfWeek(date) == (ToJulianDay(date) + 1) % 7 + 1
  {
    hide ToJulianDay;
    var y, m := MarchYear(date) - 4800, MarchMonth(date);
    InMarchYears(date);
    Shifted(y);
    WeekMonths(m);
    assert (14 - date.month) / 12 == if date.month <= 2 then 1 else 0;
    var leaps := y / 4 - y / 100 + y / 400;
    var n := date.day + y + leaps + 31 * (m + 1) / 12;
    assert YearStart(y) == 365 * y + leaps;
    assert DayOfWeek(date) == n % 7 + 1;
    SameRemainder(n, 52 * y + 245874 + 4 * m);
  }
}
