/** Calendar days: the proleptic Gregorian calendar of Python's date, day numbers as its ordinals. */
module Calendar {
  import opened Common

  datatype Date = Date(y: int, m: int, d: int)

  predicate Leap(y: int) { y % 4 == 0 && (y % 100 != 0 || y % 400 == 0) }

  function MonthDays(y: int, m: int): int {
    if m == 2 then (if Leap(y) then 29 else 28)
    else if m == 4 || m == 6 || m == 9 || m == 11 then 30
    else 31
  }

  predicate Valid(a: Date) {
    a.y >= 1 && 1 <= a.m <= 12 && 1 <= a.d <= MonthDays(a.y, a.m)
  }

  /** The following day, by the rules of the calendar. */
  function Next(a: Date): Date {
    if a.d < MonthDays(a.y, a.m) then Date(a.y, a.m, a.d + 1)
    else if a.m < 12 then Date(a.y, a.m + 1, 1)
    else Date(a.y + 1, 1, 1)
  }

  /** Day n counted from 1 January of year 1, which is day 1. */
  function DateOf(n: nat): (a: Date)
    requires n >= 1
    ensures Valid(a)
  {
    if n == 1 then Date(1, 1, 1) else Next(DateOf(n - 1))
  }

  // ---------------------------------------------------------------- the closed formula

  /** Days in the years before y. */
  function YearStart(y: int): int { 365 * (y - 1) + (y - 1) / 4 - (y - 1) / 100 + (y - 1) / 400 }

  /** Days in the months of year y before month m. */
  function MonthStart(y: int, m: int): int {
    if m <= 1 then 0 else MonthStart(y, m - 1) + MonthDays(y, m - 1)
  }

  /** date.toordinal. */
  function Ordinal(a: Date): int { YearStart(a.y) + MonthStart(a.y, a.m) + a.d }

  lemma Quotients(y: int)
    requires y >= 1
    ensures y / 4 == (y - 1) / 4 + if y % 4 == 0 then 1 else 0
    ensures y / 100 == (y - 1) / 100 + if y % 100 == 0 then 1 else 0
    ensures y / 400 == (y - 1) / 400 + if y % 400 == 0 then 1 else 0
  {
  }

  lemma Divides(y: int)
    ensures y % 400 == 0 ==> y % 100 == 0
    ensures y % 100 == 0 ==> y % 4 == 0
  {
  }

  lemma MonthsOfYear(y: int)
    ensures MonthStart(y, 12) + 31 == (if Leap(y) then 366 else 365)
  {
    assert MonthStart(y, 12) == MonthStart(y, 10) + 61;
    assert MonthStart(y, 10) == MonthStart(y, 8) + 61;
    assert MonthStart(y, 8) == MonthStart(y, 6) + 61;
    assert MonthStart(y, 6) == MonthStart(y, 4) + 61;
    assert MonthStart(y, 4) == MonthStart(y, 2) + MonthDays(y, 2) + 31;
  }

  lemma YearLength(y: int)
    requires y >= 1
    ensures YearStart(y + 1) == YearStart(y) + (if Leap(y) then 366 else 365)
    ensures MonthStart(y, 12) + 31 == (if Leap(y) then 366 else 365)
  {
    Quotients(y);
    Divides(y);
    MonthsOfYear(y);
  }

  /** Where each month starts, counted in days of the year. */
  lemma MonthStartsListed(y: int)
    ensures var leap := if Leap(y) then 1 else 0;
      && MonthStart(y, 1) == 0 && MonthStart(y, 2) == 31 && MonthStart(y, 3) == 59 + leap
      && MonthStart(y, 4) == 90 + leap && MonthStart(y, 5) == 120 + leap && MonthStart(y, 6) == 151 + leap
      && MonthStart(y, 7) == 181 + leap && MonthStart(y, 8) == 212 + leap && MonthStart(y, 9) == 243 + leap
      && MonthStart(y, 10) == 273 + leap && MonthStart(y, 11) == 304 + leap && MonthStart(y, 12) == 334 + leap
  {
    assert MonthStart(y, 4) == MonthStart(y, 2) + MonthDays(y, 2) + 31;
    assert MonthStart(y, 6) == MonthStart(y, 4) + 61;
    assert MonthStart(y, 8) == MonthStart(y, 6) + 61;
    assert MonthStart(y, 10) == MonthStart(y, 8) + 61;
    assert MonthStart(y, 12) == MonthStart(y, 10) + 61;
  }

  /** The formula agrees with the calendar's own successor. */
  lemma OrdinalNext(a: Date)
    requires Valid(a)
    ensures Ordinal(Next(a)) == Ordinal(a) + 1
  {
    YearLength(a.y);
  }

  lemma {:induction false} OrdinalOfDateOf(n: nat)
    requires n >= 1
    ensures Ordinal(DateOf(n)) == n
  {
    if n > 1 {
      OrdinalOfDateOf(n - 1);
      OrdinalNext(DateOf(n - 1));
    }
  }

  predicate Before(a: Date, b: Date) {
    a.y < b.y || (a.y == b.y && (a.m < b.m || (a.m == b.m && a.d < b.d)))
  }

  lemma {:induction false} YearsGrow(y: int, z: int)
    requires 1 <= y <= z
    ensures YearStart(y) <= YearStart(z)
    decreases z - y
  {
    if y < z {
      YearsGrow(y, z - 1);
      YearLength(z - 1);
    }
  }

  lemma {:induction false} MonthsGrow(y: int, m: int, n: int)
    requires 1 <= m < n <= 12
    ensures MonthStart(y, m) + MonthDays(y, m) <= MonthStart(y, n)
    decreases n - m
  {
    if m < n - 1 { MonthsGrow(y, m, n - 1); }
  }

  /** Comparing dates field by field is comparing their ordinals. */
  lemma OrderIsOrdinal(a: Date, b: Date)
    requires Valid(a) && Valid(b)
    ensures Before(a, b) <==> Ordinal(a) < Ordinal(b)
    ensures a == b <==> Ordinal(a) == Ordinal(b)
  {
    OneWay(a, b);
    OneWay(b, a);
  }

  lemma OneWay(a: Date, b: Date)
    requires Valid(a) && Valid(b)
    ensures Before(a, b) ==> Ordinal(a) < Ordinal(b)
  {
    if a.y < b.y {
      YearLength(a.y);
      YearsGrow(a.y + 1, b.y);
      if a.m < 12 { MonthsGrow(a.y, a.m, 12); }
      if b.m > 1 { MonthsGrow(b.y, 1, b.m); }
    } else if a.y == b.y && a.m < b.m {
      MonthsGrow(a.y, a.m, b.m);
    }
  }

  lemma DateOfOrdinal(a: Date)
    requires Valid(a)
    ensures Ordinal(a) >= 1 && DateOf(Ordinal(a)) == a
  {
    YearsGrow(1, a.y);
    if a.m > 1 { MonthsGrow(a.y, 1, a.m); }
    OrdinalOfDateOf(Ordinal(a));
    OrderIsOrdinal(a, DateOf(Ordinal(a)));
  }

  // ---------------------------------------------------------------- instants

  /** Days are numbered as date.toordinal does. */
  type Day = int

  /** The number of 1 January 1970, on which instant 0 falls. */
  const EPOCH_DAY: Day := 719_163

  /** t.date(), in UTC. */
  function DayOf(t: Time): Day { t / DAY + EPOCH_DAY }

  /** Midnight of a day. */
  function DayStart(day: Day): Time { (day - EPOCH_DAY) * DAY }

  /** Instant 0 is midnight of 1 January 1970, by the calendar's own numbering. */
  lemma EpochIs1970()
    ensures DayStart(Ordinal(Date(1970, 1, 1))) == 0 && DayOf(0) == Ordinal(Date(1970, 1, 1))
  {
    assert MonthStart(1970, 1) == 0;
  }

  /** A day Python's date can hold. */
  predicate IsDay(day: Day) {
    day >= 1 && DateOf(day).y <= 9999
  }

  /** A day whose year strftime's %Y prints with four digits: it does not pad. */
  predicate FourDigitYear(day: Day) {
    IsDay(day) && 1000 <= DateOf(day).y
  }
}
