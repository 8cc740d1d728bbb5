/**
 The proleptic Gregorian calendar behind chrono's `NaiveDate`: month lengths and
 leap years as in section 5.7 and Appendix C of RFC 3339, a day number per date,
 and the representable range of dates.
 */
module Civil {

  // chrono's `NaiveDate::MIN` and `NaiveDate::MAX` years.
  const MIN_YEAR := -262143
  const MAX_YEAR := 262142

  // Day number of 1970-01-01 counted from 0001-01-01.
  const EPOCH_SHIFT := 719162

  predicate IsLeapYear(year: int) {
    year % 4 == 0 && (year % 100 != 0 || year % 400 == 0)
  }

  function DaysInMonth(year: int, month: int): (n: int)
    requires 1 <= month <= 12
    ensures 28 <= n <= 31
  {
    if month == 2 then (if IsLeapYear(year) then 29 else 28)
    else if month in {4, 6, 9, 11} then 30
    else 31
  }

  datatype Date = Date(year: int, month: int, day: int) {
    predicate Valid() {
      1 <= month <= 12 && 1 <= day <= DaysInMonth(year, month)
    }

    predicate InRange() {
      MIN_YEAR <= year <= MAX_YEAR
    }

    // The order of chrono's `NaiveDate`: year, then month, then day.
    predicate Less(other: Date) {
      || year < other.year
      || (year == other.year && month < other.month)
      || (year == other.year && month == other.month && day < other.day)
    }

    predicate AtMost(other: Date) {
      this == other || Less(other)
    }
  }

  // ---------------------------------------------------------------- day numbers

  function DaysBeforeYear(year: int): int {
    var y := year - 1;
    365 * y + y / 4 - y / 100 + y / 400
  }

  function DaysBeforeMonth(year: int, month: int): int
    requires 1 <= month <= 12
  {
    var leap := if IsLeapYear(year) then 1 else 0;
    if month == 1 then 0
    else if month == 2 then 31
    else leap + (
           if month == 3 then 59 else if month == 4 then 90
           else if month == 5 then 120 else if month == 6 then 151
           else if month == 7 then 181 else if month == 8 then 212
           else if month == 9 then 243 else if month == 10 then 273
           else if month == 11 then 304 else 334)
  }

  /** Days from 1970-01-01 to `d`, negative before it. */
  function DayNumber(d: Date): int
    requires d.Valid()
  {
    DaysBeforeYear(d.year) + DaysBeforeMonth(d.year, d.month) + d.day - 1 - EPOCH_SHIFT
  }

  function NextDay(d: Date): (r: Date)
    requires d.Valid()
    ensures r.Valid()
  {
    if d.day < DaysInMonth(d.year, d.month) then d.(day := d.day + 1)
    else if d.month < 12 then Date(d.year, d.month + 1, 1)
    else Date(d.year + 1, 1, 1)
  }

  function PreviousDay(d: Date): (r: Date)
    requires d.Valid()
    ensures r.Valid()
  {
    if d.day > 1 then d.(day := d.day - 1)
    else if d.month > 1 then Date(d.year, d.month - 1, DaysInMonth(d.year, d.month - 1))
    else Date(d.year - 1, 12, 31)
  }

  lemma QuotientStep(n: int, k: int)
    requires k in {4, 100, 400}
    ensures n / k == (n - 1) / k + (if n % k == 0 then 1 else 0)
  {}

  lemma CenturiesAreMultiplesOfFour(n: int)
    ensures n % 400 == 0 ==> n % 100 == 0
    ensures n % 100 == 0 ==> n % 4 == 0
  {}

  lemma YearLength(year: int)
    ensures DaysBeforeYear(year + 1) ==
            DaysBeforeYear(year) + (if IsLeapYear(year) then 366 else 365)
  {
    QuotientStep(year, 4);
    QuotientStep(year, 100);
    QuotientStep(year, 400);
    CenturiesAreMultiplesOfFour(year);
  }

  lemma MonthLength(year: int, month: int)
    requires 1 <= month < 12
    ensures DaysBeforeMonth(year, month + 1) ==
            DaysBeforeMonth(year, month) + DaysInMonth(year, month)
  {}

  lemma NextDayNumber(d: Date)
    requires d.Valid()
    ensures DayNumber(NextDay(d)) == DayNumber(d) + 1
  {
    YearLength(d.year);
    if d.month < 12 { MonthLength(d.year, d.month); }
  }

  lemma PreviousDayNumber(d: Date)
    requires d.Valid()
    ensures DayNumber(PreviousDay(d)) == DayNumber(d) - 1
  {
    YearLength(d.year - 1);
    if d.month > 1 { MonthLength(d.year, d.month - 1); }
  }

  /** The date whose day number is `n`; every integer is one. */
  function DateOf(n: int): (d: Date)
    ensures d.Valid() && DayNumber(d) == n
    decreases if n < 0 then -n else n
  {
    if n == 0 then
      Date(1970, 1, 1)
    else if n > 0 then
      var p := DateOf(n - 1);
      NextDayNumber(p);
      NextDay(p)
    else
      var p := DateOf(n + 1);
      PreviousDayNumber(p);
      PreviousDay(p)
  }

  // ---------------------------------------------------------------- order

  lemma {:induction false} YearsGrow(a: int, b: int)
    requires a < b
    ensures DaysBeforeYear(a) + 365 <= DaysBeforeYear(b)
    ensures IsLeapYear(a) ==> DaysBeforeYear(a) + 366 <= DaysBeforeYear(b)
    decreases b - a
  {
    if a + 1 < b { YearsGrow(a, b - 1); }
    YearLength(b - 1);
  }

  lemma {:induction false} MonthsGrow(year: int, a: int, b: int)
    requires 1 <= a < b <= 12
    ensures DaysBeforeMonth(year, a) + DaysInMonth(year, a) <= DaysBeforeMonth(year, b)
  {}

  /** Day numbers order dates exactly as year, month, day do. */
  lemma DayNumberOrder(a: Date, b: Date)
    requires a.Valid() && b.Valid()
    ensures a.Less(b) <==> DayNumber(a) < DayNumber(b)
    ensures a == b <==> DayNumber(a) == DayNumber(b)
  {
    if a.Less(b) {
      LessGrows(a, b);
    } else if b.Less(a) {
      LessGrows(b, a);
    }
  }

  lemma LessGrows(a: Date, b: Date)
    requires a.Valid() && b.Valid() && a.Less(b)
    ensures DayNumber(a) < DayNumber(b)
  {
    if a.year < b.year {
      YearsGrow(a.year, b.year);
      DayOfYear(a);
      DayOfYear(b);
    } else if a.month < b.month {
      MonthsGrow(a.year, a.month, b.month);
    }
  }

  lemma DayOfYear(d: Date)
    requires d.Valid()
    ensures 1 <= DaysBeforeMonth(d.year, d.month) + d.day
                 <= (if IsLeapYear(d.year) then 366 else 365)
  {}

  /** Converting a date to its day number and back is the identity. */
  lemma DateOfDayNumber(d: Date)
    requires d.Valid()
    ensures DateOf(DayNumber(d)) == d
  {
    DayNumberOrder(DateOf(DayNumber(d)), d);
  }

  /** The Gregorian cycle: 400 years of 146097 days, with a leap day in 97 of them. */
  lemma GregorianCycle(year: int)
    ensures DaysBeforeYear(year + 400) == DaysBeforeYear(year) + 146_097
    ensures DayNumber(Date(1970, 1, 1)) == 0
    ensures IsLeapYear(year) <==> year % 4 == 0 && (year % 100 == 0 ==> year % 400 == 0)
  {}
}
