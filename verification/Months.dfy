/**
 Calendar-month arithmetic on civil dates: clamped month shifting and the signed
 whole-month and whole-year counts between two dates.
 */
module Months {
  import opened Wrappers
  import opened Civil

  function Min(a: int, b: int): int {
    if a <= b then a else b
  }

  // Months since January of year 0.
  function MonthIndex(d: Date): int {
    d.year * 12 + d.month - 1
  }

  function YearOf(index: int): int { index / 12 }

  function MonthOf(index: int): (m: int)
    ensures 1 <= m <= 12
  { index % 12 + 1 }

  // Length of the month `index` months after January of year 0.
  function LengthOf(index: int): (n: int)
    ensures 28 <= n <= 31
  { DaysInMonth(YearOf(index), MonthOf(index)) }

  /** chrono's month addition: the day is clamped to the target month's last day. */
  function AddMonths(d: Date, n: int): (r: Date)
    requires d.Valid()
    ensures r.Valid()
  {
    var index := MonthIndex(d) + n;
    Date(YearOf(index), MonthOf(index), Min(d.day, LengthOf(index)))
  }

  /** chrono's `NaiveDate::years_since`: absent when `base` is after `later`. */
  function YearsSince(later: Date, base: Date): Option<int> {
    var early := later.month < base.month || (later.month == base.month && later.day < base.day);
    var years := later.year - base.year - (if early then 1 else 0);
    if years >= 0 then Some(years) else None
  }

  function SignedYearsSince(from: Date, to: Date): int
    requires from.Valid() && to.Valid()
  {
    var (earlier, later, sign) := if from.AtMost(to) then (from, to, 1) else (to, from, -1);
    sign * YearsSince(later, earlier).value
  }

  function SignedMonthsSince(from: Date, to: Date): int
    requires from.Valid() && to.Valid()
  {
    var (earlier, later, sign) := if from.AtMost(to) then (from, to, 1) else (to, from, -1);
    sign * ((later.year - earlier.year) * 12 + later.month - earlier.month
            - (if later.day < earlier.day then 1 else 0))
  }

  // ---------------------------------------------------------------- month indices

  lemma IndexOfParts(index: int)
    ensures YearOf(index) * 12 + MonthOf(index) - 1 == index
  {}

  lemma PartsOfIndex(d: Date)
    requires d.Valid()
    ensures YearOf(MonthIndex(d)) == d.year && MonthOf(MonthIndex(d)) == d.month
    ensures LengthOf(MonthIndex(d)) == DaysInMonth(d.year, d.month)
  {}

  // Dates are ordered by month index, then by day.
  lemma OrderByIndex(a: Date, b: Date)
    requires a.Valid() && b.Valid()
    ensures a.Less(b) <==>
            MonthIndex(a) < MonthIndex(b) || (MonthIndex(a) == MonthIndex(b) && a.day < b.day)
    ensures a == b <==> MonthIndex(a) == MonthIndex(b) && a.day == b.day
  {}

  // ---------------------------------------------------------------- shifting

  /** A shift lands exactly `n` months on, on the same day or on that month's last day. */
  lemma AddMonthsLands(d: Date, n: int)
    requires d.Valid()
    ensures MonthIndex(AddMonths(d, n)) == MonthIndex(d) + n
    ensures AddMonths(d, n).day == Min(d.day, LengthOf(MonthIndex(d) + n))
  {
    IndexOfParts(MonthIndex(d) + n);
  }

  lemma AddMonthsMonotone(a: Date, b: Date, n: int)
    requires a.Valid() && b.Valid() && a.AtMost(b)
    ensures AddMonths(a, n).AtMost(AddMonths(b, n))
  {
    AddMonthsLands(a, n);
    AddMonthsLands(b, n);
    OrderByIndex(a, b);
    OrderByIndex(AddMonths(a, n), AddMonths(b, n));
  }

  /**
   Two shifts in a row land in the month of the combined shift, on a day no
   later; on the same day exactly when the intermediate month was long enough.
   */
  lemma AddMonthsTwice(d: Date, m: int, n: int)
    requires d.Valid()
    ensures var twice := AddMonths(AddMonths(d, m), n);
            var once := AddMonths(d, m + n);
            && MonthIndex(twice) == MonthIndex(once)
            && twice.day <= once.day
            && (twice == once <==> once.day <= LengthOf(MonthIndex(d) + m))
            && (d.day <= 28 ==> twice == once)
  {
    AddMonthsLands(d, m);
    AddMonthsLands(AddMonths(d, m), n);
    AddMonthsLands(d, m + n);
    OrderByIndex(AddMonths(AddMonths(d, m), n), AddMonths(d, m + n));
  }

  // ---------------------------------------------------------------- counting

  lemma MonthsInOrder(from: Date, to: Date)
    requires from.Valid() && to.Valid() && from.AtMost(to)
    ensures SignedMonthsSince(from, to) ==
            MonthIndex(to) - MonthIndex(from) - (if to.day < from.day then 1 else 0)
  {}

  /** Swapping the two dates negates both counts. */
  lemma CountsAreAntisymmetric(from: Date, to: Date)
    requires from.Valid() && to.Valid()
    ensures SignedMonthsSince(to, from) == -SignedMonthsSince(from, to)
    ensures SignedYearsSince(to, from) == -SignedYearsSince(from, to)
  {}

  /**
   The month count brackets `to` between two shifts of `from`. The upper shift
   is reached only when `to` is a month end that clamping produced.
   */
  lemma MonthsBracket(from: Date, to: Date)
    requires from.Valid() && to.Valid() && from.AtMost(to)
    ensures var n := SignedMonthsSince(from, to);
            && 0 <= n
            && AddMonths(from, n).AtMost(to)
            && to.AtMost(AddMonths(from, n + 1))
            && (to == AddMonths(from, n + 1) <==>
                to.day < from.day && to.day == DaysInMonth(to.year, to.month))
  {
    var n := SignedMonthsSince(from, to);
    MonthsInOrder(from, to);
    OrderByIndex(from, to);
    PartsOfIndex(to);
    AddMonthsLands(from, n);
    AddMonthsLands(from, n + 1);
    OrderByIndex(AddMonths(from, n), to);
    OrderByIndex(to, AddMonths(from, n + 1));
  }

  // `from` shifted by `k` months has been reached by `to`; landing on `to` by
  // clamping does not count.
  ghost predicate Reached(from: Date, k: int, to: Date)
    requires from.Valid() && to.Valid()
  {
    var r := AddMonths(from, k);
    r.Less(to) || (r == to && from.day <= to.day)
  }

  /** The month count is the only one whose shift is reached and whose next shift is not. */
  lemma MonthsCountReached(from: Date, to: Date, k: int)
    requires from.Valid() && to.Valid() && from.AtMost(to)
    ensures Reached(from, k, to) && !Reached(from, k + 1, to) <==> k == SignedMonthsSince(from, to)
  {
    MonthsInOrder(from, to);
    PartsOfIndex(to);
    AddMonthsLands(from, k);
    AddMonthsLands(from, k + 1);
    OrderByIndex(AddMonths(from, k), to);
    OrderByIndex(AddMonths(from, k + 1), to);
  }

  // Division by twelve rounding toward zero, as Rust's `/` on i64.
  function TruncDiv(a: int, b: int): int
    requires b > 0
  {
    if a >= 0 then a / b else -(-a / b)
  }

  /** Whole years are whole months divided by twelve, rounded toward zero. */
  lemma YearsAreTwelfthsOfMonths(from: Date, to: Date)
    requires from.Valid() && to.Valid()
    ensures SignedYearsSince(from, to) == TruncDiv(SignedMonthsSince(from, to), 12)
  {
    if from.AtMost(to) {
      YearsInOrder(from, to);
    } else {
      YearsInOrder(to, from);
      CountsAreAntisymmetric(from, to);
    }
  }

  lemma YearsInOrder(from: Date, to: Date)
    requires from.Valid() && to.Valid() && from.AtMost(to)
    ensures SignedYearsSince(from, to) == SignedMonthsSince(from, to) / 12
    ensures 0 <= SignedMonthsSince(from, to)
  {}

  /**
   Counting months back from a shift recovers the shift exactly when it went
   backwards or did not clamp; a clamped forward shift counts one month short.
   */
  lemma MonthsSinceShift(d: Date, n: int)
    requires d.Valid()
    ensures var clamped := LengthOf(MonthIndex(d) + n) < d.day;
            SignedMonthsSince(d, AddMonths(d, n)) == if n > 0 && clamped then n - 1 else n
  {
    var r := AddMonths(d, n);
    AddMonthsLands(d, n);
    PartsOfIndex(d);
    OrderByIndex(d, r);
    if d.AtMost(r) {
      MonthsInOrder(d, r);
    } else {
      MonthsInOrder(r, d);
      CountsAreAntisymmetric(r, d);
    }
  }

  /** The same for years: only 29 February shifted forward to a common year falls short. */
  lemma YearsSinceShift(d: Date, n: int)
    requires d.Valid()
    ensures var leapDay := d.month == 2 && d.day == 29;
            SignedYearsSince(d, AddMonths(d, 12 * n)) ==
            if n > 0 && leapDay && !IsLeapYear(d.year + n) then n - 1 else n
  {
    MonthsSinceShift(d, 12 * n);
    YearsAreTwelfthsOfMonths(d, AddMonths(d, 12 * n));
    PartsOfIndex(d);
    assert YearOf(MonthIndex(d) + 12 * n) == d.year + n;
    assert MonthOf(MonthIndex(d) + 12 * n) == d.month;
    assert TruncDiv(12 * n, 12) == n;
    if n > 0 { assert TruncDiv(12 * n - 1, 12) == n - 1; }
  }

  /** One day past a shift, backward shifts count one short and forward ones are recovered, clamped or not. */
  lemma MonthsSinceNextDay(d: Date, n: int)
    requires d.Valid()
    ensures SignedMonthsSince(d, NextDay(AddMonths(d, n))) == if n < 0 then n + 1 else n
  {
    var r := AddMonths(d, n);
    AddMonthsLands(d, n);
    PartsOfIndex(d);
    PartsOfIndex(r);
    OrderByIndex(d, NextDay(r));
  }

  lemma YearsSinceNextDay(d: Date, n: int)
    requires d.Valid()
    ensures SignedYearsSince(d, NextDay(AddMonths(d, 12 * n))) == if n < 0 then n + 1 else n
  {
    MonthsSinceNextDay(d, 12 * n);
    YearsAreTwelfthsOfMonths(d, NextDay(AddMonths(d, 12 * n)));
    assert n < 0 ==> TruncDiv(12 * n + 1, 12) == n + 1;
    assert n >= 0 ==> TruncDiv(12 * n, 12) == n;
  }
}
