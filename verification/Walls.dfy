/**
 chrono's `NaiveDateTime` as a count of nanoseconds since midnight of 1970-01-01
 on its own clock, and the civil shifts of wall clocks in `src/date.rs`.
 */
module Walls {
  import opened Wrappers
  import opened Civil
  import opened Months
  import opened Floats
  import opened DurationUnits
  import opened TimeDeltas

  const NANOS_PER_MILLI := 1_000_000
  const NANOS_PER_HOUR := 3_600 * NANOS_PER_SECOND
  const NANOS_PER_DAY := 86_400 * NANOS_PER_SECOND

  // Day numbers of the first and the last representable date (see `RangeOfDates`).
  const MIN_DAY := -96_465_292
  const MAX_DAY := 95_026_236

  const MIN_STAMP := MIN_DAY * NANOS_PER_DAY
  const MAX_STAMP := MAX_DAY * NANOS_PER_DAY + NANOS_PER_DAY - 1

  type Stamp = s: int | MIN_STAMP <= s <= MAX_STAMP

  datatype DateError = OutOfRange | LocalZoneLookup

  // ---------------------------------------------------------------- dates of stamps

  function DateAt(s: int): (d: Date)
    ensures d.Valid()
  {
    DateOf(s / NANOS_PER_DAY)
  }

  function TimeAt(s: int): (t: int)
    ensures 0 <= t < NANOS_PER_DAY
  {
    s % NANOS_PER_DAY
  }

  function AtTime(d: Date, time: int): int
    requires d.Valid()
  {
    DayNumber(d) * NANOS_PER_DAY + time
  }

  function Midnight(d: Date): int
    requires d.Valid()
  {
    AtTime(d, 0)
  }

  lemma SplitStamp(s: int)
    ensures AtTime(DateAt(s), TimeAt(s)) == s
  {}

  lemma JoinStamp(d: Date, time: int)
    requires d.Valid() && 0 <= time < NANOS_PER_DAY
    ensures DateAt(AtTime(d, time)) == d && TimeAt(AtTime(d, time)) == time
  {
    assert AtTime(d, time) / NANOS_PER_DAY == DayNumber(d);
    DateOfDayNumber(d);
  }

  lemma EdgeDates()
    ensures DayNumber(Date(MIN_YEAR, 1, 1)) == MIN_DAY
    ensures DayNumber(Date(MAX_YEAR, 12, 31)) == MAX_DAY
  {}

  lemma RangeOfDays(d: Date)
    requires d.Valid()
    ensures MIN_DAY <= DayNumber(d) <= MAX_DAY <==> d.InRange()
  {
    var first, last := Date(MIN_YEAR, 1, 1), Date(MAX_YEAR, 12, 31);
    EdgeDates();
    DayNumberOrder(d, first);
    DayNumberOrder(last, d);
  }

  lemma RangeOfStamps(s: int)
    ensures MIN_STAMP <= s <= MAX_STAMP <==> MIN_DAY <= s / NANOS_PER_DAY <= MAX_DAY
  {}

  /** A stamp is representable exactly when its date is. */
  lemma RangeOfDates(s: int)
    ensures MIN_STAMP <= s <= MAX_STAMP <==> DateAt(s).InRange()
  {
    RangeOfStamps(s);
    RangeOfDays(DateAt(s));
  }

  // ---------------------------------------------------------------- checked steps

  /** chrono's checked additions: absent outside the representable range. */
  function CheckedAdd(s: Stamp, nanos: int): Option<Stamp> {
    var r := s + nanos;
    if MIN_STAMP <= r <= MAX_STAMP then Some(r) else None
  }

  function OrOutOfRange(s: Option<Stamp>): Result<Stamp, DateError> {
    match s
    case Some(r) => Ok(r)
    case None => Err(OutOfRange)
  }

  function CheckedMul(a: int, b: int): Option<int> {
    if IsI64(a * b) then Some(a * b) else None
  }

  function CheckedAddDays(s: Stamp, days: int): Option<Stamp> {
    CheckedAdd(s, days * NANOS_PER_DAY)
  }

  const U32_MAX := 0xffff_ffff

  /** `shift_months`: clamped months on the date, the time of day kept. */
  function ShiftMonths(wall: Stamp, months: int): Result<Stamp, DateError> {
    if months > U32_MAX || months < -U32_MAX then
      Err(OutOfRange)
    else
      var d := AddMonths(DateAt(wall), months);
      var r := AtTime(d, TimeAt(wall));
      if !d.InRange() then
        Err(OutOfRange)
      else
        JoinStamp(d, TimeAt(wall));
        RangeOfDates(r);
        Ok(r)
  }

  // The number of nanoseconds in `n` of a sub-day unit, when `i64` holds the
  // number of seconds (or milliseconds) it is computed through.
  function SubDayNanos(n: int, unit: DurationUnit): Option<int>
    requires !IsCalendar(unit)
  {
    match FixedSecondsI64(unit)
    case None => Some(n * NANOS_PER_MILLI)
    case Some(secs) =>
      match CheckedMul(secs, n)
      case None => None
      case Some(total) => Some(total * NANOS_PER_SECOND)
  }

  /** `shift_wall`: every unit on the civil wall clock, no zone consulted. */
  function ShiftWall(wall: Stamp, n: int, unit: DurationUnit): Result<Stamp, DateError> {
    match unit
    case Year =>
      (match CheckedMul(n, 12)
       case None => Err(OutOfRange)
       case Some(months) => ShiftMonths(wall, months))
    case Month => ShiftMonths(wall, n)
    case Week =>
      (match CheckedMul(n, 7)
       case None => Err(OutOfRange)
       case Some(days) => OrOutOfRange(CheckedAddDays(wall, days)))
    case Day => OrOutOfRange(CheckedAddDays(wall, n))
    case _ =>
      match SubDayNanos(n, unit)
      case None => Err(OutOfRange)
      case Some(nanos) => OrOutOfRange(CheckedAdd(wall, nanos))
  }
}
