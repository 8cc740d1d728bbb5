/**
 Civil dates and points in time: shifting and applying durations without a zone,
 and measuring the difference between two points.
 */
module Dates {
  import opened Wrappers
  import opened Arithmetic
  import opened Floats
  import opened Civil
  import opened Months
  import opened DurationUnits
  import opened TimeDeltas
  import opened DurationScan
  import opened Walls
  import opened Zones
  import opened Resolver
  import opened DateTimes

  /** chrono's `NaiveDate`: a valid date in the representable range. */
  type CivilDate = d: Date | d.Valid() && d.InRange() witness Date(1970, 1, 1)

  function MidnightOf(d: CivilDate): Stamp {
    JoinStamp(d, 0);
    RangeOfDates(Midnight(d));
    Midnight(d)
  }

  function DayOf(s: Stamp): CivilDate {
    RangeOfDates(s);
    DateAt(s)
  }

  // ---------------------------------------------------------------- shifting dates

  /** `DateValue::shift`: the wall shift at midnight, keeping the day. */
  function ShiftDate(d: CivilDate, n: int, unit: DurationUnit): Result<CivilDate, DateError> {
    match ShiftWall(MidnightOf(d), n, unit)
    case Err(e) => Err(e)
    case Ok(wall) => Ok(DayOf(wall))
  }

  /** The date a shift aims at, representable or not. */
  function Target(d: Date, n: int, unit: DurationUnit): (r: Date)
    requires d.Valid()
    ensures r.Valid()
  {
    match unit
    case Year => AddMonths(d, 12 * n)
    case Month => AddMonths(d, n)
    case _ => DateOf(DayNumber(d) + n * UnitNanos(unit) / NANOS_PER_DAY)
  }

  lemma FarMonths(d: CivilDate, months: int)
    requires months > U32_MAX || months < -U32_MAX
    ensures !AddMonths(d, months).InRange()
  {}

  /** Month shifts of a wall clock move its date by clamped months and keep its time of day. */
  lemma ShiftMonthsLands(wall: Stamp, months: int)
    ensures var d := AddMonths(DateAt(wall), months);
            ShiftMonths(wall, months) ==
            if d.InRange() then Ok(AtTime(d, TimeAt(wall))) else Err(OutOfRange)
  {
    RangeOfDates(wall);
    if months > U32_MAX || months < -U32_MAX {
      FarMonths(DateAt(wall), months);
    }
  }

  lemma ShiftDaysLands(wall: Stamp, days: int)
    ensures var r := wall + days * NANOS_PER_DAY;
            && DateAt(r) == DateOf(DayNumber(DateAt(wall)) + days)
            && TimeAt(r) == TimeAt(wall)
            && CheckedAddDays(wall, days) == if DateAt(r).InRange() then Some(r) else None
  {
    hide DateOf, DayNumber, TimeAt;
    var r := wall + days * NANOS_PER_DAY;
    SplitStamp(wall);
    var d := DateOf(DayNumber(DateAt(wall)) + days);
    assert AtTime(d, TimeAt(wall)) == r;
    JoinStamp(d, TimeAt(wall));
    RangeOfDates(r);
  }

  lemma MidnightSplits(d: CivilDate)
    ensures DateAt(MidnightOf(d)) == d && TimeAt(MidnightOf(d)) == 0
  {
    JoinStamp(d, 0);
  }

  lemma FixedShiftLands(d: CivilDate, nanos: int)
    ensures var target := DateOf(DayNumber(d) + nanos / NANOS_PER_DAY);
            var r := CheckedAdd(MidnightOf(d), nanos);
            if target.InRange() then r.Some? && DateAt(r.value) == target else r.None?
  {
    var s := MidnightOf(d) + nanos;
    assert s / NANOS_PER_DAY == DayNumber(d) + nanos / NANOS_PER_DAY;
    RangeOfDates(s);
  }

  lemma WholeDays(days: int)
    ensures days * NANOS_PER_DAY / NANOS_PER_DAY == days
  {}

  /** A wall shift by a unit of fixed length adds its nanoseconds, whatever fits i64. */
  lemma ShiftWallIsExact(wall: Stamp, n: int, unit: DurationUnit)
    requires unit != Month && unit != Year
    ensures ShiftWall(wall, n, unit) == OrOutOfRange(CheckedAdd(wall, n * UnitNanos(unit)))
  {
    if unit == Week {
      assert n * UnitNanos(unit) == 7 * n * NANOS_PER_DAY;
    } else if unit != Day {
      SubDayNanosAre(wall, n, unit);
    }
  }

  lemma ShiftDateMonths(d: CivilDate, months: int)
    ensures var r := ShiftMonths(MidnightOf(d), months);
            var target := AddMonths(d, months);
            if target.InRange() then r.Ok? && DateAt(r.value) == target else r == Err(OutOfRange)
  {
    hide ShiftMonths, DateOf, DayNumber;
    MidnightSplits(d);
    ShiftMonthsLands(MidnightOf(d), months);
    JoinStamp(AddMonths(d, months), 0);
  }

  /** A date shift reaches its target exactly, and fails exactly when that is unrepresentable. */
  lemma ShiftDateLands(d: CivilDate, n: int, unit: DurationUnit)
    ensures var target := Target(d, n, unit);
            ShiftDate(d, n, unit) == if target.InRange() then Ok(target) else Err(OutOfRange)
  {
    hide ShiftMonths, DateOf, DayNumber, MidnightOf, DateAt, AddMonths;
    match unit
    case Year =>
      ShiftDateMonths(d, 12 * n);
      if !IsI64(n * 12) { FarMonths(d, 12 * n); }
    case Month =>
      ShiftDateMonths(d, n);
    case _ =>
      ShiftWallIsExact(MidnightOf(d), n, unit);
      FixedShiftLands(d, n * UnitNanos(unit));
  }

  /** Twelve months are a year and seven days are a week, for every count. */
  lemma UnitsAgree(d: CivilDate, n: int)
    ensures ShiftDate(d, n, Year) == ShiftDate(d, 12 * n, Month)
    ensures ShiftDate(d, n, Week) == ShiftDate(d, 7 * n, Day)
    ensures Target(d, n, Day) == DateOf(DayNumber(d) + n)
  {
    hide DateOf, DayNumber, ShiftDate, AddMonths;
    ShiftDateLands(d, n, Year);
    ShiftDateLands(d, 12 * n, Month);
    ShiftDateLands(d, n, Week);
    ShiftDateLands(d, 7 * n, Day);
    WholeDays(n);
    WholeDays(7 * n);
    assert n * UnitNanos(Week) == 7 * n * NANOS_PER_DAY;
  }

  /** A jump of at most a day keeps the date or moves it to the next day. */
  lemma JumpMovesDate(wall: int, jump: int)
    requires 0 <= jump <= NANOS_PER_DAY
    ensures DateAt(wall + jump) ==
            if TimeAt(wall) + jump >= NANOS_PER_DAY then NextDay(DateAt(wall)) else DateAt(wall)
  {
    hide DateOf, DayNumber, NextDay, DateAt, TimeAt;
    var d := DateAt(wall);
    var time := TimeAt(wall) + jump;
    SplitStamp(wall);
    NextDayNumber(d);
    if time >= NANOS_PER_DAY {
      assert wall + jump == AtTime(NextDay(d), time - NANOS_PER_DAY);
      JoinStamp(NextDay(d), time - NANOS_PER_DAY);
    } else {
      assert wall + jump == AtTime(d, time);
      JoinStamp(d, time);
    }
  }

  /** The wall clock a calendar shift lands on: the civilly shifted one, past the gap that skips it. */
  lemma CalendarShiftLandsAt(local: LocalZone, instant: Stamp, n: int, unit: DurationUnit)
    requires local.Sound() && IsCalendar(unit) && Shift(local, instant, n, unit).Ok?
    ensures LocalWall(local.zone, instant).Some?
    ensures var target := ShiftWall(LocalWall(local.zone, instant).value, n, unit);
            var landed := local.zone.LocalOf(Shift(local, instant, n, unit).value);
            target.Ok? && landed == target.value + local.zone.Skip(target.value)
  {
    hide Shift, LocalNaiveToUtc, ShiftWall, Zone.Skip;
    CalendarShiftLands(local, instant, n, unit);
    var z := local.zone;
    var target := ShiftWall(LocalWall(z, instant).value, n, unit).value;
    SkipIffNoReading(z, target);
    NoReadingIffGap(z, target);
    if !z.HasReading(target) {
      var k: nat :| k < z.Count() && z.InGap(target, k);
      SkipIsGap(z, target, k);
    }
  }

  /**
   A calendar shift of a date-time moves its local date as the date alone would move,
   except that a gap over the target can push it to the next day.
   */
  lemma CalendarShiftMovesDate(local: LocalZone, instant: Stamp, n: int, unit: DurationUnit)
    requires local.Sound() && IsCalendar(unit) && Shift(local, instant, n, unit).Ok?
    ensures LocalWall(local.zone, instant).Some?
    ensures ShiftWall(LocalWall(local.zone, instant).value, n, unit).Ok?
    ensures var wall := LocalWall(local.zone, instant).value;
            var landed := local.zone.LocalOf(Shift(local, instant, n, unit).value);
            var jump := local.zone.Skip(ShiftWall(wall, n, unit).value);
            var target := Target(DateAt(wall), n, unit);
            && 0 <= jump <= NANOS_PER_DAY
            && landed == AtTime(target, TimeAt(wall)) + jump
            && DateAt(landed) == if TimeAt(wall) + jump >= NANOS_PER_DAY then NextDay(target) else target
  {
    hide Shift, LocalNaiveToUtc, ShiftWall, DateOf, DateAt, TimeAt, Zone.Skip;
    CalendarShiftLandsAt(local, instant, n, unit);
    var wall := LocalWall(local.zone, instant).value;
    var shifted := ShiftWall(wall, n, unit).value;
    CivilShiftMovesDate(wall, n, unit);
    SplitStamp(shifted);
    SkipIffNoReading(local.zone, shifted);
    JumpMovesDate(shifted, local.zone.Skip(shifted));
  }

  lemma CivilShiftMovesDate(wall: Stamp, n: int, unit: DurationUnit)
    requires IsCalendar(unit) && ShiftWall(wall, n, unit).Ok?
    ensures DateAt(ShiftWall(wall, n, unit).value) == Target(DateAt(wall), n, unit)
    ensures TimeAt(ShiftWall(wall, n, unit).value) == TimeAt(wall)
  {
    hide DateOf, DayNumber, DateAt, ShiftMonths, AddMonths;
    match unit
    case Year | Month =>
      var months := if unit == Year then 12 * n else n;
      ShiftMonthsLands(wall, months);
      JoinStamp(AddMonths(DateAt(wall), months), TimeAt(wall));
    case Week =>
      ShiftDaysLands(wall, 7 * n);
      WholeDays(7 * n);
      assert n * UnitNanos(unit) == 7 * n * NANOS_PER_DAY;
    case Day =>
      ShiftDaysLands(wall, n);
      WholeDays(n);
  }

  // ---------------------------------------------------------------- applying durations to dates

  // Seconds on the midnight of a date, keeping the day they reach.
  function SecondsFromMidnight(d: CivilDate, secs: real): Result<CivilDate, DateError> {
    match DeltaApplied(MidnightOf(d), secs)
    case Err(e) => Err(e)
    case Ok(wall) => Ok(DayOf(wall))
  }

  /** What `DateValue::apply_part` makes of a date. */
  function DatePartApplied(d: CivilDate, part: Part): Result<CivilDate, DateError> {
    if !IsFinite(part.mag) then
      Err(OutOfRange)
    else if IsCalendar(part.unit) then
      var whole := Trunc(part.mag);
      if !IsI64(whole) then
        Err(OutOfRange)
      else
        match (if whole != 0 then ShiftDate(d, whole, part.unit) else Ok(d))
        case Err(e) => Err(e)
        case Ok(current) =>
          var rem := PartSeconds(part.(mag := Fract(part.mag)));
          if rem == 0.0 then Ok(current) else SecondsFromMidnight(current, rem)
    else
      SecondsFromMidnight(d, PartSeconds(part))
  }

  function DatePartsApplied(d: CivilDate, parts: seq<Part>): Result<CivilDate, DateError>
    decreases |parts|
  {
    if parts == [] then Ok(d)
    else match DatePartApplied(d, parts[0])
         case Err(e) => Err(e)
         case Ok(next) => DatePartsApplied(next, parts[1..])
  }

  /** What `DateValue::apply` makes of a date. */
  function DateDurationApplied(d: CivilDate, duration: DurationValue): Result<CivilDate, DateError> {
    match duration.parts
    case Some(parts) => DatePartsApplied(d, parts)
    case None => SecondsFromMidnight(d, duration.seconds)
  }

  method ApplyDatePart(d: CivilDate, part: Part) returns (r: Result<CivilDate, DateError>)
    ensures r == DatePartApplied(d, part)
  {
    hide ShiftDate, SecondsFromMidnight, Trunc, Fract, PartSeconds, IsFinite;
    if !IsFinite(part.mag) {
      return Err(OutOfRange);
    }
    if !IsCalendar(part.unit) {
      return SecondsFromMidnight(d, PartSeconds(part));
    }
    var whole := Trunc(part.mag);
    if !IsI64(whole) {
      return Err(OutOfRange);
    }
    var current := d;
    if whole != 0 {
      var shifted := ShiftDate(current, whole, part.unit);
      if shifted.Err? {
        return shifted;
      }
      current := shifted.value;
    }
    var remSecs := PartSeconds(part.(mag := Fract(part.mag)));
    if remSecs != 0.0 {
      var moved := SecondsFromMidnight(current, remSecs);
      if moved.Err? {
        return moved;
      }
      current := moved.value;
    }
    return Ok(current);
  }

  method ApplyToDate(d: CivilDate, duration: DurationValue) returns (r: Result<CivilDate, DateError>)
    ensures r == DateDurationApplied(d, duration)
  {
    hide DatePartApplied, SecondsFromMidnight;
    if duration.parts.None? {
      return SecondsFromMidnight(d, duration.seconds);
    }
    var parts := duration.parts.value;
    var current := d;
    for i := 0 to |parts|
      invariant DatePartsApplied(d, parts) == DatePartsApplied(current, parts[i..])
    {
      var next := ApplyDatePart(current, parts[i]);
      assert parts[i..][1..] == parts[i + 1..];
      if next.Err? {
        return next;
      }
      current := next.value;
    }
    return Ok(current);
  }

  /** Seconds applied to a date move it by whole days only, rounded down. */
  lemma SecondsMoveDays(d: CivilDate, secs: real)
    ensures var target := DateOf(DayNumber(d) + NearestNano(secs) / NANOS_PER_DAY);
            SecondsFromMidnight(d, secs) == if target.InRange() then Ok(target) else Err(OutOfRange)
  {
    hide DeltaApplied, NearestNano, DateOf;
    SecondsDeltaOrOutOfRange(MidnightOf(d), secs);
    FixedShiftLands(d, NearestNano(secs));
  }

  /** A whole written part shifts a date by its count, in every unit. */
  lemma WholeDatePartIsShift(d: CivilDate, n: int, unit: DurationUnit)
    requires IsI64(n)
    ensures DatePartApplied(d, Part(n as real, unit)) == ShiftDate(d, n, unit)
  {
    hide ShiftDate, SecondsFromMidnight, DateOf, DayNumber, NearestNano, UnitNanos, AddMonths;
    WholeNumber(n);
    FiniteWhole(n);
    ShiftDateLands(d, n, unit);
    if !IsCalendar(unit) {
      SecondsMoveDays(d, PartSeconds(Part(n as real, unit)));
      WholeProduct(n, unit);
    } else if n == 0 {
      NoShift(d, unit);
    }
  }

  lemma NoNanos(unit: DurationUnit)
    ensures unit != Month && unit != Year ==> 0 * UnitNanos(unit) / NANOS_PER_DAY == 0
  {}

  /** Shifting a date by none of any unit leaves it alone. */
  lemma NoShift(d: CivilDate, unit: DurationUnit)
    ensures ShiftDate(d, 0, unit) == Ok(d)
  {
    hide DateOf, DayNumber, ShiftDate;
    ShiftDateLands(d, 0, unit);
    PartsOfIndex(d);
    DateOfDayNumber(d);
    NoNanos(unit);
  }

  // ---------------------------------------------------------------- points

  datatype Precision = YearMonth | DateOnly | Timed

  /** A wall clock with its instant and the precision it was written in. */
  datatype DatePoint = DatePoint(wall: Stamp, instant: Stamp, precision: Precision) {
    predicate HasTime() {
      precision == Timed
    }

    // A timed point shows the wall clock its instant renders as.
    predicate Consistent(local: LocalZone) {
      HasTime() ==> LocalWall(local.zone, instant) == Some(wall)
    }
  }

  /** Midnight of a date in the local zone, or in UTC when the lookup fails. */
  function Promote(local: LocalZone, d: CivilDate): Stamp {
    match LocalNaiveToUtc(local.lookup, MidnightOf(d))
    case Ok(instant) => instant
    case Err(_) => MidnightOf(d)
  }

  /** `DatePoint::shift`. */
  function ShiftPoint(local: LocalZone, p: DatePoint, n: int, unit: DurationUnit): Result<DatePoint, DateError> {
    if p.HasTime() then
      match Shift(local, p.instant, n, unit)
      case Err(e) => Err(e)
      case Ok(instant) =>
        match LocalWall(local.zone, instant)
        case None => Err(OutOfRange)
        case Some(wall) => Ok(DatePoint(wall, instant, p.precision))
    else
      match ShiftWall(p.wall, n, unit)
      case Err(e) => Err(e)
      case Ok(wall) => Ok(DatePoint(wall, Promote(local, DayOf(wall)), p.precision))
  }

  datatype DateDiff = Whole(n: int) | Exact(x: real)

  /** `DatePoint::diff`. */
  function Diff(from: DatePoint, to: DatePoint, unit: DurationUnit): Result<DateDiff, DateError> {
    if unit == Year then
      Ok(DateDiff.Whole(SignedYearsSince(DateAt(from.wall), DateAt(to.wall))))
    else if unit == Month then
      Ok(DateDiff.Whole(SignedMonthsSince(DateAt(from.wall), DateAt(to.wall))))
    else if from.HasTime() && to.HasTime() then
      var delta := to.instant - from.instant;
      var seconds := TruncDiv(delta, NANOS_PER_SECOND);
      var nanos := delta - seconds * NANOS_PER_SECOND;
      Ok(Exact((seconds as real + nanos as real / 1_000_000_000.0) / FixedSeconds(unit)))
    else if unit == Millisecond then
      Ok(DateDiff.Whole(TruncDiv(to.wall - from.wall, NANOS_PER_MILLI)))
    else
      match FixedSecondsI64(unit)
      case None => Err(OutOfRange)
      case Some(secs) =>
        Ok(DateDiff.Whole(TruncDiv(TruncDiv(to.wall - from.wall, NANOS_PER_SECOND), secs)))
  }

  // ---------------------------------------------------------------- differences of fixed units

  lemma TwoTruncations(x: int, unit: DurationUnit)
    requires unit != Month && unit != Year && unit != Millisecond
    ensures TruncDiv(TruncDiv(x, NANOS_PER_SECOND), FixedSecondsI64(unit).value) == TruncDiv(x, UnitNanos(unit))
  {
    hide UnitNanos, FixedSecondsI64;
    UnitNanosFromSeconds(unit);
    HasI64Seconds(unit);
    NestedQuotient(if x < 0 then -x else x, NANOS_PER_SECOND, FixedSecondsI64(unit).value);
  }

  lemma ExactQuotient(delta: int, unit: DurationUnit)
    requires unit != Month && unit != Year
    ensures var seconds := TruncDiv(delta, NANOS_PER_SECOND);
            (seconds as real + (delta - seconds * NANOS_PER_SECOND) as real / 1_000_000_000.0)
            / FixedSeconds(unit) == delta as real / UnitNanos(unit) as real
  {}

  /**
   In a unit of fixed length two timed points differ by the exact quotient of
   their instants, and other points by their wall clocks' quotient truncated.
   */
  lemma DiffOfFixedUnit(from: DatePoint, to: DatePoint, unit: DurationUnit)
    requires unit != Month && unit != Year
    ensures Diff(from, to, unit) ==
            if from.HasTime() && to.HasTime()
            then Ok(Exact((to.instant - from.instant) as real / UnitNanos(unit) as real))
            else Ok(DateDiff.Whole(TruncDiv(to.wall - from.wall, UnitNanos(unit))))
  {
    hide UnitNanos, FixedSeconds, FixedSecondsI64;
    if from.HasTime() && to.HasTime() {
      ExactQuotient(to.instant - from.instant, unit);
    } else if unit == Millisecond {
      MillisecondNanos();
    } else {
      HasI64Seconds(unit);
      TwoTruncations(to.wall - from.wall, unit);
    }
  }

  lemma MillisecondNanos()
    ensures UnitNanos(Millisecond) == NANOS_PER_MILLI
  {}

  lemma HasI64Seconds(unit: DurationUnit)
    requires unit != Millisecond
    ensures FixedSecondsI64(unit).Some? && FixedSecondsI64(unit).value > 0
  {}

  function Negated(d: DateDiff): DateDiff {
    match d
    case Whole(n) => DateDiff.Whole(-n)
    case Exact(x) => Exact(-x)
  }

  lemma NegatedTruncDiv(a: int, b: int)
    requires b > 0
    ensures TruncDiv(-a, b) == -TruncDiv(a, b)
  {}

  /** Measuring never fails, and measuring backwards negates, in every unit. */
  lemma DiffIsAntisymmetric(from: DatePoint, to: DatePoint, unit: DurationUnit)
    ensures Diff(from, to, unit).Ok?
    ensures Diff(to, from, unit) == Ok(Negated(Diff(from, to, unit).value))
  {
    hide DateAt, SignedMonthsSince, SignedYearsSince, UnitNanos, FixedSeconds, FixedSecondsI64, TruncDiv;
    if unit == Month || unit == Year {
      CountsAreAntisymmetric(DateAt(from.wall), DateAt(to.wall));
    } else {
      UnitNanosPositive(unit);
      DiffOfFixedUnit(from, to, unit);
      DiffOfFixedUnit(to, from, unit);
      NegatedQuotient((to.instant - from.instant) as real, UnitNanos(unit) as real);
      NegatedTruncDiv(to.wall - from.wall, UnitNanos(unit));
    }
  }

  lemma NegatedQuotient(x: real, y: real)
    requires y != 0.0
    ensures -x / y == -(x / y)
  {}

  // ---------------------------------------------------------------- differences undo shifts

  lemma UnitNanosPositive(unit: DurationUnit)
    requires unit != Month && unit != Year
    ensures UnitNanos(unit) > 0
  {}

  lemma WholeQuotient(n: int, unit: DurationUnit)
    requires unit != Month && unit != Year
    ensures TruncDiv(n * UnitNanos(unit), UnitNanos(unit)) == n
    ensures (n * UnitNanos(unit)) as real / UnitNanos(unit) as real == n as real
  {
    hide UnitNanos;
    UnitNanosPositive(unit);
    MultipleQuotient(if n < 0 then -n else n, UnitNanos(unit));
    assert n < 0 ==> -(n * UnitNanos(unit)) == -n * UnitNanos(unit);
    if n < 0 { TimesAtLeast(UnitNanos(unit), -n); } else if n > 0 { TimesAtLeast(UnitNanos(unit), n); }
    assert (n * UnitNanos(unit)) as real == n as real * UnitNanos(unit) as real;
  }

  /** Between date-only points every unit of fixed length recovers the shift. */
  lemma DiffUndoesFixedShift(local: LocalZone, p: DatePoint, n: int, unit: DurationUnit)
    requires !p.HasTime() && unit != Month && unit != Year && ShiftPoint(local, p, n, unit).Ok?
    ensures Diff(p, ShiftPoint(local, p, n, unit).value, unit) == Ok(DateDiff.Whole(n))
  {
    hide Diff, UnitNanos, LocalNaiveToUtc, ShiftWall, DateOf;
    ShiftWallIsExact(p.wall, n, unit);
    DiffOfFixedUnit(p, ShiftPoint(local, p, n, unit).value, unit);
    WholeQuotient(n, unit);
  }

  /** Between timed points every sub-day unit recovers the shift exactly, in every zone. */
  lemma DiffUndoesSubDayShift(local: LocalZone, p: DatePoint, n: int, unit: DurationUnit)
    requires p.HasTime() && !IsCalendar(unit) && ShiftPoint(local, p, n, unit).Ok?
    ensures Diff(p, ShiftPoint(local, p, n, unit).value, unit) == Ok(Exact(n as real))
  {
    hide Diff, UnitNanos, LocalNaiveToUtc, Shift, ShiftWall, DateOf;
    SubDayShiftIsExact(local, p.instant, n, unit);
    DiffOfFixedUnit(p, ShiftPoint(local, p, n, unit).value, unit);
    WholeQuotient(n, unit);
  }

  // A timed point whose shifted clock is skipped lands past the gap; this says whether
  // that is on the day after the target.
  predicate PushedToNextDay(local: LocalZone, p: DatePoint, n: int, unit: DurationUnit) {
    p.HasTime() && ShiftWall(p.wall, n, unit).Ok?
    && TimeAt(p.wall) + local.zone.Skip(ShiftWall(p.wall, n, unit).value) >= NANOS_PER_DAY
  }

  lemma ShiftedPointDate(local: LocalZone, p: DatePoint, n: int, unit: DurationUnit)
    requires local.Sound() && p.Consistent(local) && IsCalendar(unit) && ShiftPoint(local, p, n, unit).Ok?
    ensures var target := Target(DateAt(p.wall), n, unit);
            DateAt(ShiftPoint(local, p, n, unit).value.wall)
            == if PushedToNextDay(local, p, n, unit) then NextDay(target) else target
  {
    hide LocalNaiveToUtc, Shift, ShiftWall, DateOf, TimeAt, Zone.Skip;
    if p.HasTime() {
      CalendarShiftMovesDate(local, p.instant, n, unit);
    } else {
      CivilShiftMovesDate(p.wall, n, unit);
    }
  }

  /**
   What measuring makes of a month or year shift, whenever the shift succeeds. A shift
   that lands on its target date is recovered, except that a forward one clamped to a
   shorter month measures one short. One pushed to the next day by a gap is recovered
   forwards, clamped or not, and measures one short backwards.
   */
  lemma DiffUndoesCalendarShift(local: LocalZone, p: DatePoint, n: int)
    requires local.Sound() && p.Consistent(local)
    ensures ShiftPoint(local, p, n, Month).Ok? ==>
              var d := DateAt(p.wall);
              var clamped := LengthOf(MonthIndex(d) + n) < d.day;
              Diff(p, ShiftPoint(local, p, n, Month).value, Month) ==
              Ok(DateDiff.Whole(
                   if PushedToNextDay(local, p, n, Month) then (if n < 0 then n + 1 else n)
                   else if n > 0 && clamped then n - 1 else n))
    ensures ShiftPoint(local, p, n, Year).Ok? ==>
              var d := DateAt(p.wall);
              var clamped := d.month == 2 && d.day == 29 && !IsLeapYear(d.year + n);
              Diff(p, ShiftPoint(local, p, n, Year).value, Year) ==
              Ok(DateDiff.Whole(
                   if PushedToNextDay(local, p, n, Year) then (if n < 0 then n + 1 else n)
                   else if n > 0 && clamped then n - 1 else n))
  {
    hide ShiftPoint, PushedToNextDay, DateAt, AddMonths, NextDay, SignedMonthsSince, SignedYearsSince, LengthOf;
    var d := DateAt(p.wall);
    if ShiftPoint(local, p, n, Month).Ok? {
      ShiftedPointDate(local, p, n, Month);
      MonthsSinceShift(d, n);
      MonthsSinceNextDay(d, n);
    }
    if ShiftPoint(local, p, n, Year).Ok? {
      ShiftedPointDate(local, p, n, Year);
      YearsSinceShift(d, n);
      YearsSinceNextDay(d, n);
    }
  }

  // ---------------------------------------------------------------- a day that was skipped

  // 30 December 2011, which the zone below skips.
  const SKIPPED_DAY := Date(2011, 12, 30)

  /** A zone that crosses the date line when that day begins, as Samoa. */
  function DateLineZone(): Zone {
    OneChange(-10 * NANOS_PER_HOUR, Midnight(SKIPPED_DAY) + 10 * NANOS_PER_HOUR, 14 * NANOS_PER_HOUR)
  }

  function DateLine(): LocalZone {
    LocalZone(DateLineZone(), wall => TableLookup(DateLineZone(), wall))
  }

  /** Ten o'clock a year after the skipped day. */
  function YearLater(): DatePoint {
    var wall := AtTime(SKIPPED_DAY.(year := 2012), 10 * NANOS_PER_HOUR);
    DatePoint(wall, wall - 14 * NANOS_PER_HOUR, Timed)
  }

  lemma DateLineIsSound()
    ensures DateLine().Sound()
  {
    var z := DateLineZone();
    OneChangeShows(z.initial, z.transitions[0].at, z.Offset(1), 0);
    forall wall ensures IsMapping(z, wall, DateLine().lookup(wall)) {
      TableLookupMaps(z, wall);
    }
  }

  lemma YearLaterIsShown()
    ensures LocalWall(DateLineZone(), YearLater().instant) == Some(YearLater().wall)
  {
    var z := DateLineZone();
    OneChangeShows(z.initial, z.transitions[0].at, z.Offset(1), YearLater().instant);
  }

  // A year back the clock aims at ten o'clock of the skipped day.
  lemma YearBackIsSkipped()
    ensures var target := ShiftWall(YearLater().wall, -1, Year);
            && target == Ok(AtTime(SKIPPED_DAY, 10 * NANOS_PER_HOUR))
            && DateLineZone().Skip(target.value) == NANOS_PER_DAY
            && MIN_STAMP + NANOS_PER_DAY <= target.value <= MAX_STAMP - NANOS_PER_DAY
  {
    hide ShiftMonths, Zone.Skip;
    JoinStamp(SKIPPED_DAY.(year := 2012), 10 * NANOS_PER_HOUR);
    ShiftMonthsLands(YearLater().wall, -12);
    DateLineIsSound();
    SkipIsGap(DateLineZone(), Midnight(SKIPPED_DAY) + 10 * NANOS_PER_HOUR, 0);
  }

  /** A backward year shift into the skipped day succeeds, and measures no year at all. */
  lemma SkippedDayFallsShort()
    ensures var local, p := DateLine(), YearLater();
            && local.Sound() && p.Consistent(local)
            && ShiftPoint(local, p, -1, Year).Ok?
            && Diff(p, ShiftPoint(local, p, -1, Year).value, Year) == Ok(DateDiff.Whole(0))
  {
    hide Shift, ShiftWall, LocalNaiveToUtc, DateOf, DayNumber, DateLineZone, Diff, Zone.Skip, LocalZone.Sound;
    var local, p := DateLine(), YearLater();
    DateLineIsSound();
    YearLaterIsShown();
    YearBackIsSkipped();
    JoinStamp(SKIPPED_DAY.(year := 2012), 10 * NANOS_PER_HOUR);
    CalendarShiftSucceeds(local, p.instant, -1, Year);
    CalendarShiftLandsAt(local, p.instant, -1, Year);
    DiffUndoesCalendarShift(local, p, -1);
  }
}
