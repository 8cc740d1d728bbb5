/**
 Date-times in a local zone: shifting by units and applying durations, where
 calendar units act on the local wall clock and sub-day units on the instant.
 */
module DateTimes {
  import opened Wrappers
  import opened Floats
  import opened DurationUnits
  import opened TimeDeltas
  import opened DurationScan
  import opened Walls
  import opened Zones
  import opened Resolver
  import opened DurationAlgebra

  /** The process's zone and the lookup chrono answers from it. */
  datatype LocalZone = LocalZone(zone: Zone, lookup: Lookup) {
    ghost predicate Sound() {
      zone.WellSpaced() && Faithful(zone, lookup)
    }
  }

  // ---------------------------------------------------------------- shifting an instant

  function ShiftCalendarMonths(local: LocalZone, instant: Stamp, months: int): Result<Stamp, DateError> {
    match LocalWall(local.zone, instant)
    case None => Err(OutOfRange)
    case Some(wall) =>
      match ShiftMonths(wall, months)
      case Err(e) => Err(e)
      case Ok(shifted) => LocalNaiveToUtc(local.lookup, shifted)
  }

  function ShiftCalendarDays(local: LocalZone, instant: Stamp, days: int): Result<Stamp, DateError> {
    match LocalWall(local.zone, instant)
    case None => Err(OutOfRange)
    case Some(wall) =>
      match CheckedAddDays(wall, days)
      case None => Err(OutOfRange)
      case Some(shifted) => LocalNaiveToUtc(local.lookup, shifted)
  }

  /** `DateTimeValue::shift`. */
  function Shift(local: LocalZone, instant: Stamp, n: int, unit: DurationUnit): Result<Stamp, DateError> {
    match unit
    case Year =>
      (match CheckedMul(n, 12)
       case None => Err(OutOfRange)
       case Some(months) => ShiftCalendarMonths(local, instant, months))
    case Month => ShiftCalendarMonths(local, instant, n)
    case Week =>
      (match CheckedMul(n, 7)
       case None => Err(OutOfRange)
       case Some(days) => ShiftCalendarDays(local, instant, days))
    case Day => ShiftCalendarDays(local, instant, n)
    case _ =>
      match SubDayNanos(n, unit)
      case None => Err(OutOfRange)
      case Some(nanos) => OrOutOfRange(CheckedAdd(instant, nanos))
  }

  // ---------------------------------------------------------------- shifts on the wall clock

  /** A calendar shift is the civil shift of the rendered wall clock, resolved again. */
  lemma CalendarShiftIsCivil(local: LocalZone, instant: Stamp, n: int, unit: DurationUnit)
    requires IsCalendar(unit)
    ensures Shift(local, instant, n, unit) ==
            match LocalWall(local.zone, instant)
            case None => Err(OutOfRange)
            case Some(wall) =>
              match ShiftWall(wall, n, unit)
              case Err(e) => Err(e)
              case Ok(shifted) => LocalNaiveToUtc(local.lookup, shifted)
  {
    hide LocalNaiveToUtc, ShiftMonths;
  }

  // A resolved wall clock is shown by its instant, or was skipped and moved past the gap.
  lemma ResolvedRenders(local: LocalZone, wall: Stamp)
    requires local.Sound() && LocalNaiveToUtc(local.lookup, wall).Ok?
    ensures var z := local.zone;
            var instant := LocalNaiveToUtc(local.lookup, wall).value;
            && Compatible(z, wall, instant)
            && (z.HasReading(wall) ==> z.LocalOf(instant) == wall)
            && (forall k: nat :: k < z.Count() && z.InGap(wall, k) ==>
                  z.LocalOf(instant) == wall + (z.Offset(k + 1) - z.Offset(k)))
  {
    hide LocalNaiveToUtc;
    var z := local.zone;
    NoReadingIffGap(z, wall);
    if z.HasReading(wall) {
      var first := EarliestExists(z, local.lookup, wall);
      ResolvesToEarliest(z, local.lookup, wall, first);
    } else {
      var k: nat :| k < z.Count() && z.InGap(wall, k);
      ResolvesGapForward(z, local.lookup, wall, k);
    }
    forall k: nat | k < z.Count() && z.InGap(wall, k)
      ensures z.LocalOf(LocalNaiveToUtc(local.lookup, wall).value) == wall + (z.Offset(k + 1) - z.Offset(k))
    {
      ResolvesGapForward(z, local.lookup, wall, k);
    }
  }

  /**
   A calendar shift lands on the earliest instant showing the civilly shifted
   wall clock, or past the gap by exactly its length when that clock is skipped.
   */
  lemma CalendarShiftLands(local: LocalZone, instant: Stamp, n: int, unit: DurationUnit)
    requires local.Sound() && IsCalendar(unit) && Shift(local, instant, n, unit).Ok?
    ensures LocalWall(local.zone, instant).Some?
    ensures var z := local.zone;
            var target := ShiftWall(LocalWall(z, instant).value, n, unit);
            var landed := Shift(local, instant, n, unit).value;
            && target.Ok?
            && Compatible(z, target.value, landed)
            && (z.HasReading(target.value) ==> z.LocalOf(landed) == target.value)
            && (forall k: nat :: k < z.Count() && z.InGap(target.value, k) ==>
                  z.LocalOf(landed) == target.value + (z.Offset(k + 1) - z.Offset(k)))
  {
    hide LocalNaiveToUtc, ShiftWall, Shift;
    CalendarShiftIsCivil(local, instant, n, unit);
    ResolvedRenders(local, ShiftWall(LocalWall(local.zone, instant).value, n, unit).value);
  }

  /** Away from the edges of the range, a calendar shift fails only when the civil shift does. */
  lemma CalendarShiftSucceeds(local: LocalZone, instant: Stamp, n: int, unit: DurationUnit)
    requires local.Sound() && IsCalendar(unit) && LocalWall(local.zone, instant).Some?
    requires var target := ShiftWall(LocalWall(local.zone, instant).value, n, unit);
             target.Ok? ==> MIN_STAMP + NANOS_PER_DAY <= target.value <= MAX_STAMP - NANOS_PER_DAY
    ensures Shift(local, instant, n, unit).Ok? <==>
            ShiftWall(LocalWall(local.zone, instant).value, n, unit).Ok?
  {
    hide LocalNaiveToUtc, ShiftWall, Shift;
    CalendarShiftIsCivil(local, instant, n, unit);
    var target := ShiftWall(LocalWall(local.zone, instant).value, n, unit);
    if target.Ok? { ResolutionIsTotal(local.zone, local.lookup, target.value); }
  }

  // ---------------------------------------------------------------- shifts on the instant

  /** Nanoseconds in one of a unit of fixed length. */
  function UnitNanos(unit: DurationUnit): int
    requires unit != Month && unit != Year
  {
    match unit
    case Millisecond => NANOS_PER_MILLI
    case Second => NANOS_PER_SECOND
    case Minute => 60 * NANOS_PER_SECOND
    case Hour => NANOS_PER_HOUR
    case Day => NANOS_PER_DAY
    case Week => 7 * NANOS_PER_DAY
  }

  lemma UnitNanosFromSeconds(unit: DurationUnit)
    requires unit != Month && unit != Year
    ensures FixedSeconds(unit) * 1_000_000_000.0 == UnitNanos(unit) as real
    ensures unit != Millisecond ==> FixedSecondsI64(unit).value * NANOS_PER_SECOND == UnitNanos(unit)
  {}

  // A count that overflows i64 seconds is far outside the range of stamps.
  lemma OverflowIsOutOfRange(s: Stamp, secs: int, n: int)
    requires 1 <= secs <= 604_800 && !IsI64(secs * n)
    ensures CheckedAdd(s, n * (secs * NANOS_PER_SECOND)) == None
  {}

  lemma SubDayNanosAre(s: Stamp, n: int, unit: DurationUnit)
    requires !IsCalendar(unit)
    ensures (match SubDayNanos(n, unit)
             case None => Err(OutOfRange)
             case Some(nanos) => OrOutOfRange(CheckedAdd(s, nanos))) ==
            OrOutOfRange(CheckedAdd(s, n * UnitNanos(unit)))
  {
    UnitNanosFromSeconds(unit);
    if unit != Millisecond {
      var secs := FixedSecondsI64(unit).value;
      assert secs * n * NANOS_PER_SECOND == n * (secs * NANOS_PER_SECOND);
      if !IsI64(secs * n) { OverflowIsOutOfRange(s, secs, n); }
    }
  }

  /** A sub-day shift adds exactly `n` units to the instant, in every zone. */
  lemma SubDayShiftIsExact(local: LocalZone, instant: Stamp, n: int, unit: DurationUnit)
    requires !IsCalendar(unit)
    ensures Shift(local, instant, n, unit) == OrOutOfRange(CheckedAdd(instant, n * UnitNanos(unit)))
  {
    SubDayNanosAre(instant, n, unit);
  }

  /** Sub-day shifts compose: two shifts in any two zones are one shift by the sum. */
  lemma SubDayShiftsCompose(first: LocalZone, second: LocalZone, instant: Stamp, m: int, n: int, unit: DurationUnit)
    requires !IsCalendar(unit) && Shift(first, instant, m, unit).Ok?
    ensures Shift(second, Shift(first, instant, m, unit).value, n, unit) == Shift(first, instant, m + n, unit)
  {
    hide Shift;
    SubDayShiftIsExact(first, instant, m, unit);
    SubDayShiftIsExact(first, instant, m + n, unit);
    SubDayShiftIsExact(second, Shift(first, instant, m, unit).value, n, unit);
    assert m * UnitNanos(unit) + n * UnitNanos(unit) == (m + n) * UnitNanos(unit);
  }

  // ---------------------------------------------------------------- applying durations

  /** `seconds_delta`: seconds as whole nanoseconds. */
  function SecondsDelta(secs: real): Result<int, DateError> {
    if !IsFinite(secs) then Err(OutOfRange)
    else match TimeDeltas.FromSeconds(secs)
         case Err(_) => Err(OutOfRange)
         case Ok(delta) => Ok(delta.Total())
  }

  // The fractional remainder of a calendar part, on the wall clock.
  function RemainderApplied(local: LocalZone, instant: Stamp, secs: real): Result<Stamp, DateError> {
    if secs == 0.0 then Ok(instant)
    else
      match SecondsDelta(secs)
      case Err(e) => Err(e)
      case Ok(delta) =>
        match LocalWall(local.zone, instant)
        case None => Err(OutOfRange)
        case Some(wall) =>
          match CheckedAdd(wall, delta)
          case None => Err(OutOfRange)
          case Some(shifted) => LocalNaiveToUtc(local.lookup, shifted)
  }

  // Exact seconds on the instant.
  function DeltaApplied(instant: Stamp, secs: real): Result<Stamp, DateError> {
    match SecondsDelta(secs)
    case Err(e) => Err(e)
    case Ok(delta) => OrOutOfRange(CheckedAdd(instant, delta))
  }

  /** What `apply_part` makes of an instant. */
  function PartApplied(local: LocalZone, instant: Stamp, part: Part): Result<Stamp, DateError> {
    if !IsFinite(part.mag) then
      Err(OutOfRange)
    else if IsCalendar(part.unit) then
      var whole := Trunc(part.mag);
      if !IsI64(whole) then
        Err(OutOfRange)
      else
        match (if whole != 0 then Shift(local, instant, whole, part.unit) else Ok(instant))
        case Err(e) => Err(e)
        case Ok(current) => RemainderApplied(local, current, PartSeconds(part.(mag := Fract(part.mag))))
    else
      DeltaApplied(instant, PartSeconds(part))
  }

  /** Written parts, left to right. */
  function PartsApplied(local: LocalZone, instant: Stamp, parts: seq<Part>): Result<Stamp, DateError>
    decreases |parts|
  {
    if parts == [] then Ok(instant)
    else match PartApplied(local, instant, parts[0])
         case Err(e) => Err(e)
         case Ok(next) => PartsApplied(local, next, parts[1..])
  }

  /** What `DateTimeValue::apply` makes of an instant. */
  function DurationApplied(local: LocalZone, instant: Stamp, d: DurationValue): Result<Stamp, DateError> {
    match d.parts
    case Some(parts) => PartsApplied(local, instant, parts)
    case None => DeltaApplied(instant, d.seconds)
  }

  method ApplyPart(local: LocalZone, instant: Stamp, part: Part) returns (r: Result<Stamp, DateError>)
    ensures r == PartApplied(local, instant, part)
  {
    hide LocalNaiveToUtc, LocalWall, Shift, SecondsDelta, DeltaApplied, Trunc, Fract, PartSeconds, IsFinite;
    if !IsFinite(part.mag) {
      return Err(OutOfRange);
    }
    if !IsCalendar(part.unit) {
      return DeltaApplied(instant, PartSeconds(part));
    }
    var whole := Trunc(part.mag);
    if !IsI64(whole) {
      return Err(OutOfRange);
    }
    var current := instant;
    if whole != 0 {
      var shifted := Shift(local, current, whole, part.unit);
      if shifted.Err? {
        return shifted;
      }
      current := shifted.value;
    }
    var remSecs := PartSeconds(part.(mag := Fract(part.mag)));
    if remSecs != 0.0 {
      var delta := SecondsDelta(remSecs);
      if delta.Err? {
        return Err(delta.error);
      }
      var wall := LocalWall(local.zone, current);
      if wall.None? {
        return Err(OutOfRange);
      }
      var shiftedWall := CheckedAdd(wall.value, delta.value);
      if shiftedWall.None? {
        return Err(OutOfRange);
      }
      var resolved := LocalNaiveToUtc(local.lookup, shiftedWall.value);
      if resolved.Err? {
        return resolved;
      }
      current := resolved.value;
    }
    return Ok(current);
  }

  method Apply(local: LocalZone, instant: Stamp, d: DurationValue) returns (r: Result<Stamp, DateError>)
    ensures r == DurationApplied(local, instant, d)
  {
    hide PartApplied;
    if d.parts.None? {
      return DeltaApplied(instant, d.seconds);
    }
    var parts := d.parts.value;
    var current := instant;
    for i := 0 to |parts|
      invariant PartsApplied(local, instant, parts) == PartsApplied(local, current, parts[i..])
    {
      var next := ApplyPart(local, current, parts[i]);
      assert parts[i..][1..] == parts[i + 1..];
      if next.Err? {
        return next;
      }
      current := next.value;
    }
    return Ok(current);
  }

  // ---------------------------------------------------------------- what applying means

  /** Applying concatenated parts is applying one list after the other. */
  lemma {:induction false} PartsAppliedInTurn(local: LocalZone, instant: Stamp, a: seq<Part>, b: seq<Part>)
    ensures PartsApplied(local, instant, a + b) ==
            match PartsApplied(local, instant, a)
            case Err(e) => Err(e)
            case Ok(next) => PartsApplied(local, next, b)
    decreases |a|
  {
    hide PartApplied;
    if a == [] {
      assert a + b == b;
    } else {
      assert (a + b)[1..] == a[1..] + b;
      var next := PartApplied(local, instant, a[0]);
      if next.Ok? { PartsAppliedInTurn(local, next.value, a[1..], b); }
    }
  }

  /** Applying a sum of written durations is applying the first, then the second. */
  lemma SumAppliedInTurn(local: LocalZone, instant: Stamp, x: DurationValue, y: DurationValue, display: Display)
    requires x.parts.Some? && y.parts.Some?
    ensures DurationApplied(local, instant, Add(x, y, display)) ==
            match DurationApplied(local, instant, x)
            case Err(e) => Err(e)
            case Ok(next) => DurationApplied(local, next, y)
  {
    PartsAppliedInTurn(local, instant, x.parts.value, y.parts.value);
  }

  lemma WholeNumber(n: int)
    ensures Trunc(n as real) == n && Fract(n as real) == 0.0
  {}

  lemma WholeProduct(n: int, unit: DurationUnit)
    requires !IsCalendar(unit)
    ensures NearestNano(n as real * FixedSeconds(unit)) == n * UnitNanos(unit)
  {}

  // Outside a `TimeDelta`'s range is outside the range of stamps.
  lemma SecondsDeltaOrOutOfRange(s: Stamp, secs: real)
    ensures DeltaApplied(s, secs) == OrOutOfRange(CheckedAdd(s, NearestNano(secs)))
  {
    hide TimeDeltas.FromSeconds;
    FromSecondsRounds(secs);
    if !IsFinite(secs) { InfiniteIsTooLarge(secs); }
  }

  /**
   Applying a whole number of one unit is shifting by that number, except that
   applying none of a calendar unit leaves the instant alone.
   */
  lemma WholePartIsShift(local: LocalZone, instant: Stamp, n: int, unit: DurationUnit)
    requires IsI64(n)
    ensures PartApplied(local, instant, Part(n as real, unit)) ==
            if n == 0 then Ok(instant) else Shift(local, instant, n, unit)
  {
    hide Shift, DeltaApplied, LocalNaiveToUtc, NearestNano, IsFinite, Trunc, Fract;
    WholeNumber(n);
    FiniteWhole(n);
    if !IsCalendar(unit) {
      SecondsDeltaOrOutOfRange(instant, n as real * FixedSeconds(unit));
      WholeProduct(n, unit);
      SubDayShiftIsExact(local, instant, n, unit);
    }
  }

  lemma FiniteWhole(n: int)
    requires IsI64(n)
    ensures IsFinite(n as real)
  {}

  /**
   A calendar part first shifts by its whole count; what is left of it then moves the
   wall clock, to the nearest nanosecond, and the moved clock is resolved again.
   */
  lemma CalendarPartLands(local: LocalZone, instant: Stamp, part: Part)
    requires local.Sound() && IsCalendar(part.unit) && PartApplied(local, instant, part).Ok?
    ensures var whole, rest := Trunc(part.mag), PartSeconds(part.(mag := Fract(part.mag)));
            var current := if whole == 0 then Ok(instant) else Shift(local, instant, whole, part.unit);
            var landed := PartApplied(local, instant, part);
            && current.Ok?
            && if rest == 0.0 then landed == current
               else
                 var wall := LocalWall(local.zone, current.value);
                 wall.Some? && Compatible(local.zone, wall.value + NearestNano(rest), landed.value)
  {
    hide Shift, LocalNaiveToUtc, LocalWall, Compatible, NearestNano, Trunc, Fract, IsFinite, PartSeconds;
    hide TimeDeltas.FromSeconds;
    var whole, rest := Trunc(part.mag), PartSeconds(part.(mag := Fract(part.mag)));
    var current := if whole == 0 then Ok(instant) else Shift(local, instant, whole, part.unit);
    if rest != 0.0 {
      FromSecondsRounds(rest);
      ResolvedRenders(local, LocalWall(local.zone, current.value).value + NearestNano(rest));
    }
  }

  ghost predicate SubDayOnly(parts: seq<Part>) {
    forall i :: 0 <= i < |parts| ==> !IsCalendar(parts[i].unit)
  }

  /**
   A duration of sub-day parts moves the instant by its total seconds, in every
   zone, to within half a nanosecond per part.
   */
  lemma {:induction false} SubDayPartsAddUp(local: LocalZone, instant: Stamp, parts: seq<Part>)
    requires SubDayOnly(parts) && PartsApplied(local, instant, parts).Ok?
    ensures var moved := (PartsApplied(local, instant, parts).value - instant) as real;
            Abs(moved - FoldParts(parts) * 1_000_000_000.0) <= 0.5 * |parts| as real
    decreases |parts|
  {
    hide PartApplied, PartSeconds;
    if parts != [] {
      var front, last := parts[..|parts| - 1], parts[|parts| - 1];
      assert parts == front + [last];
      PartsAppliedInTurn(local, instant, front, [last]);
      SubDayPartsAddUp(local, instant, front);
      OneMorePart(local, instant, front, last);
    }
  }

  lemma OneMorePart(local: LocalZone, instant: Stamp, front: seq<Part>, last: Part)
    requires !IsCalendar(last.unit) && PartsApplied(local, instant, front).Ok?
    requires PartsApplied(local, instant, front + [last]).Ok?
    requires var moved := (PartsApplied(local, instant, front).value - instant) as real;
             Abs(moved - FoldParts(front) * 1_000_000_000.0) <= 0.5 * |front| as real
    ensures var moved := (PartsApplied(local, instant, front + [last]).value - instant) as real;
            Abs(moved - FoldParts(front + [last]) * 1_000_000_000.0) <= 0.5 * |front + [last]| as real
  {
    hide PartApplied, PartSeconds, PartsApplied, FoldParts;
    PartsAppliedInTurn(local, instant, front, [last]);
    var before := PartsApplied(local, instant, front).value;
    OnePart(local, before, last);
    SubDayPartMoves(local, before, last);
    FoldSnoc(front, last);
  }

  lemma OnePart(local: LocalZone, instant: Stamp, part: Part)
    ensures PartsApplied(local, instant, [part]) == PartApplied(local, instant, part)
  {
    hide PartApplied;
    assert [part][1..] == [];
  }

  lemma SubDayPartMoves(local: LocalZone, instant: Stamp, part: Part)
    requires !IsCalendar(part.unit) && PartApplied(local, instant, part).Ok?
    ensures var moved := (PartApplied(local, instant, part).value - instant) as real;
            Abs(moved - PartSeconds(part) * 1_000_000_000.0) <= 0.5
  {
    hide DeltaApplied, LocalNaiveToUtc, PartSeconds;
    SecondsDeltaOrOutOfRange(instant, PartSeconds(part));
  }
}
