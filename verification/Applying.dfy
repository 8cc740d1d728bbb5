/**
 What applying a duration means, for date-times and for dates: one part, several in
 turn, and none at all.
 */
module Applying {
  import opened Wrappers
  import opened Floats
  import opened Civil
  import opened Months
  import opened DurationUnits
  import opened DurationScan
  import opened DurationAlgebra
  import opened TimeDeltas
  import opened Walls
  import opened Resolver
  import opened DateTimes
  import opened Dates

  // ---------------------------------------------------------------- date-times

  /** A sub-day part moves the instant by its seconds to the nearest nanosecond, or leaves the range. */
  lemma SubDayPartIsExact(local: LocalZone, instant: Stamp, part: Part)
    requires !IsCalendar(part.unit)
    ensures PartApplied(local, instant, part) == OrOutOfRange(CheckedAdd(instant, NearestNano(PartSeconds(part))))
  {
    hide DeltaApplied, NearestNano;
    SecondsDeltaOrOutOfRange(instant, PartSeconds(part));
    if !IsFinite(part.mag) { InfinitePartIsTooLarge(part); }
  }

  lemma InfinitePartIsTooLarge(part: Part)
    requires !IsFinite(part.mag)
    ensures !(MIN_STAMP - MAX_STAMP <= NearestNano(PartSeconds(part)) <= MAX_STAMP - MIN_STAMP)
  {}

  /**
   A calendar part succeeds whenever its whole count fits, the shift by it succeeds, and
   the rest moves the wall clock to a place at least a day inside the range.
   */
  lemma CalendarPartSucceeds(local: LocalZone, instant: Stamp, part: Part)
    requires local.Sound() && IsCalendar(part.unit) && IsFinite(part.mag) && IsI64(Trunc(part.mag))
    requires var whole := Trunc(part.mag);
             var current := if whole == 0 then Ok(instant) else Shift(local, instant, whole, part.unit);
             current.Ok? && LocalWall(local.zone, current.value).Some?
             && var target := LocalWall(local.zone, current.value).value
                              + NearestNano(PartSeconds(part.(mag := Fract(part.mag))));
                MIN_STAMP + NANOS_PER_DAY <= target <= MAX_STAMP - NANOS_PER_DAY
    ensures PartApplied(local, instant, part).Ok?
  {
    hide Shift, LocalWall, LocalNaiveToUtc, NearestNano, Trunc, TimeDeltas.FromSeconds, LocalZone.Sound;
    var current := if Trunc(part.mag) == 0 then Ok(instant) else Shift(local, instant, Trunc(part.mag), part.unit);
    var rest := PartSeconds(part.(mag := Fract(part.mag)));
    RestIsShort(part);
    FromSecondsRounds(rest);
    ResolvesInside(local, LocalWall(local.zone, current.value).value + NearestNano(rest));
  }

  lemma ResolvesInside(local: LocalZone, wall: Stamp)
    requires local.Sound() && MIN_STAMP + NANOS_PER_DAY <= wall <= MAX_STAMP - NANOS_PER_DAY
    ensures LocalNaiveToUtc(local.lookup, wall).Ok?
  {
    ResolutionIsTotal(local.zone, local.lookup, wall);
  }

  // What is left of a calendar part is less than one of its unit.
  lemma RestIsShort(part: Part)
    requires IsCalendar(part.unit)
    ensures var rest := PartSeconds(part.(mag := Fract(part.mag)));
            IsFinite(rest) && -MAX_NANOS <= NearestNano(rest) <= MAX_NANOS
  {
    FractRange(part.mag);
    ShortRest(Fract(part.mag), FixedSeconds(part.unit));
  }

  lemma ShortRest(fraction: real, seconds: real)
    requires -1.0 < fraction < 1.0 && 0.0 < seconds <= 31_536_000.0
    ensures -31_536_000.0 < fraction * seconds < 31_536_000.0
  {}

  /** One written part applies as that part. */
  lemma OnePartApplied(local: LocalZone, instant: Stamp, d: DurationValue, part: Part)
    requires d.parts == Some([part])
    ensures DurationApplied(local, instant, d) == PartApplied(local, instant, part)
  {
    hide PartApplied;
    OnePart(local, instant, part);
  }

  /** Without written parts a duration moves the instant by its seconds, in every zone. */
  lemma SecondsMoveInstant(local: LocalZone, instant: Stamp, d: DurationValue)
    requires d.parts.None?
    ensures DurationApplied(local, instant, d) == OrOutOfRange(CheckedAdd(instant, NearestNano(d.seconds)))
  {
    SecondsDeltaOrOutOfRange(instant, d.seconds);
  }

  /** The difference of two timed points, synthesized as a duration and applied, leads from one to the other. */
  lemma DifferenceLeadsThere(local: LocalZone, p: DatePoint, q: DatePoint, display: Display)
    requires p.HasTime() && q.HasTime()
    ensures var diff := Diff(p, q, Second);
            diff.Ok? && diff.value.Exact?
            && DurationApplied(local, p.instant, DurationAlgebra.FromSeconds(diff.value.x, display)) == Ok(q.instant)
  {
    hide Diff, NearestNano, DurationApplied;
    var delta := q.instant - p.instant;
    DiffOfFixedUnit(p, q, Second);
    SecondIsNanos();
    NearestNanoOfWhole(delta);
    var x := Diff(p, q, Second).value.x;
    assert x == delta as real / 1_000_000_000.0;
    var d := DurationAlgebra.FromSeconds(x, display);
    assert d.parts.None? && d.seconds == x;
    SecondsMoveInstant(local, p.instant, d);
    assert CheckedAdd(p.instant, delta) == Some(q.instant);
  }

  lemma SecondIsNanos()
    ensures UnitNanos(Second) as real == 1_000_000_000.0
  {}

  // ---------------------------------------------------------------- dates

  /**
   A calendar part of a date shifts it by the whole count; what is left then moves it by
   whole days, rounded down. A count or a date that does not fit is out of range.
   */
  lemma CalendarDatePartLands(d: CivilDate, part: Part)
    requires IsCalendar(part.unit)
    ensures var whole, rest := Trunc(part.mag), PartSeconds(part.(mag := Fract(part.mag)));
            DatePartApplied(d, part) ==
            if !IsFinite(part.mag) || !IsI64(whole) then Err(OutOfRange)
            else
              match ShiftDate(d, whole, part.unit)
              case Err(e) => Err(e)
              case Ok(current) =>
                var target := DateOf(DayNumber(current) + NearestNano(rest) / NANOS_PER_DAY);
                if target.InRange() then Ok(target) else Err(OutOfRange)
  {
    hide ShiftDate, SecondsFromMidnight, NearestNano, Trunc, Fract, IsFinite, DateOf, DayNumber;
    var whole, rest := Trunc(part.mag), PartSeconds(part.(mag := Fract(part.mag)));
    NoShift(d, part.unit);
    NothingLeft();
    if IsI64(whole) && ShiftDate(d, whole, part.unit).Ok? {
      var current := ShiftDate(d, whole, part.unit).value;
      DateOfDayNumber(current);
      SecondsMoveDays(current, rest);
    }
  }

  lemma NothingLeft()
    ensures NearestNano(0.0) == 0
  {}

  /** A sub-day part moves a date by whole days, rounded down. */
  lemma SubDayDatePartLands(d: CivilDate, part: Part)
    requires !IsCalendar(part.unit) && IsFinite(part.mag)
    ensures var target := DateOf(DayNumber(d) + NearestNano(PartSeconds(part)) / NANOS_PER_DAY);
            DatePartApplied(d, part) == if target.InRange() then Ok(target) else Err(OutOfRange)
  {
    SecondsMoveDays(d, PartSeconds(part));
  }

  /** Applying concatenated parts to a date is applying one list after the other. */
  lemma {:induction false} DatePartsAppliedInTurn(d: CivilDate, a: seq<Part>, b: seq<Part>)
    ensures DatePartsApplied(d, a + b) ==
            match DatePartsApplied(d, a)
            case Err(e) => Err(e)
            case Ok(next) => DatePartsApplied(next, b)
    decreases |a|
  {
    hide DatePartApplied;
    if a == [] {
      assert a + b == b;
    } else {
      assert (a + b)[1..] == a[1..] + b;
      var next := DatePartApplied(d, a[0]);
      if next.Ok? { DatePartsAppliedInTurn(next.value, a[1..], b); }
    }
  }

  /** One written part applies to a date as that part. */
  lemma OneDatePartApplied(d: CivilDate, duration: DurationValue, part: Part)
    requires duration.parts == Some([part])
    ensures DateDurationApplied(d, duration) == DatePartApplied(d, part)
  {
    hide DatePartApplied;
    assert [part][1..] == [];
    var next := DatePartApplied(d, part);
    if next.Ok? { assert DatePartsApplied(next.value, []) == next; }
  }

  /** Applying a sum of written durations to a date is applying the first, then the second. */
  lemma DateSumAppliedInTurn(d: CivilDate, x: DurationValue, y: DurationValue, display: Display)
    requires x.parts.Some? && y.parts.Some?
    ensures DateDurationApplied(d, Add(x, y, display)) ==
            match DateDurationApplied(d, x)
            case Err(e) => Err(e)
            case Ok(next) => DateDurationApplied(next, y)
  {
    DatePartsAppliedInTurn(d, x.parts.value, y.parts.value);
  }

  /** Without written parts a duration moves a date by whole days of its seconds, rounded down. */
  lemma SecondsMoveDate(d: CivilDate, duration: DurationValue)
    requires duration.parts.None?
    ensures var target := DateOf(DayNumber(d) + NearestNano(duration.seconds) / NANOS_PER_DAY);
            DateDurationApplied(d, duration) == if target.InRange() then Ok(target) else Err(OutOfRange)
  {
    SecondsMoveDays(d, duration.seconds);
  }

  /**
   The seconds from a midnight to a point, not both timed, synthesized as a duration and
   applied, lead from the one date to the other: exactly unless the point is earlier and
   in the last second of its day, where measuring rounds it up to the next midnight.
   */
  lemma DateDifferenceLeadsThere(p: DatePoint, q: DatePoint, display: Display)
    requires !(p.HasTime() && q.HasTime()) && p.wall % NANOS_PER_DAY == 0
    ensures var diff := Diff(p, q, Second);
            && diff.Ok? && diff.value.Whole?
            && (DateDurationApplied(DayOf(p.wall), DurationAlgebra.FromSeconds(diff.value.n as real, display))
                == Ok(DayOf(q.wall))
                <==> p.wall <= q.wall || q.wall % NANOS_PER_DAY <= NANOS_PER_DAY - NANOS_PER_SECOND)
  {
    hide Diff, NearestNano, DateDurationApplied, DayNumber;
    var n := TruncDiv(q.wall - p.wall, NANOS_PER_SECOND);
    SecondIsNanos();
    DiffOfFixedUnit(p, q, Second);
    SecondsMoveDate(DayOf(p.wall), DurationAlgebra.FromSeconds(n as real, display));
    WholeSecondsAreNanos(n);
    DaysBetween(p.wall, q.wall);
  }

  lemma WholeSecondsAreNanos(n: int)
    ensures NearestNano(n as real) == n * NANOS_PER_SECOND
  {
    NearestNanoOfWhole(n * NANOS_PER_SECOND);
    assert (n * NANOS_PER_SECOND) as real / 1_000_000_000.0 == n as real;
  }

  // Seconds from midnight `a`, rounded toward zero, end in the day of `b` or reach the next.
  lemma DaysBetween(a: int, b: int)
    requires a % NANOS_PER_DAY == 0
    ensures var days := TruncDiv(b - a, NANOS_PER_SECOND) * NANOS_PER_SECOND / NANOS_PER_DAY;
            a / NANOS_PER_DAY + days == b / NANOS_PER_DAY
            <==> a <= b || b % NANOS_PER_DAY <= NANOS_PER_DAY - NANOS_PER_SECOND
  {
    var days, r := b / NANOS_PER_DAY - a / NANOS_PER_DAY, b % NANOS_PER_DAY;
    if a <= b {
      assert (b - a) / NANOS_PER_SECOND == days * 86_400 + r / NANOS_PER_SECOND;
    } else {
      assert (a - b) / NANOS_PER_SECOND == -days * 86_400 + -r / NANOS_PER_SECOND;
    }
  }
}
