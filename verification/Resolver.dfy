/**
 Local-zone resolution of wall clocks (`src/date.rs`): ambiguous times take their
 earliest reading and skipped times move forward by the gap.
 */
module Resolver {
  import opened Wrappers
  import opened Walls
  import opened Zones

  /** chrono's answer to which offsets a wall clock can be read under. */
  datatype MappedLocalTime =
    | Single(offset: int)
    | Ambiguous(first: int, second: int)
    | NoLocalTime

  /** A zone lookup, as `Local.offset_from_local_datetime`. */
  type Lookup = int -> MappedLocalTime

  ghost predicate IsMapping(z: Zone, wall: int, m: MappedLocalTime) {
    match m
    case Single(o) =>
      z.Reads(wall, o) && forall p :: z.Reads(wall, p) ==> p == o
    case Ambiguous(a, b) =>
      a != b && z.Reads(wall, a) && z.Reads(wall, b) &&
      forall p :: z.Reads(wall, p) ==> p == a || p == b
    case NoLocalTime =>
      !z.HasReading(wall)
  }

  // The lookup answers with all readings of every wall clock, in either order.
  ghost predicate Faithful(z: Zone, lookup: Lookup) {
    forall wall :: IsMapping(z, wall, lookup(wall))
  }

  // ---------------------------------------------------------------- the resolver

  const PROBES := 25

  function ProbeOffset(m: MappedLocalTime): Option<int> {
    match m
    case Single(o) => Some(o)
    case Ambiguous(o, _) => Some(o)
    case NoLocalTime => None
  }

  /** The offset of the first of `turns` hourly steps back from `probe` that has a reading. */
  function GapOffset(lookup: Lookup, probe: Stamp, turns: nat): Result<int, DateError>
    decreases probe - MIN_STAMP
  {
    if turns == 0 then Err(LocalZoneLookup)
    else match CheckedAdd(probe, -NANOS_PER_HOUR)
         case None => Err(LocalZoneLookup)
         case Some(back) =>
           match ProbeOffset(lookup(back))
           case Some(o) => Ok(o)
           case None => GapOffset(lookup, back, turns - 1)
  }

  // The wall clock `n` hourly steps before `wall`.
  function Back(wall: int, n: int): int {
    wall - n * NANOS_PER_HOUR
  }

  /** `resolve_gap_offset`: the backwards search as the source steps it. */
  method ResolveGapOffset(lookup: Lookup, wall: Stamp) returns (r: Result<int, DateError>)
    ensures r == GapOffset(lookup, wall, PROBES)
    ensures r.Ok? ==>
              exists n :: 1 <= n <= PROBES &&
                          ProbeOffset(lookup(Back(wall, n))) == Some(r.value) &&
                          forall m :: 1 <= m < n ==> lookup(Back(wall, m)) == NoLocalTime
    ensures r.Err? ==>
              r.error == LocalZoneLookup &&
              forall m :: 1 <= m <= PROBES && Back(wall, m) >= MIN_STAMP ==>
                            lookup(Back(wall, m)) == NoLocalTime
  {
    var probe := wall;
    for i := 0 to PROBES
      invariant probe == Back(wall, i)
      invariant GapOffset(lookup, wall, PROBES) == GapOffset(lookup, probe, PROBES - i)
      invariant forall m :: 1 <= m <= i ==> lookup(Back(wall, m)) == NoLocalTime
    {
      match CheckedAdd(probe, -NANOS_PER_HOUR) {
        case None =>
          return Err(LocalZoneLookup);
        case Some(back) =>
          probe := back;
      }
      assert probe == Back(wall, i + 1);
      match lookup(probe) {
        case Single(offset) =>
          return Ok(offset);
        case Ambiguous(offset, _) =>
          return Ok(offset);
        case NoLocalTime =>
      }
    }
    return Err(LocalZoneLookup);
  }

  function Applied(wall: Stamp, offset: int): Result<Stamp, DateError> {
    match CheckedAdd(wall, -offset)
    case None => Err(LocalZoneLookup)
    case Some(instant) => Ok(instant)
  }

  /** `local_naive_to_utc`. */
  function LocalNaiveToUtc(lookup: Lookup, wall: Stamp): Result<Stamp, DateError> {
    match lookup(wall)
    case Single(offset) =>
      Applied(wall, offset)
    case Ambiguous(a, b) =>
      Applied(wall, if a >= b then a else b)
    case NoLocalTime =>
      match GapOffset(lookup, wall, PROBES)
      case Err(e) => Err(e)
      case Ok(offset) => Applied(wall, offset)
  }

  /** `DateTimeValue::local_wall`: absent when the offset leaves the representable range. */
  function LocalWall(z: Zone, instant: Stamp): Option<Stamp> {
    CheckedAdd(instant, z.OffsetAt(instant))
  }

  // ---------------------------------------------------------------- faithful lookups exist

  // The first segment from `k` on whose clock shows `wall`.
  function FirstShowing(z: Zone, wall: int, k: nat): (r: Option<nat>)
    requires k <= z.Count()
    ensures r.Some? ==> k <= r.value <= z.Count() && z.InSegment(wall, r.value)
    ensures forall j :: k <= j <= z.Count() && (r.Some? ==> j < r.value) ==> !z.InSegment(wall, j)
    decreases z.Count() - k
  {
    if z.InSegment(wall, k) then Some(k)
    else if k == z.Count() then None
    else FirstShowing(z, wall, k + 1)
  }

  function TableLookup(z: Zone, wall: int): MappedLocalTime {
    match FirstShowing(z, wall, 0)
    case None => NoLocalTime
    case Some(k) =>
      if k < z.Count() && z.InSegment(wall, k + 1) then Ambiguous(z.Offset(k), z.Offset(k + 1))
      else Single(z.Offset(k))
  }

  /** Every well-spaced zone has a faithful lookup: no wall clock has three readings. */
  lemma TableLookupIsFaithful(z: Zone)
    requires z.WellSpaced()
    ensures Faithful(z, wall => TableLookup(z, wall))
  {
    forall wall ensures IsMapping(z, wall, TableLookup(z, wall)) {
      TableLookupMaps(z, wall);
    }
  }

  // Whatever reads as `wall` is the first segment showing it or the one after.
  lemma ReadingIsFirstOrNext(z: Zone, wall: int, offset: int)
    requires z.WellSpaced() && z.Reads(wall, offset)
    ensures var first := FirstShowing(z, wall, 0);
            && first.Some?
            && (offset == z.Offset(first.value) ||
                (first.value < z.Count() && z.InSegment(wall, first.value + 1) &&
                 offset == z.Offset(first.value + 1)))
  {
    var j := ReadingSegment(z, wall, offset);
    var first := FirstShowing(z, wall, 0);
    assert first.Some? && first.value <= j;
    if first.value < j { SegmentsAreAdjacent(z, wall, first.value, j); }
  }

  lemma TableLookupMaps(z: Zone, wall: int)
    requires z.WellSpaced()
    ensures IsMapping(z, wall, TableLookup(z, wall))
  {
    var first := FirstShowing(z, wall, 0);
    forall o | z.Reads(wall, o)
      ensures first.Some? && (o == z.Offset(first.value) ||
              (first.value < z.Count() && z.InSegment(wall, first.value + 1) && o == z.Offset(first.value + 1)))
    {
      ReadingIsFirstOrNext(z, wall, o);
    }
    if first.Some? {
      var k := first.value;
      assert z.Reads(wall, z.Offset(k)) by { ReadsInSegment(z, wall, k); }
      if k < z.Count() && z.InSegment(wall, k + 1) {
        assert z.Reads(wall, z.Offset(k + 1)) by { ReadsInSegment(z, wall, k + 1); }
        assert z.Offset(k + 1) < z.Offset(k) by { SegmentsAreAdjacent(z, wall, k, k + 1); }
      }
    }
  }

  // ---------------------------------------------------------------- wall clocks with a reading

  // `instant` renders as `wall` and no earlier instant does.
  ghost predicate EarliestReading(z: Zone, wall: int, instant: int) {
    z.LocalOf(instant) == wall && forall i :: z.LocalOf(i) == wall ==> instant <= i
  }

  // The largest offset `wall` can be read under.
  ghost predicate LargestOffset(z: Zone, wall: int, offset: int) {
    z.Reads(wall, offset) && forall p :: z.Reads(wall, p) ==> p <= offset
  }

  lemma InstantReads(z: Zone, wall: int, instant: int)
    ensures z.LocalOf(instant) == wall <==> z.Reads(wall, wall - instant)
    ensures z.LocalOf(instant) == wall ==> z.OffsetAt(instant) == wall - instant
  {}

  lemma EarliestHasLargestOffset(z: Zone, wall: int, instant: int)
    ensures EarliestReading(z, wall, instant) <==> LargestOffset(z, wall, wall - instant)
  {
    InstantReads(z, wall, instant);
    if EarliestReading(z, wall, instant) {
      forall p | z.Reads(wall, p) ensures p <= wall - instant {
        InstantReads(z, wall, wall - p);
      }
    }
    if LargestOffset(z, wall, wall - instant) {
      forall i | z.LocalOf(i) == wall ensures instant <= i {
        InstantReads(z, wall, i);
      }
    }
  }

  // The offset the resolver takes for a wall clock that has a reading.
  function ChosenOffset(m: MappedLocalTime): int
    requires !m.NoLocalTime?
  {
    match m
    case Single(o) => o
    case Ambiguous(a, b) => if a >= b then a else b
  }

  lemma ChosenIsLargest(z: Zone, lookup: Lookup, wall: int)
    requires Faithful(z, lookup) && z.HasReading(wall)
    ensures !lookup(wall).NoLocalTime? && LargestOffset(z, wall, ChosenOffset(lookup(wall)))
  {}

  /**
   A wall clock with a reading resolves to the least instant that renders as it,
   whichever order the lookup gives an ambiguous pair in.
   */
  lemma ResolvesToEarliest(z: Zone, lookup: Lookup, wall: Stamp, instant: int)
    requires Faithful(z, lookup) && EarliestReading(z, wall, instant)
    ensures LocalNaiveToUtc(lookup, wall) ==
            if MIN_STAMP <= instant <= MAX_STAMP then Ok(instant) else Err(LocalZoneLookup)
  {
    EarliestHasLargestOffset(z, wall, instant);
    ChosenIsLargest(z, lookup, wall);
    assert ChosenOffset(lookup(wall)) == wall - instant;
  }

  /** A wall clock with a reading has an earliest one. */
  lemma EarliestExists(z: Zone, lookup: Lookup, wall: int) returns (instant: int)
    requires Faithful(z, lookup) && z.HasReading(wall)
    ensures EarliestReading(z, wall, instant)
  {
    ChosenIsLargest(z, lookup, wall);
    instant := wall - ChosenOffset(lookup(wall));
    EarliestHasLargestOffset(z, wall, instant);
  }

  /**
   Rendering an instant and resolving the result never moves it later, and gives
   it back exactly when it does not repeat wall clocks shown before a change. So
   the round trip holds for every instant but the second pass over an overlap.
   */
  lemma ResolveRendered(z: Zone, lookup: Lookup, instant: Stamp)
    requires z.WellSpaced() && Faithful(z, lookup) && LocalWall(z, instant).Some?
    ensures var r := LocalNaiveToUtc(lookup, LocalWall(z, instant).value);
            && (r.Ok? ==> r.value <= instant && z.LocalOf(r.value) == z.LocalOf(instant))
            && (r == Ok(instant) <==> !exists k: nat :: k < z.Count() && z.Repeats(instant, k))
  {
    var wall := LocalWall(z, instant).value;
    InstantReads(z, wall, instant);
    var first := EarliestExists(z, lookup, wall);
    ResolvesToEarliest(z, lookup, wall, first);
    LaterReading(z, instant);
  }

  /** A zone whose clock went back an hour, from an hour ahead of UTC, as 1970 began. */
  function HourBack(): Zone {
    OneChange(NANOS_PER_HOUR, 0, 0)
  }

  /** In the hour after that, rendering an instant and resolving it gives the instant an hour before. */
  lemma OverlapDoesNotRoundTrip(lookup: Lookup, instant: Stamp)
    requires Faithful(HourBack(), lookup) && 0 <= instant < NANOS_PER_HOUR
    ensures HourBack().WellSpaced() && LocalWall(HourBack(), instant) == Some(instant)
    ensures LocalNaiveToUtc(lookup, instant) == Ok(instant - NANOS_PER_HOUR)
  {
    forall i: int ensures HourBack().LocalOf(i) == i + if i < 0 then NANOS_PER_HOUR else 0 {
      OneChangeShows(NANOS_PER_HOUR, 0, 0, i);
    }
    OneChangeShows(NANOS_PER_HOUR, 0, 0, instant);
    ResolvesToEarliest(HourBack(), lookup, instant, instant - NANOS_PER_HOUR);
  }

  // ---------------------------------------------------------------- skipped wall clocks

  // Hourly steps back from `wall` out of gap `k`.
  function StepsOutOfGap(z: Zone, wall: int, k: nat): (n: int)
    requires k < z.Count() && z.InGap(wall, k)
    ensures 1 <= n
    ensures Back(wall, n) < z.LocalEnd(k) <= Back(wall, n - 1)
  {
    (wall - z.LocalEnd(k)) / NANOS_PER_HOUR + 1
  }

  lemma StepsFitTheProbes(z: Zone, wall: int, k: nat)
    requires z.WellSpaced() && k < z.Count() && z.InGap(wall, k)
    ensures StepsOutOfGap(z, wall, k) < PROBES
  {
    assert z.LocalEnd(k) - z.LocalStart(k + 1) == z.Offset(k) - z.Offset(k + 1);
  }

  // One probe: nothing is read inside the gap, the offset before it in the hour before.
  lemma OneProbe(z: Zone, lookup: Lookup, wall: int, k: nat)
    requires z.WellSpaced() && Faithful(z, lookup)
    requires k < z.Count() && z.InGap(wall, k)
    ensures ProbeOffset(lookup(Back(wall, 1))) ==
            if z.InGap(Back(wall, 1), k) then None else Some(z.Offset(k))
  {
    var back := Back(wall, 1);
    assert IsMapping(z, back, lookup(back));
    if z.InGap(back, k) {
      GapHasNoReading(z, back, k);
    } else {
      HourBeforeGap(z, back, k);
      assert z.Reads(back, z.Offset(k));
      match lookup(back)
      case Single(_) =>
      case Ambiguous(_, _) => assert false;
      case NoLocalTime =>
    }
  }

  lemma StepOfGapOffset(lookup: Lookup, wall: Stamp, turns: nat)
    requires 0 < turns
    ensures var back := Back(wall, 1);
            GapOffset(lookup, wall, turns) ==
            if back < MIN_STAMP then Err(LocalZoneLookup)
            else match ProbeOffset(lookup(back))
                 case Some(o) => Ok(o)
                 case None => GapOffset(lookup, back, turns - 1)
  {}

  lemma OneStepLess(z: Zone, wall: int, k: nat)
    requires k < z.Count() && z.InGap(wall, k)
    ensures var back := Back(wall, 1);
            if z.InGap(back, k) then StepsOutOfGap(z, back, k) == StepsOutOfGap(z, wall, k) - 1
            else StepsOutOfGap(z, wall, k) == 1
  {}

  /** The backwards search leaves the gap in the hour before it and finds the offset there. */
  lemma {:induction false} GapOffsetIsBefore(z: Zone, lookup: Lookup, wall: Stamp, k: nat, turns: nat)
    requires z.WellSpaced() && Faithful(z, lookup)
    requires k < z.Count() && z.InGap(wall, k)
    requires StepsOutOfGap(z, wall, k) <= turns
    ensures GapOffset(lookup, wall, turns) ==
            if MIN_STAMP <= Back(wall, StepsOutOfGap(z, wall, k))
            then Ok(z.Offset(k)) else Err(LocalZoneLookup)
    decreases turns
  {
    hide GapOffset, Zone.WellSpaced, Faithful, IsMapping;
    var back := Back(wall, 1);
    OneProbe(z, lookup, wall, k);
    OneStepLess(z, wall, k);
    StepOfGapOffset(lookup, wall, turns);
    if z.InGap(back, k) && back >= MIN_STAMP {
      GapOffsetIsBefore(z, lookup, back, k, turns - 1);
      assert Back(back, StepsOutOfGap(z, back, k)) == Back(wall, StepsOutOfGap(z, wall, k));
    }
  }

  /** The instant a gap resolves to follows the change and renders past the gap. */
  lemma GapInstant(z: Zone, wall: int, k: nat)
    requires z.WellSpaced() && k < z.Count() && z.InGap(wall, k)
    ensures var instant := wall - z.Offset(k);
            var gap := z.Offset(k + 1) - z.Offset(k);
            && z.transitions[k].at <= instant < z.transitions[k].at + gap
            && z.LocalOf(instant) == wall + gap
  {
    assert z.LocalEnd(k) - z.LocalStart(k + 1) == z.Offset(k) - z.Offset(k + 1);
    if k + 1 < z.Count() { StepChange(z, k + 1); }
    SegmentIs(z, wall - z.Offset(k), k + 1);
  }

  /**
   A wall clock inside a gap resolves through the offset before the gap, to an
   instant after the change that renders as the wall clock plus exactly the gap.
   The only failures are probes and instants outside the representable range.
   */
  lemma ResolvesGapForward(z: Zone, lookup: Lookup, wall: Stamp, k: nat)
    requires z.WellSpaced() && Faithful(z, lookup)
    requires k < z.Count() && z.InGap(wall, k)
    ensures var instant := wall - z.Offset(k);
            var gap := z.Offset(k + 1) - z.Offset(k);
            && z.transitions[k].at <= instant < z.transitions[k].at + gap
            && z.LocalOf(instant) == wall + gap
            && LocalNaiveToUtc(lookup, wall) ==
               if MIN_STAMP <= Back(wall, StepsOutOfGap(z, wall, k)) && MIN_STAMP <= instant <= MAX_STAMP
               then Ok(instant) else Err(LocalZoneLookup)
  {
    assert lookup(wall) == NoLocalTime by {
      assert IsMapping(z, wall, lookup(wall));
      GapHasNoReading(z, wall, k);
    }
    GapInstant(z, wall, k);
    StepsFitTheProbes(z, wall, k);
    GapOffsetIsBefore(z, lookup, wall, k, PROBES);
  }

  // ---------------------------------------------------------------- the doctrine as a whole

  // What the resolver promises of a wall clock's instant.
  ghost predicate Compatible(z: Zone, wall: int, instant: int) {
    || EarliestReading(z, wall, instant)
    || (exists k: nat :: k < z.Count() && z.InGap(wall, k) && instant == wall - z.Offset(k))
  }

  lemma CompatibleReading(z: Zone, wall: int, first: int, instant: int)
    requires z.WellSpaced() && EarliestReading(z, wall, first)
    ensures Compatible(z, wall, instant) <==> instant == first
  {
    InstantReads(z, wall, first);
    if Compatible(z, wall, instant) && !EarliestReading(z, wall, instant) {
      var k: nat :| k < z.Count() && z.InGap(wall, k);
      GapHasNoReading(z, wall, k);
    }
  }

  lemma ReadWallsResolve(z: Zone, lookup: Lookup, wall: Stamp)
    requires z.WellSpaced() && Faithful(z, lookup) && z.HasReading(wall)
    requires MIN_STAMP + NANOS_PER_DAY <= wall <= MAX_STAMP - NANOS_PER_DAY
    ensures var r := LocalNaiveToUtc(lookup, wall);
            r.Ok? && forall i :: Compatible(z, wall, i) <==> i == r.value
  {
    var first := EarliestExists(z, lookup, wall);
    assert -NANOS_PER_DAY < z.OffsetAt(first) < NANOS_PER_DAY;
    InstantReads(z, wall, first);
    ResolvesToEarliest(z, lookup, wall, first);
    forall i ensures Compatible(z, wall, i) <==> i == first {
      CompatibleReading(z, wall, first, i);
    }
  }

  lemma SkippedWallsResolve(z: Zone, lookup: Lookup, wall: Stamp, k: nat)
    requires z.WellSpaced() && Faithful(z, lookup) && k < z.Count() && z.InGap(wall, k)
    requires MIN_STAMP + NANOS_PER_DAY <= wall <= MAX_STAMP - NANOS_PER_DAY
    ensures var r := LocalNaiveToUtc(lookup, wall);
            r.Ok? && forall i :: Compatible(z, wall, i) <==> i == r.value
  {
    ResolvesGapForward(z, lookup, wall, k);
    StepsFitTheProbes(z, wall, k);
    forall i | Compatible(z, wall, i) ensures i == wall - z.Offset(k) {
      CompatibleInGap(z, wall, i, k);
    }
  }

  /**
   Resolution never fails on a change of offset: a day inside the representable
   range every wall clock has one compatible instant and resolves to it.
   */
  lemma ResolutionIsTotal(z: Zone, lookup: Lookup, wall: Stamp)
    requires z.WellSpaced() && Faithful(z, lookup)
    requires MIN_STAMP + NANOS_PER_DAY <= wall <= MAX_STAMP - NANOS_PER_DAY
    ensures var r := LocalNaiveToUtc(lookup, wall);
            r.Ok? && forall i :: Compatible(z, wall, i) <==> i == r.value
  {
    NoReadingIffGap(z, wall);
    if z.HasReading(wall) {
      ReadWallsResolve(z, lookup, wall);
    } else {
      var k: nat :| k < z.Count() && z.InGap(wall, k);
      SkippedWallsResolve(z, lookup, wall, k);
    }
  }

  lemma CompatibleInGap(z: Zone, wall: int, instant: int, k: nat)
    requires z.WellSpaced() && k < z.Count() && z.InGap(wall, k)
    requires Compatible(z, wall, instant)
    ensures instant == wall - z.Offset(k)
  {
    GapHasNoReading(z, wall, k);
    InstantReads(z, wall, instant);
    var j: nat :| j < z.Count() && z.InGap(wall, j) && instant == wall - z.Offset(j);
    OneGap(z, wall, j, k);
  }

  /** The compatible instant of a wall clock, by the zone's table alone. */
  lemma CompatibleOffset(z: Zone, wall: int, instant: int)
    requires z.WellSpaced() && Compatible(z, wall, instant)
    ensures instant == wall - z.ResolvingOffset(wall)
  {
    var k := z.ResolvingSegment(wall, 0);
    ResolvingSegmentCovers(z, wall);
    if k < z.Count() && z.InGap(wall, k) {
      CompatibleInGap(z, wall, instant, k);
    } else {
      FirstReadingIsEarliest(z, wall, k);
      CompatibleReading(z, wall, wall - z.Offset(k), instant);
    }
  }

  lemma FirstReadingIsEarliest(z: Zone, wall: int, k: nat)
    requires z.WellSpaced() && k <= z.Count() && z.InSegment(wall, k)
    requires forall j :: 0 <= j < k ==> z.Past(wall, j)
    ensures EarliestReading(z, wall, wall - z.Offset(k))
  {
    ReadsInSegment(z, wall, k);
    forall p | z.Reads(wall, p) ensures p <= z.Offset(k) {
      var j := ReadingSegment(z, wall, p);
      var m := if j < k then j else k;
      assert m < k ==> z.Past(wall, m);
      if k < j { SegmentsAreAdjacent(z, wall, k, j); }
    }
    EarliestHasLargestOffset(z, wall, wall - z.Offset(k));
  }
}
