/**
 A local time zone as a table of offset changes, what it means for an instant to
 read as a wall clock, and how readings, overlaps and gaps lie around the changes.
 */
module Zones {
  import opened Walls

  /** From instant `at` on, local time is UTC plus `offset` nanoseconds. */
  datatype Transition = Transition(at: int, offset: int)

  datatype Zone = Zone(initial: int, transitions: seq<Transition>) {
    // The zone's `Count() + 1` segments of constant offset, oldest first.
    function Count(): nat { |transitions| }

    function Offset(k: nat): int
      requires k <= Count()
    {
      if k == 0 then initial else transitions[k - 1].offset
    }

    // Wall clock at which segment `k` begins.
    function LocalStart(k: nat): int
      requires 0 < k <= Count()
    {
      transitions[k - 1].at + Offset(k)
    }

    // Wall clock at which segment `k` would end if its offset stayed.
    function LocalEnd(k: nat): int
      requires k < Count()
    {
      transitions[k].at + Offset(k)
    }

    // Changes at least two days apart, each of at most a day, offsets under a day.
    ghost predicate WellSpaced() {
      && (forall k {:trigger LocalStart(k)} :: 0 < k < Count() ==>
            transitions[k].at - transitions[k - 1].at >= 2 * NANOS_PER_DAY)
      && (forall k {:trigger LocalEnd(k)} :: 0 <= k < Count() ==>
            -NANOS_PER_DAY <= Offset(k + 1) - Offset(k) <= NANOS_PER_DAY)
      && (forall k {:trigger Offset(k)} :: 0 <= k <= Count() ==>
            -NANOS_PER_DAY < Offset(k) < NANOS_PER_DAY)
    }

    /** Number of changes at or before `instant`. */
    function Segment(instant: int): (k: nat)
      ensures k <= Count()
      ensures k > 0 ==> transitions[k - 1].at <= instant
      ensures forall j :: k <= j < Count() ==> instant < transitions[j].at
    {
      SegmentUpTo(instant, Count())
    }

    function SegmentUpTo(instant: int, n: nat): (k: nat)
      requires n <= Count()
      ensures k <= n
      ensures k > 0 ==> transitions[k - 1].at <= instant
      ensures forall j :: k <= j < n ==> instant < transitions[j].at
    {
      if n == 0 || transitions[n - 1].at <= instant then n else SegmentUpTo(instant, n - 1)
    }

    /** The zone's offset at an instant. */
    function OffsetAt(instant: int): int {
      Offset(Segment(instant))
    }

    /** The wall clock an instant renders as. */
    function LocalOf(instant: int): int {
      instant + OffsetAt(instant)
    }

    /** The instant `wall - offset` renders as `wall`. */
    predicate Reads(wall: int, offset: int) {
      OffsetAt(wall - offset) == offset
    }

    ghost predicate HasReading(wall: int) {
      exists offset :: Reads(wall, offset)
    }

    // `wall` is shown by the clock during segment `k`.
    predicate InSegment(wall: int, k: nat)
      requires k <= Count()
    {
      (k > 0 ==> LocalStart(k) <= wall) && (k < Count() ==> wall < LocalEnd(k))
    }

    // `wall` is skipped when change `k` moves the clock forward.
    predicate InGap(wall: int, k: nat)
      requires k < Count()
    {
      LocalEnd(k) <= wall < LocalStart(k + 1)
    }

    /** How far the clock jumps over `wall`: the length of the gap that skips it, or nothing. */
    function Skip(wall: int): int {
      SkipFrom(wall, 0)
    }

    function SkipFrom(wall: int, k: nat): int
      requires k <= Count()
      decreases Count() - k
    {
      if k == Count() then 0
      else if InGap(wall, k) then Offset(k + 1) - Offset(k)
      else SkipFrom(wall, k + 1)
    }

    /** The offset of the first segment that shows `wall`, or whose end skips it. */
    function ResolvingOffset(wall: int): int {
      Offset(ResolvingSegment(wall, 0))
    }

    // `wall` comes after segment `k` and after the gap, if any, that ends it.
    predicate Past(wall: int, k: nat)
      requires k < Count()
    {
      LocalEnd(k) <= wall && LocalStart(k + 1) <= wall
    }

    // The first segment from `k` on that `wall` does not come after.
    function ResolvingSegment(wall: int, k: nat): (r: nat)
      requires k <= Count()
      ensures k <= r <= Count()
      ensures r < Count() ==> !Past(wall, r)
      ensures forall j :: k <= j < r ==> Past(wall, j)
      decreases Count() - k
    {
      if k == Count() || !Past(wall, k) then k
      else ResolvingSegment(wall, k + 1)
    }

    // `instant` follows change `k` and repeats wall clocks shown before it.
    predicate Repeats(instant: int, k: nat)
      requires k < Count()
    {
      transitions[k].at <= instant < transitions[k].at + Offset(k) - Offset(k + 1)
    }
  }

  // ---------------------------------------------------------------- geometry

  /** A zone with one change. */
  function OneChange(before: int, at: int, after: int): Zone {
    Zone(before, [Transition(at, after)])
  }

  lemma OneChangeShows(before: int, at: int, after: int, instant: int)
    requires -NANOS_PER_DAY < before < NANOS_PER_DAY && -NANOS_PER_DAY < after < NANOS_PER_DAY
    requires -NANOS_PER_DAY <= after - before <= NANOS_PER_DAY
    ensures OneChange(before, at, after).WellSpaced()
    ensures OneChange(before, at, after).LocalOf(instant) == instant + if instant < at then before else after
  {
    var z := OneChange(before, at, after);
    assert z.Count() == 1 && z.Offset(0) == before && z.Offset(1) == after;
  }

  lemma {:induction false} ChangesInOrder(z: Zone, j: nat, k: nat)
    requires z.WellSpaced() && j < k < z.Count()
    ensures z.transitions[j].at + 2 * NANOS_PER_DAY <= z.transitions[k].at
    ensures z.LocalEnd(j) < z.LocalEnd(k)
    ensures z.LocalStart(j + 1) < z.LocalStart(k + 1)
    decreases k
  {
    if j + 1 < k { ChangesInOrder(z, j, k - 1); }
    StepChange(z, k);
  }

  lemma StepChange(z: Zone, k: nat)
    requires z.WellSpaced() && 0 < k < z.Count()
    ensures z.transitions[k - 1].at + 2 * NANOS_PER_DAY <= z.transitions[k].at
    ensures z.LocalEnd(k - 1) + NANOS_PER_DAY <= z.LocalEnd(k)
    ensures z.LocalStart(k) + NANOS_PER_DAY <= z.LocalStart(k + 1)
    ensures z.LocalEnd(k - 1) <= z.LocalStart(k + 1)
    ensures z.LocalStart(k) + 2 * NANOS_PER_DAY <= z.LocalEnd(k)
  {}

  /** An instant lies in segment `k` exactly when it falls between its two changes. */
  lemma SegmentIs(z: Zone, instant: int, k: nat)
    requires z.WellSpaced() && k <= z.Count()
    ensures z.Segment(instant) == k <==>
            (k > 0 ==> z.transitions[k - 1].at <= instant) &&
            (k < z.Count() ==> instant < z.transitions[k].at)
  {
    var s := z.Segment(instant);
    if s < k && s < k - 1 { ChangesInOrder(z, s, k - 1); }
    if k < s && k < s - 1 { ChangesInOrder(z, k, s - 1); }
  }

  lemma ReadsInSegment(z: Zone, wall: int, k: nat)
    requires z.WellSpaced() && k <= z.Count()
    ensures z.InSegment(wall, k) <==> z.Segment(wall - z.Offset(k)) == k
    ensures z.InSegment(wall, k) ==> z.Reads(wall, z.Offset(k))
  {
    SegmentIs(z, wall - z.Offset(k), k);
  }

  /** A reading is a segment whose clock shows the wall. */
  lemma ReadingSegment(z: Zone, wall: int, offset: int) returns (k: nat)
    requires z.WellSpaced() && z.Reads(wall, offset)
    ensures k == z.Segment(wall - offset)
    ensures k <= z.Count() && z.Offset(k) == offset && z.InSegment(wall, k)
  {
    k := z.Segment(wall - offset);
    ReadsInSegment(z, wall, k);
  }

  /** A wall clock is shown in at most two segments, and then in adjacent ones. */
  lemma SegmentsAreAdjacent(z: Zone, wall: int, j: nat, k: nat)
    requires z.WellSpaced() && j < k <= z.Count()
    requires z.InSegment(wall, j) && z.InSegment(wall, k)
    ensures k == j + 1 && z.Offset(k) < z.Offset(j)
  {
    if j + 1 < k {
      StepChange(z, j + 1);
      if j + 2 < k { ChangesInOrder(z, j + 1, k - 1); }
    }
  }

  lemma {:induction false} EarlierStart(z: Zone, j: nat, k: nat)
    requires z.WellSpaced() && 0 < j <= k <= z.Count()
    ensures z.LocalStart(j) <= z.LocalStart(k)
  {
    if j < k { ChangesInOrder(z, j - 1, k - 1); }
  }

  // ---------------------------------------------------------------- gaps

  /** Inside a gap nothing is read. */
  lemma GapHasNoReading(z: Zone, wall: int, k: nat)
    requires z.WellSpaced() && k < z.Count() && z.InGap(wall, k)
    ensures !z.HasReading(wall)
  {
    if offset :| z.Reads(wall, offset) {
      var j := ReadingSegment(z, wall, offset);
      if j <= k {
        if j < k { ChangesInOrder(z, j, k); }
      } else {
        EarlierStart(z, k + 1, j);
      }
      assert false;
    }
  }

  /** A wall clock no segment shows was skipped by one change. */
  lemma {:induction false} FindGap(z: Zone, wall: int, n: nat) returns (k: nat)
    requires z.WellSpaced() && n <= z.Count()
    requires n < z.Count() ==> wall < z.LocalStart(n + 1)
    requires !z.HasReading(wall)
    ensures k < z.Count() && z.InGap(wall, k)
  {
    if n < z.Count() && z.LocalEnd(n) <= wall {
      k := n;
    } else if n > 0 && wall < z.LocalStart(n) {
      k := FindGap(z, wall, n - 1);
    } else {
      ReadsInSegment(z, wall, n);
      assert false;
    }
  }

  /** A wall clock has no reading exactly when some forward change skipped it. */
  lemma NoReadingIffGap(z: Zone, wall: int)
    requires z.WellSpaced()
    ensures !z.HasReading(wall) <==> exists k: nat :: k < z.Count() && z.InGap(wall, k)
  {
    if !z.HasReading(wall) {
      var k := FindGap(z, wall, z.Count());
    } else if k: nat :| k < z.Count() && z.InGap(wall, k) {
      GapHasNoReading(z, wall, k);
    }
  }

  lemma OneGap(z: Zone, wall: int, j: nat, k: nat)
    requires z.WellSpaced() && j < z.Count() && k < z.Count()
    requires z.InGap(wall, j) && z.InGap(wall, k)
    ensures j == k
  {
    if j < k {
      EarlierGap(z, j, k);
    } else if k < j {
      EarlierGap(z, k, j);
    }
  }

  lemma EarlierGap(z: Zone, j: nat, k: nat)
    requires z.WellSpaced() && j < k < z.Count()
    ensures z.LocalStart(j + 1) < z.LocalEnd(k)
  {
    StepChange(z, j + 1);
    if j + 1 < k { ChangesInOrder(z, j + 1, k); }
  }

  /** The jump over a wall clock is the length of the one gap that skips it. */
  lemma {:induction false} SkipOfGap(z: Zone, wall: int, from: nat, k: nat)
    requires z.WellSpaced() && from <= k < z.Count() && z.InGap(wall, k)
    ensures z.SkipFrom(wall, from) == z.Offset(k + 1) - z.Offset(k)
    ensures 0 < z.SkipFrom(wall, from) <= NANOS_PER_DAY
    decreases k - from
  {
    assert z.LocalEnd(k) < z.LocalStart(k + 1);
    if z.InGap(wall, from) {
      OneGap(z, wall, from, k);
    } else {
      SkipOfGap(z, wall, from + 1, k);
    }
  }

  lemma SkipIsGap(z: Zone, wall: int, k: nat)
    requires z.WellSpaced() && k < z.Count() && z.InGap(wall, k)
    ensures z.Skip(wall) == z.Offset(k + 1) - z.Offset(k)
  {
    SkipOfGap(z, wall, 0, k);
  }

  lemma {:induction false} NoSkipWithoutGap(z: Zone, wall: int, from: nat)
    requires z.WellSpaced() && z.HasReading(wall) && from <= z.Count()
    ensures z.SkipFrom(wall, from) == 0
    decreases z.Count() - from
  {
    if from < z.Count() {
      if z.InGap(wall, from) { GapHasNoReading(z, wall, from); }
      NoSkipWithoutGap(z, wall, from + 1);
    }
  }

  /** Only skipped wall clocks are jumped over, by at most a day. */
  lemma SkipIffNoReading(z: Zone, wall: int)
    requires z.WellSpaced()
    ensures z.HasReading(wall) <==> z.Skip(wall) == 0
    ensures 0 <= z.Skip(wall) <= NANOS_PER_DAY
  {
    NoReadingIffGap(z, wall);
    if z.HasReading(wall) {
      NoSkipWithoutGap(z, wall, 0);
    } else {
      var k: nat :| k < z.Count() && z.InGap(wall, k);
      SkipOfGap(z, wall, 0, k);
    }
  }

  lemma ResolvingSegmentCovers(z: Zone, wall: int)
    ensures var k := z.ResolvingSegment(wall, 0);
            z.InSegment(wall, k) || (k < z.Count() && z.InGap(wall, k))
  {
    var k := z.ResolvingSegment(wall, 0);
    if k > 0 { assert z.Past(wall, k - 1); }
  }

  lemma ResolvingSegmentIs(z: Zone, wall: int, k: nat)
    requires k <= z.Count() && (k < z.Count() ==> !z.Past(wall, k))
    requires forall j :: 0 <= j < k ==> z.Past(wall, j)
    ensures z.ResolvingSegment(wall, 0) == k
  {
    var r := z.ResolvingSegment(wall, 0);
    var m := if r < k then r else k;
    assert m < z.Count() ==> z.Past(wall, m) || !z.Past(wall, m);
  }

  /**
   Moving a wall clock forward by up to a day raises its offset by exactly that much
   only across a gap of that length that skips it.
   */
  lemma RisesByJumpIff(z: Zone, wall: int, jump: int)
    requires z.WellSpaced() && 0 < jump <= NANOS_PER_DAY
    ensures z.ResolvingOffset(wall + jump) == z.ResolvingOffset(wall) + jump <==> z.Skip(wall) == jump
  {
    hide Zone.WellSpaced, Zone.Skip;
    var a, b := z.ResolvingSegment(wall, 0), z.ResolvingSegment(wall + jump, 0);
    ResolvingSegmentCovers(z, wall);
    ResolvingSegmentCovers(z, wall + jump);
    if z.InSegment(wall, a) {
      ReadsInSegment(z, wall, a);
      SkipIffNoReading(z, wall);
    } else {
      SkipIsGap(z, wall, a);
    }
    NextSegmentIsLong(z, wall, jump);
    if a < z.Count() && z.InGap(wall, a) && z.Offset(a + 1) - z.Offset(a) == jump {
      ResolvingSegmentIs(z, wall + jump, a + 1);
    }
  }

  // A clock less than a day later resolves in the same segment or the next.
  lemma NextSegmentIsLong(z: Zone, wall: int, jump: int)
    requires z.WellSpaced() && 0 < jump <= NANOS_PER_DAY
    ensures var a, b := z.ResolvingSegment(wall, 0), z.ResolvingSegment(wall + jump, 0);
            && a <= b <= a + 1
            && (a + 1 < z.Count() ==> wall + jump < z.LocalEnd(a + 1))
            && (b == a + 1 ==> z.LocalStart(a + 1) <= wall + jump)
  {
    var a, later := z.ResolvingSegment(wall, 0), wall + jump;
    if a < z.Count() {
      assert z.LocalEnd(a) - z.LocalStart(a + 1) == z.Offset(a) - z.Offset(a + 1);
      assert !z.Past(wall, a);
    }
    if a + 1 < z.Count() {
      StepChange(z, a + 1);
      assert !z.Past(later, a + 1);
    }
    forall j | 0 <= j < a ensures z.Past(later, j) {
      assert z.Past(wall, j);
    }
    if a < z.Count() && z.Past(later, a) {
      ResolvingSegmentIs(z, later, a + 1);
    } else {
      ResolvingSegmentIs(z, later, a);
    }
  }

  /** In the hour before a gap only the offset before the change is read. */
  lemma HourBeforeGap(z: Zone, wall: int, k: nat)
    requires z.WellSpaced() && k < z.Count()
    requires z.LocalEnd(k) - NANOS_PER_HOUR <= wall < z.LocalEnd(k) <= z.LocalStart(k + 1)
    ensures forall offset :: z.Reads(wall, offset) <==> offset == z.Offset(k)
  {
    if k > 0 { StepChange(z, k); }
    ReadsInSegment(z, wall, k);
    forall offset | z.Reads(wall, offset) ensures offset == z.Offset(k) {
      var j := ReadingSegment(z, wall, offset);
      if j < k {
        SegmentsAreAdjacent(z, wall, j, k);
        assert false;
      } else if j > k {
        EarlierStart(z, k + 1, j);
        assert false;
      }
    }
  }

  // ---------------------------------------------------------------- overlaps

  lemma InstantSegment(z: Zone, instant: int) returns (s: nat)
    requires z.WellSpaced()
    ensures s == z.Segment(instant)
    ensures z.InSegment(z.LocalOf(instant), s) && z.LocalOf(instant) - z.Offset(s) == instant
  {
    s := z.Segment(instant);
    assert z.LocalOf(instant) - z.Offset(s) == instant;
    ReadsInSegment(z, z.LocalOf(instant), s);
  }

  lemma LaterReadingRepeats(z: Zone, earlier: int, instant: int) returns (k: nat)
    requires z.WellSpaced() && earlier < instant && z.LocalOf(earlier) == z.LocalOf(instant)
    ensures k < z.Count() && z.Repeats(instant, k)
  {
    k := InstantSegment(z, earlier);
    var s := InstantSegment(z, instant);
    SegmentsDiffer(z, z.LocalOf(instant), k, s);
  }

  lemma RepeatHasEarlier(z: Zone, instant: int, k: nat)
    requires z.WellSpaced() && k < z.Count() && z.Repeats(instant, k)
    ensures var earlier := z.LocalOf(instant) - z.Offset(k);
            earlier < instant && z.LocalOf(earlier) == z.LocalOf(instant)
  {
    RepeatedSegment(z, instant, k);
    ReadsInSegment(z, z.LocalOf(instant), k);
  }

  /** An instant is a second reading exactly when it repeats clocks shown before a change. */
  lemma LaterReading(z: Zone, instant: int)
    requires z.WellSpaced()
    ensures (exists earlier :: earlier < instant && z.LocalOf(earlier) == z.LocalOf(instant)) <==>
            (exists k: nat :: k < z.Count() && z.Repeats(instant, k))
  {
    if earlier :| earlier < instant && z.LocalOf(earlier) == z.LocalOf(instant) {
      var k := LaterReadingRepeats(z, earlier, instant);
    }
    if k: nat :| k < z.Count() && z.Repeats(instant, k) {
      RepeatHasEarlier(z, instant, k);
    }
  }

  lemma SegmentsDiffer(z: Zone, wall: int, j: nat, s: nat)
    requires z.WellSpaced() && j <= z.Count() && s <= z.Count()
    requires z.InSegment(wall, j) && z.InSegment(wall, s)
    requires wall - z.Offset(j) < wall - z.Offset(s)
    ensures s == j + 1
  {
    if s < j { SegmentsAreAdjacent(z, wall, s, j); }
    if j < s { SegmentsAreAdjacent(z, wall, j, s); }
  }

  lemma RepeatedSegment(z: Zone, instant: int, k: nat)
    requires z.WellSpaced() && k < z.Count() && z.Repeats(instant, k)
    ensures z.Segment(instant) == k + 1
    ensures z.InSegment(z.LocalOf(instant), k)
    ensures z.Offset(k + 1) < z.Offset(k)
  {
    assert z.LocalEnd(k) - z.LocalStart(k + 1) == z.Offset(k) - z.Offset(k + 1);
    if k + 1 < z.Count() { StepChange(z, k + 1); }
    SegmentIs(z, instant, k + 1);
    if k > 0 { StepChange(z, k); }
  }
}
