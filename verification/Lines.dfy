/** Byte position to line number: `LineIndex` of `src/position.rs`. */
module Lines {
  import opened Text

  const U32_MAX: nat := 0xFFFF_FFFF

  /** `BytePos::saturating_from`. */
  function Saturating(n: nat): nat {
    if n <= U32_MAX then n else U32_MAX
  }

  /** The line starts of the first `i` characters: byte 0 and the byte after each newline. */
  function Starts(source: string, i: nat): (r: seq<nat>)
    requires i <= |source|
    ensures |r| == 1 + Newlines(source, i)
  {
    if i == 0 then [0]
    else
      Starts(source, i - 1)
      + if source[i - 1] == '\n' then [Saturating(ByteLen(source[..i - 1]) + 1)] else []
  }

  /** Newlines among the first `i` characters whose byte offset is below `pos`. */
  function NewlinesBefore(source: string, i: nat, pos: nat): nat
    requires i <= |source|
  {
    if i == 0 then 0
    else
      NewlinesBefore(source, i - 1, pos)
      + if source[i - 1] == '\n' && ByteLen(source[..i - 1]) < pos then 1 else 0
  }

  function Newlines(source: string, i: nat): nat
    requires i <= |source|
  {
    if i == 0 then 0 else Newlines(source, i - 1) + if source[i - 1] == '\n' then 1 else 0
  }

  predicate Sorted(s: seq<nat>) {
    forall j, k :: 0 <= j < k < |s| ==> s[j] <= s[k]
  }

  /** Starts at or before `pos`, in a sorted sequence. */
  ghost predicate IsPartition(s: seq<nat>, pos: nat, k: nat) {
    k <= |s| && (forall j :: 0 <= j < k ==> s[j] <= pos) && forall j :: k <= j < |s| ==> pos < s[j]
  }

  method NewLineIndex(source: string) returns (starts: seq<nat>)
    ensures starts == Starts(source, |source|)
    ensures Sorted(starts) && |starts| > 0 && starts[0] == 0
  {
    starts := [0];
    var i, at := 0, 0;
    while i < |source|
      invariant i <= |source|
      invariant at == ByteLen(source[..i])
      invariant starts == Starts(source, i)
    {
      ByteLenStep(source, i);
      if source[i] == '\n' {
        starts := starts + [Saturating(at + 1)];
      }
      at := at + Utf8Len(source[i]);
      i := i + 1;
    }
    StartsAreSorted(source, i);
  }

  /** `partition_point`: halve until one place is left. */
  method PartitionPoint(starts: seq<nat>, pos: nat) returns (k: nat)
    requires Sorted(starts)
    ensures IsPartition(starts, pos, k)
  {
    var low, high := 0, |starts|;
    while low < high
      invariant low <= high <= |starts|
      invariant forall j :: 0 <= j < low ==> starts[j] <= pos
      invariant forall j :: high <= j < |starts| ==> pos < starts[j]
    {
      var mid := (low + high) / 2;
      if starts[mid] <= pos {
        low := mid + 1;
      } else {
        high := mid;
      }
    }
    k := low;
  }

  /** The 1-indexed line of byte `pos` in `source`. */
  method LineAt(source: string, starts: seq<nat>, pos: nat) returns (line: nat)
    requires starts == Starts(source, |source|) && pos <= U32_MAX
    ensures pos < U32_MAX ==> line == 1 + NewlinesBefore(source, |source|, pos)
    ensures pos == U32_MAX ==> line == Saturating(1 + Newlines(source, |source|))
    ensures 1 <= line <= U32_MAX
  {
    StartsAreSorted(source, |source|);
    var k := PartitionPoint(starts, pos);
    line := if k <= U32_MAX then k else U32_MAX;
    PartitionCountsLines(source, |source|, pos, k);
    if pos < U32_MAX { FewNewlinesBefore(source, |source|, pos); }
  }

  // ---------------------------------------------------------------- why the count is right

  lemma {:induction false} StartsAreSorted(source: string, i: nat)
    requires i <= |source|
    ensures Sorted(Starts(source, i)) && Starts(source, i)[0] == 0
    ensures forall k :: 0 <= k < |Starts(source, i)| ==> Starts(source, i)[k] <= Saturating(ByteLen(source[..i]))
  {
    if i > 0 {
      StartsAreSorted(source, i - 1);
      ByteLenStep(source, i - 1);
    }
  }

  /** One place splits a sorted sequence at `pos`. */
  lemma PartitionIsUnique(s: seq<nat>, pos: nat, j: nat, k: nat)
    requires IsPartition(s, pos, j) && IsPartition(s, pos, k)
    ensures j == k
  {
    var m := if j < k then j else k;
    assert m < |s| ==> s[m] <= pos || pos < s[m];
  }

  lemma {:induction false} StartsPartition(source: string, i: nat, pos: nat)
    requires i <= |source| && pos < U32_MAX
    ensures IsPartition(Starts(source, i), pos, 1 + NewlinesBefore(source, i, pos))
    decreases i
  {
    if i > 0 {
      StartsPartition(source, i - 1, pos);
      StartsAreSorted(source, i);
      if source[i - 1] == '\n' {
        var before, all := Starts(source, i - 1), Starts(source, i);
        assert all[|before|] == Saturating(ByteLen(source[..i - 1]) + 1);
        if all[|before|] <= pos { AllBefore(before, all, pos, 1 + NewlinesBefore(source, i - 1, pos)); }
      }
    }
  }

  /** A sorted sequence whose last entry is at most `pos` lies wholly before the split. */
  lemma AllBefore(before: seq<nat>, all: seq<nat>, pos: nat, k: nat)
    requires before != [] && |all| == |before| + 1 && before == all[..|before|]
    requires Sorted(all) && all[|before|] <= pos && IsPartition(before, pos, k)
    ensures k == |before| && IsPartition(all, pos, k + 1)
  {
    forall j | 0 <= j < |before| ensures before[j] <= pos {
      assert before[j] == all[j];
    }
    var m := if k < |before| then k else |before| - 1;
    assert before[m] <= pos;
  }

  lemma PartitionCountsLines(source: string, i: nat, pos: nat, k: nat)
    requires i <= |source| && pos <= U32_MAX && IsPartition(Starts(source, i), pos, k)
    ensures pos < U32_MAX ==> k == 1 + NewlinesBefore(source, i, pos)
    ensures pos == U32_MAX ==> k == 1 + Newlines(source, i)
  {
    StartsAreSorted(source, i);
    if pos < U32_MAX {
      StartsPartition(source, i, pos);
      PartitionIsUnique(Starts(source, i), pos, k, 1 + NewlinesBefore(source, i, pos));
    } else {
      var all := Starts(source, i);
      var m := if k < |all| then k else |all| - 1;
      assert all[m] <= pos;
    }
  }

  lemma {:induction false} FewNewlinesBefore(source: string, i: nat, pos: nat)
    requires i <= |source|
    ensures NewlinesBefore(source, i, pos) <= pos
    ensures NewlinesBefore(source, i, pos) <= ByteLen(source[..i])
  {
    if i > 0 {
      FewNewlinesBefore(source, i - 1, pos);
      ByteLenStep(source, i - 1);
    }
  }

  /** Past the end of the source, every position is on the last line. */
  lemma {:induction false} PastEndIsLastLine(source: string, i: nat, pos: nat)
    requires i <= |source| && ByteLen(source[..i]) <= pos
    ensures NewlinesBefore(source, i, pos) == Newlines(source, i)
  {
    if i > 0 {
      ByteLenStep(source, i - 1);
      PastEndIsLastLine(source, i - 1, pos);
    }
  }
}
