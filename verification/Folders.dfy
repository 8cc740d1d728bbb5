/** Distance between folders in the tree of relative paths: `src/path.rs`. */
module Folders {

  // A folder is the components of its path; the root has none.
  type Folder = seq<string>

  function Shared(a: Folder, b: Folder): (n: nat)
    ensures n <= |a| && n <= |b| && a[..n] == b[..n]
    ensures n < |a| && n < |b| ==> a[n] != b[n]
  {
    if a == [] || b == [] || a[0] != b[0] then 0
    else
      var n := Shared(a[1..], b[1..]);
      assert a[..n + 1] == [a[0]] + a[1..][..n] && b[..n + 1] == [b[0]] + b[1..][..n];
      n + 1
  }

  /** Hops up from `a` to the nearest shared ancestor and down to `b`. */
  function Distance(a: Folder, b: Folder): nat {
    |a| + |b| - 2 * Shared(a, b)
  }

  lemma AgreeAt(a: Folder, b: Folder, n: nat)
    requires n <= |a| && n <= |b| && a[..n] == b[..n]
    ensures forall k :: 0 <= k < n ==> a[k] == b[k]
  {}

  /** Agreement up to a place where the folders part, or one ends, is all they share. */
  lemma SharedIs(a: Folder, b: Folder, n: nat)
    requires n <= |a| && n <= |b| && a[..n] == b[..n]
    requires n < |a| && n < |b| ==> a[n] != b[n]
    ensures Shared(a, b) == n
  {
    AgreeAt(a, b, n);
    AgreeAt(a, b, Shared(a, b));
  }

  lemma SharedAtLeast(a: Folder, b: Folder, n: nat)
    requires n <= |a| && n <= |b| && a[..n] == b[..n]
    ensures Shared(a, b) >= n
  {}

  method DistanceTo(a: Folder, b: Folder) returns (d: nat)
    ensures d == Distance(a, b)
  {
    var i, j, shared := 0, 0, 0;
    var aCount, bCount := 0, 0;
    var matching := true;
    while true
      invariant i == j == aCount == bCount && i <= |a| && i <= |b|
      invariant shared <= i && a[..shared] == b[..shared]
      invariant matching ==> shared == i
      invariant !matching ==> shared < i && a[shared] != b[shared]
      decreases |a| - i
    {
      if i < |a| && j < |b| {
        aCount, bCount := aCount + 1, bCount + 1;
        if matching && a[i] == b[j] {
          assert a[..i + 1] == a[..i] + [a[i]] && b[..i + 1] == b[..i] + [b[i]];
          shared := shared + 1;
        } else {
          matching := false;
        }
        i, j := i + 1, j + 1;
      } else if i < |a| {
        aCount := aCount + 1 + (|a| - (i + 1));
        break;
      } else if j < |b| {
        bCount := bCount + 1 + (|b| - (j + 1));
        break;
      } else {
        break;
      }
    }
    SharedIs(a, b, shared);
    d := SaturatingSub(aCount, shared) + SaturatingSub(bCount, shared);
  }

  function SaturatingSub(x: nat, y: nat): nat {
    if x >= y then x - y else 0
  }

  // ---------------------------------------------------------------- a metric

  lemma ZeroIffSame(a: Folder, b: Folder)
    ensures Distance(a, b) == 0 <==> a == b
  {
    if a == b { SharedIs(a, b, |a|); }
    if Distance(a, b) == 0 { assert a == a[..|a|] && b == b[..|b|]; }
  }

  lemma Symmetric(a: Folder, b: Folder)
    ensures Distance(a, b) == Distance(b, a)
  {
    SharedIs(b, a, Shared(a, b));
  }

  lemma Triangle(a: Folder, b: Folder, c: Folder)
    ensures Distance(a, c) <= Distance(a, b) + Distance(b, c)
  {
    var m, n := Shared(a, b), Shared(b, c);
    var k := if m <= n then m else n;
    assert a[..k] == a[..m][..k] == b[..m][..k] == b[..k];
    assert b[..k] == b[..n][..k] == c[..n][..k] == c[..k];
    SharedAtLeast(a, c, k);
  }

  // ---------------------------------------------------------------- hops

  predicate IsParent(p: Folder, q: Folder) {
    |q| == |p| + 1 && q[..|p|] == p
  }

  /** One hop goes to the parent or to a child. */
  predicate Hop(p: Folder, q: Folder) {
    IsParent(p, q) || IsParent(q, p)
  }

  /** A walk through the folder tree, both ends included. */
  predicate Walk(walk: seq<Folder>) {
    walk != [] && forall i :: 0 <= i < |walk| - 1 ==> Hop(walk[i], walk[i + 1])
  }

  lemma HopIsOne(p: Folder, q: Folder)
    requires Hop(p, q)
    ensures Distance(p, q) == 1
  {}

  /** No walk between two folders is shorter than their distance. */
  lemma {:induction false} NoWalkIsShorter(walk: seq<Folder>)
    requires Walk(walk)
    ensures Distance(walk[0], walk[|walk| - 1]) <= |walk| - 1
    decreases |walk|
  {
    if |walk| == 1 {
      ZeroIffSame(walk[0], walk[0]);
    } else {
      var init := walk[..|walk| - 1];
      NoWalkIsShorter(init);
      HopIsOne(walk[|walk| - 2], walk[|walk| - 1]);
      Triangle(walk[0], walk[|walk| - 2], walk[|walk| - 1]);
    }
  }

  /** The walk from `a` up to its ancestor with `n` components. */
  function Climb(a: Folder, n: nat): seq<Folder>
    requires n <= |a|
    decreases |a| - n
  {
    if n == |a| then [a] else Climb(a, n + 1) + [a[..n]]
  }

  lemma {:induction false} ClimbIsWalk(a: Folder, n: nat)
    requires n <= |a|
    ensures var walk := Climb(a, n);
            Walk(walk) && |walk| == |a| - n + 1 && walk[0] == a && walk[|walk| - 1] == a[..n]
    decreases |a| - n
  {
    if n == |a| {
      assert a[..n] == a;
    } else {
      ClimbIsWalk(a, n + 1);
      assert a[..n + 1][..n] == a[..n];
    }
  }

  function Reversed(walk: seq<Folder>): (r: seq<Folder>)
    ensures |r| == |walk| && forall i :: 0 <= i < |r| ==> r[i] == walk[|walk| - 1 - i]
  {
    seq(|walk|, i requires 0 <= i < |walk| => walk[|walk| - 1 - i])
  }

  /** A walk as short as the distance exists: up to the shared ancestor, then down. */
  lemma ShortestWalkExists(a: Folder, b: Folder) returns (walk: seq<Folder>)
    ensures Walk(walk) && walk[0] == a && walk[|walk| - 1] == b
    ensures |walk| - 1 == Distance(a, b)
  {
    var n := Shared(a, b);
    var up, down := Climb(a, n), Reversed(Climb(b, n));
    ClimbIsWalk(a, n);
    ClimbIsWalk(b, n);
    walk := up + down[1..];
    forall i | 0 <= i < |walk| - 1 ensures Hop(walk[i], walk[i + 1]) {
      if i < |up| - 1 {
        assert Hop(up[i], up[i + 1]);
      } else {
        var k := i - (|up| - 1);
        assert walk[i] == down[k] && walk[i + 1] == down[k + 1];
        assert Hop(Climb(b, n)[|down| - 2 - k], Climb(b, n)[|down| - 1 - k]);
      }
    }
  }
}
