/**
 The framed byte stream behind structured digests: `Blake3Hasher` of `src/hash.rs`
 up to the hash function itself.
 */
module Digest {
  import opened Wrappers

  type Byte = n: nat | n < 256
  type Bytes = seq<Byte>

  function Pow256(k: nat): (n: nat)
    ensures n >= 1
  {
    if k == 0 then 1 else 256 * Pow256(k - 1)
  }

  const WIDTH: nat := 8

  /** One more than the largest `u64`. */
  function Limit(): nat {
    Pow256(WIDTH)
  }

  predicate IsUsize(n: nat) {
    n < Limit()
  }

  /** The `k` lowest bytes of `n`, lowest first. */
  function LittleEndian(n: nat, k: nat): (r: Bytes)
    ensures |r| == k
  {
    if k == 0 then [] else [n % 256] + LittleEndian(n / 256, k - 1)
  }

  function Saturated(n: nat): nat {
    if n < Limit() then n else Limit() - 1
  }

  // ---------------------------------------------------------------- fields

  datatype Kind = BytesField | LenField | PathField | OptionalPathField

  datatype Field =
    | FedBytes(bytes: Bytes)
    | FedLen(len: nat)
    | FedPath(path: Bytes)
    | FedOptionalPath(optional: Option<Bytes>)
  {
    function Kind(): Kind {
      match this
      case FedBytes(_) => BytesField
      case FedLen(_) => LenField
      case FedPath(_) => PathField
      case FedOptionalPath(_) => OptionalPathField
    }

    /** What fits in memory: lengths are `usize` values. */
    predicate Fits() {
      match this
      case FedBytes(b) => IsUsize(|b|)
      case FedLen(n) => IsUsize(n)
      case FedPath(b) => IsUsize(|b|)
      case FedOptionalPath(p) => p.Some? ==> IsUsize(|p.value|)
    }
  }

  function LenBytes(n: nat): Bytes {
    LittleEndian(Saturated(n), WIDTH)
  }

  function Framed(b: Bytes): Bytes {
    LenBytes(|b|) + b
  }

  function Encoded(f: Field): Bytes {
    match f
    case FedBytes(b) => Framed(b)
    case FedLen(n) => LenBytes(n)
    case FedPath(b) => Framed(b)
    case FedOptionalPath(None) => [0]
    case FedOptionalPath(Some(b)) => [1] + Framed(b)
  }

  function Stream(fields: seq<Field>): Bytes {
    if fields == [] then [] else Encoded(fields[0]) + Stream(fields[1..])
  }

  /** The hasher accumulates the stream it will digest. */
  class Hasher {
    var stream: Bytes

    constructor ()
      ensures stream == []
    {
      stream := [];
    }

    method Update(b: Bytes)
      modifies this
      ensures stream == old(stream) + b
    {
      stream := stream + b;
    }

    method FeedLen(n: nat)
      modifies this
      ensures stream == old(stream) + Encoded(FedLen(n))
    {
      hide LittleEndian;
      Update(LittleEndian(Saturated(n), WIDTH));
    }

    method FeedBytes(b: Bytes)
      modifies this
      ensures stream == old(stream) + Encoded(FedBytes(b))
    {
      hide LenBytes;
      FeedLen(|b|);
      Update(b);
    }

    method FeedPath(p: Bytes)
      modifies this
      ensures stream == old(stream) + Encoded(FedPath(p))
    {
      hide LenBytes;
      FeedBytes(p);
    }

    method FeedOptionalPath(p: Option<Bytes>)
      modifies this
      ensures stream == old(stream) + Encoded(FedOptionalPath(p))
    {
      hide LenBytes;
      match p
      case Some(path) =>
        Update([1]);
        FeedPath(path);
      case None => Update([0]);
    }
  }

  // ---------------------------------------------------------------- no field is a prefix of another

  lemma {:induction false} LittleEndianInjective(m: nat, n: nat, k: nat)
    requires m < Pow256(k) && n < Pow256(k) && LittleEndian(m, k) == LittleEndian(n, k)
    ensures m == n
  {
    if k > 0 {
      var a, b := LittleEndian(m, k), LittleEndian(n, k);
      assert a[0] == m % 256 && b[0] == n % 256;
      assert a[1..] == LittleEndian(m / 256, k - 1) && b[1..] == LittleEndian(n / 256, k - 1);
      LittleEndianInjective(m / 256, n / 256, k - 1);
    }
  }

  lemma SplitSame(a: Bytes, s: Bytes, b: Bytes, t: Bytes)
    requires a + s == b + t && |a| == |b|
    ensures a == b && s == t
  {
    assert (a + s)[..|a|] == a && (b + t)[..|b|] == b;
    assert (a + s)[|a|..] == s && (b + t)[|b|..] == t;
  }

  lemma LenPrefixFree(m: nat, s: Bytes, n: nat, t: Bytes)
    requires IsUsize(m) && IsUsize(n) && LenBytes(m) + s == LenBytes(n) + t
    ensures m == n && s == t
  {
    SplitSame(LenBytes(m), s, LenBytes(n), t);
    LittleEndianInjective(m, n, WIDTH);
  }

  lemma FramedPrefixFree(a: Bytes, s: Bytes, b: Bytes, t: Bytes)
    requires IsUsize(|a|) && IsUsize(|b|) && Framed(a) + s == Framed(b) + t
    ensures a == b && s == t
  {
    hide LenBytes, IsUsize;
    assert Framed(a) + s == LenBytes(|a|) + (a + s) && Framed(b) + t == LenBytes(|b|) + (b + t);
    LenPrefixFree(|a|, a + s, |b|, b + t);
    SplitSame(a, s, b, t);
  }

  /** Two fields fed by the same operation can be told apart, whatever follows them. */
  lemma FieldPrefixFree(f: Field, s: Bytes, g: Field, t: Bytes)
    requires f.Kind() == g.Kind() && f.Fits() && g.Fits()
    requires Encoded(f) + s == Encoded(g) + t
    ensures f == g && s == t
  {
    hide Framed, LenBytes, IsUsize;
    match f
    case FedBytes(a) => FramedPrefixFree(a, s, g.bytes, t);
    case FedLen(n) => LenPrefixFree(n, s, g.len, t);
    case FedPath(a) => FramedPrefixFree(a, s, g.path, t);
    case FedOptionalPath(p) => OptionalPrefixFree(p, s, g.optional, t);
  }

  lemma OptionalPrefixFree(p: Option<Bytes>, s: Bytes, q: Option<Bytes>, t: Bytes)
    requires p.Some? ==> IsUsize(|p.value|)
    requires q.Some? ==> IsUsize(|q.value|)
    requires Encoded(FedOptionalPath(p)) + s == Encoded(FedOptionalPath(q)) + t
    ensures p == q && s == t
  {
    hide Framed, LenBytes, IsUsize;
    var a, b := Encoded(FedOptionalPath(p)), Encoded(FedOptionalPath(q));
    assert (a + s)[0] == a[0] && (b + t)[0] == b[0];
    if p.Some? && q.Some? {
      var x, y := Framed(p.value), Framed(q.value);
      assert a + s == [1] + (x + s) && b + t == [1] + (y + t);
      SplitSame([1], x + s, [1], y + t);
      FramedPrefixFree(p.value, s, q.value, t);
    } else {
      SplitSame(a, s, b, t);
    }
  }

  // ---------------------------------------------------------------- whole feeds

  /** Feeding one more field appends its encoding, so the hasher's stream is that of all its fields. */
  lemma {:induction false} StreamGrows(fields: seq<Field>, f: Field)
    ensures Stream(fields + [f]) == Stream(fields) + Encoded(f)
  {
    hide Encoded;
    if fields == [] {
      assert fields + [f] == [f] && [f][1..] == [];
    } else {
      assert (fields + [f])[1..] == fields[1..] + [f];
      StreamGrows(fields[1..], f);
    }
  }

  // What a caller feeds next, given what it has fed; `None` when it is done.
  type Schema = seq<Field> -> Option<Kind>

  /** After feeding `past`, a caller of this schema feeds `fields` and stops. */
  predicate Follows(schema: Schema, past: seq<Field>, fields: seq<Field>)
    decreases |fields|
  {
    if fields == [] then schema(past).None?
    else
      fields[0].Fits() && schema(past) == Some(fields[0].Kind())
      && Follows(schema, past + [fields[0]], fields[1..])
  }

  /**
   A caller whose next operation depends only on what it has fed (a length, then that
   many items) feeds distinct streams for distinct values; none is a prefix of another.
   */
  lemma {:induction false} FeedsAreInjective(
    schema: Schema, past: seq<Field>, f: seq<Field>, s: Bytes, g: seq<Field>, t: Bytes)
    requires Follows(schema, past, f) && Follows(schema, past, g)
    requires Stream(f) + s == Stream(g) + t
    ensures f == g && s == t
    decreases |f|
  {
    hide Encoded;
    if f == [] {
      assert [] + s == s && [] + t == t;
    } else {
      assert Stream(f) + s == Encoded(f[0]) + (Stream(f[1..]) + s);
      assert Stream(g) + t == Encoded(g[0]) + (Stream(g[1..]) + t);
      FieldPrefixFree(f[0], Stream(f[1..]) + s, g[0], Stream(g[1..]) + t);
      FeedsAreInjective(schema, past + [f[0]], f[1..], s, g[1..], t);
      assert f == [f[0]] + f[1..] && g == [g[0]] + g[1..];
    }
  }

  predicate SameKinds(f: seq<Field>, g: seq<Field>) {
    |f| == |g| && forall i :: 0 <= i < |f| ==> f[i].Kind() == g[i].Kind() && f[i].Fits() && g[i].Fits()
  }

  /** The same operations with the same stream were fed the same values. */
  lemma {:induction false} SameKindsInjective(f: seq<Field>, g: seq<Field>)
    requires SameKinds(f, g) && Stream(f) == Stream(g)
    ensures f == g
    decreases |f|
  {
    hide Encoded;
    if f != [] {
      FieldPrefixFree(f[0], Stream(f[1..]), g[0], Stream(g[1..]));
      SameKindsInjective(f[1..], g[1..]);
      assert f == [f[0]] + f[1..] && g == [g[0]] + g[1..];
    }
  }

  /** Feeds of different kinds can make the same stream: the frame does not name its kind. */
  lemma KindsAreNotFramed()
    ensures Stream([FedBytes([])]) == Stream([FedLen(0)])
    ensures Stream([FedBytes([0])]) == Stream([FedLen(1), FedOptionalPath(None)])
  {
    hide LenBytes;
    assert Encoded(FedBytes([])) == LenBytes(0) + [] == LenBytes(0);
    assert [FedLen(1), FedOptionalPath(None)][1..] == [FedOptionalPath(None)];
    assert Stream([FedOptionalPath(None)]) == [0] + [] == [0];
    assert [FedBytes([0])][1..] == [] && [FedBytes([])][1..] == [] && [FedLen(0)][1..] == [];
  }

  // ---------------------------------------------------------------- reading the frame back

  /** The `k` bytes as a number, byte `i` weighing 256 to the `i`. */
  function Weighed(b: Bytes): nat {
    if b == [] then 0 else Weighed(b[..|b| - 1]) + b[|b| - 1] * Pow256(|b| - 1)
  }

  lemma {:induction false} WeighedFront(first: Byte, rest: Bytes)
    ensures Weighed([first] + rest) == first + 256 * Weighed(rest)
    decreases |rest|
  {
    var b := [first] + rest;
    if rest == [] {
      assert b[..0] == [] && b[0] * Pow256(0) == first;
    } else {
      var n := |rest| - 1;
      assert b[..|b| - 1] == [first] + rest[..n];
      WeighedFront(first, rest[..n]);
      assert rest[n] * (256 * Pow256(n)) == 256 * (rest[n] * Pow256(n));
    }
  }

  /** Little-endian bytes weigh the number they are of, as far as they reach. */
  lemma {:induction false} LittleEndianWeighs(n: nat, k: nat)
    requires n < Pow256(k)
    ensures Weighed(LittleEndian(n, k)) == n
    decreases k
  {
    if k > 0 {
      LittleEndianWeighs(n / 256, k - 1);
      WeighedFront(n % 256, LittleEndian(n / 256, k - 1));
    }
  }

  /** A length of eight bytes, least first, and the bytes it counts. */
  function ReadFramed(stream: Bytes): Option<(Bytes, Bytes)> {
    if |stream| < 8 then None
    else
      var n := Weighed(stream[..8]);
      if |stream| < 8 + n then None else Some((stream[8..8 + n], stream[8 + n..]))
  }

  /** A field of a known kind read off the front of a stream: a presence byte is 0 or 1. */
  function ReadField(kind: Kind, stream: Bytes): Option<(Field, Bytes)> {
    match kind
    case LenField =>
      if |stream| < 8 then None else Some((FedLen(Weighed(stream[..8])), stream[8..]))
    case BytesField =>
      (match ReadFramed(stream) case None => None case Some((b, rest)) => Some((FedBytes(b), rest)))
    case PathField =>
      (match ReadFramed(stream) case None => None case Some((b, rest)) => Some((FedPath(b), rest)))
    case OptionalPathField =>
      if stream == [] || stream[0] > 1 then None
      else if stream[0] == 0 then Some((FedOptionalPath(None), stream[1..]))
      else match ReadFramed(stream[1..])
           case None => None
           case Some((b, rest)) => Some((FedOptionalPath(Some(b)), rest))
  }

  lemma LenReads(n: nat, rest: Bytes)
    requires IsUsize(n)
    ensures var stream := LenBytes(n) + rest;
            |stream| >= 8 && Weighed(stream[..8]) == n && stream[8..] == rest
  {
    hide LittleEndian, Weighed;
    assert (LenBytes(n) + rest)[..8] == LenBytes(n);
    LittleEndianWeighs(n, WIDTH);
  }

  lemma FramedReads(b: Bytes, rest: Bytes)
    requires IsUsize(|b|)
    ensures ReadFramed(Framed(b) + rest) == Some((b, rest))
  {
    hide LenBytes, Weighed, IsUsize;
    assert Framed(b) + rest == LenBytes(|b|) + (b + rest);
    LenReads(|b|, b + rest);
    var stream := Framed(b) + rest;
    assert stream[8..8 + |b|] == (b + rest)[..|b|] == b;
    assert stream[8 + |b|..] == (b + rest)[|b|..] == rest;
  }

  /** Every field reads back from its encoding, whatever follows it. */
  lemma FieldReadsBack(f: Field, rest: Bytes)
    requires f.Fits()
    ensures ReadField(f.Kind(), Encoded(f) + rest) == Some((f, rest))
  {
    hide Framed, LenBytes, ReadFramed, Weighed, IsUsize;
    match f
    case FedBytes(b) => FramedReads(b, rest);
    case FedLen(n) => LenReads(n, rest);
    case FedPath(b) => FramedReads(b, rest);
    case FedOptionalPath(None) => assert ([0] + rest)[1..] == rest;
    case FedOptionalPath(Some(b)) =>
      FramedReads(b, rest);
      assert Encoded(f) + rest == [1] + (Framed(b) + rest);
      assert (Encoded(f) + rest)[1..] == Framed(b) + rest;
  }

  /** A length too large for the frame is the largest that fits. */
  lemma OversizeSaturates(n: nat)
    requires !IsUsize(n)
    ensures Encoded(FedLen(n)) == Encoded(FedLen(Pow256(8) - 1))
  {
    hide LittleEndian;
  }
}
