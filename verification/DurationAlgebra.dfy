/**
 Adding, subtracting and scaling durations: written parts are carried through
 every operation whose operands have them, and always fold to the stored seconds.
 */
module DurationAlgebra {
  import opened Wrappers
  import opened DurationScan
  import opened DurationPrint

  /** The float dialect behind `CanonicalText`, fixed by the environment. */
  type Display = real -> string

  /** `from_seconds`: a synthesized duration has no parts. */
  function FromSeconds(x: real, display: Display): DurationValue {
    DurationValue(CanonicalText(x, display), x, None)
  }

  function ScaledPart(part: Part, factor: real): Part {
    Part(part.mag * factor, part.unit)
  }

  function Scaled(parts: seq<Part>, factor: real): (r: seq<Part>)
    ensures |r| == |parts|
    ensures forall i :: 0 <= i < |parts| ==> r[i] == ScaledPart(parts[i], factor)
  {
    seq(|parts|, i requires 0 <= i < |parts| => ScaledPart(parts[i], factor))
  }

  // A computed duration: its seconds, spelled canonically.
  function Computed(seconds: real, parts: Option<seq<Part>>, display: Display): DurationValue {
    DurationValue(CanonicalText(seconds, display), seconds, parts)
  }

  /** `combine`, behind `+` and `-`. */
  function Combine(lhs: DurationValue, rhs: DurationValue, negate: bool, display: Display): DurationValue {
    if lhs.parts.Some? && rhs.parts.Some? then
      var tail := if negate then Signed(rhs.parts.value, true) else rhs.parts.value;
      var combined := lhs.parts.value + tail;
      Computed(FoldParts(combined), Some(combined), display)
    else
      Computed(if negate then lhs.seconds - rhs.seconds else lhs.seconds + rhs.seconds, None, display)
  }

  function Add(lhs: DurationValue, rhs: DurationValue, display: Display): DurationValue {
    Combine(lhs, rhs, false, display)
  }

  function Sub(lhs: DurationValue, rhs: DurationValue, display: Display): DurationValue {
    Combine(lhs, rhs, true, display)
  }

  /** `Mul<f64>`. */
  function Mul(d: DurationValue, factor: real, display: Display): DurationValue {
    match d.parts
    case Some(parts) =>
      var scaled := Scaled(parts, factor);
      Computed(FoldParts(scaled), Some(scaled), display)
    case None => Computed(d.seconds * factor, None, display)
  }

  // ---------------------------------------------------------------- folds

  lemma {:induction false} FoldConcat(a: seq<Part>, b: seq<Part>)
    ensures FoldParts(a + b) == FoldParts(a) + FoldParts(b)
  {
    if b == [] {
      assert a + b == a;
    } else {
      var front, last := b[..|b| - 1], b[|b| - 1];
      assert b == front + [last];
      assert a + b == (a + front) + [last];
      FoldConcat(a, front);
      FoldSnoc(a + front, last);
      FoldSnoc(front, last);
    }
  }

  lemma ScaledSnoc(parts: seq<Part>, last: Part, factor: real)
    ensures Scaled(parts + [last], factor) == Scaled(parts, factor) + [ScaledPart(last, factor)]
  {}

  lemma ScaledSeconds(part: Part, factor: real)
    ensures PartSeconds(ScaledPart(part, factor)) == PartSeconds(part) * factor
  {}

  lemma Distribute(x: real, y: real, factor: real, scaledX: real, scaledY: real)
    requires scaledX == x * factor && scaledY == y * factor
    ensures scaledX + scaledY == (x + y) * factor
  {}

  lemma FoldScaledSnoc(front: seq<Part>, last: Part, factor: real)
    requires FoldParts(Scaled(front, factor)) == FoldParts(front) * factor
    ensures FoldParts(Scaled(front + [last], factor)) == FoldParts(front + [last]) * factor
  {
    hide PartSeconds, Scaled, ScaledPart, FoldParts;
    ScaledSnoc(front, last, factor);
    FoldSnoc(Scaled(front, factor), ScaledPart(last, factor));
    FoldSnoc(front, last);
    ScaledSeconds(last, factor);
    Distribute(FoldParts(front), PartSeconds(last), factor,
               FoldParts(Scaled(front, factor)), PartSeconds(ScaledPart(last, factor)));
  }

  lemma {:induction false} FoldScaled(parts: seq<Part>, factor: real)
    ensures FoldParts(Scaled(parts, factor)) == FoldParts(parts) * factor
  {
    hide PartSeconds, ScaledPart;
    if parts == [] {
      assert Scaled(parts, factor) == [];
    } else {
      var front, last := parts[..|parts| - 1], parts[|parts| - 1];
      FoldScaled(front, factor);
      FoldScaledSnoc(front, last, factor);
      assert parts == front + [last];
    }
  }

  lemma SignedIsScaled(parts: seq<Part>)
    ensures Signed(parts, true) == Scaled(parts, -1.0)
  {}

  // ---------------------------------------------------------------- expression trees

  datatype Tree =
    | Leaf(d: DurationValue)
    | Sum(l: Tree, r: Tree)
    | Difference(l: Tree, r: Tree)
    | Scale(t: Tree, factor: real)
  {
    function Eval(display: Display): DurationValue {
      match this
      case Leaf(d) => d
      case Sum(l, r) => Add(l.Eval(display), r.Eval(display), display)
      case Difference(l, r) => Sub(l.Eval(display), r.Eval(display), display)
      case Scale(t, k) => Mul(t.Eval(display), k, display)
    }

    /** What the tree denotes over the reals. */
    function Value(): real {
      match this
      case Leaf(d) => d.seconds
      case Sum(l, r) => l.Value() + r.Value()
      case Difference(l, r) => l.Value() - r.Value()
      case Scale(t, k) => t.Value() * k
    }

    predicate AllParsed() {
      match this
      case Leaf(d) => d.parts.Some?
      case Sum(l, r) => l.AllParsed() && r.AllParsed()
      case Difference(l, r) => l.AllParsed() && r.AllParsed()
      case Scale(t, _) => t.AllParsed()
    }

    // Every leaf came out of the parser or was synthesized from seconds.
    ghost predicate Fresh(display: Display) {
      match this
      case Leaf(d) => IsParsed(d) || d == FromSeconds(d.seconds, display)
      case Sum(l, r) => l.Fresh(display) && r.Fresh(display)
      case Difference(l, r) => l.Fresh(display) && r.Fresh(display)
      case Scale(t, _) => t.Fresh(display)
    }
  }

  ghost predicate IsParsed(d: DurationValue) {
    exists s :: Parsed(s) == Ok(d)
  }

  /** Retained parts fold to the stored seconds. */
  predicate PartsFold(d: DurationValue) {
    d.parts.Some? ==> FoldParts(d.parts.value) == d.seconds
  }

  lemma ParsedFolds(s: string)
    requires Parsed(s).Ok?
    ensures Parsed(s).value.parts.Some? && PartsFold(Parsed(s).value)
  {}

  lemma CombineFolds(lhs: DurationValue, rhs: DurationValue, negate: bool, display: Display)
    requires PartsFold(lhs) && PartsFold(rhs)
    ensures var r := Combine(lhs, rhs, negate, display);
            && PartsFold(r)
            && (r.parts.Some? <==> lhs.parts.Some? && rhs.parts.Some?)
            && r.seconds == if negate then lhs.seconds - rhs.seconds else lhs.seconds + rhs.seconds
  {
    hide CanonicalText, FoldParts, Scaled, Signed;
    if lhs.parts.Some? && rhs.parts.Some? {
      var tail := if negate then Signed(rhs.parts.value, true) else rhs.parts.value;
      FoldConcat(lhs.parts.value, tail);
      SignedIsScaled(rhs.parts.value);
      FoldScaled(rhs.parts.value, -1.0);
    }
  }

  lemma MulFolds(d: DurationValue, factor: real, display: Display)
    requires PartsFold(d)
    ensures var r := Mul(d, factor, display);
            PartsFold(r) && (r.parts.Some? <==> d.parts.Some?) && r.seconds == d.seconds * factor
  {
    hide CanonicalText, FoldParts, Scaled;
    if d.parts.Some? { FoldScaled(d.parts.value, factor); }
  }

  /**
   Every expression over parsed and synthesized durations: parts fold to the
   stored seconds, parts are kept exactly when every leaf was parsed, and the
   stored seconds are the value of the expression.
   */
  lemma {:induction false} TreeFolds(t: Tree, display: Display)
    requires t.Fresh(display)
    ensures var d := t.Eval(display);
            && PartsFold(d)
            && (d.parts.Some? <==> t.AllParsed())
            && d.seconds == t.Value()
            && (!t.Leaf? ==> d.raw == CanonicalText(d.seconds, display))
  {
    hide CanonicalText, FoldParts, Scaled, Signed, Parsed;
    match t
    case Leaf(d) =>
      if s :| Parsed(s) == Ok(d) { ParsedFolds(s); }
    case Sum(l, r) =>
      TreeFolds(l, display);
      TreeFolds(r, display);
      CombineFolds(l.Eval(display), r.Eval(display), false, display);
    case Difference(l, r) =>
      TreeFolds(l, display);
      TreeFolds(r, display);
      CombineFolds(l.Eval(display), r.Eval(display), true, display);
    case Scale(u, k) =>
      TreeFolds(u, display);
      MulFolds(u.Eval(display), k, display);
  }

  // ---------------------------------------------------------------- laws

  /** Addition is associative as a whole: same parts in the same order, same seconds, same spelling. */
  lemma AddIsAssociative(a: DurationValue, b: DurationValue, c: DurationValue, display: Display)
    requires PartsFold(a) && PartsFold(b) && PartsFold(c)
    ensures Add(Add(a, b, display), c, display) == Add(a, Add(b, c, display), display)
  {
    hide CanonicalText, FoldParts, Signed;
    CombineFolds(a, b, false, display);
    CombineFolds(b, c, false, display);
    CombineFolds(Add(a, b, display), c, false, display);
    CombineFolds(a, Add(b, c, display), false, display);
    if a.parts.Some? && b.parts.Some? && c.parts.Some? {
      var x, y, z := a.parts.value, b.parts.value, c.parts.value;
      assert (x + y) + z == x + (y + z);
    }
  }

  /** Subtracting is adding the duration scaled by minus one. */
  lemma SubIsAddNegated(a: DurationValue, b: DurationValue, display: Display)
    requires PartsFold(a) && PartsFold(b)
    ensures Sub(a, b, display) == Add(a, Mul(b, -1.0, display), display)
  {
    hide CanonicalText, FoldParts, Scaled, Signed;
    MulFolds(b, -1.0, display);
    CombineFolds(a, b, true, display);
    CombineFolds(a, Mul(b, -1.0, display), false, display);
    if b.parts.Some? { SignedIsScaled(b.parts.value); }
  }

  // ---------------------------------------------------------------- scaling

  /** Scaling keeps every part's unit and scales its magnitude; by one it keeps parts and seconds. */
  lemma ScalingKeepsUnits(d: DurationValue, factor: real, display: Display)
    requires PartsFold(d)
    ensures var r := Mul(d, factor, display);
            && r.seconds == d.seconds * factor && (r.parts.Some? <==> d.parts.Some?)
            && (d.parts.Some? ==>
                  && |r.parts.value| == |d.parts.value|
                  && forall i :: 0 <= i < |d.parts.value| ==>
                       r.parts.value[i] == Part(d.parts.value[i].mag * factor, d.parts.value[i].unit))
            && (factor == 1.0 ==> r.parts == d.parts)
  {
    hide CanonicalText, FoldParts;
    MulFolds(d, factor, display);
    if d.parts.Some? && factor == 1.0 { ScaledByOne(d.parts.value); }
  }

  lemma ScaledByOne(parts: seq<Part>)
    ensures Scaled(parts, 1.0) == parts
  {}

  lemma ScaledTwice(parts: seq<Part>, a: real, b: real)
    ensures Scaled(Scaled(parts, a), b) == Scaled(parts, a * b)
  {
    forall i | 0 <= i < |parts| ensures Scaled(Scaled(parts, a), b)[i] == Scaled(parts, a * b)[i] {
      Regroup(parts[i].mag, a, b, Scaled(parts, a)[i].mag);
    }
  }

  /** Scaling twice is scaling by the product. */
  lemma ScalingComposes(d: DurationValue, a: real, b: real, display: Display)
    requires PartsFold(d)
    ensures Mul(Mul(d, a, display), b, display) == Mul(d, a * b, display)
  {
    hide CanonicalText, FoldParts, Scaled;
    var once := Mul(d, a, display);
    MulFolds(d, a, display);
    MulFolds(once, b, display);
    MulFolds(d, a * b, display);
    if d.parts.Some? { ScaledTwice(d.parts.value, a, b); }
    Regroup(d.seconds, a, b, once.seconds);
    assert Mul(once, b, display).seconds == Mul(d, a * b, display).seconds;
    assert Mul(once, b, display).parts == Mul(d, a * b, display).parts;
  }

  lemma Regroup(x: real, a: real, b: real, scaled: real)
    requires scaled == x * a
    ensures scaled * b == x * (a * b)
  {}

  /** Scaling a sum is adding what is scaled: same parts in the same order, same seconds, same spelling. */
  lemma ScalingDistributes(x: DurationValue, y: DurationValue, factor: real, display: Display)
    requires PartsFold(x) && PartsFold(y)
    ensures Mul(Add(x, y, display), factor, display) == Add(Mul(x, factor, display), Mul(y, factor, display), display)
  {
    hide CanonicalText, FoldParts, Scaled;
    var sum, left, right := Add(x, y, display), Mul(x, factor, display), Mul(y, factor, display);
    CombineFolds(x, y, false, display);
    MulFolds(sum, factor, display);
    MulFolds(x, factor, display);
    MulFolds(y, factor, display);
    CombineFolds(left, right, false, display);
    if x.parts.Some? && y.parts.Some? { ScaledConcat(x.parts.value, y.parts.value, factor); }
    Distribute(x.seconds, y.seconds, factor, left.seconds, right.seconds);
    assert Mul(sum, factor, display).seconds == Add(left, right, display).seconds;
    assert Mul(sum, factor, display).parts == Add(left, right, display).parts;
  }

  lemma ScaledConcat(a: seq<Part>, b: seq<Part>, factor: real)
    ensures Scaled(a + b, factor) == Scaled(a, factor) + Scaled(b, factor)
  {}
}
