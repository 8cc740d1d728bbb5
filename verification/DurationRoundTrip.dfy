/**
 Parsing what the printer wrote: every canonical spelling reads back to the
 rounded number of milliseconds, sign included.
 */
module DurationRoundTrip {
  import opened Wrappers
  import opened Arithmetic
  import opened Floats
  import opened DurationUnits
  import opened DurationScan
  import opened DurationPrint
  import opened DurationPieces
  import opened DurationAlgebra
  import opened Text
  import DurationGrammar

  // ---------------------------------------------------------------- printed pieces

  lemma SuffixReads(k: UnitIndex)
    ensures ParseUnitName(Suffix(k)) == Some(UnitOf(k))
    ensures Letters(Suffix(k))
  {
    DurationGrammar.DocumentedNames(UnitOf(k));
    assert DurationGrammar.InAnyCase(Suffix(k), Suffix(k));
  }

  function PieceOf(w: Written): Piece {
    Piece(Decimal(w.count), Suffix(w.k), w.count, UnitOf(w.k))
  }

  function Pieces(ws: seq<Written>): (ps: seq<Piece>)
    ensures |ps| == |ws|
    ensures forall i :: 0 <= i < |ws| ==> ps[i] == PieceOf(ws[i])
  {
    seq(|ws|, i requires 0 <= i < |ws| => PieceOf(ws[i]))
  }

  lemma {:induction false} RenderIsJoin(ws: seq<Written>, k: nat)
    requires k < |ws|
    ensures Render(ws[k..]) == Join(Pieces(ws), k)
    decreases |ws| - k
  {
    hide Render, Decimal, Suffix;
    var d, u := Decimal(ws[k].count), Suffix(ws[k].k);
    var rest := if k + 1 == |ws| then "" else " " + Render(ws[k + 1..]);
    assert ws[k..] == [ws[k]] + ws[k + 1..];
    RenderFront(ws[k], ws[k + 1..]);
    if k + 1 < |ws| { RenderIsJoin(ws, k + 1); }
    assert d + u + rest == d + (u + rest);
  }

  ghost predicate Countable(ws: seq<Written>) {
    forall i :: 0 <= i < |ws| ==> ws[i].count < TWO_64
  }

  lemma PrintedReads(ws: seq<Written>)
    requires Countable(ws)
    ensures AllReadable(Pieces(ws))
  {
    forall i | 0 <= i < |ws| ensures Pieces(ws)[i].Readable() {
      DecimalReads(ws[i].count);
      SuffixReads(ws[i].k);
    }
  }

  // ---------------------------------------------------------------- totals

  /** Milliseconds of the written counts. */
  function SumMs(ws: seq<Written>): nat {
    if ws == [] then 0
    else
      var w := ws[|ws| - 1];
      SumMs(ws[..|ws| - 1]) + w.count * UnitMs(w.k)
  }

  lemma {:induction false} SumFront(w: Written, rest: seq<Written>)
    ensures SumMs([w] + rest) == w.count * UnitMs(w.k) + SumMs(rest)
  {
    var all := [w] + rest;
    if rest == [] {
      assert all[..|all| - 1] == [];
    } else {
      assert all[..|all| - 1] == [w] + rest[..|rest| - 1];
      SumFront(w, rest[..|rest| - 1]);
    }
  }

  function SignedPart(part: Part, negative: bool): Part {
    if negative then part.(mag := -part.mag) else part
  }

  lemma SignedSeconds(part: Part, negative: bool)
    ensures PartSeconds(SignedPart(part, negative)) == if negative then -PartSeconds(part) else PartSeconds(part)
  {}

  lemma SignedSnoc(parts: seq<Part>, last: Part, negative: bool)
    ensures Signed(parts + [last], negative) == Signed(parts, negative) + [SignedPart(last, negative)]
  {}

  /** The sign of the parts is the sign of their total. */
  lemma {:induction false} SignedFold(parts: seq<Part>, negative: bool)
    ensures FoldParts(Signed(parts, negative)) == if negative then -FoldParts(parts) else FoldParts(parts)
  {
    if parts != [] {
      var front, last := parts[..|parts| - 1], parts[|parts| - 1];
      assert parts == front + [last];
      SignedFold(front, negative);
      SignedSnoc(front, last, negative);
      FoldSnoc(Signed(front, negative), SignedPart(last, negative));
      SignedSeconds(last, negative);
    }
  }

  lemma CountSeconds(w: Written)
    ensures PartSeconds(PartOf(PieceOf(w))) == (w.count * UnitMs(w.k)) as real / 1_000.0
  {
    UnitMsFromSeconds(w.k);
    assert (w.count * UnitMs(w.k)) as real == w.count as real * UnitMs(w.k) as real;
  }

  function PrintedTotal(ms: nat, negative: bool): real {
    if negative then -(ms as real / 1_000.0) else ms as real / 1_000.0
  }

  lemma PiecesSnoc(ws: seq<Written>, w: Written)
    ensures PartsOf(Pieces(ws + [w])) == PartsOf(Pieces(ws)) + [PartOf(PieceOf(w))]
  {}

  lemma SumSnoc(ws: seq<Written>, w: Written)
    ensures SumMs(ws + [w]) == SumMs(ws) + w.count * UnitMs(w.k)
  {}

  lemma {:induction false} FoldOfPrinted(ws: seq<Written>)
    ensures FoldParts(PartsOf(Pieces(ws))) == SumMs(ws) as real / 1_000.0
  {
    if ws != [] {
      var front, last := ws[..|ws| - 1], ws[|ws| - 1];
      assert ws == front + [last];
      FoldOfPrinted(front);
      PiecesSnoc(front, last);
      FoldSnoc(PartsOf(Pieces(front)), PartOf(PieceOf(last)));
      SumSnoc(front, last);
      CountSeconds(last);
    }
  }

  /** The greedy loop loses nothing: the written counts add up to the milliseconds. */
  lemma {:induction false} CountsConserve(ms: nat, k: nat)
    requires k <= UNIT_COUNT
    ensures SumMs(Counts(ms, k)) == if k == UNIT_COUNT then 0 else ms
    ensures forall i :: 0 <= i < |Counts(ms, k)| ==> 0 < Counts(ms, k)[i].count <= ms
    decreases UNIT_COUNT - k
  {
    hide Counts;
    NothingSmaller(ms);
    if k < UNIT_COUNT {
      CountsStep(ms, k);
      var u := UnitMs(k);
      if ms >= u {
        CountsConserve(ms % u, k + 1);
        SumFront(Written(ms / u, k), Counts(ms % u, k + 1));
        DivideOut(ms, u);
      } else {
        CountsConserve(ms, k + 1);
      }
    }
  }

  lemma DivideOut(ms: nat, u: nat)
    requires 0 < u <= ms
    ensures ms / u * u + ms % u == ms && 0 < ms / u <= ms && ms % u <= ms
    ensures u == 1 ==> ms % u == 0
  {
    if ms / u > ms { TimesAtLeast(ms / u, u); }
  }

  // ---------------------------------------------------------------- print, then parse

  // A printed text: the counts, behind a minus if negative.
  function PrintedText(ws: seq<Written>, negative: bool): string {
    if negative then "-" + Render(ws) else Render(ws)
  }

  /** A text of printed counts parses, spelled the same, to the sum of the counts. */
  lemma ParsePrinted(ws: seq<Written>, negative: bool)
    requires ws != [] && Countable(ws) && SumMs(ws) < TWO_64
    ensures var text := PrintedText(ws, negative);
            && Parsed(text).Ok?
            && Parsed(text).value.raw == text
            && Parsed(text).value.seconds == PrintedTotal(SumMs(ws), negative)
  {
    hide FoldParts, Signed, Parsed, AllReadable, Countable, SumMs, Render, Join, IsFinite;
    PrintedReads(ws);
    RenderIsJoin(ws, 0);
    assert ws[0..] == ws && "" + Render(ws) == Render(ws);
    FoldOfPrinted(ws);
    SignedFold(PartsOf(Pieces(ws)), negative);
    FiniteMillis(SumMs(ws), negative);
    ParseJoined(Pieces(ws), negative);
  }

  lemma FiniteMillis(ms: nat, negative: bool)
    requires ms < TWO_64
    ensures IsFinite(PrintedTotal(ms, negative))
  {}

  // The magnitudes the decomposition can write.
  predicate Decomposes(x: real) {
    1 <= Round(Abs(x) * 1_000.0) < TWO_64
  }

  /** Units are written exactly from half a millisecond up to what `u64` can count. */
  lemma DecomposesWhenWritten(x: real)
    ensures Decomposes(x) <==> Counts(Millis(x), 0) != []
    ensures Decomposes(x) <==> Abs(x) >= 0.0005 && Abs(x) * 1_000.0 + 0.5 < TWO_64 as real
  {
    CountsConserve(Millis(x), 0);
  }

  // The whole milliseconds nearest `x`, as seconds with the sign of `x`.
  function Rounded(x: real): real {
    var ms := Round(Abs(x) * 1_000.0) as real / 1_000.0;
    if x < 0.0 then -ms else ms
  }

  lemma RoundIsNear(y: real)
    requires y >= 0.0
    ensures -0.5 <= Round(y) as real - y <= 0.5
  {}

  lemma RoundIsExact(n: nat)
    ensures Round(n as real) == n
  {}

  lemma WholeMagnitude(x: real)
    requires x.Floor as real == x
    ensures Round(Abs(x)) as real == Abs(x)
  {
    RoundIsExact(if x < 0.0 then -x.Floor else x.Floor);
  }

  /** Rounding moves a magnitude by at most half a millisecond, and whole milliseconds not at all. */
  lemma RoundedIsNear(x: real)
    ensures Abs(Rounded(x) - x) <= 0.0005
    ensures (x * 1_000.0).Floor as real == x * 1_000.0 ==> Rounded(x) == x
  {
    RoundIsNear(Abs(x) * 1_000.0);
    assert Abs(x * 1_000.0) == Abs(x) * 1_000.0;
    if (x * 1_000.0).Floor as real == x * 1_000.0 {
      WholeMagnitude(x * 1_000.0);
    }
  }

  lemma CanonicalIsPrinted(x: real, display: real -> string)
    requires Decomposes(x)
    ensures Counts(Millis(x), 0) != []
    ensures CanonicalText(x, display) == PrintedText(Counts(Millis(x), 0), x < 0.0)
  {
    DecomposesWhenWritten(x);
  }

  lemma CountsAreSmall(ms: nat)
    requires ms < TWO_64
    ensures Countable(Counts(ms, 0)) && SumMs(Counts(ms, 0)) == ms
  {
    CountsConserve(ms, 0);
  }

  lemma TotalIsRounded(x: real)
    requires Decomposes(x)
    ensures PrintedTotal(SumMs(Counts(Millis(x), 0)), x < 0.0) == Rounded(x)
  {
    CountsAreSmall(Millis(x));
  }

  /**
   Print, then parse: the canonical spelling of any magnitude from half a
   millisecond up to the range of `u64` milliseconds parses, spelled the same, to
   the nearest whole millisecond with its sign.
   */
  lemma PrintThenParse(x: real, display: real -> string)
    requires Decomposes(x)
    ensures var text := CanonicalText(x, display);
            && Parsed(text).Ok?
            && Parsed(text).value.raw == text
            && Parsed(text).value.seconds == Rounded(x)
            && Abs(Rounded(x) - x) <= 0.0005
            && ((x * 1_000.0).Floor as real == x * 1_000.0 ==> Parsed(text).value.seconds == x)
  {
    var ws := Counts(Millis(x), 0);
    CanonicalIsPrinted(x, display);
    CountsAreSmall(Millis(x));
    ParsePrinted(ws, x < 0.0);
    TotalIsRounded(x);
    RoundedIsNear(x);
  }

  /** Printing the parsed duration again gives the same text. */
  lemma PrintIsStable(x: real, display: real -> string)
    requires Decomposes(x)
    ensures CanonicalText(Rounded(x), display) == CanonicalText(x, display)
  {
    RoundedMillis(x);
    CanonicalIsPrinted(x, display);
    CanonicalIsPrinted(Rounded(x), display);
  }

  lemma RoundedMillis(x: real)
    requires Decomposes(x)
    ensures Decomposes(Rounded(x)) && Millis(Rounded(x)) == Millis(x)
    ensures Rounded(x) < 0.0 <==> x < 0.0
  {}

  /** Zero prints as `0s`, which parses to zero. */
  lemma ZeroRoundTrip(x: real, display: real -> string)
    requires x == 0.0
    ensures var text := CanonicalText(x, display);
            text == "0s" && Parsed(text).Ok? && Parsed(text).value.seconds == x
  {
    var w := Written(0, 4);
    ZeroIsPrinted(w);
    ParsePrinted([w], false);
  }

  lemma ZeroIsPrinted(w: Written)
    requires w == Written(0, 4)
    ensures PrintedText([w], false) == "0s" && SumMs([w]) == 0 && Countable([w])
  {}

  /** A nonzero number never prints as zero, whatever dialect stands in for numbers too small or too large. */
  lemma OnlyZeroPrintsAsZero(x: real, display: real -> string)
    requires forall y: real :: y != 0.0 ==> display(y) != "0"
    ensures CanonicalText(x, display) == "0s" <==> x == 0.0
  {
    hide Parsed, Rounded;
    if x != 0.0 {
      if Decomposes(x) {
        PrintThenParse(x, display);
        ZeroRoundTrip(0.0, display);
        RoundedIsNonzero(x);
      } else {
        DecomposesWhenWritten(x);
        FallsBack(x, display);
        assert (display(x) + "s")[..|display(x)|] == display(x) && "0s"[..1] == "0";
      }
    }
  }

  lemma RoundedIsNonzero(x: real)
    requires Decomposes(x)
    ensures Rounded(x) != 0.0
  {}

  /** Below half a millisecond, and beyond what `u64` counts, the dialect's number is printed in seconds. */
  lemma FallsBack(x: real, display: real -> string)
    requires x != 0.0 && (Abs(x) < 0.0005 || Abs(x) * 1_000.0 + 0.5 >= TWO_64 as real)
    ensures CanonicalText(x, display) == display(x) + "s"
  {
    DecomposesWhenWritten(x);
  }

  // ---------------------------------------------------------------- what raw text reads as

  /** The retained text of a parsed duration parses to the same duration. */
  lemma RawParsesAgain(input: string)
    requires Parsed(input).Ok?
    ensures Parsed(Parsed(input).value.raw) == Parsed(input)
  {
    hide DurationAt, Trim;
    RawIsTrimmed(Trim(input));
    TrimIsIdempotent(input);
    TrimIsIdempotent(Trim(input));
  }

  lemma RawIsTrimmed(s: string)
    requires DurationAt(s, Whole).Ok?
    ensures DurationAt(s, Whole).value.0.raw == Trim(s)
  {
    hide PartsFrom, Trim, FoldParts, IsFinite;
  }

  /**
   The text of every expression over parsed and synthesized durations reads back as the
   value of the expression, to the nearest millisecond, when that is zero or can be written.
   */
  lemma ComputedReadsBack(t: Tree, display: Display)
    requires t.Fresh(display) && (t.Value() == 0.0 || Decomposes(t.Value()))
    ensures var raw := t.Eval(display).raw;
            Parsed(raw).Ok? && Abs(Parsed(raw).value.seconds - t.Value()) <= 0.0005
  {
    hide CanonicalText, Parsed, Rounded, Decomposes;
    TreeFolds(t, display);
    if t.Leaf? && IsParsed(t.d) {
      var input :| Parsed(input) == Ok(t.d);
      RawParsesAgain(input);
    } else if t.Value() == 0.0 {
      ZeroRoundTrip(t.Value(), display);
    } else {
      PrintThenParse(t.Value(), display);
    }
  }
}
