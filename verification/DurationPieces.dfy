/**
 Parsing text made of pieces: numerals with unit letters, one space between them,
 all behind an optional minus. Such text reads back to exactly its pieces.
 */
module DurationPieces {
  import opened Wrappers
  import opened Floats
  import opened Text
  import opened DurationUnits
  import opened DurationScan
  import opened DurationNumbers
  import DurationGrammar

  type Span = DurationGrammar.Piece

  /** A numeral with unit letters behind it, and the count and unit they spell. */
  datatype Piece = Piece(numeral: string, letters: string, count: nat, unit: DurationUnit) {
    ghost predicate Readable() {
      Numeral(numeral) && DigitsValue(numeral) == count < TWO_64
      && Letters(letters) && ParseUnitName(letters) == Some(unit)
    }
  }

  ghost predicate Numeral(d: string) {
    d != "" && forall i :: 0 <= i < |d| ==> IsDigit(d[i])
  }

  ghost predicate Letters(u: string) {
    u != "" && forall i :: 0 <= i < |u| ==> IsAlpha(u[i])
  }

  ghost predicate AllReadable(ps: seq<Piece>) {
    forall i :: 0 <= i < |ps| ==> ps[i].Readable()
  }

  /** The pieces from the `k`th on, apart by single spaces. */
  function Join(ps: seq<Piece>, k: nat): string
    requires k < |ps|
    decreases |ps| - k
  {
    ps[k].numeral + (ps[k].letters + Tail(ps, k))
  }

  function Tail(ps: seq<Piece>, k: nat): string
    requires k < |ps|
    decreases |ps| - k, 0
  {
    if k + 1 == |ps| then "" else " " + Join(ps, k + 1)
  }

  function Sign(negative: bool): string {
    if negative then "-" else ""
  }

  function PartOf(p: Piece): Part {
    Part(p.count as real, p.unit)
  }

  function PartsOf(ps: seq<Piece>): (r: seq<Part>)
    ensures |r| == |ps|
    ensures forall i :: 0 <= i < |ps| ==> r[i] == PartOf(ps[i])
  {
    seq(|ps|, i requires 0 <= i < |ps| => PartOf(ps[i]))
  }

  // ---------------------------------------------------------------- one piece

  lemma Cut(s: string, pos: nat, head: string, tail: string)
    requires pos <= |s| && s[pos..] == head + tail
    ensures pos + |head| <= |s| && s[pos..pos + |head|] == head && s[pos + |head|..] == tail
    ensures forall i :: pos <= i < pos + |head| ==> s[i] == head[i - pos]
  {
    forall i | pos <= i < pos + |head| ensures s[i] == head[i - pos] {
      assert s[i] == s[pos..][i - pos];
    }
  }

  function SpanOf(pos: nat, negative: bool, p: Piece, next: nat): Span {
    var start := pos + |Sign(negative)|;
    var end := start + |p.numeral|;
    DurationGrammar.Piece(WholeSpan(pos, start, end), end, p.unit, end + |p.letters|, next)
  }

  // A sign and whole digits, no point and no exponent.
  function WholeSpan(pos: nat, start: nat, end: nat): NumberSpan {
    NumberSpan(pos, start, end, end, end, end, end)
  }

  lemma WholeSpanIs(s: string, pos: nat, start: nat, end: nat)
    requires pos <= start < end <= |s| && SignSpan(s, pos, start) && Digits(s, start, end)
    ensures IsNumber(s, WholeSpan(pos, start, end))
    ensures Magnitude(s, WholeSpan(pos, start, end)) == DigitsValue(s[start..end]) as real
  {
    hide Digits, DigitsValue;
    EmptyFraction(DigitsValue(s[start..end]));
    NoDigits(s, end);
  }

  lemma NoDigits(s: string, end: nat)
    requires end <= |s|
    ensures Digits(s, end, end) && s[end..end] == ""
  {}

  lemma EmptyFraction(count: nat)
    ensures (count as real + DigitsValue("") as real / Pow10(0)) * PowTen(0) == count as real
  {}

  lemma FiniteCount(count: nat)
    requires count < TWO_64
    ensures IsFinite(count as real)
  {}

  lemma SignStands(s: string, pos: nat, negative: bool, rest: string)
    requires pos <= |s| && s[pos..] == Sign(negative) + rest
    ensures var start := pos + |Sign(negative)|;
            start <= |s| && s[start..] == rest && SignSpan(s, pos, start)
            && (if rest != [] && IsDigit(rest[0]) then pos < |s| && (s[pos] == '-' <==> negative) else true)
  {
    Cut(s, pos, Sign(negative), rest);
    if rest != [] { assert s[pos + |Sign(negative)|..][0] == rest[0]; }
  }

  lemma DigitsStand(s: string, start: nat, numeral: string, rest: string)
    requires Numeral(numeral) && start <= |s| && s[start..] == numeral + rest
    ensures var end := start + |numeral|;
            start < end <= |s| && Digits(s, start, end) && s[start..end] == numeral && s[end..] == rest
    ensures IsDigit((numeral + rest)[0])
  {
    Cut(s, start, numeral, rest);
  }

  lemma NumeralSpan(s: string, pos: nat, negative: bool, numeral: string, rest: string)
    requires Numeral(numeral) && pos <= |s| && s[pos..] == Sign(negative) + (numeral + rest)
    ensures var start := pos + |Sign(negative)|;
            var n := WholeSpan(pos, start, start + |numeral|);
            && n.end <= |s| && s[n.end..] == rest
            && IsNumber(s, n) && Magnitude(s, n) == DigitsValue(numeral) as real
            && (IsNegative(s, n) <==> negative)
  {
    hide IsNumber, Magnitude, DigitsValue, Digits, SignSpan, Sign, Numeral;
    var start := pos + |Sign(negative)|;
    SignStands(s, pos, negative, numeral + rest);
    DigitsStand(s, start, numeral, rest);
    WholeSpanIs(s, pos, start, start + |numeral|);
  }

  /** A piece stands where its sign, numeral and letters do, if no letter follows. */
  lemma PieceStands(s: string, pos: nat, negative: bool, p: Piece, tail: string, next: nat)
    requires p.Readable() && pos <= |s| && s[pos..] == Sign(negative) + (p.numeral + (p.letters + tail))
    requires tail != [] ==> tail[0] == ' '
    ensures var span := SpanOf(pos, negative, p, next);
            && DurationGrammar.IsPiece(s, span) && DurationGrammar.PartOf(s, span) == PartOf(p)
            && (IsNegative(s, span.number) <==> negative)
            && s[span.end..] == tail
  {
    hide IsNumber, Magnitude, IsFinite, IsNegative, DigitsValue, DurationGrammar.NamesUnit;
    var span := SpanOf(pos, negative, p, next);
    NumeralSpan(s, pos, negative, p.numeral, p.letters + tail);
    FiniteCount(p.count);
    Cut(s, span.gapEnd, p.letters, tail);
    LettersStand(s, span.gapEnd, p.letters, tail);
    DurationGrammar.SpellingNamesUnit(p.letters, p.unit);
  }

  lemma LettersStand(s: string, pos: nat, letters: string, tail: string)
    requires Letters(letters) && pos <= |s| && s[pos..] == letters + tail && (tail != [] ==> tail[0] == ' ')
    ensures var end := pos + |letters|;
            end <= |s| && DurationGrammar.All(s, pos, end, IsAlpha) && !DurationGrammar.AlphaAt(s, end)
            && DurationGrammar.All(s, pos, pos, DurationGrammar.IsSpace)
  {
    Cut(s, pos, letters, tail);
    assert pos + |letters| < |s| ==> s[pos + |letters|] == s[pos + |letters|..][0];
  }

  lemma PartsSplit(ps: seq<Piece>, k: nat)
    requires k < |ps|
    ensures PartsOf(ps)[k..] == [PartOf(ps[k])] + PartsOf(ps)[k + 1..]
  {}

  // One span in front of the spans of the rest.
  lemma SpelledFront(s: string, span: Span, rest: seq<Span>)
    requires DurationGrammar.IsPiece(s, span) && DurationGrammar.LeadsOn(s, span, Whole)
    requires DurationGrammar.Spelled(s, span.next, rest, Whole)
    requires !DurationGrammar.LateMinus(s, rest) && !IsNegative(s, rest[0].number)
    ensures var all := [span] + rest;
            && DurationGrammar.Spelled(s, span.number.pos, all, Whole)
            && DurationGrammar.PartsOf(s, span.number.pos, all, Whole)
               == [DurationGrammar.PartOf(s, span)] + DurationGrammar.PartsOf(s, span.next, rest, Whole)
            && !DurationGrammar.LateMinus(s, all)
  {
    hide DurationGrammar.IsPiece, DurationGrammar.LeadsOn, DurationGrammar.LateMinus, DurationGrammar.PartOf;
    hide IsNegative;
    var all := [span] + rest;
    assert all[1..] == rest;
    DurationGrammar.MinusStep(s, all);
  }

  lemma SpelledAlone(s: string, span: Span)
    requires DurationGrammar.IsPiece(s, span) && DurationGrammar.Ends(s, span, Whole)
    ensures DurationGrammar.Spelled(s, span.number.pos, [span], Whole)
    ensures DurationGrammar.PartsOf(s, span.number.pos, [span], Whole) == [DurationGrammar.PartOf(s, span)]
    ensures !DurationGrammar.LateMinus(s, [span])
  {}

  lemma SpaceLeadsOn(s: string, span: Span, ps: seq<Piece>, k: nat)
    requires AllReadable(ps) && k < |ps| && span.end <= |s| && s[span.end..] == " " + Join(ps, k)
    requires span.next == span.end + 1
    ensures DurationGrammar.LeadsOn(s, span, Whole) && s[span.next..] == Sign(false) + Join(ps, k)
  {
    hide Join, AllReadable;
    JoinStarts(ps, k);
    Cut(s, span.end, " ", Join(ps, k));
    assert s[span.next] == s[span.next..][0];
  }

  /** Joined pieces are a spelling of their parts, with a minus on none but the first. */
  lemma {:induction false} JoinedSpells(s: string, pos: nat, negative: bool, ps: seq<Piece>, k: nat)
    returns (spans: seq<Span>)
    requires AllReadable(ps) && k < |ps| && pos <= |s| && s[pos..] == Sign(negative) + Join(ps, k)
    ensures DurationGrammar.Spelled(s, pos, spans, Whole)
    ensures DurationGrammar.PartsOf(s, pos, spans, Whole) == PartsOf(ps)[k..]
    ensures IsNegative(s, spans[0].number) <==> negative
    ensures !DurationGrammar.LateMinus(s, spans)
    decreases |ps| - k
  {
    hide IsNegative, DurationGrammar.IsPiece, DurationGrammar.LeadsOn, DurationGrammar.PartOf;
    hide DurationGrammar.LateMinus, DurationGrammar.Spelled, DurationGrammar.PartsOf;
    var p, tail := ps[k], Tail(ps, k);
    var next := SpanOf(pos, negative, p, 0).end + if k + 1 == |ps| then 0 else 1;
    var span := SpanOf(pos, negative, p, next);
    PieceStands(s, pos, negative, p, tail, next);
    PartsSplit(ps, k);
    if k + 1 == |ps| {
      SpelledAlone(s, span);
      spans := [span];
    } else {
      SpaceLeadsOn(s, span, ps, k + 1);
      var rest := JoinedSpells(s, next, false, ps, k + 1);
      SpelledFront(s, span, rest);
      spans := [span] + rest;
    }
  }

  lemma JoinStarts(ps: seq<Piece>, k: nat)
    requires AllReadable(ps) && k < |ps|
    ensures Join(ps, k) != "" && IsDigit(Join(ps, k)[0])
  {
    assert ps[k].Readable() && IsDigit(ps[k].numeral[0]);
  }

  lemma {:induction false} JoinEnds(ps: seq<Piece>, k: nat)
    requires AllReadable(ps) && k < |ps|
    ensures Join(ps, k) != "" && IsAlpha(Join(ps, k)[|Join(ps, k)| - 1])
    decreases |ps| - k
  {
    var p, text := ps[k], Join(ps, k);
    assert p.Readable() && IsAlpha(p.letters[|p.letters| - 1]);
    if k + 1 < |ps| { JoinEnds(ps, k + 1); }
  }

  /** The pieces behind their common sign. */
  function JoinSigned(ps: seq<Piece>, negative: bool): string
    requires ps != []
  {
    Sign(negative) + Join(ps, 0)
  }

  lemma JoinIsTrimmed(ps: seq<Piece>, negative: bool)
    requires ps != [] && AllReadable(ps)
    ensures var text := JoinSigned(ps, negative);
            text != "" && IsTrimmed(text) && !IsSeparator(text[0])
  {
    hide Join, AllReadable;
    var text, bare := JoinSigned(ps, negative), Join(ps, 0);
    JoinStarts(ps, 0);
    JoinEnds(ps, 0);
    assert text[|text| - 1] == bare[|bare| - 1];
  }

  /** Text of readable pieces behind a common sign parses to exactly its pieces under that sign. */
  lemma ParseJoined(ps: seq<Piece>, negative: bool)
    requires ps != [] && AllReadable(ps)
    requires IsFinite(FoldParts(Signed(PartsOf(ps), negative)))
    ensures var text := JoinSigned(ps, negative);
            var parts := Signed(PartsOf(ps), negative);
            Parsed(text) == Ok(DurationValue(text, FoldParts(parts), Some(parts)))
  {
    hide DurationAt, FoldParts, IsFinite, Join, AllReadable, Trim, IsNegative;
    hide DurationGrammar.Spelled, DurationGrammar.LateMinus, DurationGrammar.PartsOf;
    var text := JoinSigned(ps, negative);
    JoinIsTrimmed(ps, negative);
    TrimIsIdempotent(text);
    assert text[0..] == text && PartsOf(ps)[0..] == PartsOf(ps);
    var spans := JoinedSpells(text, 0, negative, ps, 0);
    DurationGrammar.SpacesAndSeparators();
    DurationGrammar.SpellingReads(text, Whole, 0, spans);
  }
}
