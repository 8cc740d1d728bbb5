/**
 How the two scanning modes agree: a recognized prefix is a whole duration, and a
 whole duration without commas is recognized as a prefix of itself.
 */
module DurationModes {
  import opened Wrappers
  import opened Floats
  import opened Text
  import opened DurationScan

  // ---------------------------------------------------------------- cutting the input after a part

  lemma {:induction false} MantissaCut(s: string, pos: nat, seen: bool, n: nat)
    requires pos <= n <= |s|
    ensures var r := MantissaEnd(s, pos, seen);
            MantissaEnd(s[..n], pos, seen) == if r <= n then r else n
    decreases n - pos
  {
    if pos < n {
      if DigitAt(s, pos) {
        MantissaCut(s, pos + 1, seen, n);
      } else if PointAt(s, pos) && !seen {
        MantissaCut(s, pos + 1, true, n);
      }
    }
  }

  lemma ExponentCut(s: string, pos: nat, n: nat)
    requires pos <= |s| && ExponentEnd(s, pos) <= n <= |s|
    ensures ExponentEnd(s[..n], pos) == ExponentEnd(s, pos)
  {
    if ExponentMarkAt(s, pos) {
      var first := if SignAt(s, pos + 1) then pos + 2 else pos + 1;
      if DigitAt(s, first) {
        SkipWhileCut(s, first, IsDigit, n);
      }
    }
  }

  lemma HasDigitCut(s: string, from: nat, to: nat, n: nat)
    requires from <= to <= n <= |s|
    ensures HasDigit(s[..n], from, to) == HasDigit(s, from, to)
  {}

  lemma NumberEndCut(s: string, pos: nat, n: nat)
    requires pos < |s| && NumberEnd(s, pos) <= n <= |s| && pos < n
    ensures NumberEnd(s[..n], pos) == NumberEnd(s, pos)
  {
    var start := if SignAt(s, pos) then pos + 1 else pos;
    var end := MantissaEnd(s, start, false);
    MantissaCut(s, start, false, n);
    HasDigitCut(s, start, end, n);
    if HasDigit(s, start, end) { ExponentCut(s, end, n); }
  }

  // A signed number runs past the digits that follow its sign.
  lemma DigitsAheadCut(s: string, pos: nat, n: nat)
    requires pos <= |s| && DigitsAhead(s, pos) && MantissaEnd(s, pos, false) <= n <= |s|
    ensures DigitsAhead(s[..n], pos)
  {}

  lemma NumberAtCut(s: string, pos: nat, n: nat)
    requires pos < |s| && NumberAt(s, pos).Ok? && NumberAt(s, pos).value.1 <= n <= |s|
    ensures NumberAt(s[..n], pos) == NumberAt(s, pos)
  {
    var end := NumberEnd(s, pos);
    NumberEndCut(s, pos, n);
    assert s[..n][pos..end] == s[pos..end];
    if SignAt(s, pos) {
      DigitsAheadCut(s, pos + 1, n);
    }
  }

  lemma UnitAtCut(s: string, pos: nat, n: nat)
    requires pos <= |s| && UnitAt(s, pos).Ok? && UnitAt(s, pos).value.1 <= n <= |s|
    ensures UnitAt(s[..n], pos) == UnitAt(s, pos)
  {
    var end := SkipWhile(s, pos, IsAlpha);
    SkipWhileCut(s, pos, IsAlpha, n);
    assert s[..n][pos..end] == s[pos..end];
  }

  /** A part reads the same when the input is cut anywhere after it. */
  lemma PartAtCut(s: string, pos: nat, n: nat)
    requires pos < |s| && PartAt(s, pos).Ok? && PartAt(s, pos).value.end <= n <= |s|
    ensures PartAt(s[..n], pos) == PartAt(s, pos)
  {
    var after := NumberAt(s, pos).value.1;
    var unitStart := SkipWhile(s, after, IsAsciiWhitespace);
    NumberAtCut(s, pos, n);
    SkipWhileCut(s, after, IsAsciiWhitespace, n);
    UnitAtCut(s, unitStart, n);
  }

  // ---------------------------------------------------------------- where parts can start

  /** A part that reads starts with a digit, a point and a digit, or a sign before either. */
  lemma PartCanStart(s: string, pos: nat)
    requires pos <= |s| && NumberAt(s, pos).Ok?
    ensures CanStart(s, pos)
  {}

  lemma CanStartIsNoSeparator(s: string, pos: nat)
    requires CanStart(s, pos)
    ensures pos < |s| && !IsSeparator(s[pos])
  {}

  lemma SameNext(s: string, end: nat)
    requires end <= |s|
    requires NextPart(s, end, Prefix).Some?
    ensures NextPart(s, end, Whole) == NextPart(s, end, Prefix)
  {
    var next := NextPart(s, end, Prefix).value;
    SkipWhileSpan(s, end, IsAsciiWhitespace);
    CanStartIsNoSeparator(s, next);
    SkipWhileIs(s, end, IsSeparator, next);
  }

  lemma NextCut(s: string, end: nat, n: nat)
    requires end <= n <= |s|
    requires NextPart(s, end, Prefix).Some? && NextPart(s, end, Prefix).value < n
    ensures NextPart(s[..n], end, Whole) == NextPart(s, end, Prefix)
  {
    SameNext(s, end);
    SkipWhileCut(s, end, IsSeparator, n);
  }

  // ---------------------------------------------------------------- prefix, then whole

  lemma {:induction false} PartsCut(s: string, pos: nat, first: bool, n: nat)
    requires pos < |s|
    requires PartsFrom(s, pos, Prefix, first).Ok? && PartsFrom(s, pos, Prefix, first).value.end == n
    ensures pos < n <= |s|
    ensures PartsFrom(s[..n], pos, Whole, first) == PartsFrom(s, pos, Prefix, first)
    decreases |s| - pos
  {
    var part := PartAt(s, pos).value;
    PartsFromStep(s, pos, Prefix, first, part);
    match NextPart(s, part.end, Prefix)
    case None =>
      PartAtCut(s, pos, n);
      PartsFromStep(s[..n], pos, Whole, first, part);
    case Some(next) =>
      PartsCut(s, next, false, n);
      PartAtCut(s, pos, n);
      NextCut(s, part.end, n);
      PartsFromStep(s[..n], pos, Whole, first, part);
  }

  predicate AlphaBefore(s: string, end: nat) {
    0 < end <= |s| && IsAlpha(s[end - 1])
  }

  // The last character of a part is a letter.
  lemma PartLastIsAlpha(s: string, pos: nat)
    requires pos <= |s| && PartAt(s, pos).Ok?
    ensures AlphaBefore(s, PartAt(s, pos).value.end)
  {
    var unitStart := SkipWhile(s, NumberAt(s, pos).value.1, IsAsciiWhitespace);
    SkipWhileSpan(s, unitStart, IsAlpha);
  }

  lemma {:induction false} LastIsAlpha(s: string, pos: nat, first: bool)
    requires pos < |s| && PartsFrom(s, pos, Prefix, first).Ok?
    ensures AlphaBefore(s, PartsFrom(s, pos, Prefix, first).value.end)
    decreases |s| - pos
  {
    var part := PartAt(s, pos).value;
    PartsFromStep(s, pos, Prefix, first, part);
    match NextPart(s, part.end, Prefix)
    case None => PartLastIsAlpha(s, pos);
    case Some(next) => LastIsAlpha(s, next, false);
  }

  lemma PrefixIsTrimmed(s: string, n: nat)
    requires CanStart(s, 0) && AlphaBefore(s, n)
    ensures IsTrimmed(s[..n]) && Start(s[..n], Whole) == Some(0)
  {}

  lemma SameFinish(s: string, scan: Scanned)
    requires scan.end <= |s| && IsTrimmed(s[..scan.end])
    ensures Finish(s[..scan.end], Whole, scan) == Finish(s, Prefix, scan)
  {}

  lemma DurationCut(s: string)
    requires DurationAt(s, Prefix).Ok?
    ensures var (d, n) := DurationAt(s, Prefix).value;
            0 < n <= |s| && IsTrimmed(s[..n]) && DurationAt(s[..n], Whole) == Ok((d, n))
  {
    var scan := PartsFrom(s, 0, Prefix, true).value;
    PartsCut(s, 0, true, scan.end);
    LastIsAlpha(s, 0, true);
    PrefixIsTrimmed(s, scan.end);
    SameFinish(s, scan);
  }

  /**
   If a prefix of `n` characters is recognized, then those characters parse as a
   whole to the same duration: same parts, same seconds, same spelling.
   */
  lemma PrefixThenWhole(s: string)
    requires ParsedPrefix(s).Some?
    ensures var (d, n) := ParsedPrefix(s).value;
            0 < n <= |s| && Parsed(s[..n]) == Ok(d)
  {
    DurationCut(s);
    TrimIsIdempotent(s[..ParsedPrefix(s).value.1]);
  }

  // ---------------------------------------------------------------- whole, then prefix

  lemma {:induction false} PartsWithoutCommas(s: string, pos: nat, first: bool)
    requires pos < |s| && ',' !in s && IsTrimmed(s)
    requires PartsFrom(s, pos, Whole, first).Ok?
    ensures PartsFrom(s, pos, Prefix, first) == PartsFrom(s, pos, Whole, first)
    ensures PartsFrom(s, pos, Whole, first).value.end == |s|
    decreases |s| - pos
  {
    var part := PartAt(s, pos).value;
    PartsFromStep(s, pos, Whole, first, part);
    PartsFromStep(s, pos, Prefix, first, part);
    var end := part.end;
    var white := SkipWhile(s, end, IsAsciiWhitespace);
    SkipWhileSpan(s, end, IsAsciiWhitespace);
    SkipWhileIs(s, end, IsSeparator, white);
    match NextPart(s, end, Whole)
    case None =>
      if end < |s| {
        assert false;
      }
    case Some(next) =>
      PartCanStart(s, next);
      PartsWithoutCommas(s, next, false);
  }

  lemma StartWithoutCommas(s: string)
    requires IsTrimmed(s) && ',' !in s && s != []
    ensures Start(s, Whole) == Some(0)
  {}

  lemma StartOfPrefix(s: string)
    requires s != [] && PartsFrom(s, 0, Whole, true).Ok?
    ensures Start(s, Prefix) == Some(0)
  {
    PartCanStart(s, 0);
  }

  lemma DurationWithoutCommas(s: string)
    requires IsTrimmed(s) && ',' !in s && s != [] && DurationAt(s, Whole).Ok?
    ensures DurationAt(s, Prefix) == DurationAt(s, Whole)
    ensures DurationAt(s, Whole).value.1 == |s|
  {
    hide PartsFrom, IsTrimmed, Start, CanStart, Trim, FoldParts, IsFinite;
    StartWithoutCommas(s);
    var scan := PartsFrom(s, 0, Whole, true);
    assert scan.Ok?;
    PartsWithoutCommas(s, 0, true);
    StartOfPrefix(s);
    assert s[..scan.value.end] == s;
    SameFinish(s, scan.value);
  }

  /**
   A trimmed input without commas that parses as a whole is recognized as a
   prefix up to its end, as the same duration.
   */
  lemma WholeThenPrefix(s: string)
    requires IsTrimmed(s) && ',' !in s && Parsed(s).Ok?
    ensures ParsedPrefix(s) == Some((Parsed(s).value, |s|))
  {
    TrimIsIdempotent(s);
    DurationWithoutCommas(s);
  }

  /** Both directions: on trimmed inputs without commas the modes accept the same whole strings. */
  lemma ModesAgree(s: string, d: DurationValue)
    requires IsTrimmed(s) && ',' !in s
    ensures Parsed(s) == Ok(d) <==> ParsedPrefix(s) == Some((d, |s|))
  {
    if Parsed(s) == Ok(d) {
      WholeThenPrefix(s);
    }
    if ParsedPrefix(s) == Some((d, |s|)) {
      PrefixThenWhole(s);
      assert s[..|s|] == s;
    }
  }

  // ---------------------------------------------------------------- offsets

  lemma {:induction false} MantissaIsAscii(s: string, pos: nat, seen: bool)
    requires pos <= |s|
    ensures forall i :: pos <= i < MantissaEnd(s, pos, seen) ==> IsAscii(s[i])
    decreases |s| - pos
  {
    if DigitAt(s, pos) {
      MantissaIsAscii(s, pos + 1, seen);
    } else if PointAt(s, pos) && !seen {
      MantissaIsAscii(s, pos + 1, true);
    }
  }

  ghost predicate AsciiSpan(s: string, from: nat, to: nat)
    requires to <= |s|
  {
    forall i :: from <= i < to ==> IsAscii(s[i])
  }

  lemma ExponentIsAscii(s: string, pos: nat)
    requires pos <= |s|
    ensures AsciiSpan(s, pos, ExponentEnd(s, pos))
  {
    if ExponentMarkAt(s, pos) {
      var first := if SignAt(s, pos + 1) then pos + 2 else pos + 1;
      if DigitAt(s, first) { SkipWhileSpan(s, first, IsDigit); }
    }
  }

  lemma NumberIsAscii(s: string, pos: nat)
    requires pos <= |s|
    ensures AsciiSpan(s, pos, NumberEnd(s, pos))
  {
    var start := if SignAt(s, pos) then pos + 1 else pos;
    MantissaIsAscii(s, start, false);
    ExponentIsAscii(s, MantissaEnd(s, start, false));
  }

  lemma SpanIsAscii(s: string, pos: nat, p: char -> bool)
    requires pos <= |s| && forall c :: p(c) ==> IsAscii(c)
    ensures AsciiSpan(s, pos, SkipWhile(s, pos, p))
  {
    SkipWhileSpan(s, pos, p);
  }

  lemma PartIsAscii(s: string, pos: nat)
    requires pos <= |s| && PartAt(s, pos).Ok?
    ensures AsciiSpan(s, pos, PartAt(s, pos).value.end)
  {
    NumberIsAscii(s, pos);
    var after := NumberAt(s, pos).value.1;
    SpanIsAscii(s, after, IsAsciiWhitespace);
    SpanIsAscii(s, SkipWhile(s, after, IsAsciiWhitespace), IsAlpha);
  }

  lemma {:induction false} PartsAreAscii(s: string, pos: nat, first: bool)
    requires pos < |s| && PartsFrom(s, pos, Prefix, first).Ok?
    ensures AsciiSpan(s, pos, PartsFrom(s, pos, Prefix, first).value.end)
    decreases |s| - pos
  {
    var part := PartAt(s, pos).value;
    PartsFromStep(s, pos, Prefix, first, part);
    PartIsAscii(s, pos);
    match NextPart(s, part.end, Prefix)
    case None =>
    case Some(next) =>
      PartsAreAscii(s, next, false);
      SpanIsAscii(s, part.end, IsAsciiWhitespace);
  }

  lemma {:induction false} AsciiByteLen(s: string)
    requires forall i :: 0 <= i < |s| ==> IsAscii(s[i])
    ensures ByteLen(s) == |s|
  {
    if s != [] { AsciiByteLen(s[..|s| - 1]); }
  }

  /** The recognized prefix is ASCII, so its character count is its byte length. */
  lemma PrefixOffsetIsBytes(s: string)
    requires ParsedPrefix(s).Some?
    ensures ParsedPrefix(s).value.1 == ByteLen(s[..ParsedPrefix(s).value.1])
  {
    PartsAreAscii(s, 0, true);
    AsciiByteLen(s[..ParsedPrefix(s).value.1]);
  }
}
