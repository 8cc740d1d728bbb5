/**
 The numbers of duration text, by the spans of their characters: which there are,
 what they denote, and that the scanner reads exactly these.
 */
module DurationNumbers {
  import opened Wrappers
  import opened Floats
  import opened Text
  import opened TimeDeltas
  import opened DurationScan

  predicate Digits(s: string, from: nat, to: nat)
    requires from <= to <= |s|
  {
    forall i :: from <= i < to ==> IsDigit(s[i])
  }

  /**
   Where the parts of a number stand: a sign before `start`, whole digits up to
   `wholeEnd`, a point before `fracStart`, fraction digits up to `fracEnd`, a mark and a
   sign before `expStart`, and exponent digits up to `end`.
   */
  datatype NumberSpan =
    NumberSpan(pos: nat, start: nat, wholeEnd: nat, fracStart: nat, fracEnd: nat, expStart: nat, end: nat)

  predicate InOrder(s: string, n: NumberSpan) {
    n.pos <= n.start <= n.wholeEnd <= n.fracStart <= n.fracEnd <= n.expStart <= n.end <= |s|
  }

  predicate SignSpan(s: string, from: nat, to: nat)
    requires from <= to <= |s|
  {
    to == from || (to == from + 1 && (s[from] == '+' || s[from] == '-'))
  }

  predicate PointSpan(s: string, from: nat, to: nat)
    requires from <= to <= |s|
  {
    to == from || (to == from + 1 && s[from] == '.')
  }

  /** A number: digits on at least one side of the point, and digits in the exponent if there is one. */
  predicate IsNumber(s: string, n: NumberSpan) {
    && InOrder(s, n)
    && SignSpan(s, n.pos, n.start)
    && Digits(s, n.start, n.wholeEnd)
    && PointSpan(s, n.wholeEnd, n.fracStart)
    && Digits(s, n.fracStart, n.fracEnd)
    && (n.fracStart == n.wholeEnd ==> n.fracEnd == n.fracStart)
    && (n.start < n.wholeEnd || n.fracStart < n.fracEnd)
    && (n.end == n.fracEnd
        || (n.fracEnd < n.expStart < n.end && (s[n.fracEnd] == 'e' || s[n.fracEnd] == 'E')
            && SignSpan(s, n.fracEnd + 1, n.expStart) && Digits(s, n.expStart, n.end)))
  }

  predicate IsNegative(s: string, n: NumberSpan) {
    n.pos < |s| && s[n.pos] == '-'
  }

  function Pow10(k: nat): (x: real)
    ensures x >= 1.0
  {
    if k == 0 then 1.0 else 10.0 * Pow10(k - 1)
  }

  function PowTen(e: int): real {
    if e >= 0 then Pow10(e) else 1.0 / Pow10(-e)
  }

  function ExponentOf(s: string, n: NumberSpan): int
    requires InOrder(s, n)
  {
    if n.end == n.fracEnd then 0
    else
      var e: int := DigitsValue(s[n.expStart..n.end]);
      if n.fracEnd + 1 < |s| && s[n.fracEnd + 1] == '-' then -e else e
  }

  /** What the number denotes: the whole, a fraction of as many places as it has digits, times a power of ten. */
  function Magnitude(s: string, n: NumberSpan): real
    requires InOrder(s, n)
  {
    (DigitsValue(s[n.start..n.wholeEnd]) as real
     + DigitsValue(s[n.fracStart..n.fracEnd]) as real / Pow10(n.fracEnd - n.fracStart))
    * PowTen(ExponentOf(s, n))
  }

  // ---------------------------------------------------------------- arithmetic of digits

  lemma {:induction false} Scale10IsPower(x: real, e: int)
    ensures Scale10(x, e) == x * PowTen(e)
    decreases if e < 0 then -e else e
  {
    if e > 0 {
      Scale10IsPower(x * 10.0, e - 1);
      assert x * 10.0 * Pow10(e - 1) == x * (10.0 * Pow10(e - 1));
    } else if e < 0 {
      Scale10IsPower(x / 10.0, e + 1);
      DivideByTen(x, Pow10(-e - 1));
    }
  }

  lemma DivideByTen(x: real, p: real)
    requires p >= 1.0
    ensures x / 10.0 * (1.0 / p) == x * (1.0 / (10.0 * p))
  {}

  lemma DigitsSnoc(front: string, c: char)
    ensures DigitsValue(front + [c]) as real == 10.0 * DigitsValue(front) as real + DigitValue(c) as real
  {
    assert (front + [c])[..|front|] == front;
  }

  lemma {:induction false} DigitsJoin(a: string, b: string)
    ensures DigitsValue(a + b) as real == DigitsValue(a) as real * Pow10(|b|) + DigitsValue(b) as real
    decreases |b|, 1
  {
    if b == [] {
      assert a + b == a;
    } else {
      var front, c := b[..|b| - 1], b[|b| - 1];
      assert b == front + [c] && a + b == (a + front) + [c];
      DigitsJoinStep(a, front, c);
    }
  }

  lemma {:induction false} DigitsJoinStep(a: string, front: string, c: char)
    ensures DigitsValue((a + front) + [c]) as real
         == DigitsValue(a) as real * Pow10(|front| + 1) + DigitsValue(front + [c]) as real
    decreases |front| + 1, 0
  {
    hide DigitsValue;
    DigitsJoin(a, front);
    DigitsSnoc(a + front, c);
    DigitsSnoc(front, c);
    TenTimes(DigitsValue(a) as real, Pow10(|front|), DigitsValue(front) as real, DigitValue(c) as real);
  }

  lemma TenTimes(a: real, p: real, f: real, d: real)
    ensures 10.0 * (a * p + f) + d == a * (10.0 * p) + (10.0 * f + d)
  {}

  lemma {:induction false} PowersAdd(e: int, k: nat)
    ensures PowTen(e - k) == PowTen(e) / Pow10(k)
    decreases k
  {
    if k > 0 {
      PowersAdd(e, k - 1);
      OnePowerLess(e - k + 1);
      DivideAgain(PowTen(e), Pow10(k - 1));
    }
  }

  lemma OnePowerLess(e: int)
    ensures PowTen(e - 1) == PowTen(e) / 10.0
  {
    if e > 0 {
      assert Pow10(e) == 10.0 * Pow10(e - 1);
    } else {
      assert Pow10(-e + 1) == 10.0 * Pow10(-e);
      InverseOfTen(Pow10(-e));
    }
  }

  lemma InverseOfTen(p: real)
    requires p >= 1.0
    ensures 1.0 / (10.0 * p) == 1.0 / p / 10.0
  {}

  lemma DivideAgain(x: real, p: real)
    requires p >= 1.0
    ensures x / p / 10.0 == x / (10.0 * p)
  {}

  /** The digits on both sides of the point, scaled back by the places behind it. */
  lemma ScaledDigits(whole: string, fraction: string, e: int)
    ensures Scale10(DigitsValue(whole + fraction) as real, e - |fraction|) ==
            (DigitsValue(whole) as real + DigitsValue(fraction) as real / Pow10(|fraction|)) * PowTen(e)
  {
    hide Scale10, PowTen, DigitsValue;
    Scale10IsPower(DigitsValue(whole + fraction) as real, e - |fraction|);
    DigitsJoin(whole, fraction);
    PowersAdd(e, |fraction|);
    Regroup(DigitsValue(whole) as real, DigitsValue(fraction) as real, Pow10(|fraction|), PowTen(e));
  }

  lemma Regroup(w: real, f: real, p: real, t: real)
    requires p >= 1.0
    ensures (w * p + f) * (t / p) == (w + f / p) * t
  {
    assert (w * p + f) / p == w + f / p;
    assert (w * p + f) * (t / p) == (w * p + f) / p * t;
  }

  // ---------------------------------------------------------------- numbers are read

  lemma {:induction false} MantissaFraction(s: string, pos: nat, end: nat)
    requires pos <= end <= |s| && Digits(s, pos, end) && !DigitAt(s, end)
    ensures MantissaEnd(s, pos, true) == end
    decreases end - pos
  {
    if pos < end { MantissaFraction(s, pos + 1, end); }
  }

  lemma {:induction false} MantissaSpan(s: string, pos: nat, wholeEnd: nat, fracStart: nat, fracEnd: nat)
    requires pos <= wholeEnd <= fracStart <= fracEnd <= |s|
    requires Digits(s, pos, wholeEnd) && Digits(s, fracStart, fracEnd) && PointSpan(s, wholeEnd, fracStart)
    requires fracStart == wholeEnd ==> fracEnd == fracStart && !PointAt(s, fracEnd)
    requires !DigitAt(s, fracEnd)
    ensures MantissaEnd(s, pos, false) == fracEnd
    decreases wholeEnd - pos
  {
    if pos < wholeEnd {
      MantissaSpan(s, pos + 1, wholeEnd, fracStart, fracEnd);
    } else if fracStart > wholeEnd {
      MantissaFraction(s, fracStart, fracEnd);
    }
  }

  /** Nothing after the number could belong to it. */
  predicate Stops(s: string, n: NumberSpan)
    requires InOrder(s, n)
  {
    && !DigitAt(s, n.end)
    && (n.end == n.fracEnd ==>
          (n.fracStart == n.wholeEnd ==> !PointAt(s, n.end))
          && (ExponentMarkAt(s, n.end) ==>
                !DigitAt(s, if SignAt(s, n.end + 1) then n.end + 2 else n.end + 1)))
    && (n.end > n.fracEnd ==> !DigitAt(s, n.fracEnd) && !PointAt(s, n.fracEnd))
  }

  lemma NumberBegins(s: string, n: NumberSpan)
    requires IsNumber(s, n)
    ensures DigitsAhead(s, n.start) && (SignAt(s, n.pos) <==> n.start == n.pos + 1)
    ensures CanStart(s, n.pos)
  {
    if n.start < n.wholeEnd { assert IsDigit(s[n.start]); } else { assert IsDigit(s[n.fracStart]); }
  }

  lemma ExponentSpan(s: string, n: NumberSpan)
    requires IsNumber(s, n) && Stops(s, n)
    ensures ExponentEnd(s, n.fracEnd) == n.end
  {
    if n.end > n.fracEnd {
      assert IsDigit(s[n.expStart]);
      SkipWhileIs(s, n.expStart, IsDigit, n.end);
    }
  }

  /** A number is scanned to its end. */
  lemma NumberEnds(s: string, n: NumberSpan)
    requires IsNumber(s, n) && Stops(s, n)
    ensures NumberEnd(s, n.pos) == n.end
  {
    hide ExponentEnd;
    NumberBegins(s, n);
    if n.end > n.fracEnd { assert !DigitAt(s, n.fracEnd) && !PointAt(s, n.fracEnd); }
    MantissaSpan(s, n.start, n.wholeEnd, n.fracStart, n.fracEnd);
    if n.start < n.wholeEnd { assert IsDigit(s[n.start]); } else { assert IsDigit(s[n.fracStart]); }
    ExponentSpan(s, n);
  }

  // The same number at the front of its own text.
  function Shifted(n: NumberSpan): NumberSpan
    requires n.pos <= n.start <= n.wholeEnd <= n.fracStart <= n.fracEnd <= n.expStart <= n.end
  {
    NumberSpan(0, n.start - n.pos, n.wholeEnd - n.pos, n.fracStart - n.pos,
               n.fracEnd - n.pos, n.expStart - n.pos, n.end - n.pos)
  }

  lemma SpanShift(s: string, pos: nat, end: nat, from: nat, to: nat)
    requires pos <= from <= to <= end <= |s|
    ensures s[pos..end][from - pos..to - pos] == s[from..to]
    ensures Digits(s[pos..end], from - pos, to - pos) <==> Digits(s, from, to)
  {
    var t := s[pos..end];
    assert forall i :: pos <= i < end ==> t[i - pos] == s[i];
    if Digits(t, from - pos, to - pos) {
      forall i | from <= i < to ensures IsDigit(s[i]) { assert IsDigit(t[i - pos]); }
    }
  }

  lemma CharShift(s: string, pos: nat, end: nat, i: nat)
    requires pos <= i < end <= |s|
    ensures s[pos..end][i - pos] == s[i]
  {}

  lemma ShiftedNumber(s: string, n: NumberSpan)
    requires IsNumber(s, n)
    ensures IsNumber(s[n.pos..n.end], Shifted(n))
    ensures IsNegative(s[n.pos..n.end], Shifted(n)) <==> IsNegative(s, n)
  {
    hide Digits;
    SpanShift(s, n.pos, n.end, n.start, n.wholeEnd);
    SpanShift(s, n.pos, n.end, n.fracStart, n.fracEnd);
    SpanShift(s, n.pos, n.end, n.expStart, n.end);
    CharShift(s, n.pos, n.end, n.pos);
    if n.wholeEnd < n.end { CharShift(s, n.pos, n.end, n.wholeEnd); }
    if n.fracEnd < n.end {
      CharShift(s, n.pos, n.end, n.fracEnd);
      CharShift(s, n.pos, n.end, n.fracEnd + 1);
    }
  }

  lemma ShiftedExponent(s: string, n: NumberSpan)
    requires IsNumber(s, n)
    ensures InOrder(s[n.pos..n.end], Shifted(n))
    ensures ExponentOf(s[n.pos..n.end], Shifted(n)) == ExponentOf(s, n)
  {
    hide IsNumber, DigitsValue;
    InOrderOf(s, n);
    SpanShift(s, n.pos, n.end, n.expStart, n.end);
    if n.fracEnd < n.end { CharShift(s, n.pos, n.end, n.fracEnd + 1); }
  }

  lemma ShiftedMagnitude(s: string, n: NumberSpan)
    requires IsNumber(s, n)
    ensures InOrder(s[n.pos..n.end], Shifted(n))
    ensures Magnitude(s[n.pos..n.end], Shifted(n)) == Magnitude(s, n)
  {
    hide IsNumber, DigitsValue, PowTen, Pow10, ExponentOf, Digits;
    InOrderOf(s, n);
    SpanShift(s, n.pos, n.end, n.start, n.wholeEnd);
    SpanShift(s, n.pos, n.end, n.fracStart, n.fracEnd);
    ShiftedExponent(s, n);
  }

  lemma InOrderOf(s: string, n: NumberSpan)
    requires IsNumber(s, n)
    ensures InOrder(s, n) && (n.fracEnd < n.end ==> n.fracEnd + 1 < n.end)
  {}

  lemma ExponentReads(t: string, n: NumberSpan)
    requires IsNumber(t, n) && n.end == |t|
    ensures FloatExponent(t, n.fracEnd) == Some(ExponentOf(t, n))
  {
    if n.end > n.fracEnd {
      assert IsDigit(t[n.expStart]);
      SkipWhileIs(t, n.expStart, IsDigit, n.end);
    }
  }

  /** The text of a number is a float literal of its sign and magnitude. */
  lemma LiteralDenotes(t: string, n: NumberSpan)
    requires IsNumber(t, n) && n.pos == 0 && n.end == |t|
    ensures ParseFloat(t) == Some(Number(IsNegative(t, n), Magnitude(t, n)))
  {
    hide Scale10, DigitsValue, FloatExponent, PowTen, Pow10;
    NumberBegins(t, n);
    SkipWhileIs(t, n.start, IsDigit, n.wholeEnd);
    SkipWhileIs(t, n.fracStart, IsDigit, n.fracEnd);
    ExponentReads(t, n);
    assert SkipWhile(t, n.start, IsDigit) == n.wholeEnd && SkipWhile(t, n.fracStart, IsDigit) == n.fracEnd;
    assert PointAt(t, n.wholeEnd) <==> n.fracStart > n.wholeEnd;
    var whole, fraction, e := t[n.start..n.wholeEnd], t[n.fracStart..n.fracEnd], ExponentOf(t, n);
    assert whole + fraction != [] && |fraction| == n.fracEnd - n.fracStart;
    ScaledDigits(whole, fraction, e);
    assert Scale10(DigitsValue(whole + fraction) as real, e - (n.fracEnd - n.fracStart)) == Magnitude(t, n);
    assert ParseFloat(t).Some?;
    assert ParseFloat(t).value.mag == Magnitude(t, n);
  }

  /** A number is read as its sign and magnitude, unless that is too large. */
  lemma NumberReads(s: string, n: NumberSpan)
    requires IsNumber(s, n) && Stops(s, n)
    ensures NumberAt(s, n.pos) ==
            if IsFinite(Magnitude(s, n)) then Ok((Number(IsNegative(s, n), Magnitude(s, n)), n.end))
            else Err(NonFiniteNumber)
  {
    hide ParseFloat, Magnitude, IsFinite, NumberEnd, DigitsAhead;
    NumberBegins(s, n);
    NumberEnds(s, n);
    ShiftedNumber(s, n);
    ShiftedMagnitude(s, n);
    LiteralDenotes(s[n.pos..n.end], Shifted(n));
  }

  // ---------------------------------------------------------------- only numbers are read

  // The longest number without an exponent that starts at `pos`.
  lemma MantissaIsThere(s: string, pos: nat) returns (n: NumberSpan)
    requires CanStart(s, pos)
    ensures IsNumber(s, n) && n.pos == pos && n.end == n.fracEnd == n.expStart && !DigitAt(s, n.end)
    ensures n.fracStart == n.wholeEnd ==> !PointAt(s, n.end)
  {
    hide SkipWhile;
    var start := if SignAt(s, pos) then pos + 1 else pos;
    var wholeEnd := SkipWhile(s, start, IsDigit);
    SkipWhileSpan(s, start, IsDigit);
    if PointAt(s, wholeEnd) {
      var fracEnd := SkipWhile(s, wholeEnd + 1, IsDigit);
      SkipWhileSpan(s, wholeEnd + 1, IsDigit);
      n := NumberSpan(pos, start, wholeEnd, wholeEnd + 1, fracEnd, fracEnd, fracEnd);
      assert DigitAt(s, wholeEnd + 1) ==> fracEnd > wholeEnd + 1;
    } else {
      n := NumberSpan(pos, start, wholeEnd, wholeEnd, wholeEnd, wholeEnd, wholeEnd);
    }
    assert DigitAt(s, start) ==> wholeEnd > start;
  }

  /** The longest number that starts at `pos`, where digits are ahead. */
  lemma NumberIsThere(s: string, pos: nat) returns (n: NumberSpan)
    requires CanStart(s, pos)
    ensures IsNumber(s, n) && Stops(s, n) && n.pos == pos
  {
    hide SkipWhile, CanStart, SignSpan, PointSpan;
    n := MantissaIsThere(s, pos);
    var first := if SignAt(s, n.end + 1) then n.end + 2 else n.end + 1;
    if ExponentMarkAt(s, n.end) && DigitAt(s, first) {
      SkipWhileSpan(s, first, IsDigit);
      SignBefore(s, n.end + 1, first);
      var end := SkipWhile(s, first, IsDigit);
      assert IsDigit(s[first]) && !DigitAt(s, end);
      assert end != first;
      n := n.(expStart := first, end := end);
    }
  }

  lemma SignBefore(s: string, from: nat, to: nat)
    requires from <= to <= |s| && to == if SignAt(s, from) then from + 1 else from
    ensures SignSpan(s, from, to)
  {}

  /** Why nothing, or no finite number, is read: each error has its own first characters. */
  lemma NumberErrors(s: string, pos: nat)
    requires pos <= |s|
    ensures NumberAt(s, pos) == Err(InvalidNumber) <==> SignAt(s, pos) && !DigitsAhead(s, pos + 1)
    ensures NumberAt(s, pos) == Err(MalformedNumber) <==> PointAt(s, pos) && !DigitAt(s, pos + 1)
    ensures NumberAt(s, pos) == Err(MissingNumber) <==> !SignAt(s, pos) && !PointAt(s, pos) && !DigitAt(s, pos)
    ensures CanStart(s, pos) <==> NumberAt(s, pos).Ok? || NumberAt(s, pos) == Err(NonFiniteNumber)
  {
    if CanStart(s, pos) {
      var n := NumberIsThere(s, pos);
      NumberReads(s, n);
    } else if PointAt(s, pos) {
      assert s[pos..pos + 1] == ".";
    }
  }
}
