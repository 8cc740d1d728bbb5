/**
 The canonical spelling of a number of seconds (`canonical_raw`): a greedy
 decomposition into weeks down to milliseconds.
 */
module DurationPrint {
  import opened Arithmetic
  import opened Floats
  import opened Text
  import opened DurationUnits
  import opened DurationScan

  const UNIT_COUNT := 6

  type UnitIndex = k: nat | k < UNIT_COUNT

  /** The six decomposition units, largest first. */
  function UnitOf(k: UnitIndex): DurationUnit
  {
    if k == 0 then Week else if k == 1 then Day else if k == 2 then Hour
    else if k == 3 then Minute else if k == 4 then Second else Millisecond
  }

  function Suffix(k: UnitIndex): string
  {
    if k == 0 then "w" else if k == 1 then "d" else if k == 2 then "h"
    else if k == 3 then "m" else if k == 4 then "s" else "ms"
  }

  // `to_u64().unwrap_or(0)` of a whole number.
  function ToU64OrZero(n: int): nat {
    if 0 <= n < TWO_64 then n else 0
  }

  /** Milliseconds per decomposition unit. */
  function UnitMs(k: UnitIndex): (ms: nat)
    ensures ms > 0
  {
    if k == 0 then 604_800_000 else if k == 1 then 86_400_000 else if k == 2 then 3_600_000
    else if k == 3 then 60_000 else if k == 4 then 1_000 else 1
  }

  /** The table is what the source computes from the seconds per unit. */
  lemma UnitMsFromSeconds(k: UnitIndex)
    ensures ToU64OrZero(Round(FixedSeconds(UnitOf(k)) * 1_000.0)) == UnitMs(k)
    ensures FixedSeconds(UnitOf(k)) == UnitMs(k) as real / 1_000.0
  {}

  // ---------------------------------------------------------------- decimal numerals

  function Digit(d: nat): (c: char)
    requires d < 10
    ensures IsDigit(c) && DigitValue(c) == d
  {
    (d + '0' as int) as char
  }

  /** `u64`'s `Display`. */
  function Decimal(n: nat): (s: string)
    ensures s != []
  {
    if n < 10 then [Digit(n)] else Decimal(n / 10) + [Digit(n % 10)]
  }

  /** A printed numeral is digits that read back as the number. */
  lemma {:induction false} DecimalReads(n: nat)
    ensures forall i :: 0 <= i < |Decimal(n)| ==> IsDigit(Decimal(n)[i])
    ensures DigitsValue(Decimal(n)) == n
  {
    var s := Decimal(n);
    if n < 10 {
      assert s[..|s| - 1] == [];
    } else {
      DecimalReads(n / 10);
      assert s[..|s| - 1] == Decimal(n / 10);
    }
  }

  // ---------------------------------------------------------------- decomposition

  /** A count written for the `k`th unit. */
  datatype Written = Written(count: nat, k: UnitIndex)

  function Counts(ms: nat, k: nat): (r: seq<Written>)
    requires k <= UNIT_COUNT
    decreases UNIT_COUNT - k, ms
  {
    if k == UNIT_COUNT then []
    else
      if ms >= UnitMs(k) then [Written(ms / UnitMs(k), k)] + Counts(ms % UnitMs(k), k + 1)
      else Counts(ms, k + 1)
  }

  function RenderOne(w: Written): string
  {
    Decimal(w.count) + Suffix(w.k)
  }

  function Render(ws: seq<Written>): string
  {
    if ws == [] then ""
    else RenderOne(ws[0]) + (if |ws| == 1 then "" else " " + Render(ws[1..]))
  }

  function Millis(x: real): nat {
    ToU64OrZero(Round(Abs(x) * 1_000.0))
  }

  /**
   The canonical spelling of `x` seconds. `display` is the float dialect the
   source falls back on when no unit was written.
   */
  function CanonicalText(x: real, display: real -> string): string {
    if x == 0.0 then "0s"
    else
      var counts := Counts(Millis(x), 0);
      if counts == [] then display(x) + "s"
      else (if x < 0.0 then "-" else "") + Render(counts)
  }

  lemma RenderFront(w: Written, ws: seq<Written>)
    ensures Render([w] + ws) == RenderOne(w) + (if ws == [] then "" else " " + Render(ws))
  {}

  // `raw` so far, with the text of the counts still to come.
  function Continued(raw: string, decomposed: bool, ws: seq<Written>): string {
    if ws == [] then raw
    else (if decomposed then raw + " " else raw) + Render(ws)
  }

  lemma ContinuedStep(raw: string, decomposed: bool, w: Written, ws: seq<Written>)
    ensures Continued(raw, decomposed, [w] + ws) ==
            Continued((if decomposed then raw + " " else raw) + RenderOne(w), true, ws)
  {}

  lemma CountsStep(ms: nat, k: UnitIndex)
    ensures Counts(ms, k) == if ms >= UnitMs(k)
                             then [Written(ms / UnitMs(k), k)] + Counts(ms % UnitMs(k), k + 1)
                             else Counts(ms, k + 1)
  {}

  lemma NothingSmaller(ms: nat)
    ensures Counts(ms, UNIT_COUNT) == [] && Render([]) == ""
  {}

  method UnitMillis(k: UnitIndex) returns (ms: nat)
    ensures ms == UnitMs(k)
  {
    UnitMsFromSeconds(k);
    ms := ToU64OrZero(Round(FixedSeconds(UnitOf(k)) * 1_000.0));
  }

  // The decomposition loop of `canonical_raw`.
  method Decompose(ms: nat, sign: string) returns (raw: string, decomposed: bool)
    ensures decomposed <==> Counts(ms, 0) != []
    ensures raw == sign + Render(Counts(ms, 0))
  {
    hide UnitMs, Render, RenderOne, Counts, Decimal;
    var totalMs := ms;
    raw := sign;
    decomposed := false;
    ghost var target := Continued(sign, false, Counts(ms, 0));
    for k := 0 to UNIT_COUNT
      invariant Continued(raw, decomposed, Counts(totalMs, k)) == target
      invariant decomposed || Counts(totalMs, k) != [] <==> Counts(ms, 0) != []
    {
      CountsStep(totalMs, k);
      var unitMs := UnitMillis(k);
      if totalMs >= unitMs {
        var count := totalMs / unitMs;
        ContinuedStep(raw, decomposed, Written(count, k), Counts(totalMs % unitMs, k + 1));
        totalMs := totalMs % unitMs;
        if decomposed {
          raw := raw + " ";
        }
        raw := raw + RenderOne(Written(count, k));
        decomposed := true;
      }
    }
    NothingSmaller(totalMs);
    assert sign + "" == sign;
  }

  method CanonicalRaw(x: real, display: real -> string) returns (r: string)
    ensures r == CanonicalText(x, display)
  {
    if x == 0.0 {
      return "0s";
    }
    var raw, decomposed := Decompose(Millis(x), if x < 0.0 then "-" else "");
    if decomposed {
      return raw;
    } else {
      return display(x) + "s";
    }
  }

  // ---------------------------------------------------------------- mixed radix

  /** Counts of weeks, days, hours, minutes, seconds and milliseconds. */
  datatype Clock = Clock(w: nat, d: nat, h: nat, m: nat, s: nat, ms: nat) {
    predicate Valid() {
      d < 7 && h < 24 && m < 60 && s < 60 && ms < 1_000
    }

    function Total(): nat {
      w * 604_800_000 + d * 86_400_000 + h * 3_600_000 + m * 60_000 + s * 1_000 + ms
    }

    function Count(k: UnitIndex): nat
    {
      if k == 0 then w else if k == 1 then d else if k == 2 then h
      else if k == 3 then m else if k == 4 then s else ms
    }

    // The nonzero counts from the `k`th unit down.
    function Nonzero(k: nat): seq<Written>
      requires k <= UNIT_COUNT
      decreases UNIT_COUNT - k, this
    {
      if k == UNIT_COUNT then []
      else (if Count(k) == 0 then [] else [Written(Count(k), k)]) + Nonzero(k + 1)
    }

    // Milliseconds in the counts from the `k`th unit down.
    function Below(k: nat): nat
      requires k <= UNIT_COUNT
    {
      if k == 0 then Total()
      else if k == 1 then d * 86_400_000 + h * 3_600_000 + m * 60_000 + s * 1_000 + ms
      else if k == 2 then h * 3_600_000 + m * 60_000 + s * 1_000 + ms
      else if k == 3 then m * 60_000 + s * 1_000 + ms
      else if k == 4 then s * 1_000 + ms
      else if k == 5 then ms
      else 0
    }
  }

  function Split(total: nat): (c: Clock)
    ensures c.Valid()
  {
    var minutes := total / 60_000;
    var hours := minutes / 60;
    var days := hours / 24;
    Clock(days / 7, days % 7, hours % 24, minutes % 60, total / 1_000 % 60, total % 1_000)
  }

  /** `Split` is the only reading of a total as bounded counts. */
  lemma SplitIsUnique(total: nat, c: Clock)
    ensures c.Valid() && c.Total() == total <==> c == Split(total)
  {
    SplitTotal(total);
    if c.Valid() && c.Total() == total {
      SameClock(c, Split(total));
    }
  }

  lemma SplitTotal(total: nat)
    ensures Split(total).Total() == total
  {
    var seconds := total / 1_000;
    var minutes := total / 60_000;
    assert minutes == seconds / 60;
    var hours := minutes / 60;
    var days := hours / 24;
    assert total == seconds * 1_000 + total % 1_000;
    assert seconds == minutes * 60 + seconds % 60;
    assert minutes == hours * 60 + minutes % 60;
    assert hours == days * 24 + hours % 24;
    assert days == days / 7 * 7 + days % 7;
  }

  lemma SameClock(a: Clock, b: Clock)
    requires a.Valid() && b.Valid() && a.Total() == b.Total()
    ensures a == b
  {
    var x := a.w * 604_800 + a.d * 86_400 + a.h * 3_600 + a.m * 60 + a.s;
    var y := b.w * 604_800 + b.d * 86_400 + b.h * 3_600 + b.m * 60 + b.s;
    assert a.Total() == 1_000 * x + a.ms && b.Total() == 1_000 * y + b.ms;
    QuotientUnique(1_000, x, a.ms, y, b.ms);
    QuotientUnique(60, a.w * 10_080 + a.d * 1_440 + a.h * 60 + a.m, a.s,
                   b.w * 10_080 + b.d * 1_440 + b.h * 60 + b.m, b.s);
    QuotientUnique(60, a.w * 168 + a.d * 24 + a.h, a.m, b.w * 168 + b.d * 24 + b.h, b.m);
    QuotientUnique(24, a.w * 7 + a.d, a.h, b.w * 7 + b.d, b.h);
    QuotientUnique(7, a.w, a.d, b.w, b.d);
  }

  lemma BelowStep(c: Clock, k: UnitIndex)
    requires c.Valid()
    ensures c.Below(k) == UnitMs(k) * c.Count(k) + c.Below(k + 1)
    ensures c.Below(k + 1) < UnitMs(k)
  {}

  lemma {:induction false} CountsAreNonzero(c: Clock, k: nat)
    requires c.Valid() && k <= UNIT_COUNT
    ensures Counts(c.Below(k), k) == c.Nonzero(k)
    decreases UNIT_COUNT - k
  {
    hide UnitMs, Clock.Below;
    if k < UNIT_COUNT {
      BelowStep(c, k);
      CountsAreNonzero(c, k + 1);
      Quotient(UnitMs(k), c.Count(k), c.Below(k + 1));
      if c.Count(k) > 0 { TimesAtLeast(UnitMs(k), c.Count(k)); }
      CountsStep(c.Below(k), k);
    }
  }

  /**
   The greedy loop writes exactly the nonzero counts of the unique mixed-radix
   reading: fewer than 7 days, 24 hours, 60 minutes, 60 seconds, 1000 milliseconds.
   */
  lemma CountsAreMixedRadix(total: nat)
    ensures Counts(total, 0) == Split(total).Nonzero(0)
    ensures Split(total).Valid() && Split(total).Total() == total
  {
    SplitTotal(total);
    CountsAreNonzero(Split(total), 0);
  }
}
