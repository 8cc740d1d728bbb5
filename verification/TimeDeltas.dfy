/**
 The conversion of a floating-point number of seconds to chrono's `TimeDelta`,
 and the theorem that its sign fix, rounding and carry together round to the
 nearest nanosecond.
 */
module TimeDeltas {
  import opened Wrappers
  import opened Floats

  const NANOS_PER_SECOND := 1_000_000_000

  // `TimeDelta` holds at most `i64::MAX` milliseconds either way.
  const MAX_NANOS := I64_MAX * 1_000_000

  datatype TimeDelta = TimeDelta(secs: int, nanos: int) {
    function Total(): int {
      secs * NANOS_PER_SECOND + nanos
    }

    predicate Valid() {
      0 <= nanos < NANOS_PER_SECOND && -MAX_NANOS <= Total() <= MAX_NANOS
    }
  }

  datatype DurationError =
    | Empty
    | MissingNumber
    | MissingUnit
    | UnknownUnit
    | InvalidNumber
    | MalformedNumber
    | NonFiniteNumber
    | NonFiniteSeconds

  /** chrono's `TimeDelta::new`. */
  function NewDelta(secs: int, nanos: int): Option<TimeDelta> {
    if TimeDelta(secs, nanos).Valid() then Some(TimeDelta(secs, nanos)) else None
  }

  // A fraction that rounded up to a whole second carries into the seconds.
  function Carried(secs: int, rounded: int): Result<TimeDelta, DurationError> {
    var (carried, kept) :=
      if rounded >= NANOS_PER_SECOND then (secs + 1, rounded - NANOS_PER_SECOND)
      else (secs, rounded);
    if !IsI64(carried) then
      Err(NonFiniteSeconds)
    else
      match NewDelta(carried, kept)
      case Some(delta) => Ok(delta)
      case None => Err(NonFiniteSeconds)
  }

  function FromSeconds(total: real): Result<TimeDelta, DurationError> {
    if !IsFinite(total) then
      Err(NonFiniteSeconds)
    else
      var whole := Trunc(total);
      var frac := Fract(total);
      var (secs, nanos) :=
        if frac < 0.0 then (whole - 1, (frac + 1.0) * 1_000_000_000.0)
        else (whole, frac * 1_000_000_000.0);
      Carried(secs, Round(nanos))
  }

  /** The nearest whole number of nanoseconds, halves upward. */
  function NearestNano(total: real): int {
    (total * 1_000_000_000.0 + 0.5).Floor
  }

  lemma FractRange(x: real)
    ensures -1.0 < Fract(x) < 1.0
    ensures x == Trunc(x) as real + Fract(x)
  {}

  lemma NearestNanoParts(secs: int, frac: real)
    requires 0.0 <= frac < 1.0
    ensures NearestNano(secs as real + frac)
            == secs * NANOS_PER_SECOND + Round(frac * 1_000_000_000.0)
    ensures 0 <= Round(frac * 1_000_000_000.0) <= NANOS_PER_SECOND
  {}

  /** The carry keeps the total, and fails exactly when that does not fit. */
  lemma CarryKeepsTotal(secs: int, rounded: int)
    requires 0 <= rounded <= NANOS_PER_SECOND
    ensures var r, total := Carried(secs, rounded), secs * NANOS_PER_SECOND + rounded;
            && (r.Ok? <==> -MAX_NANOS <= total <= MAX_NANOS)
            && (r.Ok? ==> r.value.Valid() && r.value.Total() == total)
            && (r.Err? ==> r.error == NonFiniteSeconds)
  {}

  lemma InfiniteIsTooLarge(total: real)
    requires !IsFinite(total)
    ensures !(-MAX_NANOS <= NearestNano(total) <= MAX_NANOS)
  {}

  /**
   The conversion is rounding to the nearest nanosecond, and fails exactly when
   that does not fit a `TimeDelta`.
   */
  lemma FromSecondsRounds(total: real)
    ensures var r := FromSeconds(total);
            && (r.Ok? <==> -MAX_NANOS <= NearestNano(total) <= MAX_NANOS)
            && (r.Ok? ==> r.value.Valid() && r.value.Total() == NearestNano(total))
            && (r.Err? ==> r.error == NonFiniteSeconds)
  {
    hide Carried, Trunc, Fract, Round, NearestNano, IsFinite;
    FractRange(total);
    var (secs, frac) :=
      if Fract(total) < 0.0 then (Trunc(total) - 1, Fract(total) + 1.0)
      else (Trunc(total), Fract(total));
    assert total == secs as real + frac;
    NearestNanoParts(secs, frac);
    CarryKeepsTotal(secs, Round(frac * 1_000_000_000.0));
    if !IsFinite(total) { InfiniteIsTooLarge(total); }
  }

  /** At most half a nanosecond is lost. */
  lemma FromSecondsError(total: real)
    requires FromSeconds(total).Ok?
    ensures Abs(FromSeconds(total).value.Total() as real - total * 1_000_000_000.0) <= 0.5
  {
    FromSecondsRounds(total);
  }

  lemma FromSecondsMonotone(a: real, b: real)
    requires a <= b && FromSeconds(a).Ok? && FromSeconds(b).Ok?
    ensures FromSeconds(a).value.Total() <= FromSeconds(b).value.Total()
  {
    FromSecondsRounds(a);
    FromSecondsRounds(b);
  }

  lemma TotalDetermines(a: TimeDelta, b: TimeDelta)
    requires a.Valid() && b.Valid() && a.Total() == b.Total()
    ensures a == b
  {}

  lemma NearestNanoOfWhole(n: int)
    ensures NearestNano(n as real / 1_000_000_000.0) == n
  {}

  /** The conversion is exact on every whole number of nanoseconds. */
  lemma FromSecondsExact(delta: TimeDelta)
    requires delta.Valid()
    ensures FromSeconds(delta.Total() as real / 1_000_000_000.0) == Ok(delta)
  {
    var total := delta.Total() as real / 1_000_000_000.0;
    NearestNanoOfWhole(delta.Total());
    FromSecondsRounds(total);
    TotalDetermines(FromSeconds(total).value, delta);
  }
}
