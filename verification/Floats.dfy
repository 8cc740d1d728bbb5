/**
 The parts of `f64` the model keeps, over exact reals: which magnitudes are
 finite, and rounding to whole numbers.
 */
module Floats {
  const TWO_64 := 0x1_0000_0000_0000_0000
  const TWO_256 := TWO_64 * TWO_64 * TWO_64 * TWO_64
  const TWO_960 := TWO_256 * TWO_256 * TWO_256 * TWO_64 * TWO_64 * TWO_64

  // 2^1024 - 2^970: the least magnitude that rounds to infinity as an `f64`.
  const FLOAT_LIMIT := 0xffff_ffff_ffff_fc00 * TWO_960

  const I64_MAX := 0x7fff_ffff_ffff_ffff
  const I64_MIN := -I64_MAX - 1

  predicate IsFinite(x: real) {
    -(FLOAT_LIMIT as real) < x < FLOAT_LIMIT as real
  }

  predicate IsI64(n: int) {
    I64_MIN <= n <= I64_MAX
  }

  function Abs(x: real): real {
    if x < 0.0 then -x else x
  }

  /** `f64::trunc`: toward zero. */
  function Trunc(x: real): int {
    if x >= 0.0 then x.Floor else -((-x).Floor)
  }

  /** `f64::fract`: what `Trunc` drops, with the sign of `x`. */
  function Fract(x: real): real {
    x - Trunc(x) as real
  }

  /** `f64::round`: to the nearest whole number, halves away from zero. */
  function Round(x: real): int {
    if x >= 0.0 then (x + 0.5).Floor else -((-x + 0.5).Floor)
  }
}
