/** The Rust `f64` and `u8` primitives that the colour conversion relies on,
    stated over exact reals. IEEE-754 rounding, NaN and the infinities are not
    part of this model: every `f64` is taken to be the real it denotes. */
module Numeric {

  /** Rust's `u8`. */
  type u8 = x: int | 0 <= x < 256

  /** `f64::trunc`: the integer part, rounding toward zero. */
  function Trunc(x: real): (r: int)
    ensures 0.0 <= x ==> r as real <= x < r as real + 1.0
    ensures x < 0.0 ==> r as real - 1.0 < x <= r as real
  {
    if x >= 0.0 then x.Floor else -((-x).Floor)
  }

  /** The float-to-integer cast `x as u8`: the greatest byte not above `x`,
      and 0 when there is none. The lemma `CastU8IsTruncSaturate` shows this
      is "truncate toward zero, then saturate to [0, 255]". The definition
      is a search so that the solver only meets it through `CastU8Spec`. */
  function CastU8(x: real): u8
  {
    GreatestByteFrom(x, 0)
  }

  /** The greatest byte `r >= k` with `r <= x`, searching upward from `k`. */
  function GreatestByteFrom(x: real, k: u8): u8
    decreases 255 - k
  {
    if k == 255 || x < (k + 1) as real then k else GreatestByteFrom(x, k + 1)
  }

  lemma {:induction false} GreatestByteFromSpec(x: real, k: u8)
    requires k == 0 || k as real <= x
    ensures var r := GreatestByteFrom(x, k);
      && k <= r
      && (r == 0 || r as real <= x)
      && (r == 255 || x < r as real + 1.0)
    decreases 255 - k
  {
    if !(k == 255 || x < (k + 1) as real) {
      GreatestByteFromSpec(x, k + 1);
    }
  }

  /** What `x as u8` gives: 0 at or below zero, 255 at or above 255, and in
      between the integer part of `x`. */
  lemma CastU8Spec(x: real)
    ensures x <= 0.0 ==> CastU8(x) == 0
    ensures x >= 255.0 ==> CastU8(x) == 255
    ensures 0.0 < x < 255.0 ==> CastU8(x) as real <= x < CastU8(x) as real + 1.0
  {
    GreatestByteFromSpec(x, 0);
  }

  /** The cast is Rust's float-to-integer rule: truncate toward zero, then
      saturate to the range of `u8`. */
  lemma CastU8IsTruncSaturate(x: real)
    ensures var t := Trunc(x);
      CastU8(x) == if t < 0 then 0 else if t > 255 then 255 else t
  {
    CastU8Spec(x);
    if 0.0 < x < 255.0 {
      assert x.Floor == CastU8(x);
    }
  }

  /** `x - x.trunc()`: the fractional part that keeps the sign of `x`. */
  function TruncFraction(x: real): (r: real)
    ensures 0.0 <= x ==> 0.0 <= r < 1.0
    ensures x < 0.0 ==> -1.0 < r <= 0.0
    ensures (x - r).Floor as real == x - r
  {
    x - Trunc(x) as real
  }

  /** `x.rem_euclid(1.0)`: the truncating remainder `x % 1.0`, moved up by
      one when it is negative. */
  function RemEuclid1(x: real): (r: real)
    ensures 0.0 <= r < 1.0
    ensures r == x - x.Floor as real
  {
    var m := x - Trunc(x) as real;
    if m < 0.0 then m + 1.0 else m
  }

  /** `CastU8` never decreases when its argument grows. */
  lemma CastU8Monotonic(x: real, y: real)
    requires x <= y
    ensures CastU8(x) <= CastU8(y)
  {
    CastU8Spec(x);
    CastU8Spec(y);
  }

  /** Shifting a non-negative real by a whole number leaves its truncated
      fraction unchanged. */
  lemma TruncFractionShift(x: real, k: nat)
    requires 0.0 <= x
    ensures TruncFraction(x + k as real) == TruncFraction(x)
  {
    assert (x + k as real).Floor == x.Floor + k;
  }
}
