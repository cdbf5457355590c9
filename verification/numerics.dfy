/**
 Integer conversions and the colour blend of the mask-rcnn post-processing loop.

 Confidences, box coordinates and soft-mask values are modelled as exact reals:
 the float comparisons and float-by-integer products of the program are taken to
 be exact, and IEEE-754 rounding is not modelled.
 */
module Numerics {

  /** `t` is `v` with its fractional part dropped, rounding toward zero. */
  predicate TowardZero(v: real, t: int)
  {
    if 0.0 <= v then t as real <= v < t as real + 1.0
    else t as real - 1.0 < v <= t as real
  }

  /** Python's `int(v)` and numpy's `astype("int")` on a finite value. */
  function Trunc(v: real): (t: int)
    ensures TowardZero(v, t)
  {
    if 0.0 <= v then v.Floor else -((-v).Floor)
  }

  /** At most one integer is the toward-zero truncation of a real. */
  lemma TowardZeroUnique(v: real, t: int, t': int)
    requires TowardZero(v, t) && TowardZero(v, t')
    ensures t == t'
  {
  }

  predicate IsByte(n: int)
  {
    0 <= n < 256
  }

  /**
   One channel of `((0.4 * color) + (0.6 * roi)).astype("uint8")`, computed in
   integers: for channel values 0..255 the real weighted sum is never negative,
   so the cast drops its fraction, and 0.4 c + 0.6 p == (2 c + 3 p) / 5.
   */
  function BlendChannel(c: int, p: int): (r: int)
    requires IsByte(c) && IsByte(p)
    ensures IsByte(r)
    ensures r == Trunc(0.4 * c as real + 0.6 * p as real)
    ensures c <= p ==> c <= r <= p
    ensures p <= c ==> p <= r <= c
  {
    var n := 2 * c + 3 * p;
    var q := n / 5;
    assert 0.4 * c as real + 0.6 * p as real == n as real / 5.0;
    assert n as real == 5.0 * q as real + (n % 5) as real;
    q
  }
}
