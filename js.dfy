/**
 * The JavaScript number operations the quiz relies on, over Dafny's exact
 * reals: the remainder operator `%` (which truncates toward zero, unlike
 * Dafny's Euclidean `%`) with the truncation it is defined by, and `Math.abs`.
 */
module Js {

  /**
   * The integer part of `x`, rounded toward zero: the truncation that
   * JavaScript's `%` is defined by.
   */
  function Trunc(x: real): (t: real)
    ensures x >= 0.0 ==> t <= x < t + 1.0
    ensures x < 0.0 ==> t - 1.0 < x <= t
  {
    if x >= 0.0 then x.Floor as real else -((-x).Floor as real)
  }

  /** `Math.abs(x)`. */
  function Abs(x: real): (r: real)
    ensures r >= 0.0 && (r == x || r == -x)
  {
    if x < 0.0 then -x else x
  }

  /**
   * `a % b` for a positive divisor: the remainder takes the sign of the
   * dividend, so a negative `a` gives a remainder in (-b, 0].
   */
  function Rem(a: real, b: real): (r: real)
    requires b > 0.0
    ensures a >= 0.0 ==> 0.0 <= r < b
    ensures a < 0.0 ==> -b < r <= 0.0
  {
    TruncTimes(a, b);
    a - Trunc(a / b) * b
  }

  /** What is left of `a` after taking away the truncated quotient `a / b` times `b`. */
  lemma TruncTimes(a: real, b: real)
    requires b > 0.0
    ensures a >= 0.0 ==> 0.0 <= a - Trunc(a / b) * b < b
    ensures a < 0.0 ==> -b < a - Trunc(a / b) * b <= 0.0
  {
    Quotient(a, b);
    if a >= 0.0 {
      Leftover(a, a / b, Trunc(a / b), b);
    } else {
      Leftover(-a, -(a / b), -Trunc(a / b), b);
    }
  }

  lemma Quotient(a: real, b: real)
    requires b > 0.0
    ensures (a / b) * b == a
    ensures a >= 0.0 <==> a / b >= 0.0
  {
  }

  /** If `a = q b` and `t` is within one below `q`, then `a - t b` is within `b` above 0. */
  lemma Leftover(a: real, q: real, t: real, b: real)
    requires 0.0 <= q - t < 1.0 && b > 0.0 && q * b == a
    ensures 0.0 <= a - t * b < b
  {
    var r := q - t;
    assert a - t * b == r * b;
    assert 0.0 <= r * b < b;
  }

  lemma MulMono(x: real, y: real, b: real)
    requires x <= y && b > 0.0
    ensures x * b <= y * b
  {
  }

  lemma MulStrict(x: real, y: real, b: real)
    requires x < y && b > 0.0
    ensures x * b < y * b
  {
  }

  /**
   * When the dividend lies in the `n`-th period of a positive divisor, the
   * remainder is the dividend less `n` periods.
   */
  lemma RemInPeriod(a: real, b: real, n: real)
    requires b > 0.0 && n >= 0.0 && n.Floor as real == n
    requires n * b <= a < (n + 1.0) * b
    ensures Rem(a, b) == a - n * b
  {
    DivBetween(a, b, n);
    var q := a / b;
    assert q.Floor == n.Floor;
    assert Trunc(q) == n;
  }

  /** A dividend in the `n`-th period of `b` has a quotient in [n, n + 1). */
  lemma DivBetween(a: real, b: real, n: real)
    requires b > 0.0
    requires n * b <= a < (n + 1.0) * b
    ensures n <= a / b < n + 1.0
  {
    var q := a / b;
    var x := q - n;
    assert q * b == a;
    assert x * b == a - n * b;
    assert (n + 1.0) * b == n * b + b;
    assert 0.0 <= x * b < b;
  }
}
