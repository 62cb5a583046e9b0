/**
 * The biased-pair arithmetic shared by the `State` constructor of
 * src/index.ts and the `ColorBias` constructor of src/state.ts: the random
 * base colour, the three-way split of the bias budget, the sign rule that
 * keeps saturation and value inside [0, 1], the hue nudge with its single
 * wrap step, and the legibility choice of palette.
 *
 * Every random call is a uniform draw `u` in [0, 1) passed in explicitly:
 * `Random.int(n)` is `floor(u n)`, `Random.real(lo, hi)` is `u (hi - lo) + lo`,
 * `Math.random()` is `u` itself and `randomSign()` is `Random.int(2) * 2 - 1`.
 * The decay factors `A exp(-k level)` are passed in as `Ranges`, bounded by
 * the leading constants of the file's calibration `Profile`.
 */
module Bias {
  import Color
  import Js

  predicate Unit(u: real) {
    0.0 <= u < 1.0
  }

  /** The draws one constructor call consumes, named after what they decide. */
  datatype Draws = Draws(
    line: real, row: real,
    h: real, s: real, v: real,
    factorH: real, factorS: real,
    signS: real, signV: real, signH: real)

  predicate ValidDraws(d: Draws) {
    && Unit(d.line) && Unit(d.row)
    && Unit(d.h) && Unit(d.s) && Unit(d.v)
    && Unit(d.factorH) && Unit(d.factorS)
    && Unit(d.signS) && Unit(d.signV) && Unit(d.signH)
  }

  /** The leading constants of the three decay curves. */
  datatype Profile = Profile(maxH: real, maxS: real, maxV: real)

  /** src/index.ts: `2 exp(-0.2716 level)`, `0.2 exp(-0.1962 level)` twice. */
  const IndexProfile := Profile(2.0, 0.2, 0.2)

  /** src/state.ts: `30 exp(-0.2 level)`, `0.5 exp(-0.1 level)`, `0.2 exp(-0.1 level)`. */
  const StateProfile := Profile(30.0, 0.5, 0.2)

  /** The values of the three decay curves at the current level. */
  datatype Ranges = Ranges(h: real, s: real, v: real)

  /** A curve `A exp(-k level)` with `k, level >= 0` lies in (0, A]. */
  predicate Within(rg: Ranges, p: Profile) {
    0.0 < rg.h <= p.maxH && 0.0 < rg.s <= p.maxS && 0.0 < rg.v <= p.maxV
  }

  /** The envelope of both profiles, under which the arithmetic below is proved. */
  predicate Bounded(rg: Ranges) {
    Within(rg, Profile(30.0, 0.5, 0.5))
  }

  lemma ProfilesBounded(rg: Ranges)
    requires Within(rg, IndexProfile) || Within(rg, StateProfile)
    ensures Bounded(rg)
  {
  }

  /** `Random.int(n)`: an integer in [0, n). */
  function RandomInt(u: real, n: nat): (k: nat)
    requires Unit(u) && n > 0
    ensures k < n
  {
    Scale(u, n as real).Floor
  }

  /** Every integer in [0, n) is the outcome of some draw. */
  lemma RandomIntOnto(k: nat, n: nat)
    requires k < n
    ensures Unit(k as real / n as real)
    ensures RandomInt(k as real / n as real, n) == k
  {
    var u := k as real / n as real;
    assert u * n as real == k as real;
    if u >= 1.0 {
      Js.MulMono(1.0, u, n as real);
    }
  }

  /** `Random.real(lo, hi)`: the draw scaled to the width `hi - lo` and shifted to `lo`. */
  function RandomReal(u: real, lo: real, hi: real): (x: real)
    requires Unit(u) && lo < hi
    ensures lo <= x < hi
  {
    Scale(u, hi - lo) + lo
  }

  /** A draw `u` times a positive width `w`: somewhere in [0, w). */
  function Scale(u: real, w: real): (x: real)
    requires Unit(u) && w > 0.0
    ensures 0.0 <= x < w
  {
    UnitScale(u, w);
    u * w
  }

  lemma UnitScale(u: real, w: real)
    requires Unit(u) && w > 0.0
    ensures 0.0 <= u * w < w
  {
    assert 0.0 <= u * w;
    assert (1.0 - u) * w > 0.0;
    assert (1.0 - u) * w == w - u * w;
  }

  /**
   * `randomSign()`: -1 for the lower half of the draws and 1 for the upper
   * half. Written as a comparison so that no rounding enters the offset
   * arithmetic; `RandomSignIsIntDraw` shows it is `Random.int(2) * 2 - 1`.
   */
  function RandomSign(u: real): (sign: real)
    requires Unit(u)
    ensures sign == 1.0 || sign == -1.0
  {
    if u < 0.5 then -1.0 else 1.0
  }

  /**
   * `x * randomSign()`, written as a choice of sign so that no product with
   * the sign enters the offset arithmetic; `SignedIsProduct` shows the two agree.
   */
  function Signed(x: real, u: real): (y: real)
    requires Unit(u)
    ensures y == x || y == -x
  {
    if u < 0.5 then -x else x
  }

  lemma SignedIsProduct(x: real, u: real)
    requires Unit(u)
    ensures Signed(x, u) == x * RandomSign(u)
  {
  }

  lemma RandomSignIsIntDraw(u: real)
    requires Unit(u)
    ensures RandomSign(u) == (RandomInt(u, 2) * 2 - 1) as real
  {
    if u < 0.5 {
      Js.MulStrict(u, 0.5, 2.0);
    } else {
      Js.MulMono(0.5, u, 2.0);
    }
  }

  /** A hue in degrees with a saturation and a value, as the constructors draw and shift them. */
  datatype HsvTriple = HsvTriple(h: real, s: real, v: real)

  /** The base colour: hue in [0, 360), saturation and value in [0.2, 1). */
  function Base(d: Draws): (b: HsvTriple)
    requires ValidDraws(d)
    ensures 0.0 <= b.h < 360.0 && 0.2 <= b.s < 1.0 && 0.2 <= b.v < 1.0
  {
    HsvTriple(RandomReal(d.h, 0.0, 360.0), RandomReal(d.s, 0.2, 1.0), RandomReal(d.v, 0.2, 1.0))
  }

  /** The shares of the bias budget given to hue, saturation and value. */
  datatype Split = Split(h: real, s: real, v: real)

  /**
   * The budget of 1 is split three ways: hue takes a share in [0.1, 0.4)
   * and the residue is divided between saturation and value, each taking
   * between a fifth and four fifths of it.
   */
  function Factors(d: Draws): (f: Split)
    requires Unit(d.factorH) && Unit(d.factorS)
    ensures f.h + f.s + f.v == 1.0
    ensures 0.1 <= f.h < 0.4
    ensures 0.2 * (1.0 - f.h) <= f.s < 0.8 * (1.0 - f.h)
    ensures 0.2 * (1.0 - f.h) < f.v <= 0.8 * (1.0 - f.h)
  {
    var factorH := d.factorH * 0.3 + 0.1;
    var residue := 1.0 - factorH;
    var factorS := Scale(d.factorS, residue) * 0.6 + residue * 0.2;
    Split(factorH, factorS, residue - factorS)
  }

  /**
   * The sign rule for a saturation or value offset of magnitude `raw`
   * against the base component `x`: flipped to negative when adding it
   * would pass 1, given a random sign when subtracting it cannot pass 0,
   * and left positive otherwise. It never changes the magnitude, never
   * lets `x + d` exceed 1, and keeps `x + d` non-negative whenever the
   * magnitude is at most 1/2.
   */
  function SignRule(raw: real, x: real, u: real): (d: real)
    requires raw >= 0.0 && Unit(u)
    ensures d == raw || d == -raw
    ensures x <= 1.0 ==> x + d <= 1.0
    ensures 0.0 <= x && raw <= 0.5 ==> 0.0 <= x + d
    ensures raw + x > 1.0 ==> d == -raw
    ensures raw + x <= 1.0 && raw > x ==> d == raw
  {
    if raw + x > 1.0 then -raw
    else if raw <= x then Signed(raw, u)
    else raw
  }

  /** The single wrap step of the biased hue; one step suffices for |x| within a turn of [0, 360). */
  function WrapHue(x: real): (r: real)
    ensures r == x || r == x + 360.0 || r == x - 360.0
    ensures -360.0 <= x < 720.0 ==> 0.0 <= r < 360.0
  {
    if x < 0.0 then x + 360.0 else if x >= 360.0 then x - 360.0 else x
  }

  /**
   * A saturation or value offset: the share of the budget times the range,
   * signed by the sign rule. Both magnitudes are at most 1/2, so the offset
   * component stays in [0, 1].
   */
  function Offset(share: real, range: real, x: real, u: real): (d: real)
    requires 0.0 <= share <= 0.72 && 0.0 < range <= 0.5
    requires 0.0 <= x <= 1.0 && Unit(u)
    ensures d == share * range || d == -(share * range)
    ensures 0.0 <= x + d <= 1.0
  {
    ShareTimesRange(share, range);
    SignRule(share * range, x, u)
  }

  /**
   * The hue offset `num * randomSign() / factor`, where `num` is the hue
   * share times the hue range and `u` the sign draw: below twice the range
   * in magnitude, since the share is below 0.4 and the divisor at least 0.2.
   */
  function HueOffset(num: real, range: real, u: real, factor: real): (d: real)
    requires 0.0 <= num < 0.4 * range
    requires Unit(u) && factor >= 0.2
    ensures -2.0 * range < d < 2.0 * range
  {
    QuotientBound(num, factor);
    Signed(num, u) / factor
  }

  /** The three offsets applied to the base colour. */
  datatype Offsets = Offsets(s: real, v: real, h: real)

  /**
   * The offsets of the constructor for the base colour `b` and the split
   * `f`: saturation and value offsets of magnitude `share * range` that keep
   * both components in [0, 1], and a hue offset below twice the hue range,
   * scaled up for dull colours by the divisor `s + v + deltaS/2 + deltaV/2`,
   * which stays at least 0.2. `uS`, `uV` and `uH` are the three sign draws.
   */
  function Deltas(b: HsvTriple, f: Split, rg: Ranges, uS: real, uV: real, uH: real): (o: Offsets)
    requires 0.2 <= b.s <= 1.0 && 0.2 <= b.v <= 1.0
    requires 0.1 <= f.h < 0.4 && 0.0 <= f.s <= 0.72 && 0.0 <= f.v <= 0.72
    requires Bounded(rg) && Unit(uS) && Unit(uV) && Unit(uH)
    ensures 0.0 <= b.s + o.s <= 1.0 && 0.0 <= b.v + o.v <= 1.0
    ensures -2.0 * rg.h < o.h < 2.0 * rg.h
  {
    var deltaS := Offset(f.s, rg.s, b.s, uS);
    var deltaV := Offset(f.v, rg.v, b.v, uV);
    var factor := b.s + b.v + deltaS / 2.0 + deltaV / 2.0;
    Offsets(deltaS, deltaV, HueOffset(HueBudget(f.h, rg.h), rg.h, uH, factor))
  }

  /** A saturation or value share (at most 0.72) times a range (at most 0.5) is at most 1/2. */
  lemma ShareTimesRange(share: real, range: real)
    requires 0.0 <= share <= 0.72 && 0.0 < range <= 0.5
    ensures 0.0 <= share * range <= 0.5
  {
    Js.MulMono(share, 0.72, range);
    Js.MulMono(0.0, share, range);
    assert share * range <= 0.72 * range;
  }

  /** The hue part of the budget, `factorH * rangeH`. */
  function HueBudget(share: real, range: real): (num: real)
    requires 0.1 <= share < 0.4 && range > 0.0
    ensures 0.0 <= num < 0.4 * range
  {
    HueShare(share, range);
    share * range
  }

  /** The hue share times the hue range lies in [0, 0.4 range). */
  lemma HueShare(share: real, range: real)
    requires 0.1 <= share < 0.4 && range > 0.0
    ensures 0.0 <= share * range < 0.4 * range
  {
    Js.MulStrict(share, 0.4, range);
    Js.MulMono(0.0, share, range);
  }

  /** Dividing a non-negative `num` by at least 0.2 multiplies it by at most 5. */
  lemma QuotientBound(num: real, factor: real)
    requires num >= 0.0 && factor >= 0.2
    ensures 0.0 <= num / factor <= 5.0 * num
  {
    var q := num / factor;
    assert q * factor == num;
    if q < 0.0 {
      Js.MulStrict(q, 0.0, factor);
    }
    if q > 0.0 {
      Js.MulMono(0.2, factor, q);
    }
  }

  /**
   * The base colour `b` moved by the offsets: hue nudged and wrapped back
   * into [0, 360), saturation and value offset within [0, 1].
   */
  function Shifted(b: HsvTriple, f: Split, rg: Ranges, uS: real, uV: real, uH: real): (c: HsvTriple)
    requires 0.0 <= b.h < 360.0 && 0.2 <= b.s <= 1.0 && 0.2 <= b.v <= 1.0
    requires 0.1 <= f.h < 0.4 && 0.0 <= f.s <= 0.72 && 0.0 <= f.v <= 0.72
    requires Bounded(rg) && Unit(uS) && Unit(uV) && Unit(uH)
    ensures 0.0 <= c.h < 360.0 && 0.0 <= c.s <= 1.0 && 0.0 <= c.v <= 1.0
  {
    var o := Deltas(b, f, rg, uS, uV, uH);
    HsvTriple(WrapHue(b.h + o.h), b.s + o.s, b.v + o.v)
  }

  /** The biased colour of one constructor call. */
  function Biased(d: Draws, rg: Ranges): (c: HsvTriple)
    requires ValidDraws(d) && Bounded(rg)
    ensures 0.0 <= c.h < 360.0 && 0.0 <= c.s <= 1.0 && 0.0 <= c.v <= 1.0
  {
    Shifted(Base(d), Factors(d), rg, d.signS, d.signV, d.signH)
  }

  /**
   * The constructor's offset steps (src/index.ts:62-79, src/state.ts:63-80):
   * `deltaS`, `deltaV` and `biasedH` are computed and then reassigned in
   * place, exactly as the source does, for the base colour `b` and the
   * split `f` drawn before them.
   */
  method Generate(b: HsvTriple, f: Split, rg: Ranges, uS: real, uV: real, uH: real) returns (biased: HsvTriple)
    requires 0.0 <= b.h < 360.0 && 0.2 <= b.s <= 1.0 && 0.2 <= b.v <= 1.0
    requires 0.1 <= f.h < 0.4 && 0.0 <= f.s <= 0.72 && 0.0 <= f.v <= 0.72
    requires Bounded(rg) && Unit(uS) && Unit(uV) && Unit(uH)
    ensures biased == Shifted(b, f, rg, uS, uV, uH)
    ensures 0.0 <= biased.h < 360.0 && 0.0 <= biased.s <= 1.0 && 0.0 <= biased.v <= 1.0
  {
    var h, s, v := b.h, b.s, b.v;
    var deltaS := ApplySignRule(f.s, rg.s, s, uS);
    var deltaV := ApplySignRule(f.v, rg.v, v, uV);
    var factor := s + v + deltaS / 2.0 + deltaV / 2.0;
    var biasedH := ApplyHueOffset(h, f.h, rg.h, uH, factor);
    biased := HsvTriple(biasedH, s + deltaS, v + deltaV);
  }

  /**
   * One sign-rule block of the constructor, written once for saturation and
   * value: the offset `share * range` is flipped to negative when it would
   * pass 1, and given a random sign when subtracting it cannot pass 0.
   */
  method ApplySignRule(share: real, range: real, x: real, u: real) returns (delta: real)
    requires 0.0 <= share <= 0.72 && 0.0 < range <= 0.5
    requires 0.0 <= x <= 1.0 && Unit(u)
    ensures delta == Offset(share, range, x, u)
  {
    delta := share * range;
    if delta + x > 1.0 {
      delta := delta * -1.0;
    } else if delta <= x {
      SignedIsProduct(share * range, u);
      delta := delta * RandomSign(u);
    }
  }

  /**
   * The hue block of the constructor: the offset
   * `share * range * randomSign() / factor` is added and the sum wrapped once.
   */
  method ApplyHueOffset(h: real, share: real, range: real, u: real, factor: real) returns (biasedH: real)
    requires 0.1 <= share < 0.4 && range > 0.0
    requires Unit(u) && factor >= 0.2
    ensures biasedH == WrapHue(h + HueOffset(HueBudget(share, range), range, u, factor))
  {
    var deltaH := share * range * RandomSign(u) / factor;
    assert deltaH == HueOffset(HueBudget(share, range), range, u, factor) by {
      var num := HueBudget(share, range);
      SignedIsProduct(num, u);
      assert num == share * range;
      assert Signed(num, u) == share * range * RandomSign(u);
    }
    biasedH := h + deltaH;
    if biasedH < 0.0 {
      biasedH := biasedH + 360.0;
    } else if biasedH >= 360.0 {
      biasedH := biasedH - 360.0;
    }
  }

  /**
   * The legibility rule: black background and white text for a pale,
   * bright base (`s < 0.2` and `v > 0.8`), white background and black text
   * otherwise. The two colours always differ.
   */
  function Legibility(s: real, v: real): (palette: (string, string))
    ensures palette.0 != palette.1
    ensures {palette.0, palette.1} == {Color.White, Color.Black}
    ensures palette.0 == Color.Black <==> s < 0.2 && v > 0.8
  {
    var inversed := s < 0.2 && v > 0.8;
    (if inversed then Color.Black else Color.White, if inversed then Color.White else Color.Black)
  }

  /** A drawn saturation is never below 0.2, so the palette is always black on white. */
  lemma AlwaysBlackOnWhite(d: Draws)
    requires ValidDraws(d)
    ensures Legibility(Base(d).s, Base(d).v) == (Color.White, Color.Black)
  {
  }
}
