/**
 * The HSV conversion of src/index.ts: `k = 3h`, fractional part `f`, the
 * three intermediate intensities `p`, `q`, `t`, and a six-way switch on the
 * sector `floor(k mod 6)` with a correction for negative `k`. Because of the
 * factor 3, one full turn of hue is 2 units of `h`, not 360.
 */
module SectorHsv {
  import opened Wrappers
  import Js
  import Color

  /**
   * The switch value of the conversion. It is 0..5 except when `3h` is a
   * negative multiple of 6: then the correction `k % 6 + 6` yields 6 and no
   * case of the switch matches.
   */
  function Sector(h: real): (i: int)
    ensures 0 <= i <= 6
    ensures i == 6 <==> h * 3.0 < 0.0 && Js.Rem(h * 3.0, 6.0) == 0.0
  {
    var k := h * 3.0;
    (if k >= 0.0 then Js.Rem(k, 6.0) else Js.Rem(k, 6.0) + 6.0).Floor
  }

  /**
   * The channel intensities the switch passes to `createColor`, or `None`
   * where the function falls off the switch and returns `undefined`.
   */
  function Channels(h: real, s: real, v: real): (c: Option<Color.Rgb>)
    ensures c.Some? <==> Sector(h) != 6
    ensures h >= 0.0 ==> c.Some?
  {
    var f := Fraction(h * 3.0);
    Switch(Sector(h), v, P(s, v), Q(s, v, f), T(s, v, f))
  }

  /** `p = v(1 - s)`. */
  function P(s: real, v: real): real {
    v * (1.0 - s)
  }

  /** `q = v(1 - f s)`. */
  function Q(s: real, v: real, f: real): real {
    v * (1.0 - f * s)
  }

  /** `t = v(1 - (1 - f) s)`. */
  function T(s: real, v: real, f: real): real {
    v * (1.0 - (1.0 - f) * s)
  }

  /** `k - Math.floor(k)`. */
  function Fraction(k: real): (f: real)
    ensures 0.0 <= f < 1.0
  {
    k - k.Floor as real
  }

  /** The six cases of the switch, over the intensities `v`, `p`, `q`, `t`. */
  function Switch(sector: int, v: real, p: real, q: real, t: real): (c: Option<Color.Rgb>)
    ensures c.Some? <==> 0 <= sector <= 5
    ensures c.Some? && p <= q <= v && p <= t <= v ==> Color.Spans(c.value, p, v)
  {
    match sector
    case 0 => Some(Color.Rgb(v, t, p))
    case 1 => Some(Color.Rgb(q, v, p))
    case 2 => Some(Color.Rgb(p, v, t))
    case 3 => Some(Color.Rgb(p, q, v))
    case 4 => Some(Color.Rgb(t, p, v))
    case 5 => Some(Color.Rgb(v, p, q))
    case _ => None
  }

  /** `hsv(h, s, v)`: the `#rrggbb` string, or `None` for `undefined`. */
  function Hsv(h: real, s: real, v: real): (r: Option<string>)
    ensures r.Some? <==> Sector(h) != 6
  {
    match Channels(h, s, v)
    case Some(c) => Some(Color.Encode(c))
    case None => None
  }

  /**
   * Every case uses `v` and `p = v(1 - s)` as two of its channels and the
   * third lies between them: `v` is the brightest channel and `p` the darkest.
   */
  lemma ChannelsSpan(h: real, s: real, v: real)
    requires 0.0 <= s <= 1.0 && v >= 0.0
    requires Channels(h, s, v).Some?
    ensures Color.Spans(Channels(h, s, v).value, P(s, v), v)
  {
    var f := Fraction(h * 3.0);
    Between(s, v, f);
    assert Channels(h, s, v) == Switch(Sector(h), v, P(s, v), Q(s, v, f), T(s, v, f));
  }

  /** For a fractional part `f` in [0, 1), `q` and `t` lie between `p` and `v`. */
  lemma Between(s: real, v: real, f: real)
    requires 0.0 <= s <= 1.0 && v >= 0.0 && 0.0 <= f < 1.0
    ensures P(s, v) <= Q(s, v, f) <= v
    ensures P(s, v) <= T(s, v, f) <= v
  {
    Scaled(v, s, f);
    Scaled(v, s, 1.0 - f);
  }

  /** `v(1 - s) <= v(1 - g s) <= v` for a weight `g` in [0, 1]. */
  lemma Scaled(v: real, s: real, g: real)
    requires 0.0 <= s <= 1.0 && v >= 0.0 && 0.0 <= g <= 1.0
    ensures v * (1.0 - s) <= v * (1.0 - g * s) <= v
  {
    assert 0.0 <= g * s <= s;
    assert 1.0 - s <= 1.0 - g * s <= 1.0;
  }

  /**
   * The colour string's brightest byte encodes `v` and its darkest encodes
   * `v(1 - s)`, whichever sector the hue falls in.
   */
  lemma HsvSpans(h: real, s: real, v: real)
    requires 0.0 <= s <= 1.0 && v >= 0.0 && h >= 0.0
    ensures Hsv(h, s, v).Some?
    ensures Color.ParseColor(Hsv(h, s, v).value).Some?
    ensures Color.Spans8(Color.ParseColor(Hsv(h, s, v).value).value,
                         Color.Channel(P(s, v)), Color.Channel(v))
  {
    ChannelsSpan(h, s, v);
    Color.EncodeSpans(Channels(h, s, v).value, P(s, v), v);
  }
}
