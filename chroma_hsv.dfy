/**
 * The HSV conversion of src/state.ts: chroma `c = v s`, offset `m = v - c`,
 * the rising/falling component `x`, and a six-way switch on `floor(h / 60)`
 * with no wrap-around, so a hue outside [0, 360) matches no case.
 */
module ChromaHsv {
  import opened Wrappers
  import Js
  import Color
  import SectorHsv

  /**
   * The channel intensities passed to `createColor`, or `None` where the
   * function falls off the switch and returns `undefined`.
   */
  function Channels(h: real, s: real, v: real): (r: Option<Color.Rgb>)
    ensures r.Some? <==> 0.0 <= h < 360.0
  {
    var c := v * s;
    var hh := h / 60.0;
    var m := v - c;
    var x := c * (1.0 - Js.Abs(Js.Rem(hh, 2.0) - 1.0)) + m;
    Switch(hh.Floor, c + m, x, m)
  }

  /** The six cases of the switch, over `c + m` (named `top`), `x` and `m`. */
  function Switch(sector: int, top: real, x: real, m: real): (r: Option<Color.Rgb>)
    ensures r.Some? <==> 0 <= sector <= 5
  {
    match sector
    case 0 => Some(Color.Rgb(top, x, m))
    case 1 => Some(Color.Rgb(x, top, m))
    case 2 => Some(Color.Rgb(m, top, x))
    case 3 => Some(Color.Rgb(m, x, top))
    case 4 => Some(Color.Rgb(x, m, top))
    case 5 => Some(Color.Rgb(top, m, x))
    case _ => None
  }

  /** `hsv(h, s, v)`: the `#rrggbb` string, or `None` for `undefined`. */
  function Hsv(h: real, s: real, v: real): (r: Option<string>)
    ensures r.Some? <==> 0.0 <= h < 360.0
  {
    match Channels(h, s, v)
    case Some(c) => Some(Color.Encode(c))
    case None => None
  }

  /**
   * The two formulas are the same conversion with different hue units: the
   * chroma form at hue `h` (degrees) gives exactly the channels of the sector
   * form at `h / 180`, whose period is 2. In particular `c + m = v` and
   * `m = v(1 - s)` are channels of every case, as `v` and `p` are there.
   */
  lemma {:induction false} AgreesWithSector(h: real, s: real, v: real)
    requires 0.0 <= h < 360.0
    ensures Channels(h, s, v) == SectorHsv.Channels(h / 180.0, s, v)
  {
    var n := (h / 60.0).Floor;
    var w := Js.Abs(Js.Rem(h / 60.0, 2.0) - 1.0);
    var f := SectorHsv.Fraction((h / 180.0) * 3.0);
    HueUnits(h);
    Unfold(h, s, v);
    Identities(s, v);
    if n % 2 == 0 {
      RisingIdentity(s, v, f, w);
    } else {
      FallingIdentity(s, v, f, w);
    }
    SwitchesAgree(n, v, SectorHsv.P(s, v), SectorHsv.Q(s, v, f), SectorHsv.T(s, v, f), Mid(s, v, w), Top(s, v), Low(s, v));
  }

  /** `c + m` of the chroma form. */
  function Top(s: real, v: real): real {
    v * s + (v - v * s)
  }

  /** `x` of the chroma form, for the weight `w = |hh % 2 - 1|`. */
  function Mid(s: real, v: real, w: real): real {
    (v * s) * (1.0 - w) + (v - v * s)
  }

  /** `m` of the chroma form. */
  function Low(s: real, v: real): real {
    v - v * s
  }

  /** The chroma form written as its switch over `c + m`, `x` and `m`. */
  lemma Unfold(h: real, s: real, v: real)
    ensures Channels(h, s, v)
            == Switch((h / 60.0).Floor, Top(s, v), Mid(s, v, Js.Abs(Js.Rem(h / 60.0, 2.0) - 1.0)), Low(s, v))
  {
  }

  /**
   * The hue-only part of the agreement: both forms pick the same sector,
   * and the chroma form's weight `|hh % 2 - 1|` is `1 - f` in even sectors
   * and `f` in odd ones, `f` being the sector form's fractional part.
   */
  lemma HueUnits(h: real)
    requires 0.0 <= h < 360.0
    ensures SectorHsv.Sector(h / 180.0) == (h / 60.0).Floor
    ensures 0 <= (h / 60.0).Floor <= 5
    ensures SectorHsv.Fraction((h / 180.0) * 3.0) == h / 60.0 - (h / 60.0).Floor as real
    ensures (h / 60.0).Floor % 2 == 0 ==>
      Js.Abs(Js.Rem(h / 60.0, 2.0) - 1.0) == 1.0 - SectorHsv.Fraction((h / 180.0) * 3.0)
    ensures (h / 60.0).Floor % 2 == 1 ==>
      Js.Abs(Js.Rem(h / 60.0, 2.0) - 1.0) == SectorHsv.Fraction((h / 180.0) * 3.0)
  {
    var hh := h / 60.0;
    assert (h / 180.0) * 3.0 == hh;
    SameSector(hh);
    Weight(hh);
  }

  /** Over sector units `hh` in [0, 6), the sector form's sector is `floor(hh)`. */
  lemma SameSector(hh: real)
    requires 0.0 <= hh < 6.0
    ensures SectorHsv.Sector(hh / 3.0) == hh.Floor
  {
    assert (hh / 3.0) * 3.0 == hh;
    Js.RemInPeriod(hh, 6.0, 0.0);
  }

  /** Over sector units `hh` in [0, 6), `|hh % 2 - 1|` is `1 - f` in even sectors and `f` in odd ones. */
  lemma Weight(hh: real)
    requires 0.0 <= hh < 6.0
    ensures hh.Floor % 2 == 0 ==> Js.Abs(Js.Rem(hh, 2.0) - 1.0) == 1.0 - (hh - hh.Floor as real)
    ensures hh.Floor % 2 == 1 ==> Js.Abs(Js.Rem(hh, 2.0) - 1.0) == hh - hh.Floor as real
  {
    var n := hh.Floor;
    Js.RemInPeriod(hh, 2.0, (n / 2) as real);
  }

  /** The chroma form's switch lists the sector form's channels case by case. */
  lemma SwitchesAgree(n: int, v: real, p: real, q: real, t: real, x: real, top: real, m: real)
    requires 0 <= n <= 5
    requires top == v && m == p
    requires n % 2 == 0 ==> x == t
    requires n % 2 == 1 ==> x == q
    ensures Switch(n, top, x, m) == SectorHsv.Switch(n, v, p, q, t)
  {
  }

  /** `c + m = v` and `m = v(1 - s)`. */
  lemma Identities(s: real, v: real)
    ensures Top(s, v) == v
    ensures Low(s, v) == SectorHsv.P(s, v)
  {
  }

  /** In an even sector, `x = c f + m` is the sector form's `t = v(1 - (1 - f)s)`. */
  lemma RisingIdentity(s: real, v: real, f: real, w: real)
    requires w == 1.0 - f
    ensures Mid(s, v, w) == SectorHsv.T(s, v, f)
  {
  }

  /** In an odd sector, `x = c(1 - f) + m` is the sector form's `q = v(1 - f s)`. */
  lemma FallingIdentity(s: real, v: real, f: real, w: real)
    requires w == f
    ensures Mid(s, v, w) == SectorHsv.Q(s, v, f)
  {
  }

  /**
   * Every case uses `c + m = v` and `m = v(1 - s)` as two of its channels
   * and `x` lies between them.
   */
  lemma {:induction false} ChannelsSpan(h: real, s: real, v: real)
    requires 0.0 <= s <= 1.0 && v >= 0.0 && 0.0 <= h < 360.0
    ensures Color.Spans(Channels(h, s, v).value, SectorHsv.P(s, v), v)
  {
    AgreesWithSector(h, s, v);
    SectorHsv.ChannelsSpan(h / 180.0, s, v);
  }

  /**
   * For a hue in [0, 360) the colour string exists; its brightest byte
   * encodes `v` and its darkest encodes `v(1 - s)`.
   */
  lemma {:induction false} HsvSpans(h: real, s: real, v: real)
    requires 0.0 <= s <= 1.0 && v >= 0.0 && 0.0 <= h < 360.0
    ensures Hsv(h, s, v).Some?
    ensures Color.ParseColor(Hsv(h, s, v).value).Some?
    ensures Color.Spans8(Color.ParseColor(Hsv(h, s, v).value).value,
                         Color.Channel(SectorHsv.P(s, v)), Color.Channel(v))
  {
    ChannelsSpan(h, s, v);
    Color.EncodeSpans(Channels(h, s, v).value, SectorHsv.P(s, v), v);
  }
}
