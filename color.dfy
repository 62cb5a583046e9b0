/**
 * Colour encoding shared by both quiz modules: `to256` writes one channel
 * as two lower-case hexadecimal digits and `createColor` builds the
 * `#rrggbb` string (src/index.ts and src/state.ts carry identical copies).
 * `ParseColor` reads such a string back and is the partner the encoding is
 * proved against.
 */
module Color {
  import opened Wrappers
  import Numeral

  /** Channel intensities as the colour conversions produce them (nominally in [0, 1]). */
  datatype Rgb = Rgb(r: real, g: real, b: real)

  /** Channel bytes as a `#rrggbb` string denotes them. */
  datatype Rgb8 = Rgb8(r: int, g: int, b: int)

  /** The two palette colours of the legibility rule. */
  const White := "#ffffff"
  const Black := "#000000"

  /** What a channel intensity means as a byte: floor(256 x), clamped to 0..255. */
  function Channel(x: real): (n: int)
    ensures 0 <= n <= 255
  {
    var f := (x * 256.0).Floor;
    if f < 0 then 0 else if f > 255 then 255 else f
  }

  /** `s.padStart(width, pad)` for a one-character pad. */
  function PadStart(s: string, width: nat, pad: char): (r: string)
    ensures |r| == if |s| < width then width else |s|
    ensures r[|r| - |s|..] == s
    ensures forall i | 0 <= i < |r| - |s| :: r[i] == pad
  {
    if |s| >= width then s else seq(width - |s|, _ => pad) + s
  }

  /** `to256`: exactly two lower-case hex digits whose value is `Channel(scale)`. */
  function To256(scale: real): (r: string)
    ensures |r| == 2 && Numeral.AllDigits(r, 16)
    ensures Numeral.Parse(r, 16) == Channel(scale)
  {
    var scaled := scale * 256.0;
    if scaled > 255.0 then
      assert Numeral.Parse("f", 16) == 15 by { assert "f"[..0] == []; }
      assert "ff"[..1] == "f";
      "ff"
    else if scaled < 0.0 then
      assert Numeral.Parse("0", 16) == 0 by { assert "0"[..0] == []; }
      assert "00"[..1] == "0";
      "00"
    else
      HexByte(scaled.Floor);
      PadStart(Numeral.ToString(scaled.Floor, 16), 2, '0')
  }

  /** A byte written in hex and padded to two digits reads back as itself. */
  lemma HexByte(n: nat)
    requires n <= 255
    ensures var r := PadStart(Numeral.ToString(n, 16), 2, '0');
            |r| == 2 && Numeral.AllDigits(r, 16) && Numeral.Parse(r, 16) == n
  {
    var digits := Numeral.ToString(n, 16);
    var r := PadStart(digits, 2, '0');
    if |digits| == 1 {
      assert r == ['0'] + digits;
      Numeral.LeadingZero(digits, 16);
    } else {
      assert r == digits;
    }
  }

  /** `createColor`: the `#rrggbb` string of three channel intensities. */
  function CreateColor(r: real, g: real, b: real): (c: string)
    ensures |c| == 7 && c[0] == '#'
    ensures ParseColor(c) == Some(Rgb8(Channel(r), Channel(g), Channel(b)))
  {
    var c := "#" + To256(r) + To256(g) + To256(b);
    ParseJoined(To256(r), To256(g), To256(b));
    c
  }

  /** `ParseColor` reads back each of three two-digit parts. */
  lemma ParseJoined(x: string, y: string, z: string)
    requires |x| == |y| == |z| == 2
    requires Numeral.AllDigits(x, 16) && Numeral.AllDigits(y, 16) && Numeral.AllDigits(z, 16)
    ensures ParseColor("#" + x + y + z)
            == Some(Rgb8(Numeral.Parse(x, 16), Numeral.Parse(y, 16), Numeral.Parse(z, 16)))
  {
    var c := "#" + x + y + z;
    assert c[1..] == x + y + z;
    assert Numeral.AllDigits(c[1..], 16) by {
      forall i | 0 <= i < 6 ensures Numeral.IsDigit(c[1..][i], 16) {
        if i < 2 { assert c[1..][i] == x[i]; }
        else if i < 4 { assert c[1..][i] == y[i - 2]; }
        else { assert c[1..][i] == z[i - 4]; }
      }
    }
    assert c[1..3] == x && c[3..5] == y && c[5..7] == z;
  }

  /** Reads a `#rrggbb` string of lower-case hex digits; anything else is `None`. */
  function ParseColor(c: string): Option<Rgb8> {
    if |c| == 7 && c[0] == '#' && Numeral.AllDigits(c[1..], 16) then
      assert c[1..3] == c[1..][..2] && c[3..5] == c[1..][2..4] && c[5..7] == c[1..][4..];
      Some(Rgb8(Numeral.Parse(c[1..3], 16), Numeral.Parse(c[3..5], 16), Numeral.Parse(c[5..7], 16)))
    else
      None
  }

  /** `lo` and `hi` are among the channels of `c`, and every channel lies between them. */
  predicate Spans(c: Rgb, lo: real, hi: real) {
    && (c.r == lo || c.g == lo || c.b == lo)
    && (c.r == hi || c.g == hi || c.b == hi)
    && lo <= c.r <= hi && lo <= c.g <= hi && lo <= c.b <= hi
  }

  /** The byte version of `Spans`: `lo` is the darkest channel byte and `hi` the brightest. */
  predicate Spans8(c: Rgb8, lo: int, hi: int) {
    && (c.r == lo || c.g == lo || c.b == lo)
    && (c.r == hi || c.g == hi || c.b == hi)
    && lo <= c.r <= hi && lo <= c.g <= hi && lo <= c.b <= hi
  }

  /** A brighter intensity never encodes to a smaller byte. */
  lemma ChannelMonotone(x: real, y: real)
    requires x <= y
    ensures Channel(x) <= Channel(y)
  {
    assert x * 256.0 <= y * 256.0;
  }

  /**
   * Encoding keeps the order of the channels: the darkest and brightest
   * intensities become the darkest and brightest bytes of the string.
   */
  lemma {:induction false} EncodeSpans(c: Rgb, lo: real, hi: real)
    requires Spans(c, lo, hi)
    ensures ParseColor(Encode(c)).Some?
    ensures Spans8(ParseColor(Encode(c)).value, Channel(lo), Channel(hi))
  {
    ChannelMonotone(lo, c.r);
    ChannelMonotone(lo, c.g);
    ChannelMonotone(lo, c.b);
    ChannelMonotone(c.r, hi);
    ChannelMonotone(c.g, hi);
    ChannelMonotone(c.b, hi);
  }

  /** `createColor` of a channel triple. */
  function Encode(c: Rgb): string {
    CreateColor(c.r, c.g, c.b)
  }
}
