/**
 * Digit strings as JavaScript writes and reads them: `Number.prototype.toString(radix)`
 * for a non-negative integer (lower-case digits, no leading zeros) and
 * `parseInt` over a string made only of digits.
 */
module Numeral {

  predicate IsRadix(radix: nat) {
    2 <= radix <= 16
  }

  /** The value of a digit character `0-9` or `a-f`, or -1 for anything else (upper case included). */
  function DigitValue(c: char): (d: int)
    ensures -1 <= d < 16
    ensures d == 0 <==> c == '0'
  {
    if '0' <= c <= '9' then c as int - '0' as int
    else if 'a' <= c <= 'f' then c as int - 'a' as int + 10
    else -1
  }

  predicate IsDigit(c: char, radix: nat) {
    0 <= DigitValue(c) < radix
  }

  predicate AllDigits(s: string, radix: nat) {
    forall i | 0 <= i < |s| :: IsDigit(s[i], radix)
  }

  /** The character of a digit value: `0-9`, then lower-case `a-f`. */
  function Digit(d: nat): (c: char)
    requires d < 16
    ensures DigitValue(c) == d
    ensures c == '0' <==> d == 0
  {
    if d < 10 then ('0' as int + d) as char else ('a' as int + d - 10) as char
  }

  /**
   * `parseInt(s, radix)` of a string made only of digits: the value, most
   * significant digit first. A numeral whose first digit is not `0` is
   * positive.
   */
  function Parse(s: string, radix: nat): (v: nat)
    requires IsRadix(radix) && AllDigits(s, radix)
    ensures |s| >= 1 && s[0] != '0' ==> v >= 1
  {
    if s == [] then 0
    else
      var high := s[..|s| - 1];
      var q := Parse(high, radix);
      assert |high| >= 1 ==> high[0] == s[0];
      AtLeastDouble(q, radix);
      q * radix + DigitValue(s[|s| - 1])
  }

  /**
   * `toString` inverts `parseInt` on digit strings without a leading zero:
   * reading such a string and writing the value back gives the string.
   */
  lemma {:induction false} ParseRoundTrip(s: string, radix: nat)
    requires IsRadix(radix) && AllDigits(s, radix) && |s| >= 1
    requires s[0] == '0' ==> |s| == 1
    ensures ToString(Parse(s, radix), radix) == s
    decreases |s|
  {
    var c := s[|s| - 1];
    var d := DigitValue(c);
    DigitInverse(c);
    if |s| == 1 {
      assert Parse(s, radix) == Parse([], radix) * radix + d;
      assert s == [c];
    } else {
      var high := s[..|s| - 1];
      assert forall i | 0 <= i < |high| :: high[i] == s[i];
      ParseRoundTrip(high, radix);
      assert high[0] == s[0];
      AppendDigit(Parse(s, radix), Parse(high, radix), d, radix);
      SplitLast(s);
    }
  }

  lemma SplitLast(s: string)
    requires |s| >= 1
    ensures s == s[..|s| - 1] + [s[|s| - 1]]
  {
  }

  /** Writing back the value of a digit character gives the character. */
  lemma DigitInverse(c: char)
    requires 0 <= DigitValue(c)
    ensures Digit(DigitValue(c)) == c
  {
  }

  /** Writing `n = q r + d` for a positive `q` and a digit `d` writes `q` and then `d`. */
  lemma AppendDigit(n: nat, q: nat, d: nat, radix: nat)
    requires IsRadix(radix) && q >= 1 && d < radix && n == q * radix + d
    ensures ToString(n, radix) == ToString(q, radix) + [Digit(d)]
  {
    DivUnique(n, q, d, radix);
    AtLeastDouble(q, radix);
    assert n >= radix;
  }

  lemma DivUnique(n: int, q: int, d: int, r: int)
    requires r > 0 && 0 <= d < r && n == q * r + d
    ensures n / r == q && n % r == d
  {
    var q', d' := n / r, n % r;
    assert n == q' * r + d' && 0 <= d' < r;
    assert (q - q') * r == d' - d;
    if q > q' {
      AtLeastOne(q - q', r);
    } else if q < q' {
      AtLeastOne(q' - q, r);
    }
  }

  lemma AtLeastOne(k: int, r: int)
    requires k >= 1 && r > 0
    ensures k * r >= r
  {
  }

  /**
   * `n.toString(radix)`: at least one digit, no leading zero unless the
   * number is zero, one digit exactly when `n < radix`, at most two below
   * `radix * radix`, and it reads back as `n`.
   */
  function ToString(n: nat, radix: nat): (s: string)
    requires IsRadix(radix)
    ensures |s| >= 1 && AllDigits(s, radix)
    ensures Parse(s, radix) == n
    ensures s[0] == '0' <==> n == 0
    ensures n < radix <==> |s| == 1
    ensures n < radix * radix ==> |s| <= 2
    decreases n
  {
    if n < radix then [Digit(n)]
    else
      DivMod(n, radix);
      var q, m := n / radix, n % radix;
      var high := ToString(q, radix);
      Snoc(high, m, radix);
      assert Parse(high, radix) * radix == q * radix;
      high + [Digit(m)]
  }

  /** Appending a digit multiplies the value by the radix and adds the digit. */
  lemma Snoc(high: string, d: nat, radix: nat)
    requires IsRadix(radix) && d < radix && AllDigits(high, radix) && |high| >= 1
    ensures AllDigits(high + [Digit(d)], radix)
    ensures Parse(high + [Digit(d)], radix) == Parse(high, radix) * radix + d
    ensures (high + [Digit(d)])[0] == high[0]
  {
    var s := high + [Digit(d)];
    assert s[..|s| - 1] == high;
  }

  /** Euclidean division of a number at least `r` by `r`. */
  lemma DivMod(n: nat, r: nat)
    requires 2 <= r <= n
    ensures n == (n / r) * r + n % r && 0 <= n % r < r
    ensures 1 <= n / r < n
    ensures n < r * r ==> n / r < r
  {
    var q, m := n / r, n % r;
    assert n == q * r + m && 0 <= m < r;
    PositiveFactor(q, r);
    AtLeastDouble(q, r);
    if n < r * r {
      CancelBelow(q, r);
    }
  }

  lemma PositiveFactor(q: int, r: int)
    requires r > 0 && q * r > 0
    ensures q > 0
  {
  }

  lemma AtLeastDouble(q: int, r: int)
    requires q >= 0 && r >= 2
    ensures q * r >= 2 * q
  {
  }

  lemma CancelBelow(q: int, r: int)
    requires r > 0 && q * r < r * r
    ensures q < r
  {
  }

  /** `parseInt` ignores leading zeros. */
  lemma {:induction false} LeadingZero(s: string, radix: nat)
    requires IsRadix(radix) && AllDigits(s, radix)
    ensures AllDigits(['0'] + s, radix)
    ensures Parse(['0'] + s, radix) == Parse(s, radix)
    decreases |s|
  {
    var z := ['0'] + s;
    if s != [] {
      assert z[..|z| - 1] == ['0'] + s[..|s| - 1];
      LeadingZero(s[..|s| - 1], radix);
    }
  }
}
