/**
 * Decimal text of integers as Python's `str(n)` and `f"{n:03d}"` write it,
 * and the reading back that shows the text loses nothing.
 */
module Numerals {

  function DigitChar(d: nat): (c: char)
    requires d < 10
    ensures '0' <= c <= '9'
  {
    (d + '0' as int) as char
  }

  function DigitValue(c: char): nat {
    if '0' <= c <= '9' then c as int - '0' as int else 0
  }

  /** `str(n)` for a natural number: no leading zeros. */
  function Decimal(n: nat): (r: string)
    ensures |r| >= 1
    ensures forall i :: 0 <= i < |r| ==> '0' <= r[i] <= '9'
    decreases n
  {
    if n < 10 then [DigitChar(n)] else Decimal(n / 10) + [DigitChar(n % 10)]
  }

  /** `k` zero characters. */
  function Zeros(k: nat): (r: string)
    ensures |r| == k && forall i :: 0 <= i < k ==> r[i] == '0'
  {
    seq(k, _ => '0')
  }

  /** Like `str(n)`, the text has no leading zero unless n is zero. */
  lemma {:induction false} DecimalLeadingDigit(n: nat)
    ensures Decimal(n)[0] == '0' ==> n == 0
    decreases n
  {
    if n >= 10 {
      DecimalLeadingDigit(n / 10);
      assert Decimal(n)[0] == Decimal(n / 10)[0];
    }
  }

  /** Left-pads with '0' up to `width` characters, as the `0w` format flag does. */
  function ZeroPad(s: string, width: nat): (r: string)
    ensures |r| == if |s| < width then width else |s|
    ensures EndsWithText(r, s)
    decreases width - |s|
  {
    if |s| < width then ZeroPad(['0'] + s, width) else s
  }

  /** The padding is zeros: the result is `width - |s|` zeros (none when s is
      already wide enough) followed by s. */
  lemma {:induction false} ZeroPadZeros(s: string, width: nat)
    ensures ZeroPad(s, width) == Zeros(|ZeroPad(s, width)| - |s|) + s
    decreases width - |s|
  {
    if |s| < width {
      ZeroPadZeros(['0'] + s, width);
      var k := |ZeroPad(s, width)| - |s|;
      assert Zeros(k - 1) + (['0'] + s) == Zeros(k) + s;
    }
  }

  predicate EndsWithText(r: string, s: string) {
    |s| <= |r| && r[|r| - |s|..] == s
  }

  /** `str(i)` for any integer. */
  function IntToString(i: int): string {
    if i < 0 then "-" + Decimal(-i) else Decimal(i)
  }

  /** Reads a string of decimal digits (leading zeros allowed) back as a number. */
  function ParseDecimal(s: string): nat
    decreases |s|
  {
    if s == [] then 0 else 10 * ParseDecimal(s[..|s| - 1]) + DigitValue(s[|s| - 1])
  }

  lemma {:induction false} ParseDecimalOfDecimal(n: nat)
    ensures ParseDecimal(Decimal(n)) == n
    decreases n
  {
    if n >= 10 {
      ParseDecimalOfDecimal(n / 10);
      var d := Decimal(n);
      assert d[..|d| - 1] == Decimal(n / 10);
    }
  }

  lemma {:induction false} ParseLeadingZero(s: string)
    ensures ParseDecimal(['0'] + s) == ParseDecimal(s)
    decreases |s|
  {
    if s != [] {
      ParseLeadingZero(s[..|s| - 1]);
      assert (['0'] + s)[..|s|] == ['0'] + s[..|s| - 1];
    }
  }

  lemma {:induction false} ParseZeros(k: nat, s: string)
    ensures ParseDecimal(Zeros(k) + s) == ParseDecimal(s)
    decreases k
  {
    if k > 0 {
      var t := ['0'] + s;
      assert Zeros(k) == Zeros(k - 1) + ['0'];
      assert Zeros(k) + s == Zeros(k - 1) + t;
      ParseZeros(k - 1, t);
      ParseLeadingZero(s);
    } else {
      assert Zeros(k) + s == s;
    }
  }

  lemma ParseZeroPad(s: string, width: nat)
    ensures ParseDecimal(ZeroPad(s, width)) == ParseDecimal(s)
  {
    ZeroPadZeros(s, width);
    ParseZeros(|ZeroPad(s, width)| - |s|, s);
  }

  /** Zero-padded decimal text determines the number it was written from. */
  lemma PaddedDecimalRoundTrip(n: nat, width: nat)
    ensures ParseDecimal(ZeroPad(Decimal(n), width)) == n
  {
    ParseZeroPad(Decimal(n), width);
    ParseDecimalOfDecimal(n);
  }
}
