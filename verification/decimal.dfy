/**
 Decimal digit strings: reading their value, and writing a number with a
 fixed number of digits (zero-padded on the left), as Python's `{n:06d}` does.
 */
module Decimal {

  import opened Text

  function Pow10(w: nat): (p: nat)
    ensures p >= 1
  {
    if w == 0 then 1 else 10 * Pow10(w - 1)
  }

  function DigitChar(d: nat): (c: char)
    requires d < 10
    ensures IsDigit(c)
  {
    ('0' as int + d) as char
  }

  function DigitValue(c: char): (d: nat)
    requires IsDigit(c)
    ensures d < 10 && DigitChar(d) == c
  {
    c as int - '0' as int
  }

  /** The number a string of decimal digits denotes, most significant digit first. */
  function ValueOf(s: string): (n: nat)
    requires AllDigits(s)
    ensures n < Pow10(|s|)
  {
    if |s| == 0 then 0 else ValueOf(s[..|s| - 1]) * 10 + DigitValue(s[|s| - 1])
  }

  /** The last `w` decimal digits of `n`, zero-padded on the left. */
  function FixedWidth(n: nat, w: nat): (r: string)
    ensures |r| == w && AllDigits(r)
  {
    if w == 0 then "" else FixedWidth(n / 10, w - 1) + [DigitChar(n % 10)]
  }

  /** How many digits `n` has when written without leading zeros. */
  function Width(n: nat): (w: nat)
    ensures 1 <= w
    ensures n < Pow10(w)
    ensures w > 1 ==> Pow10(w - 1) <= n
  {
    if n < 10 then 1 else 1 + Width(n / 10)
  }

  /** Python's `{n:0wd}` for a non-negative `n`: at least `w` digits, more if `n` needs them. */
  function Padded(n: nat, w: nat): string {
    FixedWidth(n, if Width(n) < w then w else Width(n))
  }

  /** Writing a number that fits in `w` digits and reading it back gives the number. */
  lemma {:induction false} ValueOfFixedWidth(n: nat, w: nat)
    requires n < Pow10(w)
    ensures ValueOf(FixedWidth(n, w)) == n
  {
    if w > 0 {
      ValueOfFixedWidth(n / 10, w - 1);
      var r := FixedWidth(n, w);
      assert r[..|r| - 1] == FixedWidth(n / 10, w - 1);
    }
  }

  /** Reading a digit string and writing it back at its own width gives the string. */
  lemma {:induction false} FixedWidthOfValue(s: string)
    requires AllDigits(s)
    ensures FixedWidth(ValueOf(s), |s|) == s
  {
    if |s| > 0 {
      var p := s[..|s| - 1];
      FixedWidthOfValue(p);
      var n := ValueOf(s);
      assert n / 10 == ValueOf(p);
      assert n % 10 == DigitValue(s[|s| - 1]);
      assert s == p + [s[|s| - 1]];
    }
  }

  /** The padded rendering denotes `n`, and pads only up to width `w`. */
  lemma PaddedDenotes(n: nat, w: nat)
    ensures var r := Padded(n, w);
      && AllDigits(r)
      && ValueOf(r) == n
      && |r| >= w
      && (|r| > w ==> |r| == 1 || r[0] != '0')
  {
    var r := Padded(n, w);
    var v := Width(n);
    if v < w {
      Pow10Monotone(v, w);
    }
    ValueOfFixedWidth(n, |r|);
    if |r| > w {
      LeadingDigit(n, v);
    }
  }

  lemma {:induction false} Pow10Monotone(a: nat, b: nat)
    requires a <= b
    ensures Pow10(a) <= Pow10(b)
    decreases b
  {
    if a < b {
      Pow10Monotone(a, b - 1);
    }
  }

  /** A number of exactly `w > 1` digits is not written with a leading zero. */
  lemma {:induction false} LeadingDigit(n: nat, w: nat)
    requires w >= 1 && n < Pow10(w)
    requires w > 1 ==> Pow10(w - 1) <= n
    ensures w > 1 ==> FixedWidth(n, w)[0] != '0'
  {
    if w > 1 {
      LeadingDigit(n / 10, w - 1);
      var r := FixedWidth(n, w);
      assert r[0] == FixedWidth(n / 10, w - 1)[0];
      if w == 2 {
        assert 1 <= n / 10 < 10;
      }
    }
  }

  /** A one-character digit string and its value. */
  lemma OneDigitText(t: string)
    requires |t| == 1 && IsDigit(t[0])
    ensures ValueOf(t) == DigitValue(t[0])
    ensures FixedWidth(ValueOf(t), 1) == t
  {
    assert t[..0] == "";
    assert t == [t[0]];
  }

  /** A two-character digit string and its value. */
  lemma TwoDigitText(t: string)
    requires |t| == 2 && AllDigits(t)
    ensures ValueOf(t) == 10 * DigitValue(t[0]) + DigitValue(t[1])
    ensures FixedWidth(ValueOf(t), 2) == t
  {
    OneDigitText(t[..1]);
    FixedWidthOfValue(t);
  }

}
