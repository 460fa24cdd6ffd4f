/**
 Decimal rendering of natural numbers, as Python's format mini-language produces
 it for `{n}` (no padding) and `{n:0Wd}` (zero-padded to at least W digits), and
 the inverse reading of a digit string back into its value.
 */
module Digits {

  predicate IsDigit(c: char) {
    '0' <= c <= '9'
  }

  predicate AllDigits(s: string) {
    forall i :: 0 <= i < |s| ==> IsDigit(s[i])
  }

  function DigitValue(c: char): (d: nat)
    requires IsDigit(c)
    ensures d < 10
  {
    c as int - '0' as int
  }

  function DigitChar(d: nat): (c: char)
    requires d < 10
    ensures IsDigit(c) && DigitValue(c) == d
  {
    ('0' as int + d) as char
  }

  function Pow10(k: nat): (p: nat)
    ensures p >= 1
  {
    if k == 0 then 1 else 10 * Pow10(k - 1)
  }

  /** The value of a digit string, read most significant digit first. */
  function Parse(s: string): nat
    requires AllDigits(s)
  {
    if s == [] then 0 else Parse(s[..|s| - 1]) * 10 + DigitValue(s[|s| - 1])
  }

  /** `str(n)`: the shortest decimal rendering, with no leading zero. */
  function Decimal(n: nat): (s: string)
    ensures |s| >= 1 && AllDigits(s)
    ensures Parse(s) == n
    ensures s[0] == '0' <==> n == 0
    ensures n == 0 ==> s == "0"
  {
    if n < 10 then [DigitChar(n)]
    else
      var prefix := Decimal(n / 10);
      var s := prefix + [DigitChar(n % 10)];
      assert s[..|s| - 1] == prefix;
      s
  }

  /** A rendering fits in `w` digits exactly when the value is below 10^w. */
  lemma {:induction false} DecimalLength(n: nat, w: nat)
    requires w >= 1
    ensures |Decimal(n)| <= w <==> n < Pow10(w)
    decreases n
  {
    if n >= 10 {
      if w == 1 {
        assert |Decimal(n / 10)| >= 1;
      } else {
        DecimalLength(n / 10, w - 1);
      }
    }
  }

  function Zeros(k: nat): (s: string)
    ensures |s| == k
    ensures forall i :: 0 <= i < k ==> s[i] == '0'
  {
    if k == 0 then [] else ['0'] + Zeros(k - 1)
  }

  lemma {:induction false} ParseZeroPrefix(s: string)
    requires AllDigits(s)
    ensures AllDigits(['0'] + s) && Parse(['0'] + s) == Parse(s)
    decreases |s|
  {
    if s != [] {
      var t := ['0'] + s;
      assert t[..|t| - 1] == ['0'] + s[..|s| - 1];
      ParseZeroPrefix(s[..|s| - 1]);
    }
  }

  lemma {:induction false} ParseZerosPrefix(k: nat, s: string)
    requires AllDigits(s)
    ensures AllDigits(Zeros(k) + s) && Parse(Zeros(k) + s) == Parse(s)
    decreases k
  {
    if k > 0 {
      ParseZerosPrefix(k - 1, s);
      assert Zeros(k) + s == ['0'] + (Zeros(k - 1) + s);
      ParseZeroPrefix(Zeros(k - 1) + s);
    } else {
      assert Zeros(k) + s == s;
    }
  }

  /** `f"{n:0{width}d}"`: zero-padded on the left to at least `width` digits. */
  function Pad(n: nat, width: nat): (s: string)
    ensures AllDigits(s) && Parse(s) == n
    ensures |s| == if width <= |Decimal(n)| then |Decimal(n)| else width
  {
    var digits := Decimal(n);
    if width <= |digits| then digits
    else
      ParseZerosPrefix(width - |digits|, digits);
      Zeros(width - |digits|) + digits
  }

  /** A value below 10^width fills exactly `width` characters: padding never overflows. */
  lemma PadWidth(n: nat, width: nat)
    requires width >= 1 && n < Pow10(width)
    ensures |Pad(n, width)| == width
  {
    DecimalLength(n, width);
  }

  /** `f"{n:02d}"` for a value below 100: the tens digit, then the units digit. */
  lemma PadTwoDigits(n: nat)
    requires n < 100
    ensures Pad(n, 2) == [DigitChar(n / 10), DigitChar(n % 10)]
  {
    if n < 10 {
      assert Zeros(1) == "0";
    } else {
      assert Decimal(n / 10) == [DigitChar(n / 10)];
    }
  }

  /** `f"{n:03d}"` for a value below 1000: hundreds, tens and units digits. */
  lemma PadThreeDigits(n: nat)
    requires n < 1000
    ensures Pad(n, 3) == [DigitChar(n / 100), DigitChar(n / 10 % 10), DigitChar(n % 10)]
  {
    if n < 10 {
      assert Decimal(n) == [DigitChar(n)];
      assert Zeros(2) == "00";
    } else if n < 100 {
      DecimalTwoDigits(n);
      assert Zeros(1) == "0";
    } else {
      DecimalTwoDigits(n / 10);
      assert n / 10 / 10 == n / 100;
      assert Decimal(n) == Decimal(n / 10) + [DigitChar(n % 10)];
    }
  }

  lemma DecimalTwoDigits(n: nat)
    requires 10 <= n < 100
    ensures Decimal(n) == [DigitChar(n / 10), DigitChar(n % 10)]
  {
    assert Decimal(n / 10) == [DigitChar(n / 10)];
  }
}
