/**
 * The integer and string formatting the two programs use in their output
 * lines: Python's `{n:0Wd}` (decimal, zero-padded to width W) and
 * `{s:<W}` (left-aligned, space-padded to width W), and the shape of a CSV
 * line. Decimal rendering of seconds (`{x:.3f}`) is not modelled: a CSV
 * row keeps those fields as numbers.
 */
module Text {

  predicate IsDigit(c: char) {
    '0' <= c <= '9'
  }

  predicate AllDigits(s: string) {
    forall i :: 0 <= i < |s| ==> IsDigit(s[i])
  }

  /** The character of one decimal digit. */
  function DigitChar(d: nat): (c: char)
    requires d < 10
    ensures IsDigit(c) && c as int - '0' as int == d
  {
    (d + '0' as int) as char
  }

  /** The decimal digits of `n`, most significant first, without leading zeros (Python `str(n)`). */
  function Digits(n: nat): (s: string)
    ensures 1 <= |s| && AllDigits(s)
    ensures |s| > 1 ==> s[0] != '0'
    decreases n
  {
    if n < 10 then [DigitChar(n)] else Digits(n / 10) + [DigitChar(n % 10)]
  }

  /** The number a string of decimal digits denotes; the inverse of Digits. */
  function DigitsValue(s: string): nat
    requires AllDigits(s)
  {
    if s == [] then 0
    else DigitsValue(s[..|s| - 1]) * 10 + (s[|s| - 1] as int - '0' as int)
  }

  /** `k` copies of the character `c`. */
  function Repeat(c: char, k: nat): (s: string)
    ensures |s| == k
  {
    if k == 0 then [] else Repeat(c, k - 1) + [c]
  }

  /** Every character of `Repeat(c, k)` is `c`. */
  lemma {:induction false} RepeatChars(c: char, k: nat)
    ensures forall i :: 0 <= i < k ==> Repeat(c, k)[i] == c
  {
    if k > 0 {
      RepeatChars(c, k - 1);
    }
  }

  /** Reading back the digits of a number gives the number. */
  lemma {:induction false} DigitsRoundTrip(n: nat)
    ensures DigitsValue(Digits(n)) == n
    decreases n
  {
    if n >= 10 {
      DigitsRoundTrip(n / 10);
      var s := Digits(n);
      assert s[..|s| - 1] == Digits(n / 10);
    }
  }

  /** Leading zeros do not change the value of a digit string. */
  lemma {:induction false} LeadingZerosValue(k: nat, s: string)
    requires AllDigits(s)
    ensures AllDigits(Repeat('0', k) + s)
    ensures DigitsValue(Repeat('0', k) + s) == DigitsValue(s)
    decreases |s|
  {
    var z := Repeat('0', k);
    if s == [] {
      assert z + s == z;
      ZerosValue(k);
    } else {
      var t := z + s;
      assert t[..|t| - 1] == z + s[..|s| - 1];
      LeadingZerosValue(k, s[..|s| - 1]);
    }
  }

  /** A string of zeros denotes zero. */
  lemma {:induction false} ZerosValue(k: nat)
    ensures AllDigits(Repeat('0', k)) && DigitsValue(Repeat('0', k)) == 0
  {
    if k > 0 {
      var z := Repeat('0', k);
      assert z[..k - 1] == Repeat('0', k - 1);
      ZerosValue(k - 1);
    }
  }

  /**
   * Python `f"{n:0{width}d}"`: the decimal digits of `n` left-padded with
   * zeros to `width` characters; a negative number gets its minus sign
   * first and the zeros after it, the sign counting towards the width.
   */
  function ZeroPad(n: int, width: nat): (s: string)
    decreases if n < 0 then 1 else 0
  {
    if n >= 0 then
      var d := Digits(n);
      Repeat('0', if width > |d| then width - |d| else 0) + d
    else
      "-" + ZeroPad(-n, if width > 0 then width - 1 else 0)
  }

  /** A padded non-negative number is exactly `width` digits wide when it fits, and reads back as itself. */
  lemma ZeroPadValue(n: nat, width: nat)
    ensures AllDigits(ZeroPad(n, width))
    ensures |ZeroPad(n, width)| == if width > |Digits(n)| then width else |Digits(n)|
    ensures DigitsValue(ZeroPad(n, width)) == n
  {
    var d := Digits(n);
    LeadingZerosValue(if width > |d| then width - |d| else 0, d);
    DigitsRoundTrip(n);
  }

  /** A number below 100 pads to exactly two digits. */
  lemma TwoDigitField(n: int)
    requires 0 <= n < 100
    ensures |ZeroPad(n, 2)| == 2 && AllDigits(ZeroPad(n, 2)) && DigitsValue(ZeroPad(n, 2)) == n
  {
    ZeroPadValue(n, 2);
    if n >= 10 {
      assert Digits(n) == Digits(n / 10) + [DigitChar(n % 10)];
    }
  }

  /** A single digit pads to a zero and that digit. */
  lemma OneDigitPad(n: int)
    requires 0 <= n < 10
    ensures ZeroPad(n, 2) == ['0', DigitChar(n)]
  {
    assert Digits(n) == [DigitChar(n)];
    assert Repeat('0', 1) == ['0'];
  }

  /** A number below 1000 pads to exactly three digits. */
  lemma ThreeDigitField(n: nat)
    requires n < 1000
    ensures |ZeroPad(n, 3)| == 3 && AllDigits(ZeroPad(n, 3)) && DigitsValue(ZeroPad(n, 3)) == n
  {
    ZeroPadValue(n, 3);
    if n >= 10 {
      assert Digits(n) == Digits(n / 10) + [DigitChar(n % 10)];
      if n >= 100 {
        assert Digits(n / 10) == Digits(n / 100) + [DigitChar(n / 10 % 10)];
      }
    }
  }

  /** A padded negative number is its minus sign followed by the magnitude's digits. */
  lemma ZeroPadNegative(n: int, width: nat)
    requires n < 0
    ensures |ZeroPad(n, width)| >= 2 && ZeroPad(n, width)[0] == '-'
    ensures AllDigits(ZeroPad(n, width)[1..]) && DigitsValue(ZeroPad(n, width)[1..]) == -n
  {
    var m := ZeroPad(-n, if width > 0 then width - 1 else 0);
    ZeroPadValue(-n, if width > 0 then width - 1 else 0);
    assert ("-" + m)[1..] == m;
  }

  /**
   * Four fields joined by three one-character separators, the first three
   * fields two characters wide: where each field and separator lands.
   */
  lemma FieldsLayout(a: string, p: string, b: string, q: string, c: string, u: string, d: string)
    requires |a| == 2 && |b| == 2 && |c| == 2 && |p| == 1 && |q| == 1 && |u| == 1
    ensures var r := a + p + b + q + c + u + d;
      |r| == 9 + |d| && r[2] == p[0] && r[5] == q[0] && r[8] == u[0] &&
      r[0..2] == a && r[3..5] == b && r[6..8] == c && r[9..|r|] == d
  {
    var r := a + p + b + q + c + u + d;
    assert r[0..2] == a;
    assert r[3..5] == b;
    assert r[6..8] == c;
    assert r[9..|r|] == d;
  }

  /** The middle of a three-part string is where the first part ends. */
  lemma MiddleOf(pre: string, mid: string, post: string)
    ensures |pre + mid + post| == |pre| + |mid| + |post|
    ensures (pre + mid + post)[|pre|..|pre| + |mid|] == mid
  {
  }

  /** Python `f"{s:<{width}}"`: `s` followed by spaces up to `width`; a longer `s` is kept whole. */
  function PadRight(s: string, width: nat): (r: string)
    ensures |r| == if |s| < width then width else |s|
  {
    s + Repeat(' ', if |s| < width then width - |s| else 0)
  }

  /** A padded string starts with the string and continues with spaces only. */
  lemma PadRightChars(s: string, width: nat)
    ensures PadRight(s, width)[..|s|] == s
    ensures forall i :: |s| <= i < |PadRight(s, width)| ==> PadRight(s, width)[i] == ' '
  {
    var k := if |s| < width then width - |s| else 0;
    RepeatChars(' ', k);
    assert PadRight(s, width)[..|s|] == s;
  }

  /**
   * One line of a CSV index file: the header, verbatim, or a data row. The
   * seconds fields are kept as numbers (their three-decimal rendering is not
   * modelled); the timecode fields hold what the file renders as a
   * timecode (a frame number, or the fields of a clock time).
   */
  datatype CsvLine<T> =
    | Header(text: string)
    | Row(index: nat, fromSec: real, toSec: real, lengthSec: real, fromTc: T, toTc: T)
}
