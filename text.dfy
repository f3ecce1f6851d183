/**
  String helpers with the meaning of the Python built-ins the readers use:
  `str.upper` on ASCII text, the `02` format specification on non-negative
  integers, and slicing with clamped bounds.
*/
module Text {

  predicate IsLowerAscii(c: char) { 'a' <= c <= 'z' }

  predicate IsDigit(c: char) { '0' <= c <= '9' }

  /** `c.upper()` for an ASCII character. */
  function UpperChar(c: char): (u: char)
    ensures !IsLowerAscii(u)
    ensures IsLowerAscii(c) ==> u as int == c as int - 32
    ensures !IsLowerAscii(c) ==> u == c
  {
    if IsLowerAscii(c) then (c as int - 32) as char else c
  }

  /** `s.upper()` for ASCII text: each character is upper-cased in place. */
  function Upper(s: string): (u: string)
    ensures |u| == |s|
    ensures forall i :: 0 <= i < |s| ==> u[i] == UpperChar(s[i])
  {
    seq(|s|, i requires 0 <= i < |s| => UpperChar(s[i]))
  }

  function DigitChar(d: nat): (c: char)
    requires d < 10
    ensures IsDigit(c)
  {
    ('0' as int + d) as char
  }

  function DigitValue(c: char): (d: nat)
    requires IsDigit(c)
    ensures d < 10
  {
    c as int - '0' as int
  }

  /** `str(n)` for a non-negative integer: its decimal digits, most significant first. */
  function Decimal(n: nat): (s: string)
    ensures 1 <= |s|
    ensures forall i :: 0 <= i < |s| ==> IsDigit(s[i])
    ensures n < 10 <==> |s| == 1
    ensures 10 <= n < 100 <==> |s| == 2
    ensures s[0] == '0' <==> n == 0
  {
    if n < 10 then [DigitChar(n)] else Decimal(n / 10) + [DigitChar(n % 10)]
  }

  /** `f"{n:02}"` for a non-negative integer: at least two digits, zero-padded on the left. */
  function Pad2(n: nat): (s: string)
    ensures |s| >= 2 && forall i :: 0 <= i < |s| ==> IsDigit(s[i])
    ensures n < 100 <==> |s| == 2
    ensures n < 10 <==> s[0] == '0'
  {
    if n < 10 then "0" + Decimal(n) else Decimal(n)
  }

  predicate AllDigits(s: string) { forall i :: 0 <= i < |s| ==> IsDigit(s[i]) }

  /** `int(s)` for a string of decimal digits; the empty string reads as 0. */
  function ParseDecimal(s: string): nat
    requires AllDigits(s)
  {
    if s == [] then 0 else 10 * ParseDecimal(s[..|s| - 1]) + DigitValue(s[|s| - 1])
  }

  lemma {:induction false} ParseDecimalOfDecimal(n: nat)
    ensures ParseDecimal(Decimal(n)) == n
  {
    if n >= 10 {
      var s := Decimal(n);
      assert s[..|s| - 1] == Decimal(n / 10);
      ParseDecimalOfDecimal(n / 10);
    }
  }

  /** The two-digit form reads back as the number it renders, and has exactly two digits below 100. */
  lemma Pad2RoundTrip(n: nat)
    ensures AllDigits(Pad2(n))
    ensures ParseDecimal(Pad2(n)) == n
    ensures |Pad2(n)| >= 2
    ensures n < 100 <==> |Pad2(n)| == 2
  {
    ParseDecimalOfDecimal(n);
    if n < 10 {
      var s := Pad2(n);
      assert s[..|s| - 1] == "0";
      assert ParseDecimal("0") == 10 * ParseDecimal([]) + 0;
    } else {
      assert n >= 100 ==> |Decimal(n)| >= 3;
    }
  }

  /** Distinct numbers have distinct two-digit forms. */
  lemma Pad2Injective(m: nat, n: nat)
    requires Pad2(m) == Pad2(n)
    ensures m == n
  {
    Pad2RoundTrip(m);
    Pad2RoundTrip(n);
  }

  /**
    Python's `s[i:j]` for non-negative bounds: both bounds are clamped to the
    length, and a slice whose end precedes its start is empty.
  */
  function PySlice(s: string, i: nat, j: nat): (r: string)
    ensures i <= j <= |s| ==> r == s[i..j]
    ensures |r| == if i < j && i < |s| then (if j < |s| then j else |s|) - i else 0
    ensures forall k :: 0 <= k < |r| ==> i + k < |s| && r[k] == s[i + k]
  {
    var lo := if i < |s| then i else |s|;
    var hi := if j < |s| then j else |s|;
    if lo <= hi then s[lo..hi] else []
  }

  /** A string framed by the same prefix and by suffixes of equal length is determined by the framed text. */
  lemma FrameCancel(pre: string, m1: string, m2: string, suf1: string, suf2: string)
    requires pre + m1 + suf1 == pre + m2 + suf2
    requires |suf1| == |suf2|
    ensures m1 == m2 && suf1 == suf2
  {
    var s := pre + m1 + suf1;
    assert |m1| == |m2|;
    assert m1 == s[|pre|..|pre| + |m1|];
    assert m2 == (pre + m2 + suf2)[|pre|..|pre| + |m2|];
    assert suf1 == s[|pre| + |m1|..];
    assert suf2 == (pre + m2 + suf2)[|pre| + |m2|..];
  }

  /** Two strings of the form `pre + a + "_" + b + suf`, with equally long `a` parts, that are equal have equal parts. */
  lemma SplitAtSeparator(pre: string, a1: string, b1: string, a2: string, b2: string, suf: string)
    requires |a1| == |a2|
    requires pre + a1 + "_" + b1 + suf == pre + a2 + "_" + b2 + suf
    ensures a1 == a2 && b1 == b2
  {
    var m1, m2 := a1 + "_" + b1, a2 + "_" + b2;
    assert pre + a1 + "_" + b1 + suf == pre + m1 + suf;
    assert pre + a2 + "_" + b2 + suf == pre + m2 + suf;
    FrameCancel(pre, m1, m2, suf, suf);
    assert a1 == m1[..|a1|] && a2 == m2[..|a2|];
    assert b1 == m1[|a1| + 1..] && b2 == m2[|a2| + 1..];
  }

  predicate StartsWith(s: string, prefix: string)
  {
    |prefix| <= |s| && s[..|prefix|] == prefix
  }

  predicate EndsWith(s: string, suffix: string)
  {
    |suffix| <= |s| && s[|s| - |suffix|..] == suffix
  }

  /** A string built as `pre + mid + suf` starts with `pre`, ends with `suf`, and holds `mid + suf` after `pre`. */
  lemma Framed(pre: string, mid: string, suf: string)
    ensures StartsWith(pre + mid + suf, pre) && EndsWith(pre + mid + suf, suf)
    ensures (pre + mid + suf)[|pre|..] == mid + suf
  {
    var s := pre + mid + suf;
    assert s[..|pre|] == pre;
    assert s[|s| - |suf|..] == suf;
    assert s[|pre|..] == mid + suf;
  }
}
