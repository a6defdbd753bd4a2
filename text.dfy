/** Decimal digits in text: reading a run of digits, Python's `str(n)` and
    `f'{n:02}'`, and the one-character replacement `str.replace(',', '.')`. */
module Text {

  predicate IsDigit(c: char) {
    '0' <= c <= '9'
  }

  predicate AllDigits(s: string) {
    forall i :: 0 <= i < |s| ==> IsDigit(s[i])
  }

  function DigitValue(c: char): nat
    requires IsDigit(c)
  {
    c as int - '0' as int
  }

  function DigitChar(d: nat): (c: char)
    requires d < 10
    ensures IsDigit(c) && DigitValue(c) == d
  {
    ('0' as int + d) as char
  }

  /** The value of a run of decimal digits, most significant digit first. */
  function DigitsValue(s: string): nat
    requires AllDigits(s)
    decreases |s|
  {
    if |s| == 0 then 0 else DigitsValue(s[..|s| - 1]) * 10 + DigitValue(s[|s| - 1])
  }

  /** The number of decimal digits at the front of `s`. */
  function DigitRun(s: string): (k: nat)
    ensures k <= |s| && AllDigits(s[..k])
    ensures k < |s| ==> !IsDigit(s[k])
    decreases |s|
  {
    if |s| > 0 && IsDigit(s[0]) then
      var k := 1 + DigitRun(s[1..]);
      assert s[..k] == [s[0]] + s[1..][..k - 1];
      k
    else 0
  }

  /** `str(n)` for a natural number: its digits, without leading zeros. */
  function Decimal(n: nat): (s: string)
    ensures 1 <= |s| && AllDigits(s) && DigitsValue(s) == n
    ensures |s| == 1 <==> n < 10
    ensures n >= 100 ==> |s| >= 3
    ensures n >= 1000 ==> |s| >= 4
    ensures n < 100 ==> |s| <= 2
    ensures n < 1000 ==> |s| <= 3
    ensures n < 10000 ==> |s| <= 4
    decreases n
  {
    if n < 10 then
      var s := [DigitChar(n)];
      assert s[..0] == [];
      s
    else
      var s := Decimal(n / 10) + [DigitChar(n % 10)];
      assert s[..|s| - 1] == Decimal(n / 10);
      s
  }

  /** `f'{n:02}'`: the digits of `n`, zero-padded to at least two. */
  function Pad2(n: nat): (s: string)
    ensures AllDigits(s) && DigitsValue(s) == n
    ensures |s| >= 2 && (|s| == 2 <==> n < 100)
  {
    if n < 10 then
      var s := ['0'] + Decimal(n);
      assert s[..1] == ['0'] && s[..1][..0] == [];
      s
    else Decimal(n)
  }

  /** `text.replace(from, to)` for single characters: every `from` becomes `to`, nothing else changes. */
  function ReplaceChar(s: string, from: char, to: char): string {
    seq(|s|, i requires 0 <= i < |s| => if s[i] == from then to else s[i])
  }

  /** The digit run of a field ends exactly at the first non-digit after it. */
  lemma {:induction false} DigitRunStopsAt(digits: string, rest: string)
    requires AllDigits(digits)
    requires |rest| > 0 && !IsDigit(rest[0])
    ensures DigitRun(digits + rest) == |digits|
    decreases |digits|
  {
    if |digits| > 0 {
      assert (digits + rest)[1..] == digits[1..] + rest;
      DigitRunStopsAt(digits[1..], rest);
    } else {
      assert digits + rest == rest;
    }
  }

  /** A digit run on its own is read to its end. */
  lemma {:induction false} DigitRunWhole(digits: string)
    requires AllDigits(digits)
    ensures DigitRun(digits) == |digits|
    decreases |digits|
  {
    if |digits| > 0 {
      DigitRunWhole(digits[1..]);
    }
  }

  /** Replacement works piece by piece. */
  lemma ReplaceCharAppend(a: string, b: string, from: char, to: char)
    ensures ReplaceChar(a + b, from, to) == ReplaceChar(a, from, to) + ReplaceChar(b, from, to)
  {
    var l, r := ReplaceChar(a + b, from, to), ReplaceChar(a, from, to) + ReplaceChar(b, from, to);
    forall i | 0 <= i < |l| ensures l[i] == r[i] {
      if i < |a| {
        assert (a + b)[i] == a[i];
      } else {
        assert (a + b)[i] == b[i - |a|];
      }
    }
  }

  /** Digits are left alone when a non-digit is replaced. */
  lemma ReplaceCharDigits(d: string, from: char, to: char)
    requires AllDigits(d) && !IsDigit(from)
    ensures ReplaceChar(d, from, to) == d
  {
  }
}
