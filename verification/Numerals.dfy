/** Runs of decimal digits inside texts, and the numbers they denote. */
module Numerals {

  predicate IsDigit(c: char) { '0' <= c <= '9' }

  predicate At(s: string, i: nat, c: char) { i < |s| && s[i] == c }

  predicate DigitAt(s: string, i: nat) { i < |s| && IsDigit(s[i]) }

  /** The end of the longest run of digits from `i`. */
  function SkipDigits(s: string, i: nat): (k: nat)
    requires i <= |s|
    ensures i <= k <= |s|
    ensures forall j :: i <= j < k ==> IsDigit(s[j])
    ensures !DigitAt(s, k)
    decreases |s| - i
  {
    if DigitAt(s, i) then SkipDigits(s, i + 1) else i
  }

  function Digit(d: nat): char
    requires d < 10
  {
    ['0', '1', '2', '3', '4', '5', '6', '7', '8', '9'][d]
  }

  function DigitValue(c: char): nat
    requires IsDigit(c)
  {
    (c - '0') as nat
  }

  predicate IsNumeral(t: string) { forall i :: 0 <= i < |t| ==> IsDigit(t[i]) }

  /** The value of a run of digits; nothing counts as 0. */
  function Value(t: string): nat
    requires IsNumeral(t)
  {
    if t == "" then 0 else 10 * Value(t[..|t| - 1]) + DigitValue(t[|t| - 1])
  }

  function NatText(n: nat): (t: string)
    ensures t != "" && IsNumeral(t)
  {
    if n < 10 then [Digit(n)] else NatText(n / 10) + [Digit(n % 10)]
  }

  lemma DigitBack(d: nat)
    requires d < 10
    ensures DigitValue(Digit(d)) == d
  {
  }

  lemma NumeralEnd(t: string, c: char)
    requires IsNumeral(t) && IsDigit(c)
    ensures IsNumeral(t + [c]) && Value(t + [c]) == 10 * Value(t) + DigitValue(c)
  {
    assert (t + [c])[..|t|] == t;
  }

  lemma {:induction false} NatTextValue(n: nat)
    ensures Value(NatText(n)) == n
  {
    DigitBack(n % 10);
    if n < 10 {
      NumeralEnd("", Digit(n));
      assert "" + [Digit(n)] == [Digit(n)];
    } else {
      NatTextValue(n / 10);
      NumeralEnd(NatText(n / 10), Digit(n % 10));
    }
  }

  lemma {:induction false} SkipNumeral(t: string, tail: string, i: nat)
    requires IsNumeral(t) && !DigitAt(tail, 0) && i <= |t|
    ensures SkipDigits(t + tail, i) == |t|
    decreases |t| - i
  {
    if i >= |t| {
    } else {
      SkipNumeral(t, tail, i + 1);
    }
  }

  function Zeros(n: nat): (z: string)
    ensures |z| == n && IsNumeral(z)
  {
    seq(n, _ => '0')
  }

  /** Leading zeros do not count. */
  lemma {:induction false} PaddedValue(n: nat, t: string)
    requires IsNumeral(t)
    ensures IsNumeral(Zeros(n) + t) && Value(Zeros(n) + t) == Value(t)
    decreases n + |t|
  {
    var s := Zeros(n) + t;
    if t != "" {
      PaddedValue(n, t[..|t| - 1]);
      assert s[..|s| - 1] == Zeros(n) + t[..|t| - 1];
    } else if n > 0 {
      PaddedValue(n - 1, "");
      assert s[..|s| - 1] == Zeros(n - 1) + "";
    }
  }
}
