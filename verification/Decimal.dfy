/** Decimal text of numbers, as stream insertion prints it and digit parsing reads it. */
module Decimal {

  predicate IsDigit(c: char) {
    '0' <= c <= '9'
  }

  predicate AllDigits(s: string) {
    forall i :: 0 <= i < |s| ==> IsDigit(s[i])
  }

  function DigitOf(d: nat): (c: char)
    requires d < 10
    ensures IsDigit(c)
  {
    '0' + d as char
  }

  function ValueOf(c: char): (d: nat)
    requires IsDigit(c)
    ensures d < 10
  {
    (c - '0') as nat
  }

  function Print(n: nat): (s: string)
    ensures s != "" && AllDigits(s)
    decreases n
  {
    if n < 10 then [DigitOf(n)] else Print(n / 10) + [DigitOf(n % 10)]
  }

  function PrintSigned(v: int): string {
    if v < 0 then "-" + Print(-v) else Print(v)
  }

  function Parse(s: string): nat
    requires AllDigits(s)
  {
    if s == "" then 0 else Parse(s[..|s| - 1]) * 10 + ValueOf(s[|s| - 1])
  }

  lemma {:induction false} ParsePrint(n: nat)
    ensures Parse(Print(n)) == n
    decreases n
  {
    var s := Print(n);
    if n < 10 {
      assert s[..|s| - 1] == "";
    } else {
      ParsePrint(n / 10);
      assert s[..|s| - 1] == Print(n / 10);
    }
  }

  function Pow10(n: nat): nat {
    if n == 0 then 1 else 10 * Pow10(n - 1)
  }

  lemma ParseDigit(c: char)
    requires '0' <= c <= '9'
    ensures AllDigits([c]) && Parse([c]) == c as int - '0' as int
  {
    assert [c][..0] == "";
  }

  lemma Shift(high: nat, power: nat, low: nat, digit: nat)
    ensures (high * power + low) * 10 + digit == high * (10 * power) + (low * 10 + digit)
  {
  }

  lemma ParseStep(s: string, c: char)
    requires AllDigits(s) && IsDigit(c)
    ensures AllDigits(s + [c]) && Parse(s + [c]) == Parse(s) * 10 + ValueOf(c)
  {
    assert (s + [c])[..|s|] == s;
  }

  /** Digits count by position, with or without zeros in front. */
  lemma {:induction false} ParseConcat(a: string, b: string)
    requires AllDigits(a) && AllDigits(b)
    ensures AllDigits(a + b) && Parse(a + b) == Parse(a) * Pow10(|b|) + Parse(b)
  {
    hide Parse;
    if b == "" {
      assert a + b == a;
      ParseNothing();
    } else {
      var n := |b| - 1;
      ParseConcat(a, b[..n]);
      ParseStep(a + b[..n], b[n]);
      ParseStep(b[..n], b[n]);
      assert b == b[..n] + [b[n]] && a + b == a + b[..n] + [b[n]];
      Shift(Parse(a), Pow10(n), Parse(b[..n]), ValueOf(b[n]));
    }
  }

  lemma ParseNothing()
    ensures Parse("") == 0
  {
  }

  lemma LeadingZero(s: string)
    requires AllDigits(s)
    ensures AllDigits("0" + s) && Parse("0" + s) == Parse(s)
  {
    ParseDigit('0');
    ParseConcat("0", s);
  }

  /** Printing puts no zero in front. */
  lemma {:induction false} NoLeadingZero(n: nat)
    ensures n == 0 ==> Print(n) == "0"
    ensures n > 0 ==> Print(n)[0] != '0'
    decreases n
  {
    if n >= 10 {
      NoLeadingZero(n / 10);
    }
  }
}
