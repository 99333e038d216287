/** Decimal numbers as Python prints them. */
module Decimal {
  import opened Text

  function DigitChar(d: nat): (c: char)
    requires d < 10
    ensures IsAsciiDigit(c)
  {
    ('0' as int + d) as char
  }

  function DigitValue(c: char): (d: nat)
    requires IsAsciiDigit(c)
    ensures d < 10
  {
    c as int - '0' as int
  }

  function ToText(n: nat): (s: string)
    ensures s != "" && forall i: nat | i < |s| :: IsAsciiDigit(s[i])
  {
    if n < 10 then [DigitChar(n)] else ToText(n / 10) + [DigitChar(n % 10)]
  }

  function ToNumber(s: string): nat
    requires forall i: nat | i < |s| :: IsAsciiDigit(s[i])
  {
    if s == "" then 0 else 10 * ToNumber(s[..|s| - 1]) + DigitValue(s[|s| - 1])
  }

  lemma {:induction false} NumberOfText(n: nat)
    ensures ToNumber(ToText(n)) == n
    decreases n
  {
    var s := ToText(n);
    if n < 10 {
      assert s[..0] == "" && ToNumber("") == 0;
    } else {
      NumberOfText(n / 10);
      assert s[..|s| - 1] == ToText(n / 10);
    }
  }

  /** The digits of a number, written out: those of its tenth, and the last one. */
  lemma DigitsAre(n: nat, d: nat)
    requires d < 10
    ensures ToText(d) == ["0123456789"[d]]
    ensures n > 0 ==> ToText(10 * n + d) == ToText(n) + ["0123456789"[d]]
  {
    var digits := "0123456789";
    assert DigitChar(d) == digits[d];
    assert (10 * n + d) / 10 == n && (10 * n + d) % 10 == d;
  }
}
