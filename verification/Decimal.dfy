/** Decimal text of integers, as `str(n)` and f-strings render it. */
module Decimal {
  predicate IsDigit(c: char) {
    '0' <= c <= '9'
  }

  function DigitChar(n: nat): char
    requires n < 10
  {
    '0' + n as char
  }

  function NatText(n: nat): (s: string)
    ensures |s| >= 1 && forall c :: c in s ==> IsDigit(c)
  {
    if n < 10 then [DigitChar(n)] else NatText(n / 10) + [DigitChar(n % 10)]
  }

  function IntText(n: int): string {
    if n < 0 then "-" + NatText(-n) else NatText(n)
  }

  function Value(s: string): nat
    requires forall c :: c in s ==> IsDigit(c)
  {
    if s == "" then 0
    else
      assert IsDigit(s[|s| - 1]);
      Value(s[..|s| - 1]) * 10 + (s[|s| - 1] - '0') as nat
  }

  lemma {:induction false} ValueOfText(n: nat)
    ensures Value(NatText(n)) == n
  {
    if n >= 10 {
      ValueOfText(n / 10);
      assert NatText(n)[..|NatText(n)| - 1] == NatText(n / 10);
    } else {
      assert [DigitChar(n)][..0] == "";
    }
  }

  /** Different numbers have different texts. */
  lemma NatTextInjective(m: nat, n: nat)
    requires NatText(m) == NatText(n)
    ensures m == n
  {
    ValueOfText(m);
    ValueOfText(n);
  }

  lemma {:induction false} NatTextLength(n: nat)
    ensures n < 10_000 ==> |NatText(n)| <= 4
  {
    if n >= 10 {
      assert NatText(n) == NatText(n / 10) + [DigitChar(n % 10)];
      if n >= 100 {
        assert NatText(n / 10) == NatText(n / 100) + [DigitChar(n / 10 % 10)] by { assert n / 10 / 10 == n / 100; }
        if n >= 1000 {
          assert NatText(n / 100) == NatText(n / 1000) + [DigitChar(n / 100 % 10)] by { assert n / 100 / 10 == n / 1000; }
        }
      }
    }
  }
}
