/** Numbers in decimal notation. */
module Decimal {
  predicate IsDigit(c: char) { '0' <= c <= '9' }

  predicate AllDigits(s: string) { forall i :: 0 <= i < |s| ==> IsDigit(s[i]) }

  function DigitOf(n: nat): (c: char)
    requires n < 10
    ensures IsDigit(c) && c as int - '0' as int == n
  {
    '0' + n as char
  }

  /** The digits of a number, without leading zeros. */
  function Digits(n: nat): (s: string)
    ensures s != ""
  {
    if n < 10 then [DigitOf(n)] else Digits(n / 10) + [DigitOf(n % 10)]
  }

  /** The number that digits stand for. */
  function Value(s: string): (n: nat)
    requires AllDigits(s)
  {
    if s == "" then 0 else assert IsDigit(s[|s| - 1]); 10 * Value(s[..|s| - 1]) + (s[|s| - 1] as int - '0' as int)
  }

  lemma ValueMore(s: string, d: char)
    requires AllDigits(s) && IsDigit(d)
    ensures AllDigits(s + [d]) && Value(s + [d]) == Value(s) * 10 + (d as int - '0' as int)
  {
    assert (s + [d])[..|s|] == s;
  }

  lemma {:induction false} DigitsValue(n: nat)
    ensures AllDigits(Digits(n)) && Value(Digits(n)) == n
  {
    if n >= 10 {
      DigitsValue(n / 10);
      assert Digits(n)[..|Digits(n)| - 1] == Digits(n / 10);
    } else {
      assert Digits(n)[..0] == "";
    }
  }

  /** The powers of ten. */
  function Power(k: nat): (n: nat)
    ensures n > 0
  {
    if k == 0 then 1 else 10 * Power(k - 1)
  }

  /** The value is the sum of the digits' values: the digit k places from the right counts 10^k. */
  lemma {:induction false} ValueFront(s: string)
    requires s != "" && AllDigits(s)
    ensures AllDigits(s[1..]) && Value(s) == (s[0] as int - '0' as int) * Power(|s| - 1) + Value(s[1..])
  {
    assert IsDigit(s[0]);
    if |s| == 1 {
      assert s[..0] == "" && s[1..] == "";
    } else {
      var t := s[..|s| - 1];
      ValueFront(t);
      assert s[1..][..|s| - 2] == t[1..] && s[1..][|s| - 2] == s[|s| - 1];
      assert Power(|s| - 1) == 10 * Power(|s| - 2);
      Scaled(s[0] as int - '0' as int, Power(|s| - 2));
    }
  }

  lemma Scaled(d: int, p: int)
    ensures 10 * (d * p) == d * (10 * p)
  {
  }

  /** The base is ten. */
  lemma Counted()
    ensures Digits(1024) == "1024" && AllDigits("1024") && Value("1024") == 1024
  {
    DigitsValue(1024);
    assert Digits(1) == "1";
    assert Digits(10) == Digits(1) + "0";
    assert Digits(102) == Digits(10) + "2";
    assert Digits(1024) == Digits(102) + "4";
    hide Digits;
  }
}
