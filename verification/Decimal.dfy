/** Decimal printing of integers, as `%d` and Lua's number concatenation do it. */
module Decimal {

  predicate IsDigit(c: char) {
    '0' <= c <= '9'
  }

  function Digit(d: nat): (c: char)
    requires d < 10
    ensures IsDigit(c) && c as int - '0' as int == d
  {
    (('0' as int) + d) as char
  }

  function Natural(n: nat): (s: string)
    ensures s != "" && forall k | 0 <= k < |s| :: IsDigit(s[k])
  {
    if n < 10 then [Digit(n)] else Natural(n / 10) + [Digit(n % 10)]
  }

  function Integer(n: int): (s: string)
    ensures s != "" && forall k | 0 <= k < |s| :: IsDigit(s[k]) || s[k] == '-'
  {
    if n < 0 then "-" + Natural(-n) else Natural(n)
  }

  /** Reads a digit string back; the partner of Natural. */
  function ValueOf(s: string): int {
    if s == "" then 0
    else 10 * ValueOf(s[..|s| - 1]) + (s[|s| - 1] as int - '0' as int)
  }

  lemma {:induction false} NaturalRoundTrip(n: nat)
    ensures ValueOf(Natural(n)) == n
  {
    if n < 10 {
      assert Natural(n)[..0] == "";
    } else {
      NaturalRoundTrip(n / 10);
      assert Natural(n)[..|Natural(n)| - 1] == Natural(n / 10);
    }
  }

  lemma NaturalInjective(m: nat, n: nat)
    requires Natural(m) == Natural(n)
    ensures m == n
  {
    NaturalRoundTrip(m);
    NaturalRoundTrip(n);
  }

  lemma IntegerInjective(m: int, n: int)
    requires Integer(m) == Integer(n)
    ensures m == n
  {
    var s := Integer(m);
    assert m < 0 <==> s[0] == '-';
    assert n < 0 <==> s[0] == '-';
    if m < 0 {
      assert Natural(-m) == s[1..] == Natural(-n);
      NaturalInjective(-m, -n);
    } else {
      NaturalInjective(m, n);
    }
  }
}
