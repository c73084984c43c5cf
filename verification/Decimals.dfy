/** Natural numbers as Python prints and reads them. */
module Decimals {
  predicate IsDigit(c: char) {
    '0' <= c <= '9'
  }

  function Digit(d: nat): (c: char)
    requires d < 10
    ensures IsDigit(c) && c as int - '0' as int == d && (c == '0' <==> d == 0)
  {
    ('0' as int + d) as char
  }

  function Decimal(n: nat): (s: string)
    ensures s != "" && (forall i :: 0 <= i < |s| ==> IsDigit(s[i]))
    ensures n > 0 ==> s[0] != '0'
  {
    if n < 10 then [Digit(n)] else Decimal(n / 10) + [Digit(n % 10)]
  }

  function ReadDecimal(s: string): nat
    requires forall i :: 0 <= i < |s| ==> IsDigit(s[i])
  {
    if s == "" then 0
    else
      assert IsDigit(s[|s| - 1]);
      10 * ReadDecimal(s[..|s| - 1]) + (s[|s| - 1] as int - '0' as int)
  }

  lemma {:induction false} DecimalReadsBack(n: nat)
    ensures ReadDecimal(Decimal(n)) == n
  {
    if n < 10 {
      assert Decimal(n)[..0] == "";
    } else {
      DecimalReadsBack(n / 10);
      assert Decimal(n)[..|Decimal(n)| - 1] == Decimal(n / 10);
    }
  }

  lemma {:induction false} ReadsBackDecimal(s: string)
    requires s != "" && (forall i :: 0 <= i < |s| ==> IsDigit(s[i])) && s[0] != '0'
    ensures ReadDecimal(s) > 0 && Decimal(ReadDecimal(s)) == s
  {
    var front, d := s[..|s| - 1], s[|s| - 1] as int - '0' as int;
    if |s| == 1 {
      assert front == "";
      assert Digit(d) == s[0];
    } else {
      ReadsBackDecimal(front);
      assert ReadDecimal(s) / 10 == ReadDecimal(front) && ReadDecimal(s) % 10 == d;
      assert Digit(d) == s[|s| - 1];
      assert s == front + [s[|s| - 1]];
    }
  }
}
