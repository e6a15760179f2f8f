/** Shared vocabulary: optional values (Python's None) and the decimal
    rendering of integers used inside f-strings. */
module Base {

  datatype Option<+T> = None | Some(value: T)

  /** The character for one decimal digit. */
  function DigitChar(d: nat): (c: char)
    requires d < 10
    ensures '0' <= c <= '9'
    ensures c as int - '0' as int == d
  {
    ('0' as int + d) as char
  }

  predicate IsDigits(s: string)
  {
    forall i :: 0 <= i < |s| ==> '0' <= s[i] <= '9'
  }

  /** Decimal rendering of a non-negative integer, most significant digit
      first, as Python's str() prints it. */
  function NatToString(n: nat): (s: string)
    ensures |s| >= 1 && IsDigits(s)
    ensures |s| > 1 ==> s[0] != '0'
    decreases n
  {
    if n < 10 then [DigitChar(n)] else NatToString(n / 10) + [DigitChar(n % 10)]
  }

  /** Reads back a string of decimal digits. */
  function ParseNat(s: string): nat
    requires IsDigits(s)
  {
    if s == [] then 0
    else ParseNat(s[..|s| - 1]) * 10 + (s[|s| - 1] as int - '0' as int)
  }

  /** Decimal rendering of any integer, with a leading minus sign for
      negative values. */
  function IntToString(i: int): (s: string)
    ensures |s| >= 1
    ensures (s[0] == '-') <==> i < 0
  {
    if i < 0 then "-" + NatToString(-i) else NatToString(i)
  }

  lemma {:induction false} ParseNatToString(n: nat)
    ensures ParseNat(NatToString(n)) == n
    decreases n
  {
    var s := NatToString(n);
    if n >= 10 {
      ParseNatToString(n / 10);
      assert s[..|s| - 1] == NatToString(n / 10);
    }
  }

  /** Distinct integers print differently, so a printed number identifies
      the value it came from. */
  lemma IntToStringInjective(a: int, b: int)
    requires IntToString(a) == IntToString(b)
    ensures a == b
  {
    var s := IntToString(a);
    assert (s[0] == '-') <==> b < 0;
    if a < 0 {
      var na: nat, nb: nat := -a, -b;
      assert s == "-" + NatToString(na) == "-" + NatToString(nb);
      assert s[1..] == NatToString(na);
      assert s[1..] == NatToString(nb);
      ParseNatToString(na);
      ParseNatToString(nb);
    } else {
      var na: nat, nb: nat := a, b;
      assert NatToString(na) == NatToString(nb);
      ParseNatToString(na);
      ParseNatToString(nb);
    }
  }
}
