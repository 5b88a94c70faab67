/** Decimal rendering of a natural number, the part of `strconv.Itoa` the
    file label uses (sizes are never negative), with its inverse. */
module Decimal {

  predicate IsDigit(c: char)
  {
    '0' <= c <= '9'
  }

  function DigitChar(d: nat): (c: char)
    requires d < 10
    ensures IsDigit(c) && (c as int) - ('0' as int) == d
  {
    (('0' as int) + d) as char
  }

  predicate AllDigits(s: string)
  {
    forall i :: 0 <= i < |s| ==> IsDigit(s[i])
  }

  /** The shortest decimal numeral of `n`: digits only, never empty, and no
      leading zero except for `n == 0` itself. */
  function Itoa(n: nat): (r: string)
    ensures |r| >= 1 && AllDigits(r)
    ensures |r| > 1 ==> r[0] != '0'
    ensures r[0] == '0' <==> n == 0
  {
    if n < 10 then [DigitChar(n)] else Itoa(n / 10) + [DigitChar(n % 10)]
  }

  /** The value of a numeral, read from the most significant digit. */
  function Atoi(s: string): nat
    requires AllDigits(s)
  {
    if s == [] then 0
    else Atoi(s[..|s| - 1]) * 10 + ((s[|s| - 1] as int) - ('0' as int))
  }

  lemma {:induction false} AtoiItoa(n: nat)
    ensures Atoi(Itoa(n)) == n
  {
    if n >= 10 {
      var r := Itoa(n);
      assert r[..|r| - 1] == Itoa(n / 10);
      AtoiItoa(n / 10);
    }
  }

  /** Different sizes print differently. */
  lemma ItoaInjective(a: nat, b: nat)
    requires Itoa(a) == Itoa(b)
    ensures a == b
  {
    AtoiItoa(a);
    AtoiItoa(b);
  }

  /** A numeral of the shape `Itoa` produces: digits, at least one, no leading zero. */
  predicate Canonical(s: string)
  {
    |s| >= 1 && AllDigits(s) && (|s| > 1 ==> s[0] != '0')
  }

  lemma {:induction false} AtoiPositive(s: string)
    requires Canonical(s) && s[0] != '0'
    ensures Atoi(s) >= 1
  {
    if |s| > 1 {
      var front := s[..|s| - 1];
      assert front[0] == s[0];
      AtoiPositive(front);
    }
  }

  /** The other direction: every canonical numeral is the `Itoa` of its value. */
  lemma {:induction false} ItoaAtoi(s: string)
    requires Canonical(s)
    ensures Itoa(Atoi(s)) == s
  {
    var front := s[..|s| - 1];
    var d := (s[|s| - 1] as int) - ('0' as int);
    if |s| == 1 {
      assert Atoi(s) == Atoi(front) * 10 + d;
      assert front == [];
      assert [DigitChar(d)] == s;
    } else {
      assert front[0] == s[0];
      AtoiPositive(front);
      ItoaAtoi(front);
      var n := Atoi(s);
      assert n == Atoi(front) * 10 + d;
      assert n / 10 == Atoi(front) && n % 10 == d;
      assert Itoa(n) == Itoa(Atoi(front)) + [DigitChar(d)];
      assert s == front + [s[|s| - 1]];
    }
  }
}
