/** Decimal text of integers, as Rust's `to_string` prints them. */
module Decimals {

  function Digit(d: nat): char
    requires d < 10
  {
    "0123456789"[d]
  }

  function Decimal(n: nat): string {
    if n < 10 then [Digit(n)] else Decimal(n / 10) + [Digit(n % 10)]
  }

  /** The number a run of digits denotes. */
  function Denoted(digits: string): int {
    if digits == [] then 0 else 10 * Denoted(digits[..|digits| - 1]) + (digits[|digits| - 1] as int - '0' as int)
  }

  /** Decimal text denotes its number, so different numbers print differently. */
  lemma {:induction false} DecimalReadsBack(n: nat)
    ensures Denoted(Decimal(n)) == n
  {
    if n >= 10 {
      DecimalReadsBack(n / 10);
      assert Decimal(n)[..|Decimal(n)| - 1] == Decimal(n / 10);
    } else {
      assert Decimal(n)[..0] == [];
    }
  }

  lemma {:induction false} DecimalHasNoSign(n: nat)
    ensures Decimal(n) != [] && Decimal(n)[0] != '-'
  {
    if n >= 10 {
      DecimalHasNoSign(n / 10);
    }
  }

  function SignedDecimal(i: int): string {
    if i < 0 then "-" + Decimal(-i) else Decimal(i)
  }

  /** Digits without a leading zero. */
  ghost predicate IsNumeral(s: string) {
    s != "" && (forall c <- s :: c in "0123456789") && (s[0] == '0' ==> |s| == 1)
  }

  lemma {:induction false} DecimalIsNumeral(n: nat)
    ensures IsNumeral(Decimal(n)) && (Decimal(n)[0] == '0' ==> n == 0)
  {
    if n >= 10 {
      DecimalIsNumeral(n / 10);
    }
  }

  lemma DigitReadsBack(c: char)
    requires c in "0123456789"
    ensures var d := c as int - '0' as int;
            0 <= d < 10 && Digit(d) == c && (d == 0 <==> c == '0')
  {
  }

  lemma DecimalGrows(n: nat, d: nat)
    requires n > 0 && d < 10
    ensures Decimal(10 * n + d) == Decimal(n) + [Digit(d)]
  {
    assert (10 * n + d) / 10 == n && (10 * n + d) % 10 == d;
  }

  lemma NumeralFront(s: string)
    requires IsNumeral(s) && |s| > 1
    ensures IsNumeral(s[..|s| - 1]) && s[..|s| - 1][0] != '0'
  {
    assert forall c <- s[..|s| - 1] :: c in s;
  }

  lemma {:induction false} NumeralsAreUnique(s: string)
    requires IsNumeral(s)
    ensures Denoted(s) >= 0 && Decimal(Denoted(s)) == s && (s[0] != '0' ==> Denoted(s) > 0)
  {
    var n := |s| - 1;
    var c, front := s[n], s[..n];
    assert s == front + [c] && c in s;
    DigitReadsBack(c);
    if n == 0 {
      assert front == [];
    } else {
      NumeralFront(s);
      NumeralsAreUnique(front);
      DecimalGrows(Denoted(front), c as int - '0' as int);
    }
  }

  /** An integer's text is the one numeral of its size, with a sign in front exactly when it is negative. */
  lemma SignedDecimalExactly(i: int, s: string)
    ensures s == SignedDecimal(i) <==>
            if i < 0 then s != "" && s[0] == '-' && IsNumeral(s[1..]) && Denoted(s[1..]) == -i
            else IsNumeral(s) && Denoted(s) == i
  {
    var n: nat := if i < 0 then -i else i;
    if i >= 0 {
      DecimalExactly(n, s);
    } else if s != "" {
      DecimalExactly(n, s[1..]);
      assert ("-" + Decimal(n))[1..] == Decimal(n);
      assert s == [s[0]] + s[1..];
    }
  }

  lemma DecimalExactly(n: nat, s: string)
    ensures s == Decimal(n) <==> IsNumeral(s) && Denoted(s) == n
  {
    DecimalIsNumeral(n);
    DecimalReadsBack(n);
    if IsNumeral(s) {
      NumeralsAreUnique(s);
    }
  }

  lemma SignedDecimalExample()
    ensures SignedDecimal(-1024) == "-1024" && Denoted("1024") == 1024
  {
    assert Decimal(1024) == Decimal(102) + "4" && Decimal(102) == Decimal(10) + "2" && Decimal(10) == Decimal(1) + "0";
    assert Decimal(1) == "1";
    assert Decimal(1024) == "1024";
    DecimalReadsBack(1024);
  }
}
