/** Decimal text: what `%d` prints and what `atoi` and `strtod` read back. */
module Decimal {
  import opened Bytes

  predicate IsDigit(b: byte) {
    ZERO <= b <= NINE
  }

  predicate AllDigits(s: bytes) {
    forall k :: 0 <= k < |s| ==> IsDigit(s[k])
  }

  /** The number a run of digits denotes. */
  function NumberOf(s: bytes): int {
    if s == [] then 0 else 10 * NumberOf(s[..|s| - 1]) + (s[|s| - 1] - ZERO)
  }

  /** The shortest digits of a natural number. */
  function Digits(n: nat): (s: bytes)
    ensures |s| >= 1 && AllDigits(s)
    ensures |s| > 1 ==> s[0] != ZERO
    ensures n > 0 ==> s[0] != ZERO
  {
    if n < 10 then [ZERO + n] else Digits(n / 10) + [ZERO + n % 10]
  }

  /** `%d` */
  function Signed(n: int): bytes {
    if n < 0 then [MINUS] + Digits(-n) else Digits(n)
  }

  lemma {:induction false} NumberOfDigits(n: nat)
    ensures NumberOf(Digits(n)) == n
  {
    if n >= 10 {
      NumberOfDigits(n / 10);
      var s := Digits(n);
      assert s[..|s| - 1] == Digits(n / 10);
    }
  }

  lemma DigitsInjective(m: nat, n: nat)
    requires Digits(m) == Digits(n)
    ensures m == n
  {
    NumberOfDigits(m);
    NumberOfDigits(n);
  }

  lemma SignedInjective(m: int, n: int)
    requires Signed(m) == Signed(n)
    ensures m == n
  {
    hide Digits;
    assert Signed(m)[0] == MINUS <==> m < 0;
    assert Signed(n)[0] == MINUS <==> n < 0;
    if m < 0 && n < 0 {
      assert Digits(-m) == Signed(m)[1..] == Signed(n)[1..] == Digits(-n);
      DigitsInjective(-m, -n);
    } else {
      DigitsInjective(m, n);
    }
  }
}
