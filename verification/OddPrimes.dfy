/** Odd primes and ordered tables of them. */
module OddPrimes {
  import opened WideUint

  ghost predicate IsPrime(n: nat) {
    n >= 2 && forall d {:trigger n % d} :: 2 <= d < n ==> n % d != 0
  }

  ghost predicate IsOddPrime(n: nat) {
    IsPrime(n) && n % 2 == 1
  }

  ghost predicate Increasing(s: seq<nat>) {
    forall i, j :: 0 <= i < j < |s| ==> s[i] < s[j]
  }

  /** `s` lists exactly the odd primes below `bound`, in increasing order. */
  ghost predicate ListsOddPrimesBelow(s: seq<nat>, bound: nat) {
    && Increasing(s)
    && forall n: nat :: n in s <==> IsOddPrime(n) && n < bound
  }

  lemma DividesTransitive(a: nat, b: nat, n: nat)
    requires a > 0 && b > 0 && b % a == 0 && n % b == 0
    ensures n % a == 0
  {
    var q := Division(b, a);
    var r := Division(n, b);
    Associate(r, q, a);
    MultipleRemainder(r * q, a);
  }

  lemma DivisorOfOddIsOdd(n: nat, d: nat)
    requires d > 0 && n % d == 0 && n % 2 == 1
    ensures d % 2 == 1
  {
    var q := Division(n, d);
    ParityOfProduct(q, d);
  }

  lemma CofactorDivides(n: nat, d: nat) returns (e: nat)
    requires 2 <= d < n && n % d == 0
    ensures n == e * d && 2 <= e < n && n % e == 0
  {
    var q := Division(n, d);
    if q <= 0 {
      Distribute(0, -q, d);
      if q < 0 { ProductAtLeast(-q, d); }
      assert false;
    }
    e := q;
    MultipleRemainder(d, e);
    ProductAtLeast(e, d - 1);
    Distribute(d, 1, e);
  }

  /** A composite number has a prime factor whose square does not exceed it. */
  lemma SmallPrimeFactor(n: nat) returns (q: nat)
    requires n >= 2 && !IsPrime(n)
    ensures IsPrime(q) && q * q <= n && n % q == 0 && q < n
  {
    var d: nat :| 2 <= d < n && n % d == 0;
    var e := CofactorDivides(n, d);
    var m := if d <= e then d else e;
    assert m * m <= n by {
      if d <= e { SquareAtMost(d, e); } else { SquareAtMost(e, d); }
    }
    if IsPrime(m) {
      q := m;
    } else {
      q := SmallPrimeFactor(m);
      DividesTransitive(q, m, n);
      SquareAtMost(q, m);
    }
  }

  lemma SquareAtMost(a: nat, b: nat)
    requires a <= b
    ensures a * a <= a * b <= b * b
  {
    Distribute(b, a, a);
    Distribute(b, a, b);
    if a < b && a > 0 { ProductAtLeast(b - a, a); }
  }

  // ---- primes the sieve argument mentions, by trial division that the verifier can run ----

  predicate NoneOfEightDivides(n: nat, d: nat)
    requires d > 0
  {
    && n % d != 0 && n % (d + 2) != 0 && n % (d + 4) != 0 && n % (d + 6) != 0
    && n % (d + 8) != 0 && n % (d + 10) != 0 && n % (d + 12) != 0 && n % (d + 14) != 0
  }

  predicate NoneOf32Divides(n: nat, d: nat)
    requires d > 0
  {
    && NoneOfEightDivides(n, d) && NoneOfEightDivides(n, d + 16)
    && NoneOfEightDivides(n, d + 32) && NoneOfEightDivides(n, d + 48)
  }

  /** None of the 32*b odd numbers from `d` on divides `n`. */
  predicate NoOddDivisor(n: nat, d: nat, b: nat)
    requires d > 0
    decreases b
  {
    b == 0 || (NoneOf32Divides(n, d) && NoOddDivisor(n, d + 64, b - 1))
  }

  lemma EightCovered(n: nat, d: nat, k: nat)
    requires d > 0 && k < 8 && NoneOfEightDivides(n, d)
    ensures n % (d + 2 * k) != 0
  {
    match k { case 0 => case 1 => case 2 => case 3 => case 4 => case 5 => case 6 => case 7 => }
  }

  lemma ThirtyTwoCovered(n: nat, d: nat, k: nat)
    requires d > 0 && k < 32 && NoneOf32Divides(n, d)
    ensures n % (d + 2 * k) != 0
  {
    if k < 8 {
      EightCovered(n, d, k);
    } else if k < 16 {
      EightCovered(n, d + 16, k - 8);
    } else if k < 24 {
      EightCovered(n, d + 32, k - 16);
    } else {
      EightCovered(n, d + 48, k - 24);
    }
  }

  lemma {:induction false} TrialDivisionCovers(n: nat, d: nat, b: nat, k: nat)
    requires d > 0 && k < 32 * b && NoOddDivisor(n, d, b)
    ensures n % (d + 2 * k) != 0
    decreases b
  {
    if k < 32 {
      ThirtyTwoCovered(n, d, k);
    } else {
      TrialDivisionCovers(n, d + 64, b - 1, k - 32);
    }
  }

  /** An odd number below r*r that no odd number from 3 to r - 2 divides is prime. */
  lemma {:induction false} TrialDivisionProves(n: nat, b: nat, r: nat)
    requires n >= 3 && n % 2 == 1 && r == 3 + 64 * b && n < r * r
    requires NoOddDivisor(n, 3, b)
    ensures IsOddPrime(n)
  {
    if !IsPrime(n) {
      var q := SmallPrimeFactor(n);
      FactorBelowRoot(n, q, r);
      DivisorOfOddIsOdd(n, q);
      OddFactorCovered(n, b, q);
    }
  }

  lemma OddFactorCovered(n: nat, b: nat, q: nat)
    requires NoOddDivisor(n, 3, b) && q % 2 == 1 && 3 <= q < 3 + 64 * b
    ensures n % q != 0
  {
    var k := (q - 3) / 2;
    assert q == 3 + 2 * k;
    TrialDivisionCovers(n, 3, b, k);
  }

  lemma FactorBelowRoot(n: nat, q: nat, r: nat)
    requires q * q <= n < r * r
    ensures q < r
  {
    if q >= r {
      SquareAtMost(r, q);
    }
  }

  lemma {:induction false} SmallKnownPrimes()
    ensures IsOddPrime(3) && IsOddPrime(7) && IsOddPrime(47) && IsOddPrime(457) && IsOddPrime(2207)
  {
    TrialDivisionProves(3, 0, 3);
    TrialDivisionProves(7, 0, 3);
    PrimeFactorsBelow7(47);
    TrialDivisionProves(457, 1, 67);
    TrialDivisionProves(2207, 1, 67);
  }

  lemma PrimeFactorsBelow7(n: nat)
    requires 9 <= n < 49 && n % 2 == 1 && n % 3 != 0 && n % 5 != 0
    ensures IsOddPrime(n)
  {
    if !IsPrime(n) {
      var q := SmallPrimeFactor(n);
      DivisorOfOddIsOdd(n, q);
      if q >= 7 {
        SquareAtMost(7, q);
        assert false;
      }
    }
  }

  lemma {:induction false} Prime92683()
    ensures IsOddPrime(92683)
  {
    assert NoOddDivisor(92683, 195, 2);
    TrialDivisionProves(92683, 5, 323);
  }

  lemma {:induction false} NoLargeDivisor203897()
    ensures NoOddDivisor(203897, 259, 4)
  {
    assert NoOddDivisor(203897, 387, 2);
  }

  lemma {:induction false} Prime203897()
    ensures IsOddPrime(203897)
  {
    NoLargeDivisor203897();
    assert NoOddDivisor(203897, 131, 6);
    TrialDivisionProves(203897, 8, 515);
  }
}
