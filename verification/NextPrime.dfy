/** The search for the first prime after the table (make-prime-list, end of `output_primes`). */
module NextPrime {
  import opened WideUint
  import opened OddPrimes
  import opened Binvert
  import opened Sieve

  /** What the search gets from the sieve for a limit below FIRST_WRONG. */
  ghost predicate Table(primes: seq<Prime>, W: nat, limit: int) {
    && 3 <= limit < FIRST_WRONG && W >= 32
    && (forall k :: 0 <= k < |primes| ==> ValidEntry(primes[k], W))
    && ListsOddPrimesBelow(Numbers(primes), limit + 1)
  }

  ghost predicate IsFirstOddPrimeAbove(p: nat, limit: int) {
    IsOddPrime(p) && p > limit && forall q: nat :: IsOddPrime(q) && q > limit ==> q >= p
  }

  lemma LastListed(primes: seq<Prime>, W: nat, limit: int) returns (last: nat)
    requires Table(primes, W, limit)
    ensures |primes| > 0 && last == primes[|primes| - 1].p && IsOddPrime(last) && last <= limit
    ensures forall q: nat :: IsOddPrime(q) && q > last ==> q > limit
  {
    var list := Numbers(primes);
    SmallKnownPrimes();
    assert 3 in list;
    last := list[|list| - 1];
    assert last in list;
  }

  /** There is a prime between any listed prime and its square. */
  lemma PrimeBeforeSquare(last: nat) returns (r: nat)
    requires 3 <= last < FIRST_WRONG
    ensures IsOddPrime(r) && last < r <= FIRST_WRONG && r < last * last
  {
    SmallKnownPrimes();
    Prime203897();
    if last < 7 {
      r := 7;
      SquareAtMost(3, last);
    } else if last < 47 {
      r := 47;
      SquareAtMost(7, last);
    } else if last < 2207 {
      r := 2207;
      SquareAtMost(47, last);
    } else {
      r := FIRST_WRONG;
      SquareAtMost(2207, last);
    }
  }

  /** As long as all earlier squares fit below the candidate, the 32-bit square is exact. */
  lemma SquareDoesNotWrap(primes: seq<Prime>, W: nat, limit: int, i: nat, p: nat)
    requires Table(primes, W, limit) && i < |primes| && p <= FIRST_WRONG
    requires forall j :: 0 <= j < i ==> primes[j].p * primes[j].p <= p
    ensures (primes[i].p * primes[i].p) % TWO_TO_32 == primes[i].p * primes[i].p
  {
    var list := Numbers(primes);
    assert list[i] in list;
    if list[i] < 65536 {
      SmallSquare(list[i]);
    } else {
      SmallKnownPrimes();
      EarlierInList(list, i, 457);
      assert false;
    }
  }

  lemma EarlierInList(list: seq<nat>, i: nat, q: nat)
    requires Increasing(list) && i < |list| && q in list && q < list[i]
    ensures exists k :: 0 <= k < i && list[k] == q
  {
    var k :| 0 <= k < |list| && list[k] == q;
    if k > i { assert false; }
  }

  lemma NoListedDivisorMeansPrime(primes: seq<Prime>, W: nat, limit: int, i: nat, p: nat)
    requires Table(primes, W, limit) && i < |primes| && p >= 3 && p % 2 == 1
    requires primes[i].p * primes[i].p > p
    requires forall j :: 0 <= j < i ==> p % primes[j].p != 0
    ensures IsOddPrime(p)
  {
    var list := Numbers(primes);
    assert list[i] in list;
    if !IsPrime(p) {
      var q := SmallPrimeFactor(p);
      DivisorOfOddIsOdd(p, q);
      FactorBelowRoot(p, q, list[i]);
      EarlierInList(list, i, q);
      assert false;
    }
  }

  /** The inner loop: trial division by the table, each trial one multiplication and one comparison.
      It leaves the loop before running past the table. */
  method IsPrimeByTable(primes: array<Prime>, nprimes: nat, W: nat, p: nat, ghost limit: int, ghost last: nat)
    returns (isPrime: bool)
    requires nprimes <= primes.Length && Table(primes[..nprimes], W, limit)
    requires nprimes > 0 && primes[nprimes - 1].p == last
    requires last < p <= FIRST_WRONG && p % 2 == 1 && p < last * last
    ensures isPrime <==> IsOddPrime(p)
  {
    isPrime := true;
    var i := 0;
    ghost var table := primes[..nprimes];
    Pow2AtLeast32(W);
    while isPrime
      invariant isPrime && i < nprimes
      invariant forall j :: 0 <= j < i ==> table[j].p * table[j].p <= p && p % table[j].p != 0
      decreases nprimes - i
    {
      SquareDoesNotWrap(table, W, limit, i, p);
      assert primes[i] == table[i];
      if (primes[i].p * primes[i].p) % TWO_TO_32 > p {
        NoListedDivisorMeansPrime(table, W, limit, i, p);
        break;
      }
      TestIsDivisibility(p, table[i], W);
      if PassesTest(p, primes[i], W) {
        assert Numbers(table)[i] in Numbers(table);
        isPrime := false;
        break;
      }
      i := i + 1;
    }
  }

  ghost predicate NoOddPrimeBetween(low: nat, high: nat) {
    forall q: nat :: low < q < high ==> !IsOddPrime(q)
  }

  /** The search as it goes on: a prime r lies ahead, and none was passed. */
  ghost predicate Searching(last: nat, p: nat, r: nat) {
    last <= p < r && p % 2 == 1 && IsOddPrime(r) && NoOddPrimeBetween(last, p + 1)
  }

  lemma NextCandidate(last: nat, p: nat, r: nat)
    requires Searching(last, p, r)
    ensures last < p + 2 <= r && (p + 2) % 2 == 1 && NoOddPrimeBetween(last, p + 2)
    ensures !IsOddPrime(p + 2) ==> Searching(last, p + 2, r)
  {}

  /** FIRST_OMITTED_PRIME: the search ends, inside the table, at the smallest odd prime above the limit. */
  method FirstOmittedPrime(primes: array<Prime>, nprimes: nat, W: nat, ghost limit: int) returns (p: nat)
    requires nprimes <= primes.Length && Table(primes[..nprimes], W, limit)
    ensures IsFirstOddPrimeAbove(p, limit)
  {
    ghost var last := LastListed(primes[..nprimes], W, limit);
    ghost var r := PrimeBeforeSquare(last);
    p := primes[nprimes - 1].p;
    var isPrime := false;
    while !isPrime
      invariant r <= FIRST_WRONG && r < last * last
      invariant !isPrime ==> Searching(last, p, r)
      invariant isPrime ==> IsOddPrime(p) && p > last && NoOddPrimeBetween(last, p)
      decreases r - p, !isPrime
    {
      NextCandidate(last, p, r);
      p := p + 2;
      isPrime := IsPrimeByTable(primes, nprimes, W, p, limit, last);
    }
    FirstAboveLimit(p, last, limit);
  }

  lemma FirstAboveLimit(p: nat, last: nat, limit: int)
    requires IsOddPrime(p) && p > last && last <= limit && NoOddPrimeBetween(last, p)
    requires forall q: nat :: IsOddPrime(q) && q > last ==> q > limit
    ensures IsFirstOddPrimeAbove(p, limit)
  {}

  /** The whole program for one argument: nothing for a limit below 3; otherwise the table, and for a
      limit below FIRST_WRONG the first prime after it. */
  method MakePrimeList(limit: int, W: nat, beyond: int)
    returns (printed: bool, primes: array<Prime>, nprimes: nat, firstOmitted: nat)
    requires limit < FIRST_WRONG && W >= 32
    ensures printed <==> limit >= 3
    ensures printed ==> nprimes <= primes.Length && Table(primes[..nprimes], W, limit)
    ensures printed ==> IsFirstOddPrimeAbove(firstOmitted, limit)
  {
    if limit < 3 {
      printed, nprimes, firstOmitted := false, 0, 0;
      primes := new Prime[0];
      return;
    }
    printed := true;
    primes, nprimes := ListPrimes(limit, W, beyond);
    firstOmitted := FirstOmittedPrime(primes, nprimes, W, limit);
  }
}
