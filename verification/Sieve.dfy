/** The table of odd primes of make-prime-list: sieve and search for the next prime.
    `sieve[k]` stands for the number 3 + 2*k. Squares are computed in 32 bits. */
module Sieve {
  import opened WideUint
  import opened OddPrimes
  import opened Binvert

  /** The smallest odd prime the sieve wrongly crosses out: 92683 squared, modulo 2^32. */
  const FIRST_WRONG: nat := 203897
  const CULPRIT: nat := 92683

  function Number(k: nat): nat { 3 + 2 * k }

  /** The first cell crossed out for `p`, with the unsigned 32-bit wrap-around of the source. */
  function Start(p: nat): nat {
    CellOf((p * p) % TWO_TO_32)
  }

  function CellOf(r: nat): nat {
    ((r - 3) % TWO_TO_32) / 2
  }

  predicate Hit(p: nat, k: nat)
    requires p > 0
  {
    k >= Start(p) && (k - Start(p)) % p == 0
  }

  /** What crossing out for `q` means when nothing wraps around. */
  ghost predicate Cuts(q: nat, n: nat) {
    q > 0 && q * q <= n && n % q == 0
  }

  ghost predicate CutBy(list: seq<nat>, n: nat) {
    exists q :: q in list && Cuts(q, n)
  }

  // ---- which cells are crossed out ----

  lemma SquareIsOdd(p: nat)
    requires p % 2 == 1
    ensures (p * p) % 2 == 1
  {
    ParityOfProduct(p, p);
  }

  lemma SmallSquare(p: nat)
    requires p < 65536
    ensures (p * p) % TWO_TO_32 == p * p
  {
    SquareAtMost(p, 65535);
    RemainderIs(p * p, TWO_TO_32, 0, p * p);
  }

  lemma {:induction false} StartExact(p: nat)
    requires p % 2 == 1 && 3 <= p < 65536
    ensures 2 * Start(p) == p * p - 3
  {
    SquareIsOdd(p);
    SmallSquare(p);
    SquareAtMost(3, p);
    CellOfOdd((p * p) % TWO_TO_32);
  }

  lemma CellOfOdd(r: nat)
    requires 3 <= r < TWO_TO_32 && r % 2 == 1
    ensures 2 * CellOf(r) == r - 3
  {}

  lemma {:induction false} HitExact(p: nat, k: nat)
    requires p % 2 == 1 && 3 <= p < 65536
    ensures Hit(p, k) <==> Cuts(p, Number(k))
  {
    StartExact(p);
    var start := Start(p);
    if k >= start {
      OddMultiple(p, Number(k), k - start);
    }
  }

  /** Going up from p*p in steps of 2, the multiples of p are p steps apart. */
  lemma {:induction false} OddMultiple(p: nat, n: nat, s: nat)
    requires p % 2 == 1 && n == p * p + 2 * s && n % 2 == 1
    ensures s % p == 0 <==> n % p == 0
  {
    if s % p == 0 {
      var q := Division(s, p);
      Associate(2, q, p);
      Distribute(p, 2 * q, p);
      MultipleRemainder(p + 2 * q, p);
    } else if n % p == 0 {
      var m := Division(n, p);
      HalfMultiple(p, m, s);
      assert false;
    }
  }

  lemma HalfMultiple(p: nat, m: int, s: nat)
    requires p % 2 == 1 && m * p == p * p + 2 * s && (m * p) % 2 == 1
    ensures s % p == 0
  {
    ParityOfProduct(m, p);
    var h := (m - p) / 2;
    assert m == p + 2 * h;
    Distribute(p, 2 * h, p);
    Associate(2, h, p);
    assert s == h * p;
    MultipleRemainder(h, p);
  }

  lemma WrappedSquareIsLarge(p: nat, a: nat, b: nat, m: nat)
    requires a <= p <= b && m * TWO_TO_32 + FIRST_WRONG <= a * a && b * b < (m + 1) * TWO_TO_32
    ensures (p * p) % TWO_TO_32 >= FIRST_WRONG
  {
    SquareAtMost(a, p);
    SquareAtMost(p, b);
    RemainderIs(p * p, TWO_TO_32, m, p * p - m * TWO_TO_32);
  }

  /** Between 2^16 and FIRST_WRONG only two odd numbers have a small wrapped square. */
  lemma WrappedSquares(p: nat)
    requires p % 2 == 1 && 65536 < p < FIRST_WRONG
    ensures p == 65537 || p == 146543 || (p * p) % TWO_TO_32 >= FIRST_WRONG
  {
    if p == 65537 || p == 146543 {
    } else if p <= 92681 {
      WrappedSquareIsLarge(p, 65539, 92681, 1);
    } else if p <= 113511 {
      WrappedSquareIsLarge(p, 92683, 113511, 2);
    } else if p <= 131071 {
      WrappedSquareIsLarge(p, 113513, 131071, 3);
    } else if p <= 146541 {
      WrappedSquareIsLarge(p, 131073, 146541, 4);
    } else if p <= 160529 {
      WrappedSquareIsLarge(p, 146545, 160529, 5);
    } else if p <= 173391 {
      WrappedSquareIsLarge(p, 160531, 173391, 6);
    } else if p <= 185363 {
      WrappedSquareIsLarge(p, 173393, 185363, 7);
    } else if p <= 196607 {
      WrappedSquareIsLarge(p, 185365, 196607, 8);
    } else {
      WrappedSquareIsLarge(p, 196609, 203895, 9);
    }
  }

  lemma OneStepAtMost(t: int, p: nat, s: nat)
    requires t * p == s < 2 * p
    ensures t == 0 || t == 1
  {
    if t >= 2 {
      Distribute(t, 2, p);
      if t > 2 { ProductAtLeast(t - 2, p); }
    } else if t < 0 {
      Distribute(0, -t, p);
      if p > 0 { ProductAtLeast(-t, p); }
    }
  }

  /** A cell hit from the start for `r` and below FIRST_WRONG is at most one step away. */
  lemma StepsFromStart(r: nat, p: nat, k: nat) returns (t: int)
    requires r < TWO_TO_32 && r % 2 == 1
    requires 65536 < p && Number(k) < FIRST_WRONG && CellOf(r) <= k && (k - CellOf(r)) % p == 0
    ensures (t == 0 || t == 1) && Number(k) == r + 2 * (t * p)
  {
    assert r >= 3;
    CellOfOdd(r);
    t := Division(k - CellOf(r), p);
    OneStepAtMost(t, p, k - CellOf(r));
  }

  /** Above 2^16 the wrapped start reaches one later cell below FIRST_WRONG, and 3 divides it. */
  lemma {:induction false} HitAfterWrap(p: nat, k: nat)
    requires p % 2 == 1 && 65536 < p < Number(k) < FIRST_WRONG && Hit(p, k)
    ensures Number(k) == 131073
  {
    SquareIsOdd(p);
    var t := StepsFromStart((p * p) % TWO_TO_32, p, k);
    assert t * p == if t == 0 then 0 else p;
    WrappedSquares(p);
  }

  method CrossOut(sieve: array<int>, size: nat, p: nat)
    requires size <= sieve.Length && p > 0
    modifies sieve
    ensures forall k :: size <= k < sieve.Length ==> sieve[k] == old(sieve[k])
    ensures forall k :: 0 <= k < size ==> sieve[k] == if Hit(p, k) then 0 else old(sieve[k])
  {
    var start := Start(p);
    var j := start;
    ghost var t := 0;
    while j < size
      invariant j == start + t * p && t >= 0 && start <= j
      invariant forall k :: (k >= j || k >= size) && k < sieve.Length ==> sieve[k] == old(sieve[k])
      invariant forall k :: 0 <= k < j && k < size ==> sieve[k] == if Hit(p, k) then 0 else old(sieve[k])
    {
      sieve[j] := 0;
      Distribute(t, 1, p);
      forall k | j <= k < j + p
        ensures Hit(p, k) <==> k == j
      {
        RemainderIs(k - start, p, t, k - j);
      }
      j, t := j + p, t + 1;
    }
  }

  // ---- one round of the main loop ----

  /** Every cell from `i` on says whether a listed prime cuts its number. */
  ghost predicate CellsTell(cells: seq<int>, size: nat, i: nat, list: seq<nat>) {
    size <= |cells| &&
    forall k {:trigger cells[k]} :: i <= k < size && Number(k) < FIRST_WRONG ==> (cells[k] == 0 <==> CutBy(list, Number(k)))
  }

  lemma UncutIsPrime(list: seq<nat>, n: nat)
    requires n >= 3 && n % 2 == 1 && ListsOddPrimesBelow(list, n) && !CutBy(list, n)
    ensures IsOddPrime(n)
  {
    if !IsPrime(n) {
      var q := SmallPrimeFactor(n);
      DivisorOfOddIsOdd(n, q);
      assert Cuts(q, n);
      assert false;
    }
  }

  lemma CutIsComposite(list: seq<nat>, n: nat, bound: nat)
    requires n >= 2 && ListsOddPrimesBelow(list, bound) && CutBy(list, n)
    ensures !IsPrime(n)
  {
    var q :| q in list && Cuts(q, n);
    assert q >= 2;
    ProductAtLeast(q, q);
    SquareAtMost(2, q);
    if q == n { ProductAtLeast(q - 1, q); Distribute(q, 1, q); assert false; }
  }

  lemma AppendPrime(list: seq<nat>, p: nat)
    requires ListsOddPrimesBelow(list, p) && IsOddPrime(p)
    ensures ListsOddPrimesBelow(list + [p], p + 2)
  {
    var longer := list + [p];
    forall n: nat
      ensures n in longer <==> IsOddPrime(n) && n < p + 2
    {
      assert n in longer <==> n in list || n == p;
    }
    forall i, j | 0 <= i < j < |longer|
      ensures longer[i] < longer[j]
    {
      assert list[i] in list;
    }
  }

  lemma CrossedOutCell(cells: seq<int>, size: nat, i: nat, list: seq<nat>, p: nat, k: nat)
    requires p == Number(i) && i < k < size && Number(k) < FIRST_WRONG
    requires CellsTell(cells, size, i, list)
    requires ListsOddPrimesBelow(list + [p], p + 2)
    ensures (if Hit(p, k) then 0 else cells[k]) == 0 <==> CutBy(list + [p], Number(k))
  {
    var n := Number(k);
    assert p in list + [p];
    assert forall q :: q in list + [p] <==> q in list || q == p;
    if p < 65536 {
      HitExact(p, k);
      assert Hit(p, k) <==> Cuts(p, n);
    } else {
      SquareAtMost(65536, p);
      assert !Cuts(p, n);
      if Hit(p, k) {
        HitAfterWrap(p, k);
        SmallKnownPrimes();
        assert 3 in list + [p];
        assert Cuts(3, n);
      }
    }
  }

  /** Crossing out for `p` keeps the cells truthful. */
  lemma RoundKeepsCells(before: seq<int>, after: seq<int>, size: nat, i: nat, list: seq<nat>, p: nat)
    requires i < size <= |before| == |after| && p == Number(i)
    requires CellsTell(before, size, i, list)
    requires ListsOddPrimesBelow(list + [p], p + 2)
    requires forall k :: 0 <= k < size ==> after[k] == if Hit(p, k) then 0 else before[k]
    ensures CellsTell(after, size, i + 1, list + [p])
  {
    forall k {:trigger after[k]} | i + 1 <= k < size && Number(k) < FIRST_WRONG
      ensures after[k] == 0 <==> CutBy(list + [p], Number(k))
    {
      CrossedOutCell(before, size, i, list, p, k);
    }
  }

  /** Skipping zero cells skips only composite numbers. */
  lemma SkippedIsComposite(cells: seq<int>, size: nat, i: nat, next: nat, list: seq<nat>, n: nat)
    requires CellsTell(cells, size, i + 1, list) && i < next <= size
    requires forall k :: i < k < next ==> cells[k] == 0
    requires ListsOddPrimesBelow(list, Number(i) + 2)
    requires Number(i) + 2 <= n < Number(next) && n < FIRST_WRONG && n % 2 == 1
    ensures !IsPrime(n)
  {
    var k := (n - 3) / 2;
    assert cells[k] == 0;
    CutIsComposite(list, n, Number(i) + 2);
  }

  lemma SkipKeepsList(cells: seq<int>, size: nat, i: nat, next: nat, list: seq<nat>)
    requires CellsTell(cells, size, i + 1, list) && i < next <= size
    requires forall k :: i < k < next ==> cells[k] == 0
    requires ListsOddPrimesBelow(list, Number(i) + 2) && Number(next) <= FIRST_WRONG
    ensures ListsOddPrimesBelow(list, Number(next))
  {
    forall n: nat | Number(i) + 2 <= n < Number(next) && n % 2 == 1
      ensures !IsOddPrime(n)
    {
      SkippedIsComposite(cells, size, i, next, list, n);
    }
  }

  // ---- where the wrap-around first does harm ----

  lemma CulpritHitsFirstWrong()
    ensures Hit(CULPRIT, (FIRST_WRONG - 3) / 2)
  {
    assert CULPRIT * CULPRIT == 2 * TWO_TO_32 + FIRST_WRONG;
    RemainderIs(CULPRIT * CULPRIT, TWO_TO_32, 2, FIRST_WRONG);
    assert Start(CULPRIT) == (FIRST_WRONG - 3) / 2;
  }

  /** The main loop stops at the prime CULPRIT; it does not skip it. */
  lemma CulpritNotSkipped(cells: seq<int>, size: nat, i: nat, next: nat, list: seq<nat>)
    requires CellsTell(cells, size, i + 1, list) && i < next <= size
    requires forall k :: i < k < next ==> cells[k] == 0
    requires ListsOddPrimesBelow(list, Number(i) + 2) && Number(i) < CULPRIT
    ensures Number(next) <= CULPRIT
  {
    if CULPRIT < Number(next) {
      SkippedIsComposite(cells, size, i, next, list, CULPRIT);
      Prime92683();
    }
  }

  // ---- the main loop ----

  function Numbers(primes: seq<Prime>): (r: seq<nat>)
    ensures |r| == |primes| && forall i :: 0 <= i < |r| ==> r[i] == primes[i].p
  {
    seq(|primes|, i requires 0 <= i < |primes| => primes[i].p)
  }

  /** The largest odd number that is at most `limit`. */
  function OddLimit(limit: int): int {
    if limit % 2 == 0 then limit - 1 else limit
  }

  ghost const WRONG_CELL: nat := (FIRST_WRONG - 3) / 2

  /** What holds of the list and the cells whenever the main loop is about to look at cell `i`. */
  ghost predicate RoundInvariant(cells: seq<int>, size: nat, i: nat, list: seq<nat>) {
    && size <= |cells|
    && (Number(i) <= FIRST_WRONG ==> ListsOddPrimesBelow(list, Number(i)) && CellsTell(cells, size, i, list))
    && (i < size ==> i == 0 || cells[i] != 0)
    && (WRONG_CELL < size && CULPRIT < Number(i) ==> cells[WRONG_CELL] == 0)
    && FIRST_WRONG !in list
  }

  lemma HeadIsOddPrime(cells: seq<int>, size: nat, i: nat, list: seq<nat>)
    requires RoundInvariant(cells, size, i, list) && i < size && Number(i) < FIRST_WRONG
    ensures IsOddPrime(Number(i))
  {
    if i == 0 {
      SmallKnownPrimes();
    } else {
      UncutIsPrime(list, Number(i));
    }
  }

  lemma RoundStep(before: seq<int>, after: seq<int>, size: nat, i: nat, next: nat, list: seq<nat>)
    requires RoundInvariant(before, size, i, list) && i < next <= size <= |after| == |before|
    requires forall k :: 0 <= k < size ==> after[k] == if Hit(Number(i), k) then 0 else before[k]
    requires forall k :: i < k < next ==> after[k] == 0
    requires next < size ==> after[next] != 0
    ensures RoundInvariant(after, size, next, list + [Number(i)])
  {
    var p := Number(i);
    var longer := list + [p];
    if p < FIRST_WRONG {
      HeadIsOddPrime(before, size, i, list);
      AppendPrime(list, p);
      RoundKeepsCells(before, after, size, i, list, p);
      if Number(next) <= FIRST_WRONG {
        SkipKeepsList(after, size, i, next, longer);
      }
      if WRONG_CELL < size && CULPRIT < Number(next) && p <= CULPRIT {
        if p < CULPRIT { CulpritNotSkipped(after, size, i, next, longer); }
        CulpritHitsFirstWrong();
      }
    }
    assert p == FIRST_WRONG ==> i == WRONG_CELL;
  }

  lemma {:induction false} FinalList(list: seq<nat>, limit: int, size: nat, cells: seq<int>)
    requires limit >= 3 && size == (OddLimit(limit) - 1) / 2
    requires RoundInvariant(cells, size, size, list)
    ensures ListsOddPrimesBelow(list, limit + 1) <==> limit < FIRST_WRONG
  {
    if limit < FIRST_WRONG {
      assert Number(size) == OddLimit(limit) + 2;
      assert forall n: nat :: IsOddPrime(n) ==> (n < Number(size) <==> n < limit + 1);
    } else {
      Prime203897();
    }
  }

  /** The first cell after `i` that is not crossed out, or `size`; the cell at `size` may be looked at. */
  method SkipCrossedOut(sieve: array<int>, size: nat, i: nat) returns (next: nat)
    requires i < size < sieve.Length
    ensures i < next <= size
    ensures forall k :: i < k < next ==> sieve[k] == 0
    ensures next < size ==> sieve[next] != 0
  {
    next := i;
    while next < size
      invariant i <= next <= size
      invariant forall k :: i < k <= next && k < size ==> sieve[k] == 0
    {
      next := next + 1;
      if sieve[next] != 0 { break; }
    }
  }

  /** The sieve of `main`. The table lists exactly the odd primes up to `limit` if and only if
      `limit` is below 203897; `beyond` is whatever lies in the cell after the last one. */
  method ListPrimes(limit: int, W: nat, beyond: int) returns (primeList: array<Prime>, nprimes: nat)
    requires 3 <= limit < 0x8000_0000 && W >= 32
    ensures nprimes <= primeList.Length
    ensures forall k :: 0 <= k < nprimes ==> ValidEntry(primeList[k], W)
    ensures ListsOddPrimesBelow(Numbers(primeList[..nprimes]), limit + 1) <==> limit < FIRST_WRONG
  {
    var odd := OddLimit(limit);
    var size := (odd - 1) / 2;
    var sieve := new int[size + 1](k => if k < size then 1 else beyond);
    primeList := new Prime[size](_ => Prime(0, 0, 0));
    nprimes := 0;
    var i := 0;
    ghost var list: seq<nat> := [];
    assert CellsTell(sieve[..], size, 0, list);
    while i < size
      invariant 0 <= nprimes <= i <= size && |list| == nprimes
      invariant forall k :: 0 <= k < nprimes ==> ValidEntry(primeList[k], W) && primeList[k].p == list[k]
      invariant RoundInvariant(sieve[..], size, i, list)
      decreases size - i
    {
      var p := 3 + 2 * i;
      ghost var before := sieve[..];
      var info := ProcessPrime(p, W);
      primeList[nprimes] := info;
      nprimes := nprimes + 1;
      CrossOut(sieve, size, p);
      var next := SkipCrossedOut(sieve, size, i);
      RoundStep(before, sieve[..], size, i, next, list);
      i, list := next, list + [p];
    }
    FinalList(list, limit, size, sieve[..]);
    assert Numbers(primeList[..nprimes]) == list;
  }
}
