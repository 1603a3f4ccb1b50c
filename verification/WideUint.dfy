/** Unsigned integers of a fixed width, as C computes with them. */
module WideUint {

  function Pow2(k: nat): (r: nat)
    ensures r >= 1
  {
    if k == 0 then 1 else 2 * Pow2(k - 1)
  }

  const TWO_TO_32: int := 0x1_0000_0000

  /** The value a W-bit unsigned variable holds after being assigned `x`. */
  function Wrap(x: int, W: nat): (r: nat)
    ensures r < Pow2(W)
  {
    x % Pow2(W)
  }

  // ---- products, one fact at a time ----

  lemma Distribute(a: int, b: int, c: int)
    ensures (a + b) * c == a * c + b * c
    ensures (a - b) * c == a * c - b * c
    ensures c * (a + b) == c * a + c * b
    ensures c * (a - b) == c * a - c * b
  {}

  lemma Associate(a: int, b: int, c: int)
    ensures a * (b * c) == (a * b) * c
  {}

  lemma ProductAtLeast(a: int, m: int)
    requires a >= 1 && m >= 1
    ensures a * m >= m && a * m >= a
  {}

  lemma {:induction false} Pow2Adds(j: nat, k: nat)
    ensures Pow2(j + k) == Pow2(j) * Pow2(k)
  {
    if j > 0 {
      Pow2Adds(j - 1, k);
      Associate(2, Pow2(j - 1), Pow2(k));
    }
  }

  lemma {:induction false} SmallPowers()
    ensures Pow2(4) == 0x10 && Pow2(8) == 0x100 && Pow2(12) == 0x1000 && Pow2(16) == 0x10000
    ensures Pow2(20) == 0x100000 && Pow2(24) == 0x1000000 && Pow2(28) == 0x10000000
    ensures Pow2(32) == TWO_TO_32
  {
    Pow2Adds(4, 4);
    Pow2Adds(8, 4);
    Pow2Adds(8, 8);
    Pow2Adds(16, 4);
    Pow2Adds(16, 8);
    Pow2Adds(16, 12);
    Pow2Adds(16, 16);
  }

  // ---- remainders ----

  lemma QuotientUnique(m: int, q: int, r: int, q': int, r': int)
    requires 0 <= r < m && 0 <= r' < m
    requires q * m + r == q' * m + r'
    ensures q == q' && r == r'
  {
    Distribute(q, q', m);
    if q > q' {
      ProductAtLeast(q - q', m);
      assert false;
    } else if q < q' {
      Distribute(q', q, m);
      ProductAtLeast(q' - q, m);
      assert false;
    }
  }

  /** Writing `x` as a multiple of `m` plus something below `m` gives its remainder and quotient. */
  lemma RemainderIs(x: int, m: int, q: int, r: int)
    requires 0 <= r < m && x == q * m + r
    ensures x % m == r && x / m == q
  {
    QuotientUnique(m, q, r, x / m, x % m);
  }

  lemma Division(x: int, m: int) returns (q: int)
    requires m > 0
    ensures x == q * m + x % m && 0 <= x % m < m && q == x / m
  {
    q := x / m;
  }

  lemma MultipleRemainder(q: int, m: int)
    requires m > 0
    ensures (q * m) % m == 0 && (m * q) % m == 0
  {
    RemainderIs(q * m, m, q, 0);
  }

  /** An odd factor can be cancelled from a multiple of a power of two. */
  lemma {:induction false} OddCancels(x: int, m: int, d: int, k: nat) returns (e: int)
    requires x % 2 == 1 && x * m == d * Pow2(k)
    ensures m == e * Pow2(k)
    decreases k
  {
    if k == 0 {
      e := m;
    } else {
      Associate(d, 2, Pow2(k - 1));
      Associate(2, d, Pow2(k - 1));
      ParityOfProduct(x, m);
      var h := m / 2;
      Associate(x, 2, h);
      Associate(2, x, h);
      e := OddCancels(x, h, d, k - 1);
      Associate(e, 2, Pow2(k - 1));
      Associate(2, e, Pow2(k - 1));
    }
  }

  lemma ParityOfProduct(x: int, m: int)
    ensures (x * m) % 2 == 1 <==> x % 2 == 1 && m % 2 == 1
  {
    var u, r := x / 2, x % 2;
    Distribute(2 * u, r, m);
    Associate(2, u, m);
    assert x * m == 2 * (u * m) + r * m;
  }
}
