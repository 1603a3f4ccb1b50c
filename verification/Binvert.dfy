/** Inverses modulo a power of two, and divisibility by one multiplication and one comparison
    (make-prime-list, `binvert` and `process_prime`). */
module Binvert {
  import opened WideUint

  /** `x` inverts `a` in the low `k` bits; `c` counts the multiples of 2^k by which a*x exceeds 1. */
  ghost predicate Inverts(a: int, x: int, k: nat, c: int) {
    a * x == 1 + c * Pow2(k)
  }

  function Seed(a: nat): nat {
    0xf5397db1 / Pow2(4 * ((a / 2) % 8))
  }

  /** The low nibble of the seed times the matching odd residue is 1 modulo 16. */
  lemma {:induction false} SeedTable(a: nat)
    requires a % 2 == 1
    ensures Seed(a) < 0x1_0000_0000
    ensures ((a % 16) * (Seed(a) % 16)) % 16 == 1
  {
    SmallPowers();
    var r := (a / 2) % 8;
    assert a % 16 == 2 * r + 1;
    match r {
      case 0 => assert Seed(a) == 0xf5397db1 / 0x1;
      case 1 => assert Seed(a) == 0xf5397db1 / 0x10;
      case 2 => assert Seed(a) == 0xf5397db1 / 0x100;
      case 3 => assert Seed(a) == 0xf5397db1 / 0x1000;
      case 4 => assert Seed(a) == 0xf5397db1 / 0x10000;
      case 5 => assert Seed(a) == 0xf5397db1 / 0x100000;
      case 6 => assert Seed(a) == 0xf5397db1 / 0x1000000;
      case 7 => assert Seed(a) == 0xf5397db1 / 0x10000000;
    }
  }

  lemma ProductModulo16(u: int, p: int, v: int, t: int)
    ensures (16 * u + p) * (16 * v + t) == 16 * (u * (16 * v + t) + p * v) + p * t
  {
    Distribute(16 * u, p, 16 * v + t);
    Associate(16, u, 16 * v + t);
    Distribute(16 * v, t, p);
    Associate(p, 16, v);
    Associate(16, p, v);
  }

  /** The low nibble of the seed inverts every odd `a` modulo 16. */
  lemma SeedInverts(a: nat) returns (c: int)
    requires a % 2 == 1
    ensures Inverts(a, Seed(a), 4, c)
    ensures Seed(a) < 0x1_0000_0000
  {
    SeedTable(a);
    var x := Seed(a);
    var u, p, v, t := a / 16, a % 16, x / 16, x % 16;
    ProductModulo16(u, p, v, t);
    var w, m := u * (16 * v + t) + p * v, p * t;
    c := w + m / 16;
    assert a * x == 16 * w + m;
    SmallPowers();
  }

  lemma NewtonIdentity(a: int, x: int)
    ensures a * (2 * x - x * x * a) == 2 * (a * x) - (a * x) * (a * x)
  {
    Distribute(2 * x, x * x * a, a);
    Associate(2, a, x);
    Associate(a, 2, x);
    assert a * (x * x * a) == (a * x) * (a * x) by {
      Associate(x, x, a);
      Associate(a, x, x * a);
      assert x * a == a * x;
    }
  }

  lemma SquareOfSum(e: int)
    ensures (1 + e) * (1 + e) == 1 + 2 * e + e * e
  {}

  /** One Newton step doubles the number of correct low bits, up to the width. */
  lemma NewtonDoubles(a: int, x: int, k: nat, c: int, W: nat, y: int) returns (k': nat, c': int)
    requires k <= W && Inverts(a, x, k, c)
    requires y == Wrap(2 * x - x * x * a, W)
    ensures k' == (if 2 * k <= W then 2 * k else W)
    ensures Inverts(a, y, k', c')
  {
    var full, P := 2 * x - x * x * a, Pow2(W);
    var d := Division(full, P);
    var e := c * Pow2(k);
    NewtonIdentity(a, x);
    SquareOfSum(e);
    assert a * full == 1 - e * e;
    Distribute(d * P, y, a);
    k' := if 2 * k <= W then 2 * k else W;
    var Q, s, t := Pow2(k'), Pow2(2 * k - k'), Pow2(W - k');
    Pow2Adds(k, k);
    Pow2Adds(k', 2 * k - k');
    Pow2Adds(k', W - k');
    SquareIsMultiple(c, Pow2(k), Q, s);
    ReorderProduct(a, d, Q, t);
    c' := -(c * c * s) - a * d * t;
    Distribute(-(c * c * s), a * d * t, Q);
    Distribute(0, c * c * s, Q);
  }

  lemma SquareIsMultiple(c: int, K: int, Q: int, s: int)
    requires K * K == Q * s
    ensures (c * K) * (c * K) == (c * c * s) * Q
  {
    var square := K * K;
    Associate(c * K, c, K);
    Associate(c, K, c);
    Associate(c, c, K);
    Associate(c * c, K, K);
    assert (c * K) * (c * K) == (c * c) * square by { assert (c * K) * c == (c * c) * K; }
    Associate(c * c, s, Q);
    assert s * Q == Q * s;
  }

  lemma ReorderProduct(a: int, d: int, Q: int, t: int)
    ensures a * (d * (Q * t)) == (a * d * t) * Q
  {
    Associate(a, d, Q * t);
    Associate(a * d, t, Q);
    assert Q * t == t * Q;
  }

  /** A full inverse is a fixed point of the step, so the loop stops. */
  lemma InverseIsFixedPoint(a: int, x: nat, c: int, W: nat)
    requires x < Pow2(W) && Inverts(a, x, W, c)
    ensures Wrap(2 * x - x * x * a, W) == x
  {
    var P := Pow2(W);
    FactorX(a, x);
    Distribute(1, c * P, x);
    Associate(x, c, P);
    assert x * x * a == x + (x * c) * P;
    Distribute(0, x * c, P);
    RemainderIs(2 * x - x * x * a, P, -(x * c), x);
  }

  lemma FactorX(a: int, x: int)
    ensures x * x * a == x * (a * x)
  {
    Associate(x, x, a);
    assert x * a == a * x;
  }

  /** Any odd fixed point of the step is a full inverse, so stopping early is safe. */
  lemma FixedPointIsInverse(a: int, x: nat, W: nat)
    requires x % 2 == 1 && W > 0 && Wrap(2 * x - x * x * a, W) == x
    ensures (a * x) % Pow2(W) == 1
  {
    var P := Pow2(W);
    var full := 2 * x - x * x * a;
    var d := Division(full, P);
    FactorX(a, x);
    Distribute(1, a * x, x);
    assert x * (1 - a * x) == d * P;
    var e := OddCancels(x, 1 - a * x, d, W);
    Distribute(0, e, P);
    assert P == 2 * Pow2(W - 1);
    RemainderIs(a * x, P, -e, 1);
  }

  lemma InverseIsOdd(a: int, x: int, k: nat, c: int)
    requires k > 0 && Inverts(a, x, k, c)
    ensures x % 2 == 1
  {
    Associate(c, 2, Pow2(k - 1));
    Associate(2, c, Pow2(k - 1));
    ParityOfProduct(a, x);
  }

  /** `binvert`: the inverse of an odd number modulo 2^W, for any width of at least 32 bits. */
  method Binvert(a: nat, W: nat) returns (x: nat)
    requires W >= 32 && a % 2 == 1
    ensures x < Pow2(W) && (a * x) % Pow2(W) == 1
  {
    x := Seed(a);
    ghost var k: nat := 4;
    ghost var c := SeedInverts(a);
    Pow2AtLeast32(W);
    while true
      invariant 4 <= k <= W && x < Pow2(W) && Inverts(a, x, k, c)
      decreases W - k
    {
      var y := Wrap(2 * x - x * x * a, W);
      if y == x {
        InverseIsOdd(a, x, k, c);
        FixedPointIsInverse(a, x, W);
        return;
      }
      if k == W {
        InverseIsFixedPoint(a, x, c, W);
        assert false;
      }
      k, c := NewtonDoubles(a, x, k, c, W, y);
      x := y;
    }
  }

  lemma {:induction false} Pow2AtLeast32(W: nat)
    requires W >= 32
    ensures Pow2(W) >= 0x1_0000_0000
  {
    Pow2Adds(32, W - 32);
    SmallPowers();
    ProductAtLeast(Pow2(W - 32), Pow2(32));
  }

  /** A table entry: an odd number, its inverse modulo 2^W, and floor((2^W - 1) / p). */
  datatype Prime = Prime(p: nat, pinv: nat, lim: nat)

  ghost predicate ValidEntry(e: Prime, W: nat) {
    && e.p % 2 == 1
    && e.pinv < Pow2(W) && (e.p * e.pinv) % Pow2(W) == 1
    && e.lim == (Pow2(W) - 1) / e.p
  }

  method ProcessPrime(p: nat, W: nat) returns (info: Prime)
    requires W >= 32 && p % 2 == 1
    ensures info.p == p && ValidEntry(info, W)
  {
    var max := Wrap(-1, W);
    RemainderIs(-1, Pow2(W), -1, Pow2(W) - 1);
    var pinv := Binvert(p, W);
    info := Prime(p, pinv, max / p);
  }

  /** The test of the search loop: one wrapping multiplication and one comparison. */
  predicate PassesTest(n: nat, e: Prime, W: nat) {
    Wrap(n * e.pinv, W) <= e.lim
  }

  /** The multiply-and-compare test is exact divisibility. */
  lemma {:induction false} TestIsDivisibility(n: nat, e: Prime, W: nat)
    requires ValidEntry(e, W) && n < Pow2(W)
    ensures PassesTest(n, e, W) <==> n % e.p == 0
  {
    var P := Pow2(W);
    var t := Division(e.p * e.pinv, P);
    var d := Division(n * e.pinv, P);
    TestOnQuotients(n, e.p, e.pinv, P, t, d, Wrap(n * e.pinv, W), e.lim);
  }

  lemma TestOnQuotients(n: nat, p: nat, pinv: nat, P: nat, t: int, d: int, r: nat, lim: nat)
    requires p > 0 && p * pinv == t * P + 1 && n * pinv == d * P + r
    requires n < P && r < P && lim == (P - 1) / p
    ensures r <= lim <==> n % p == 0
  {
    AtMostQuotient(r, p, P - 1);
    if n % p == 0 {
      DivisibleMeansSmall(n, p, pinv, P, t, d, r);
    } else if r * p < P {
      PassingIsMultiple(n, p, pinv, P, t, d, r);
    }
  }

  lemma DivisibleMeansSmall(n: nat, p: nat, pinv: nat, P: nat, t: int, d: int, r: nat)
    requires p > 0 && p * pinv == t * P + 1 && n * pinv == d * P + r
    requires n < P && r < P && n % p == 0
    ensures r * p < P
  {
    var q := Division(n, p);
    Associate(q, p, pinv);
    Distribute(t * P, 1, q);
    Associate(q, t, P);
    if q > 0 { ProductAtLeast(q, p); }
    QuotientUnique(P, q * t, q, d, r);
  }

  /** r*p and n are congruent modulo P and both below it, so they are equal. */
  lemma PassingIsMultiple(n: nat, p: nat, pinv: nat, P: nat, t: int, d: int, r: nat)
    requires p * pinv == t * P + 1 && n * pinv == d * P + r
    requires p > 0 && n < P && r * p < P
    ensures n % p == 0
  {
    Associate(n, pinv, p);
    assert n * (pinv * p) == n * (t * P + 1) by { assert pinv * p == p * pinv; }
    Distribute(t * P, 1, n);
    Associate(n, t, P);
    Distribute(d * P, r, p);
    Associate(p, d, P);
    QuotientUnique(P, p * d, r * p, n * t, n);
    MultipleRemainder(r, p);
  }

  lemma AtMostQuotient(q: nat, p: nat, m: nat)
    requires p > 0
    ensures q <= m / p <==> q * p <= m
  {
    var t := Division(m, p);
    Distribute(t, q, p);
    Distribute(q, t, p);
    if q > t {
      ProductAtLeast(q - t, p);
    } else if q < t {
      ProductAtLeast(t - q, p);
    }
  }
}
