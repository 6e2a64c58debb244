/** What it takes to certify a prime with a primitive root: powers by squaring, prime divisors, orders. */
module Certificates {
  import opened Arith
  import opened ModPower
  import opened Cyclic

  // ----- powers, four bits of the exponent at a time -----

  /** Squaring x, and multiplying by g for a one, gives y modulo p, with quotient k. */
  predicate Bit(x: nat, one: bool, k: nat, y: nat, g: nat, p: nat) {
    y < p && (if one then x * x * g == k * p + y else x * x == k * p + y)
  }

  lemma BitStep(g: nat, p: nat, e: nat, x: nat, one: bool, k: nat, y: nat)
    requires p > 1 && PowMod(g, e, p) == x && Bit(x, one, k, y, g, p)
    ensures PowMod(g, 2 * e + (if one then 1 else 0), p) == y
  {
    PowAdd(g, e, e, p);
    if one {
      assert PowMod(g, 2 * e + 1, p) == Mul(g, PowMod(g, 2 * e, p), p);
      MulModRight(g, x * x, p);
      DivModUnique(g * (x * x), p, k, y);
    } else {
      DivModUnique(x * x, p, k, y);
    }
  }

  /** Four bits more of the exponent. */
  lemma Steps(g: nat, p: nat, e: nat, f: nat, x: nat, b3: bool, k3: nat, x3: nat, b2: bool, k2: nat, x2: nat,
              b1: bool, k1: nat, x1: nat, b0: bool, k0: nat, x0: nat)
    requires p > 1 && PowMod(g, e, p) == x
    requires Bit(x, b3, k3, x3, g, p) && Bit(x3, b2, k2, x2, g, p) && Bit(x2, b1, k1, x1, g, p) && Bit(x1, b0, k0, x0, g, p)
    requires f == 16 * e + (if b3 then 8 else 0) + (if b2 then 4 else 0) + (if b1 then 2 else 0) + (if b0 then 1 else 0)
    ensures PowMod(g, f, p) == x0
  {
    hide PowMod, Bit;
    var e3 := 2 * e + (if b3 then 1 else 0);
    var e2 := 2 * e3 + (if b2 then 1 else 0);
    var e1 := 2 * e2 + (if b1 then 1 else 0);
    BitStep(g, p, e, x, b3, k3, x3);
    BitStep(g, p, e3, x3, b2, k2, x2);
    BitStep(g, p, e2, x2, b1, k1, x1);
    BitStep(g, p, e1, x1, b0, k0, x0);
  }

  /** A power of a power. */
  lemma Raise(g: nat, e: nat, a: nat, k: nat, f: nat, b: nat, p: nat)
    requires p > 1 && PowMod(g, e, p) == a && PowMod(a, k, p) == b && f == e * k
    ensures PowMod(g, f, p) == b
  {
    hide PowMod;
    PowPow(g, e, k, p);
  }

  lemma Nothing(g: nat, p: nat)
    requires p > 1
    ensures PowMod(g, 0, p) == 1
  {
  }

  // ----- primes -----

  /** Below 13 squared, a number is prime if no other prime up to 11 divides it. */
  lemma SmallPrime(n: nat)
    requires 1 < n < 169 && forall q :: q in [2, 3, 5, 7, 11] && q != n ==> Mod(n, q) != 0
    ensures IsPrime(n)
  {
    assert 2 in [2, 3, 5, 7, 11] && 3 in [2, 3, 5, 7, 11] && 5 in [2, 3, 5, 7, 11] && 7 in [2, 3, 5, 7, 11] && 11 in [2, 3, 5, 7, 11];
    forall d | 1 < d < n ensures Mod(n, d) != 0 {
      if Mod(n, d) == 0 {
        var m := n / d;
        assert n == m * d;
        Divisors(n, d, m);
      }
    }
  }

  lemma Divisors(n: nat, d: nat, m: nat)
    requires n == m * d && 1 < d < n < 169
    ensures exists q :: q in [2, 3, 5, 7, 11] && q != n && Mod(n, q) == 0
  {
    if m <= 1 { MulMono(m, 1, d); }
    if d > 12 && m > 12 { MulMono(13, m, d); MulMono(13, d, 13); }
    SmallDivisor(n, if d <= 12 then d else m, if d <= 12 then m else d);
  }

  /** A divisor up to 12 has a prime divisor up to 11. */
  lemma SmallDivisor(n: nat, c: nat, m: nat)
    requires 2 <= c <= 12 && m >= 2 && n == m * c
    ensures exists q :: q in [2, 3, 5, 7, 11] && q != n && Mod(n, q) == 0
  {
    var q := if c % 2 == 0 then 2 else if c % 3 == 0 then 3 else if c == 5 then 5 else if c == 7 then 7 else 11;
    var k := c / q;
    assert c == k * q && k >= 1;
    assert m * c == (m * k) * q;
    ModOfMultiple(m * k, q);
    MulMono(2, m * k, q) by { MulMono(1, k, m); }
    assert q in [2, 3, 5, 7, 11];
  }

  lemma VerySmallPrimes()
    ensures IsPrime(2) && IsPrime(3) && IsPrime(5) && IsPrime(17) && IsPrime(19) && IsPrime(23)
  {
    hide IsPrime;
    SmallPrime(2);
    SmallPrime(3);
    SmallPrime(5);
    SmallPrime(17);
    SmallPrime(19);
    SmallPrime(23);
  }

  lemma SmallPrimes()
    ensures IsPrime(2) && IsPrime(3) && IsPrime(5) && IsPrime(17) && IsPrime(19) && IsPrime(23)
    ensures IsPrime(59) && IsPrime(79) && IsPrime(103) && IsPrime(131)
  {
    hide IsPrime;
    VerySmallPrimes();
    SmallPrime(59);
    SmallPrime(79);
    SmallPrime(103);
    SmallPrime(131);
  }

  /** A modulus with a primitive root is prime: everything below it has an inverse. */
  lemma RootMakesPrime(g: nat, p: nat)
    requires PrimitiveRoot(g, p)
    ensures IsPrime(p)
  {
    forall d | 1 < d < p ensures Mod(p, d) != 0 {
      var k := PowOnto(g, d, p);
      PowAdd(g, k, p - 1 - k, p);
      NoInverse(d, PowMod(g, p - 1 - k, p), p);
    }
  }

  lemma NoInverse(d: nat, y: nat, p: nat)
    requires 1 < d < p && Mul(d, y, p) == 1
    ensures Mod(p, d) != 0
  {
    if Mod(p, d) == 0 {
      var q, m := (d * y) / p, p / d;
      assert p == m * d;
      assert d * y == q * p + 1;
      assert q * (m * d) == (q * m) * d;
      assert y * d == (q * m) * d + 1;
      DivModUnique(y * d, d, y, 0);
      DivModUnique(y * d, d, q * m, 1);
    }
  }

  // ----- the prime divisors of a product -----

  /** A prime that divides a product divides one of its two factors. */
  lemma EuclidsLemma(q: nat, a: nat, b: nat)
    requires IsPrime(q) && a > 0 && a * b >= 0 && Mod(a * b, q) == 0
    ensures Mod(a, q) == 0 || Mod(b, q) == 0
  {
    hide Mod;
    GcdDivides(a, q);
    var d := Gcd(a, q);
    if d == 1 {
      CoprimeCancels(a, q, b, a * b);
    } else {
      DivisorAtMost(q, d);
    }
  }

  lemma DivisorAtMost(n: nat, d: nat)
    requires n > 0 && d > 0 && Mod(n, d) == 0
    ensures d <= n
  {
    if d > n { ModSmall(n, d); }
  }

  /** Every prime divisor of n is in the list. */
  ghost predicate Supports(n: nat, factors: seq<nat>) {
    n > 0 && forall q :: IsPrime(q) && Mod(n, q) == 0 ==> q in factors
  }

  lemma SupportsPrime(n: nat, factors: seq<nat>)
    requires IsPrime(n) && n in factors
    ensures Supports(n, factors)
  {
    forall q | IsPrime(q) && Mod(n, q) == 0 ensures q == n { DivisorAtMost(n, q); }
  }

  lemma SupportsTimes(a: nat, b: nat, n: nat, factors: seq<nat>)
    requires Supports(a, factors) && Supports(b, factors) && n == a * b
    ensures Supports(n, factors)
  {
    MulMono(1, a, b);
    forall q | IsPrime(q) && Mod(n, q) == 0 ensures q in factors { EuclidsLemma(q, a, b); }
  }

  // ----- the order of an element -----

  function Quot(a: nat, b: nat): nat
    requires b > 0
  {
    a / b
  }

  /** Some power k of g is 1, and no smaller positive one. */
  ghost predicate IsOrder(g: nat, k: nat, p: nat)
    requires p > 1
  {
    k > 0 && PowMod(g, k, p) == 1 && forall j :: 0 < j < k ==> PowMod(g, j, p) != 1
  }

  lemma {:induction false} LeastOne(g: nat, k: nat, p: nat) returns (d: nat)
    requires p > 1 && k > 0 && PowMod(g, k, p) == 1
    ensures d <= k && IsOrder(g, d, p)
    decreases k
  {
    if j :| 0 < j < k && PowMod(g, j, p) == 1 {
      d := LeastOne(g, j, p);
    } else {
      d := k;
    }
  }

  /** The order divides every exponent giving 1. */
  lemma {:induction false} OrderDivides(g: nat, d: nat, n: nat, p: nat)
    requires p > 1 && IsOrder(g, d, p) && PowMod(g, n, p) == 1
    ensures Mod(n, d) == 0
    decreases n
  {
    hide Mul, Mod;
    if n >= d {
      PowAdd(g, d, n - d, p);
      MulOne(PowMod(g, n - d, p), p);
      OrderDivides(g, d, n - d, p);
      ModMinus(n, d);
    } else {
      ModSmall(n, d);
    }
  }

  /**
   * g generates the group when its (p-1)-th power is 1 but no (p-1)/q-th power is, for the
   * primes q dividing p - 1.
   */
  lemma OrderIsFull(g: nat, p: nat, factors: seq<nat>)
    requires p > 2 && PowMod(g, p - 1, p) == 1
    requires forall q :: IsPrime(q) && Mod(p - 1, q) == 0 ==> q in factors
    requires forall i :: 0 <= i < |factors| ==> factors[i] > 0 && PowMod(g, Quot(p - 1, factors[i]), p) != 1
    ensures PrimitiveRoot(g, p)
  {
    hide Quot, Mod, PowMod;
    var n := p - 1;
    var d := LeastOne(g, n, p);
    OrderDivides(g, d, n, p);
    if d < n {
      ProperOrder(g, p, d, factors);
    }
  }

  lemma ProperOrder(g: nat, p: nat, d: nat, factors: seq<nat>)
    requires p > 2 && IsOrder(g, d, p) && d < p - 1 && Mod(p - 1, d) == 0
    requires forall q :: IsPrime(q) && Mod(p - 1, q) == 0 ==> q in factors
    ensures exists i :: 0 <= i < |factors| && factors[i] > 0 && PowMod(g, Quot(p - 1, factors[i]), p) == 1
  {
    hide Quot, Mod, PowMod;
    var q, k := ProperFactor(p - 1, d);
    PowPow(g, d, k, p);
    PowOfOne(k, p);
    var i :| 0 <= i < |factors| && factors[i] == q;
  }

  /** A proper divisor d of n divides n / q for some prime q dividing n. */
  lemma ProperFactor(n: nat, d: nat) returns (q: nat, k: nat)
    requires 0 < d < n && Mod(n, d) == 0
    ensures IsPrime(q) && Mod(n, q) == 0 && Quot(n, q) == d * k
  {
    var m := n / d;
    assert n == m * d;
    if m < 2 { MulMono(m, 1, d); }
    q := PrimeDivisor(m);
    k := m / q;
    assert m == k * q;
    assert n == (d * k) * q by { assert (k * q) * d == (d * k) * q; }
    ModOfMultiple(d * k, q);
  }

  lemma QuotIs(n: nat, q: nat, k: nat)
    requires q > 0 && n == k * q
    ensures Quot(n, q) == k && Mod(n, q) == 0
  {
    ModOfMultiple(k, q);
    DivModUnique(n, q, k, 0);
  }

  /** The listed primes are all that divide p - 1, and no p - 1 over one of them is an exponent giving 1. */
  lemma Certify(g: nat, p: nat, factors: seq<nat>)
    requires p > 2 && Supports(p - 1, factors) && PowMod(g, p - 1, p) == 1
    requires forall i :: 0 <= i < |factors| ==> factors[i] > 0 && PowMod(g, Quot(p - 1, factors[i]), p) != 1
    ensures PrimitiveRoot(g, p)
  {
    OrderIsFull(g, p, factors);
  }

  lemma SoundRow(g: Group)
    requires g.prime > 3 && PrimitiveRoot(g.root, g.prime) && g.factors != [] && Supports(g.prime - 1, g.factors)
    requires forall i :: 0 <= i < |g.factors| ==> g.factors[i] > 1 && Mod(g.prime - 1, g.factors[i]) == 0
    ensures Sound(g)
  {
    hide PrimitiveRoot, Mod;
  }
}
