/** Powers modulo p: the group walked by a scan, its generators and their inverses. */
module ModPower {
  import opened Arith

  /** The product modulo p. */
  function Mul(a: nat, b: nat, p: nat): (r: nat)
    requires p > 0
    ensures r < p
  {
    (a * b) % p
  }

  /** b^e mod p. */
  function PowMod(b: nat, e: nat, p: nat): (r: nat)
    requires p > 0
    ensures r < p
  {
    if e == 0 then (if p == 1 then 0 else 1) else Mul(b, PowMod(b, e - 1, p), p)
  }

  /** b^e. */
  function Power(b: nat, e: nat): nat {
    if e == 0 then 1 else b * Power(b, e - 1)
  }

  /** Reducing after each multiplication leaves the remainder of the power. */
  lemma {:induction false} PowModIsPower(b: nat, e: nat, p: nat)
    requires p > 0
    ensures PowMod(b, e, p) == Power(b, e) % p
  {
    if e > 0 {
      PowModIsPower(b, e - 1, p);
      MulModRight(b, Power(b, e - 1), p);
    } else {
      if p > 1 { DivModUnique(1, p, 0, 1); } else { DivModUnique(1, 1, 1, 0); }
    }
  }

  /** Reducing a factor does not change a product modulo p. */
  lemma MulModRight(a: nat, b: nat, p: nat)
    requires p > 0
    ensures (a * (b % p)) % p == (a * b) % p
  {
    var q, r := b / p, b % p;
    var q', r' := (a * r) / p, (a * r) % p;
    assert a * b == a * (q * p + r) == (a * q) * p + a * r;
    assert a * b == (a * q + q') * p + r';
    DivModUnique(a * b, p, a * q + q', r');
  }

  lemma MulCommutes(a: nat, b: nat, p: nat)
    requires p > 0
    ensures Mul(a, b, p) == Mul(b, a, p)
  {
    assert a * b == b * a;
  }

  lemma MulAssociates(a: nat, b: nat, c: nat, p: nat)
    requires p > 0
    ensures Mul(a, Mul(b, c, p), p) == Mul(Mul(a, b, p), c, p)
  {
    calc {
      Mul(a, Mul(b, c, p), p);
      { MulModRight(a, b * c, p); }
      (a * (b * c)) % p;
      { assert a * (b * c) == c * (a * b); }
      (c * (a * b)) % p;
      { MulModRight(c, a * b, p); }
      Mul(c, Mul(a, b, p), p);
      { MulCommutes(c, Mul(a, b, p), p); }
      Mul(Mul(a, b, p), c, p);
    }
  }

  lemma MulZero(a: nat, p: nat)
    requires p > 0
    ensures Mul(a, 0, p) == 0
  {
  }

  lemma MulOne(a: nat, p: nat)
    requires a < p
    ensures Mul(PowMod(a, 0, p), a, p) == a
  {
  }

  lemma {:induction false} PowAdd(b: nat, i: nat, j: nat, p: nat)
    requires p > 0
    ensures PowMod(b, i + j, p) == Mul(PowMod(b, i, p), PowMod(b, j, p), p)
  {
    hide Mul;
    if i == 0 {
      MulOne(PowMod(b, j, p), p);
      assert PowMod(b, 0, p) == PowMod(PowMod(b, j, p), 0, p);
    } else {
      PowAdd(b, i - 1, j, p);
      MulAssociates(b, PowMod(b, i - 1, p), PowMod(b, j, p), p);
    }
  }

  lemma {:induction false} PowPow(b: nat, i: nat, j: nat, p: nat)
    requires p > 0
    ensures i * j >= 0 && PowMod(PowMod(b, i, p), j, p) == PowMod(b, i * j, p)
  {
    if j == 0 {
      assert i * j == 0;
    } else {
      PowPow(b, i, j - 1, p);
      assert i * j == i + i * (j - 1);
      PowAdd(b, i, i * (j - 1), p);
    }
  }

  lemma {:induction false} PowOfOne(j: nat, p: nat)
    requires p > 1
    ensures PowMod(1, j, p) == 1
  {
    if j > 0 { PowOfOne(j - 1, p); }
  }

  /** g has multiplicative order p - 1 modulo p. */
  ghost predicate PrimitiveRoot(g: nat, p: nat) {
    && p > 2
    && PowMod(g, p - 1, p) == 1
    && forall k :: 0 < k < p - 1 ==> PowMod(g, k, p) != 1
  }

  /** Exponents matter only modulo the order. */
  lemma {:induction false} PowReduce(g: nat, e: nat, p: nat)
    requires PrimitiveRoot(g, p)
    ensures PowMod(g, e, p) == PowMod(g, Mod(e, p - 1), p)
    decreases e
  {
    hide Mul, Mod;
    var n := p - 1;
    if e < n {
      ModSmall(e, n);
    } else {
      PowReduce(g, e - n, p);
      PowAdd(g, n, e - n, p);
      MulOne(PowMod(g, e - n, p), p);
      ModMinus(e, n);
    }
  }

  lemma PowIsOne(g: nat, e: nat, p: nat)
    requires PrimitiveRoot(g, p)
    ensures PowMod(g, e, p) == 1 <==> Mod(e, p - 1) == 0
  {
    hide Mul, Mod;
    PowReduce(g, e, p);
  }

  /** No power is 0: it could be multiplied up to 1. */
  lemma PowNonzero(g: nat, e: nat, p: nat)
    requires PrimitiveRoot(g, p)
    ensures PowMod(g, e, p) != 0
  {
    hide Mul, Mod;
    PowReduce(g, e, p);
    var r := Mod(e, p - 1);
    PowAdd(g, p - 1 - r, r, p);
    var x, y := PowMod(g, p - 1 - r, p), PowMod(g, r, p);
    MulZero(x, p);
  }

  /** Different exponents below the order give different powers. */
  lemma PowInjective(g: nat, i: nat, j: nat, p: nat)
    requires PrimitiveRoot(g, p) && i < p - 1 && j < p - 1
    requires PowMod(g, i, p) == PowMod(g, j, p)
    ensures i == j
  {
    if i < j {
      PowDistinct(g, i, j, p);
    } else if j < i {
      PowDistinct(g, j, i, p);
    }
  }

  lemma PowDistinct(g: nat, i: nat, j: nat, p: nat)
    requires PrimitiveRoot(g, p) && i < j < p - 1
    ensures PowMod(g, i, p) != PowMod(g, j, p)
  {
    PowAdd(g, p - 1 - j, i, p);
    PowAdd(g, p - 1 - j, j, p);
    assert PowMod(g, p - 1 - j + i, p) != 1;
  }

  ghost function Powers(g: nat, p: nat): seq<nat>
    requires p > 1
  {
    seq(p - 1, k requires 0 <= k < p - 1 => PowMod(g, k, p))
  }

  /** The powers of a generator are 1..p-1, each once. */
  lemma PowOnto(g: nat, x: nat, p: nat) returns (k: nat)
    requires PrimitiveRoot(g, p) && 0 < x < p
    ensures k < p - 1 && PowMod(g, k, p) == x
  {
    var s := Powers(g, p);
    forall i, j | 0 <= i < j < |s| ensures s[i] != s[j] { PowDistinct(g, i, j, p); }
    NoDupSize(s);
    var units := Below(p) - {0};
    BelowSize(p);
    forall y | y in Elems(s) ensures y in units {
      var i :| 0 <= i < |s| && s[i] == y;
      PowNonzero(g, i, p);
    }
    SubsetSize(Elems(s), units);
    assert x in Elems(s);
    k :| 0 <= k < |s| && s[k] == x;
  }

  // ----- coprime exponents keep generators generators -----

  function Gcd(a: nat, b: nat): nat
    decreases b
  {
    if b == 0 then a else Gcd(b, a % b)
  }

  lemma {:induction false} GcdDivides(a: nat, b: nat)
    requires a > 0
    ensures Gcd(a, b) > 0 && Mod(a, Gcd(a, b)) == 0 && Mod(b, Gcd(a, b)) == 0
    decreases b
  {
    if b > 0 {
      GcdDivides(b, a % b);
      var q := a / b;
      assert a == q * b + a % b;
      DividesSum(q, b, a % b, Gcd(a, b));
    } else {
      ModOfMultiple(1, a);
    }
  }

  /** A common divisor of b and c divides q*b + c. */
  lemma DividesSum(q: nat, b: nat, c: nat, d: nat)
    requires d > 0 && Mod(b, d) == 0 && Mod(c, d) == 0
    ensures q * b + c >= 0 && Mod(q * b + c, d) == 0
  {
    var x, y := b / d, c / d;
    assert b == x * d && c == y * d;
    assert q * (x * d) == (q * x) * d;
    assert q * b + c == (q * x + y) * d;
    DivModUnique(q * b + c, d, q * x + y, 0);
  }

  /** Bezout's identity for Euclid's gcd. */
  lemma {:induction false} Bezout(a: nat, b: nat) returns (u: int, v: int)
    ensures u * a + v * b == Gcd(a, b)
    decreases b
  {
    if b == 0 {
      u, v := 1, 0;
    } else {
      var u', v' := Bezout(b, a % b);
      var q := a / b;
      u, v := v', u' - v' * q;
      assert a % b == a - q * b;
      assert u' * b + v' * (a - q * b) == v' * a + (u' - v' * q) * b;
    }
  }

  /** If n divides s*k and gcd(s, n) is 1, n divides k. */
  lemma CoprimeCancels(s: nat, n: nat, k: nat, e: nat)
    requires n > 0 && Gcd(s, n) == 1 && e == s * k && Mod(e, n) == 0
    ensures Mod(k, n) == 0
  {
    var u, v := Bezout(s, n);
    var m := e / n;
    assert e == m * n;
    assert k == (u * s + v * n) * k == u * (s * k) + (v * k) * n;
    assert u * (m * n) == (u * m) * n;
    assert k == (u * m + v * k) * n;
    DivModUnique(k, n, u * m + v * k, 0);
  }

  /** A generator raised to an exponent coprime to the order is again a generator. */
  lemma CoprimePowerGenerates(g: nat, s: nat, p: nat)
    requires PrimitiveRoot(g, p) && Gcd(s, p - 1) == 1
    ensures PrimitiveRoot(PowMod(g, s, p), p)
  {
    var h := PowMod(g, s, p);
    assert PowMod(h, p - 1, p) == 1 by {
      PowPow(g, s, p - 1, p);
      ModOfMultiple(s, p - 1);
      PowIsOne(g, s * (p - 1), p);
    }
    forall k | 0 < k < p - 1 ensures PowMod(h, k, p) != 1 {
      PowerNotOne(g, s, k, p);
    }
  }

  lemma PowerNotOne(g: nat, s: nat, k: nat, p: nat)
    requires PrimitiveRoot(g, p) && Gcd(s, p - 1) == 1 && 0 < k < p - 1
    ensures PowMod(PowMod(g, s, p), k, p) != 1
  {
    hide Mul, Mod;
    PowPow(g, s, k, p);
    var e: nat := s * k;
    PowIsOne(g, e, p);
    ModSmall(k, p - 1);
    if Mod(e, p - 1) == 0 { CoprimeCancels(s, p - 1, k, e); }
  }

  // ----- primes -----

  ghost predicate IsPrime(q: nat) {
    q > 1 && forall d :: 1 < d < q ==> Mod(q, d) != 0
  }

  /** Every number above 1 has a prime divisor. */
  lemma {:induction false} PrimeDivisor(n: nat) returns (q: nat)
    requires n > 1
    ensures IsPrime(q) && Mod(n, q) == 0
    decreases n
  {
    if IsPrime(n) {
      q := n;
      ModOfMultiple(1, n);
    } else {
      var d :| 1 < d < n && Mod(n, d) == 0;
      q := PrimeDivisor(d);
      DividesTransitive(q, d, n);
    }
  }

  lemma DividesTransitive(a: nat, b: nat, c: nat)
    requires a > 0 && b > 0 && Mod(b, a) == 0 && Mod(c, b) == 0
    ensures Mod(c, a) == 0
  {
    var x, y := b / a, c / b;
    assert c == y * (x * a) == (y * x) * a;
    ModOfMultiple(y * x, a);
  }

  /** Numbers with no common prime divisor have gcd 1. */
  lemma NoCommonPrime(s: nat, n: nat)
    requires s > 0 && n > 0
    requires forall q :: IsPrime(q) && Mod(n, q) == 0 ==> Mod(s, q) != 0
    ensures Gcd(s, n) == 1
  {
    GcdDivides(s, n);
    var d := Gcd(s, n);
    if d > 1 {
      var q := PrimeDivisor(d);
      DividesTransitive(q, d, s);
      DividesTransitive(q, d, n);
    }
  }
}
