/** Powers of two, bitwise or on naturals and counting facts shared by the address engine. */
module Arith {

  type u32 = x: nat | x < 0x1_0000_0000
  type u64 = x: nat | x < 0x1_0000_0000_0000_0000

  function Pow2(n: nat): (r: nat)
    ensures r > 0
  {
    if n == 0 then 1 else 2 * Pow2(n - 1)
  }

  lemma {:induction false} Pow2Add(a: nat, b: nat)
    ensures Pow2(a + b) == Pow2(a) * Pow2(b)
  {
    if a > 0 {
      Pow2Add(a - 1, b);
      assert Pow2(a + b) == 2 * Pow2(a - 1 + b);
    }
  }

  /** Bitwise or of two non-negative integers, one bit at a time. */
  function Or(a: nat, b: nat): nat {
    if a == 0 then b
    else if b == 0 then a
    else 2 * Or(a / 2, b / 2) + (if a % 2 == 1 || b % 2 == 1 then 1 else 0)
  }

  /** Or-ing bits in keeps a number at least as large, also in its lowest k bits. */
  lemma {:induction false} OrAtLeast(a: nat, b: nat, k: nat)
    requires a < Pow2(k)
    ensures Or(a, b) >= a && Or(a, b) % Pow2(k) >= a
    decreases k
  {
    if a > 0 && b > 0 {
      var x, bit := Or(a / 2, b / 2), if a % 2 == 1 || b % 2 == 1 then 1 else 0;
      OrAtLeast(a / 2, b / 2, k - 1);
      HalfMod(x, bit, Pow2(k - 1));
      KeepsLow(2 * x + bit, 2 * (x % Pow2(k - 1)) + bit, a);
    } else if b == 0 {
      DivModUnique(a, Pow2(k), 0, a);
    }
  }

  lemma KeepsLow(r: nat, low: nat, a: nat)
    requires r >= a / 2 * 2 + a % 2 && low >= a / 2 * 2 + a % 2
    ensures r >= a && low >= a
  {
  }

  lemma HalfMod(x: nat, bit: nat, m: nat)
    requires m > 0 && bit <= 1
    ensures (2 * x + bit) % (2 * m) == 2 * (x % m) + bit
  {
    var q, r := x / m, x % m;
    assert x == q * m + r;
    assert 2 * x + bit == q * (2 * m) + (2 * r + bit);
    DivModUnique(2 * x + bit, 2 * m, q, 2 * r + bit);
  }

  /** Where the bits from k to w are set already, or-ing keeps the k lowest bits. */
  lemma {:induction false} OrTop(w: nat, k: nat, n: nat)
    requires k <= w && Pow2(k) <= Pow2(w)
    ensures Or(Pow2(w) - Pow2(k), n) % Pow2(w) == Pow2(w) - Pow2(k) + n % Pow2(k)
    decreases k
  {
    var ip := Pow2(w) - Pow2(k);
    if k == 0 {
      OrAtLeast(ip, n, w);
    } else if ip == 0 || n == 0 {
      if n == 0 { DivModUnique(ip, Pow2(w), 0, ip); }
    } else {
      var a, b := Pow2(w - 1), Pow2(k - 1);
      assert Pow2(w) == 2 * a && Pow2(k) == 2 * b;
      OrTop(w - 1, k - 1, n / 2);
      OrEven(a - b, n);
      hide Pow2, Or;
      DoubledTop(a, b, n, Or(a - b, n / 2));
    }
  }

  lemma OrEven(a: nat, n: nat)
    requires a > 0 && n > 0
    ensures Or(2 * a, n) == 2 * Or(a, n / 2) + n % 2
  {
    assert (2 * a) / 2 == a && (2 * a) % 2 == 0;
  }

  lemma DoubledTop(a: nat, b: nat, n: nat, x: nat)
    requires 0 < b <= a && x % a == a - b + n / 2 % b
    ensures (2 * x + n % 2) % (2 * a) == 2 * a - 2 * b + n % (2 * b)
  {
    HalfMod(x, n % 2, a);
    HalfMod(n / 2, n % 2, b);
    assert n == 2 * (n / 2) + n % 2;
  }

  /** Bitwise and of two non-negative integers. */
  function And(a: nat, b: nat): nat {
    if a == 0 || b == 0 then 0
    else 2 * And(a / 2, b / 2) + (if a % 2 == 1 && b % 2 == 1 then 1 else 0)
  }

  /** The k lowest bits of a number. */
  function LowBits(a: nat, k: nat): (r: nat)
    ensures r < Pow2(k)
    decreases k
  {
    if k == 0 then 0 else 2 * LowBits(a / 2, k - 1) + a % 2
  }

  /** A number shifted to the left. */
  function ShiftLeft(a: nat, n: nat): nat {
    if n == 0 then a else 2 * ShiftLeft(a, n - 1)
  }

  lemma {:induction false} LowBitsAll(a: nat, k: nat)
    requires a < Pow2(k)
    ensures LowBits(a, k) == a
    decreases k
  {
    if k > 0 { LowBitsAll(a / 2, k - 1); }
  }

  /** Testing bit j compares the bits from there downwards with its weight. */
  lemma {:induction false} AndBit(a: nat, j: nat)
    ensures And(a, Pow2(j)) != 0 <==> LowBits(a, j + 1) >= Pow2(j)
    ensures LowBits(a, j + 1) == LowBits(a, j) + (if And(a, Pow2(j)) != 0 then Pow2(j) else 0)
    decreases j
  {
    if j == 0 {
      assert Pow2(0) == 1;
      assert LowBits(a, 1) == a % 2;
      assert a > 0 ==> And(a, 1) == 2 * And(a / 2, 0) + a % 2;
    } else if a > 0 {
      AndBit(a / 2, j - 1);
      assert And(a, Pow2(j)) == 2 * And(a / 2, Pow2(j - 1));
    } else {
      LowBitsAll(0, j);
      LowBitsAll(0, j + 1);
    }
  }

  lemma {:induction false} OrBound(a: nat, b: nat, k: nat)
    requires a < Pow2(k) && b < Pow2(k)
    ensures Or(a, b) < Pow2(k)
    decreases k
  {
    if k > 0 && a > 0 && b > 0 { OrBound(a / 2, b / 2, k - 1); }
  }

  /** Or-ing operands whose bits do not overlap is addition. */
  lemma {:induction false} OrDisjoint(a: nat, k: nat, b: nat)
    requires a % Pow2(k) == 0 && b < Pow2(k)
    ensures Or(a, b) == a + b
    decreases k
  {
    if k > 0 && a > 0 && b > 0 {
      var q := a / Pow2(k);
      assert a == q * Pow2(k);
      assert a == 2 * (q * Pow2(k - 1));
      assert a / 2 == q * Pow2(k - 1) && a % 2 == 0;
      ModOfMultiple(q, Pow2(k - 1));
      OrDisjoint(a / 2, k - 1, b / 2);
    }
  }

  lemma ModOfMultiple(q: nat, m: nat)
    requires m > 0
    ensures (q * m) % m == 0 && (q * m) / m == q
  {
    DivModUnique(q * m, m, q, 0);
  }

  /** Quotient and remainder are determined by their defining equation. */
  lemma DivModUnique(a: int, m: int, q: int, r: int)
    requires m > 0 && a == q * m + r && 0 <= r < m
    ensures a / m == q && a % m == r
  {
    var q', r' := a / m, a % m;
    assert a == q' * m + r' && 0 <= r' < m;
    if q > q' { MulMono(q' + 1, q, m); }
    if q < q' { MulMono(q + 1, q', m); }
  }

  /** The remainder as a named function, so that proofs can hide its nonlinear definition. */
  function Mod(a: nat, n: nat): (r: nat)
    requires n > 0
    ensures r < n
  {
    a % n
  }

  lemma ModSmall(a: nat, n: nat)
    requires a < n
    ensures Mod(a, n) == a
  {
  }

  lemma ModMinus(a: nat, n: nat)
    requires 0 < n <= a
    ensures Mod(a - n, n) == Mod(a, n)
  {
    DivModUnique(a - n, n, a / n - 1, a % n);
  }

  lemma ModShift(u: nat, o: nat, n: nat)
    requires n > 0 && u <= n
    ensures Mod(u + o, n) == var x := u + Mod(o, n); if x < n then x else x - n
  {
    var q, r := o / n, o % n;
    if u + r < n {
      DivModUnique(u + o, n, q, u + r);
    } else if u + r < 2 * n {
      DivModUnique(u + o, n, q + 1, u + r - n);
    }
  }

  /** The product as a named function, for the same purpose. */
  function Times(a: nat, b: nat): nat {
    a * b
  }

  lemma TimesStep(a: nat, b: nat)
    ensures Times(a, 0) == 0
    ensures Times(a, b + 1) == Times(a, b) + a
  {
  }

  lemma TimesCommutes(a: nat, b: nat)
    ensures Times(a, b) == Times(b, a)
  {
  }

  lemma {:induction false} TimesMono(a: nat, b: nat, c: nat)
    requires b <= c
    ensures Times(a, b) <= Times(a, c)
    decreases c
  {
    hide Times;
    if b < c {
      TimesMono(a, b, c - 1);
      TimesStep(a, c - 1);
    }
  }

  lemma MulMono(a: int, b: int, m: int)
    requires a <= b && m >= 0
    ensures a * m <= b * m
  {
    assert (b - a) * m >= 0;
    assert b * m - a * m == (b - a) * m;
  }

  /** The naturals below n. */
  function Below(n: nat): (s: set<nat>)
    ensures forall i: nat :: i in s <==> i < n
  {
    if n == 0 then {} else Below(n - 1) + {n - 1}
  }

  lemma {:induction false} BelowSize(n: nat)
    ensures |Below(n)| == n
  {
    if n > 0 { BelowSize(n - 1); }
  }

  lemma SubsetSize<T>(a: set<T>, b: set<T>)
    requires a <= b
    ensures |a| <= |b|
    ensures |a| == |b| ==> a == b
  {
    assert b == a + (b - a);
    assert |b| == |a| + |b - a|;
  }

  lemma Associative<T>(a: seq<T>, b: seq<T>, c: seq<T>)
    ensures a + (b + c) == (a + b) + c
  {
  }

  ghost predicate NoDup<T>(s: seq<T>) {
    forall i, j :: 0 <= i < j < |s| ==> s[i] != s[j]
  }

  ghost function Elems<T>(s: seq<T>): set<T> {
    set x | x in s
  }

  /** A sequence without repetitions has as many elements as positions. */
  lemma {:induction false} NoDupSize<T>(s: seq<T>)
    requires NoDup(s)
    ensures |Elems(s)| == |s|
  {
    if s == [] {
      assert Elems(s) == {};
    } else {
      var t := s[..|s| - 1];
      NoDupSize(t);
      assert s == t + [s[|s| - 1]];
      assert s[|s| - 1] !in t;
      assert Elems(s) == Elems(t) + {s[|s| - 1]};
    }
  }

  // ----- parts put one after the other -----

  function Flatten<T>(parts: seq<seq<T>>): seq<T> {
    if parts == [] then [] else Flatten(parts[..|parts| - 1]) + parts[|parts| - 1]
  }

  ghost predicate InSome<T>(parts: seq<seq<T>>, x: T) {
    exists n :: 0 <= n < |parts| && x in parts[n]
  }

  lemma {:induction false} FlattenMember<T>(parts: seq<seq<T>>, x: T)
    ensures x in Flatten(parts) <==> InSome(parts, x)
  {
    if parts != [] {
      var k, rest := |parts| - 1, parts[..|parts| - 1];
      FlattenMember(rest, x);
      if InSome(rest, x) {
        var n :| 0 <= n < |rest| && x in rest[n];
        assert x in parts[n];
      }
      if n :| 0 <= n < |parts| && x in parts[n] {
        if n < k { assert x in rest[n]; }
      }
    }
  }

  /** No part repeats an element, and no two parts share one. */
  ghost predicate Apart<T(!new)>(parts: seq<seq<T>>) {
    && (forall n :: 0 <= n < |parts| ==> NoDup(parts[n]))
    && forall m, n, x :: 0 <= m < n < |parts| && x in parts[m] ==> x !in parts[n]
  }

  lemma {:induction false} FlattenNoDupIff<T(!new)>(parts: seq<seq<T>>)
    ensures NoDup(Flatten(parts)) <==> Apart(parts)
  {
    hide NoDup;
    if parts == [] {
      EmptyNoDup<T>();
    } else {
      var k, rest := |parts| - 1, parts[..|parts| - 1];
      FlattenNoDupIff(rest);
      NoDupSum(Flatten(rest), parts[k]);
      forall x ensures x in Flatten(rest) <==> InSome(rest, x) { FlattenMember(rest, x); }
      ApartStep(parts);
    }
  }

  lemma EmptyNoDup<T>()
    ensures NoDup<T>([])
  {
  }

  lemma ApartStep<T(!new)>(parts: seq<seq<T>>)
    requires parts != []
    ensures var rest, last := parts[..|parts| - 1], parts[|parts| - 1];
            Apart(parts) <==> Apart(rest) && NoDup(last) && forall x :: InSome(rest, x) ==> x !in last
  {
    hide NoDup;
    var k, rest := |parts| - 1, parts[..|parts| - 1];
    if Apart(parts) {
      forall x | InSome(rest, x) ensures x !in parts[k] {
        var n :| 0 <= n < |rest| && x in rest[n];
        assert x in parts[n];
      }
    }
    if Apart(rest) && NoDup(parts[k]) && forall x :: InSome(rest, x) ==> x !in parts[k] {
      forall m, n, x | 0 <= m < n < |parts| && x in parts[m] ensures x !in parts[n] {
        assert rest[m] == parts[m] && InSome(rest, x);
        if n < k { assert rest[n] == parts[n]; }
      }
      forall n | 0 <= n < |parts| ensures NoDup(parts[n]) { if n < k { assert rest[n] == parts[n]; } }
    }
  }

  lemma NoDupSum<T>(a: seq<T>, b: seq<T>)
    ensures NoDup(a + b) <==> NoDup(a) && NoDup(b) && forall x :: x in a ==> x !in b
  {
    var c := a + b;
    if NoDup(c) {
      forall i, j | 0 <= i < j < |a| ensures a[i] != a[j] { assert c[i] != c[j]; }
      forall i, j | 0 <= i < j < |b| ensures b[i] != b[j] { assert c[|a| + i] != c[|a| + j]; }
      forall x | x in a ensures x !in b {
        var i :| 0 <= i < |a| && a[i] == x;
        forall j | 0 <= j < |b| ensures b[j] != x { assert c[i] != c[|a| + j]; }
      }
    }
    if NoDup(a) && NoDup(b) && forall x :: x in a ==> x !in b {
      forall i, j | 0 <= i < j < |c| ensures c[i] != c[j] {
        if i < |a| <= j { assert a[i] in a && b[j - |a|] in b; }
      }
    }
  }
}
