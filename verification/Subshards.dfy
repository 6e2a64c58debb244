/**
 * How a cycle is cut into subshards: each takes a cyclic range of exponents of the generator,
 * shifted by a random offset.
 */
module Subshards {
  import opened Arith
  import opened ModPower

  /** A walk through the powers of g modulo p, q = p - 1 of them, cut into s subshards. */
  datatype Cut = Cut(g: nat, p: nat, offset: nat, s: nat)

  ghost predicate Sound(c: Cut) {
    PrimitiveRoot(c.g, c.p) && 0 < c.s <= c.p - 1
  }

  /** Any positive number of subshards, also more than there are exponents. */
  ghost predicate Rooted(c: Cut) {
    PrimitiveRoot(c.g, c.p) && c.p > 1 && c.s > 0
  }

  function Order(c: Cut): nat
    requires c.p > 0
  {
    c.p - 1
  }

  /** Exponents per subshard, rounded down. */
  function Share(c: Cut): nat
    requires c.p > 0 && c.s > 0
  {
    Order(c) / c.s
  }

  /** The first exponent of subshard i. */
  function Begin(c: Cut, i: nat): nat
    requires c.p > 1 && c.s > 0
  {
    Mod(Times(Share(c), i) + c.offset, Order(c))
  }

  /** The exponent subshard i stops before: the beginning of the next, the last wrapping to the first. */
  function End(c: Cut, i: nat): nat
    requires c.p > 1 && c.s > 0
  {
    Mod(Times(Share(c), Mod(i + 1, c.s)) + c.offset, Order(c))
  }

  /** Steps from exponent b forward to exponent e. */
  function Dist(q: nat, b: nat, e: nat): nat
    requires b < q && e < q
  {
    if b <= e then e - b else e - b + q
  }

  /** Exponents a walk from b visits before it is back at e; the whole circle when b == e. */
  function Span(q: nat, b: nat, e: nat): nat
    requires b < q && e < q
  {
    if b == e then q else Dist(q, b, e)
  }

  function Length(c: Cut, i: nat): nat
    requires c.p > 1 && c.s > 0
  {
    Span(Order(c), Begin(c, i), End(c, i))
  }

  /** Subshard i visits exponent e. */
  predicate Covers(c: Cut, i: nat, e: nat)
    requires c.p > 1 && c.s > 0 && e < Order(c)
  {
    Dist(Order(c), Begin(c, i), e) < Length(c, i)
  }

  /** The exponent counted from the random offset. */
  function FromOffset(c: Cut, e: nat): nat
    requires c.p > 1 && e < Order(c)
  {
    Dist(Order(c), Mod(c.offset, Order(c)), e)
  }

  lemma ShareBounds(c: Cut)
    requires c.p > 1 && 0 < c.s <= Order(c)
    ensures Share(c) > 0
    ensures Order(c) == Times(Share(c), c.s) + Mod(Order(c), c.s)
  {
    var q, s := Order(c), c.s;
    assert q == (q / s) * s + q % s;
    if q / s == 0 { DivModUnique(q, s, 0, q); }
  }

  /** Counted from the offset, every subshard but the last takes one share; the last one also the remainder. */
  lemma CoversIff(c: Cut, i: nat, e: nat)
    requires c.p > 1 && 0 < c.s <= Order(c) && i < c.s && e < Order(c)
    ensures Covers(c, i, e) <==>
              Times(Share(c), i) <= FromOffset(c, e) && (i == c.s - 1 || FromOffset(c, e) < Times(Share(c), i + 1))
  {
    hide Mod, Times, Share;
    var q, f := Order(c), Share(c);
    ShareBounds(c);
    TimesMono(f, i + 1, c.s);
    TimesStep(f, i);
    ModShift(Times(f, i), c.offset, q);
    if i + 1 < c.s {
      ModSmall(i + 1, c.s);
      TimesMono(f, i + 2, c.s);
      TimesStep(f, i + 1);
      ModShift(Times(f, i + 1), c.offset, q);
    } else {
      ModFull(c.s);
      TimesStep(f, 0);
      ModShift(0, c.offset, q);
    }
  }

  lemma ModFull(n: nat)
    requires n > 0
    ensures Mod(n, n) == 0
  {
  }

  /** Every exponent belongs to exactly one subshard, for every offset and every 1 <= s <= q. */
  lemma Partition(c: Cut, e: nat) returns (i: nat)
    requires c.p > 1 && 0 < c.s <= Order(c) && e < Order(c)
    ensures i < c.s && Covers(c, i, e)
    ensures forall j: nat :: j < c.s && Covers(c, j, e) ==> j == i
  {
    hide Mod, Times, Share, Covers;
    i := Home(c, e, c.s - 1);
    CoversIff(c, i, e);
    forall j: nat | j < c.s && Covers(c, j, e) ensures j == i {
      CoversIff(c, j, e);
      if j < i { TimesMono(Share(c), j + 1, i); }
      if i < j { TimesMono(Share(c), i + 1, j); }
    }
  }

  /** The last share, at most number n, beginning at or before the exponent. */
  lemma {:induction false} Home(c: Cut, e: nat, n: nat) returns (i: nat)
    requires c.p > 1 && 0 < c.s <= Order(c) && e < Order(c)
    ensures i <= n && Times(Share(c), i) <= FromOffset(c, e)
    ensures i == n || FromOffset(c, e) < Times(Share(c), i + 1)
  {
    hide Mod, Times, Share;
    if n == 0 || Times(Share(c), n) <= FromOffset(c, e) {
      TimesStep(Share(c), 0);
      i := n;
    } else {
      i := Home(c, e, n - 1);
    }
  }

  /** With more subshards than exponents the share is 0, and each of them takes the whole turn. */
  lemma MoreThanOrder(c: Cut, i: nat, e: nat)
    requires c.p > 1 && c.s > Order(c) && e < Order(c)
    ensures Covers(c, i, e)
  {
    hide Mod;
    DivModUnique(Order(c), c.s, 0, Order(c));
    assert Times(0, i) == 0 && Times(0, Mod(i + 1, c.s)) == 0;
  }

  // ----- the callers number the subshards from 1 -----

  /** Subshard number s wraps around: it takes the remainder and the first share. */
  lemma WrappedCovers(c: Cut, e: nat)
    requires c.p > 1 && 0 < c.s <= Order(c) && e < Order(c)
    ensures Covers(c, c.s, e) <==>
              Times(Share(c), c.s) <= FromOffset(c, e) || FromOffset(c, e) < Share(c)
  {
    hide Mod, Times, Share;
    var q, f := Order(c), Share(c);
    ShareBounds(c);
    if c.s > 1 { TimesMono(f, 2, c.s); }
    TimesStep(f, 0);
    TimesStep(f, 1);
    ModShift(Times(f, c.s), c.offset, q);
    ModShift(f, c.offset, q);
    ModMinus(c.s + 1, c.s);
    if c.s == 1 { ModFull(1); } else { ModSmall(1, c.s); }
  }

  /** Exponents visited by two of the subshards 1..s. */
  ghost predicate Twice(c: Cut, e: nat)
    requires c.p > 1 && c.s > 0 && e < Order(c)
  {
    exists i: nat, j: nat :: 1 <= i < j <= c.s && Covers(c, i, e) && Covers(c, j, e)
  }

  /** Numbered from 1, the subshards still cover every exponent, and none more than twice. */
  lemma OneBasedCovers(c: Cut, e: nat) returns (i: nat)
    requires c.p > 1 && 0 < c.s <= Order(c) && e < Order(c)
    ensures 1 <= i <= c.s && Covers(c, i, e)
    ensures forall j: nat :: 1 <= j <= c.s && j != i && Covers(c, j, e) ==> j == c.s
    ensures Twice(c, e) <==> Times(Share(c), c.s) <= FromOffset(c, e)
  {
    hide Mod, Times, Share, Covers;
    var k := Partition(c, e);
    var f := Share(c);
    CoversIff(c, k, e);
    WrappedCovers(c, e);
    TimesStep(f, 0);
    TimesStep(f, c.s - 1);
    TimesMono(f, 1, c.s);
    ShareBounds(c);
    if k == 0 {
      i := c.s;
    } else {
      i := k;
      TimesMono(f, 1, k);
      if Times(f, c.s) <= FromOffset(c, e) {
        assert Covers(c, k, e) && Covers(c, c.s, e);
      }
    }
  }

  ghost function TwiceSet(c: Cut): set<nat>
    requires c.p > 1 && c.s > 0
  {
    set e | e in Below(Order(c)) && Twice(c, e)
  }

  /** They overlap in exactly q mod s exponents. */
  lemma OneBasedOverlap(c: Cut)
    requires c.p > 1 && 0 < c.s <= Order(c)
    ensures |TwiceSet(c)| == Mod(Order(c), c.s)
  {
    hide Mod, Times, Share, Covers, Twice;
    var q, o, m := Order(c), Mod(c.offset, Order(c)), Times(Share(c), c.s);
    ShareBounds(c);
    TailMembers(q, o, m);
    NoDupSize(Tail(q, o, m));
    forall e: nat ensures e in TwiceSet(c) <==> e in Tail(q, o, m) {
      if e < q { var _ := OneBasedCovers(c, e); }
    }
    assert TwiceSet(c) == Elems(Tail(q, o, m));
  }

  function Around(q: nat, o: nat, d: nat): nat
    requires o < q && d < q
  {
    if o + d < q then o + d else o + d - q
  }

  /** The exponents at distance m or more from o. */
  function Tail(q: nat, o: nat, m: nat): seq<nat>
    requires o < q && m <= q
    decreases q - m
  {
    if m == q then [] else [Around(q, o, m)] + Tail(q, o, m + 1)
  }

  lemma {:induction false} TailMembers(q: nat, o: nat, m: nat)
    requires o < q && m <= q
    ensures |Tail(q, o, m)| == q - m && NoDup(Tail(q, o, m))
    ensures forall e: nat :: e in Tail(q, o, m) <==> e < q && Dist(q, o, e) >= m
    decreases q - m
  {
    if m < q {
      TailMembers(q, o, m + 1);
      var t := Tail(q, o, m + 1);
      assert Around(q, o, m) !in t;
      assert forall i :: 0 <= i < |t| ==> Tail(q, o, m)[i + 1] == t[i];
    }
  }
}
