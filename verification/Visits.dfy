/** The group elements a walk through consecutive exponents hands out. */
module Visits {
  import opened Arith
  import opened ModPower
  import opened Subshards

  /** The element is the number, counted from 1, of one of the first m addresses. */
  predicate Valid(m: nat, x: nat) {
    0 < x <= m
  }

  /** The valid elements at the n exponents from b on, in order. */
  function Emits(g: nat, p: nat, m: nat, b: nat, n: nat): seq<nat>
    requires p > 0
    decreases n
  {
    if n == 0 then []
    else
      var x := PowMod(g, b, p);
      (if Valid(m, x) then [x] else []) + Emits(g, p, m, b + 1, n - 1)
  }

  predicate At(g: nat, p: nat, e: nat, x: nat)
    requires p > 0
  {
    PowMod(g, e, p) == x
  }

  /** The element is the power at one of the n exponents from b on. */
  ghost predicate Reaches(g: nat, p: nat, b: nat, n: nat, x: nat)
    requires p > 0
  {
    exists e: nat :: b <= e < b + n && At(g, p, e, x)
  }

  lemma {:induction false} EmitsMembers(g: nat, p: nat, m: nat, b: nat, n: nat, x: nat)
    requires p > 0
    ensures x in Emits(g, p, m, b, n) <==> Valid(m, x) && Reaches(g, p, b, n, x)
    decreases n
  {
    hide Mul;
    if n > 0 {
      EmitsMembers(g, p, m, b + 1, n - 1, x);
      var y, r := PowMod(g, b, p), Emits(g, p, m, b + 1, n - 1);
      assert x in [y] + r <==> x == y || x in r;
      assert At(g, p, b, y);
      if e: nat :| b <= e < b + n && At(g, p, e, x) {
        assert e == b ==> x == y;
      }
    }
  }

  /** Within one turn of the cycle no element comes twice. */
  lemma {:induction false} EmitsNoDup(g: nat, p: nat, m: nat, b: nat, n: nat)
    requires PrimitiveRoot(g, p) && n <= p - 1
    ensures NoDup(Emits(g, p, m, b, n))
    decreases n
  {
    hide Mul;
    if n > 0 {
      var x, r := PowMod(g, b, p), Emits(g, p, m, b + 1, n - 1);
      EmitsNoDup(g, p, m, b + 1, n - 1);
      EmitsMembers(g, p, m, b + 1, n - 1, x);
      forall e: nat | b + 1 <= e < b + n ensures PowMod(g, e, p) != x {
        TurnDistinct(g, p, b, e - b);
      }
      NoDupSum(if Valid(m, x) then [x] else [], r);
    }
  }

  /** Elements less than a full turn apart differ. */
  lemma TurnDistinct(g: nat, p: nat, b: nat, d: nat)
    requires PrimitiveRoot(g, p) && 0 < d < p - 1
    ensures PowMod(g, b + d, p) != PowMod(g, b, p)
  {
    hide Mul;
    var q := p - 1;
    PowReduce(g, b, p);
    PowReduce(g, b + d, p);
    var r := Mod(b, q);
    ModShift(d, b, q);
    if r + d < q {
      PowDistinct(g, r, r + d, p);
    } else {
      PowDistinct(g, r + d - q, r, p);
    }
  }

  /** Everything the first k subshards hand out, one subshard after the other. */
  function AllVisits(c: Cut, m: nat, k: nat): seq<nat>
    requires c.p > 1 && c.s > 0
  {
    if k == 0 then []
    else AllVisits(c, m, k - 1) + Emits(c.g, c.p, m, Begin(c, k - 1), Length(c, k - 1))
  }

  /** Subshard i hands out x iff x is valid and the exponent of x is one of its own. */
  lemma EmitsIffCovers(c: Cut, m: nat, i: nat, k: nat)
    requires PrimitiveRoot(c.g, c.p) && c.s > 0 && k < Order(c)
    ensures PowMod(c.g, k, c.p) in Emits(c.g, c.p, m, Begin(c, i), Length(c, i))
        <==> Valid(m, PowMod(c.g, k, c.p)) && Covers(c, i, k)
  {
    hide Mul, Mod, Times, Share;
    var q, b, n, x := Order(c), Begin(c, i), Length(c, i), PowMod(c.g, k, c.p);
    EmitsMembers(c.g, c.p, m, b, n, x);
    LengthBound(c, i);
    var d := Dist(q, b, k);
    assert PowMod(c.g, b + d, c.p) == x by {
      if b + d != k { TurnSame(c.g, c.p, k); }
    }
    assert At(c.g, c.p, b + d, x);
    if e: nat :| b <= e < b + n && At(c.g, c.p, e, x) {
      if e < b + d {
        TurnDistinct(c.g, c.p, e, b + d - e);
      } else if b + d < e {
        TurnDistinct(c.g, c.p, b + d, e - (b + d));
      }
    }
  }

  lemma TurnSame(g: nat, p: nat, k: nat)
    requires PrimitiveRoot(g, p)
    ensures PowMod(g, k + (p - 1), p) == PowMod(g, k, p)
  {
    hide Mul;
    PowReduce(g, k + (p - 1), p);
    PowReduce(g, k, p);
    ModMinus(k + (p - 1), p - 1);
  }

  lemma LengthBound(c: Cut, i: nat)
    requires c.p > 1 && c.s > 0
    ensures 0 < Length(c, i) <= Order(c)
  {
    hide Mod, Times, Share;
  }

  /** Taking the first k subshards of a sound cut: no repetition, exactly the covered elements. */
  lemma {:induction false} AllVisitsPrefix(c: Cut, m: nat, k: nat)
    requires Sound(c) && m < c.p && k <= c.s
    ensures NoDup(AllVisits(c, m, k))
    ensures forall x: nat :: x in AllVisits(c, m, k) ==> Valid(m, x)
    ensures forall e: nat :: e < Order(c) ==>
              (PowMod(c.g, e, c.p) in AllVisits(c, m, k)
               <==> Valid(m, PowMod(c.g, e, c.p)) && exists i: nat :: i < k && Covers(c, i, e))
  {
    hide Mul, PowMod, PrimitiveRoot, Covers, Begin, End, Length;
    if k > 0 {
      AllVisitsPrefix(c, m, k - 1);
      var before, next := AllVisits(c, m, k - 1), Emits(c.g, c.p, m, Begin(c, k - 1), Length(c, k - 1));
      LengthBound(c, k - 1);
      EmitsNoDup(c.g, c.p, m, Begin(c, k - 1), Length(c, k - 1));
      forall x: nat | x in next ensures Valid(m, x) {
        EmitsMembers(c.g, c.p, m, Begin(c, k - 1), Length(c, k - 1), x);
      }
      forall x: nat | x in before ensures x !in next {
        var e := PowOnto(c.g, x, c.p);
        EmitsIffCovers(c, m, k - 1, e);
        var home := Partition(c, e);
      }
      NoDupSum(before, next);
      forall e: nat | e < Order(c)
        ensures PowMod(c.g, e, c.p) in AllVisits(c, m, k)
            <==> Valid(m, PowMod(c.g, e, c.p)) && exists i: nat :: i < k && Covers(c, i, e)
      {
        EmitsIffCovers(c, m, k - 1, e);
      }
    }
  }

  /** All subshards together hand out 1..m, each exactly once. */
  lemma ExactlyOnce(c: Cut, m: nat)
    requires Sound(c) && m < c.p
    ensures NoDup(AllVisits(c, m, c.s))
    ensures forall x: nat :: x in AllVisits(c, m, c.s) <==> Valid(m, x)
  {
    hide Mul, PowMod, PrimitiveRoot, Covers;
    AllVisitsPrefix(c, m, c.s);
    forall x: nat | Valid(m, x) ensures x in AllVisits(c, m, c.s) {
      var e := PowOnto(c.g, x, c.p);
      var i := Partition(c, e);
    }
  }
}
