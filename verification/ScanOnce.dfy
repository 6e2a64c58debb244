/** When a whole scan answers the addresses to be scanned, each exactly once. */
module ScanOnce {
  import opened Arith
  import opened ModPower
  import opened TrieModel
  import opened TrieCount
  import opened Wblist
  import opened Subshards
  import opened Visits
  import opened Shards
  import opened Scan

  /** The address, in network byte order, is one that the list counts. */
  predicate Target(t: Tree, a: u32) {
    BlockFacts();
    Counted(t, W, ALLOWED, Ntohl(a))
  }

  /** The answers are exactly the counted addresses. */
  ghost predicate Exact(t: Tree, out: seq<u32>) {
    forall a: u32 :: a in out <==> Target(t, a)
  }

  // ----- elements and addresses -----

  /** Every counted address is the address of one element. */
  lemma ElementOf(t: Tree, a: u32) returns (x: nat)
    requires Target(t, a)
    ensures 0 < x <= Total(t, ALLOWED) && AddressOf(t, x) == a
    ensures forall y: nat :: 0 < y <= Total(t, ALLOWED) && AddressOf(t, y) == a ==> y == x
  {
    hide Index, Total, Ntohl, Counted, Pow2;
    BlockFacts();
    var n := IndexOnto(t, ALLOWED, Ntohl(a));
    NtohlInvolution(a);
    x := n + 1;
    forall y: nat | 0 < y <= Total(t, ALLOWED) && AddressOf(t, y) == a ensures y == x {
      IndexSound(t, ALLOWED, y - 1);
      NtohlInvolution(Index(t, ALLOWED, y - 1));
      IndexInjective(t, ALLOWED, y - 1, n);
    }
  }

  /** And every element's address is counted. */
  lemma ElementIsTarget(t: Tree, x: nat)
    requires 0 < x <= Total(t, ALLOWED)
    ensures Target(t, AddressOf(t, x))
  {
    hide Index, Total, Ntohl, Counted, Pow2;
    IndexSound(t, ALLOWED, x - 1);
    BlockFacts();
    NtohlInvolution(Index(t, ALLOWED, x - 1));
  }

  /** The addresses of valid elements, without repetition and counted. */
  lemma AddressesOfValid(t: Tree, xs: seq<nat>)
    requires forall x: nat :: x in xs ==> Valid(Total(t, ALLOWED), x)
    ensures NoDup(Addresses(t, xs)) <==> NoDup(xs)
    ensures forall a: u32 :: a in Addresses(t, xs) ==> Target(t, a)
    ensures forall x: nat :: Valid(Total(t, ALLOWED), x) ==> (AddressOf(t, x) in Addresses(t, xs) <==> x in xs)
  {
    hide AddressOf, Total, Target;
    var out := Addresses(t, xs);
    forall i | 0 <= i < |xs| ensures Valid(Total(t, ALLOWED), xs[i]) && Target(t, out[i]) {
      assert xs[i] in xs;
      ElementIsTarget(t, xs[i]);
    }
    forall i, j | 0 <= i < j < |xs| ensures out[i] == out[j] <==> xs[i] == xs[j] {
      var x := ElementOf(t, out[i]);
    }
    forall x: nat | Valid(Total(t, ALLOWED), x) ensures AddressOf(t, x) in out <==> x in xs {
      ElementIsTarget(t, x);
      var y := ElementOf(t, AddressOf(t, x));
      if i: nat :| i < |xs| && xs[i] == x { assert out[i] == AddressOf(t, x); }
    }
  }

  // ----- one subshard -----

  /** A subshard's own addresses: counted, without repetition, those whose exponents are its own. */
  lemma ShardHandsOut(t: Tree, c: Cut, i: nat)
    requires Rooted(c) && Total(t, ALLOWED) < c.p
    ensures var own := ShardOutput(t, c, Total(t, ALLOWED), i);
            NoDup(own) && forall a: u32 :: a in own ==> Target(t, a)
    ensures forall e: nat :: e < Order(c) && Valid(Total(t, ALLOWED), PowMod(c.g, e, c.p)) ==>
              (AddressOf(t, PowMod(c.g, e, c.p)) in ShardOutput(t, c, Total(t, ALLOWED), i) <==> Covers(c, i, e))
  {
    hide AddressOf, Total, Target, Emits, Begin, Length, Covers, PowMod, PrimitiveRoot;
    var m := Total(t, ALLOWED);
    var xs := Emits(c.g, c.p, m, Begin(c, i), Length(c, i));
    LengthBound(c, i);
    EmitsNoDup(c.g, c.p, m, Begin(c, i), Length(c, i));
    forall x: nat | x in xs ensures Valid(m, x) { EmitsMembers(c.g, c.p, m, Begin(c, i), Length(c, i), x); }
    AddressesOfValid(t, xs);
    forall e: nat | e < Order(c) && Valid(m, PowMod(c.g, e, c.p))
      ensures AddressOf(t, PowMod(c.g, e, c.p)) in ShardOutput(t, c, m, i) <==> Covers(c, i, e)
    {
      EmitsIffCovers(c, m, i, e);
    }
  }

  /** Every counted address has one exponent, and the subshards that cover it are those that hand it out. */
  lemma ExponentOf(t: Tree, c: Cut, a: u32) returns (e: nat)
    requires Rooted(c) && Total(t, ALLOWED) < c.p && Target(t, a)
    ensures e < Order(c) && Valid(Total(t, ALLOWED), PowMod(c.g, e, c.p)) && AddressOf(t, PowMod(c.g, e, c.p)) == a
    ensures forall i: nat :: a in ShardOutput(t, c, Total(t, ALLOWED), i) <==> Covers(c, i, e)
  {
    hide AddressOf, Total, Target, ShardOutput, Covers, PowMod, PrimitiveRoot;
    var x := ElementOf(t, a);
    e := PowOnto(c.g, x, c.p);
    forall i: nat ensures a in ShardOutput(t, c, Total(t, ALLOWED), i) <==> Covers(c, i, e) { ShardHandsOut(t, c, i); }
  }

  // ----- all subshards -----

  /** Every subshard has something to hand out. */
  ghost predicate AllBusy(t: Tree, c: Cut, base: nat)
    requires c.p > 1 && c.s > 0
  {
    forall i: nat :: base <= i < base + c.s ==> ShardOutput(t, c, Total(t, ALLOWED), i) != []
  }

  ghost predicate Covered(c: Cut, base: nat, e: nat)
    requires c.p > 1 && c.s > 0 && e < Order(c)
  {
    exists i: nat :: base <= i < base + c.s && Covers(c, i, e)
  }

  /** Every exponent belongs to a subshard. */
  ghost predicate CoversAll(c: Cut, base: nat)
    requires c.p > 1 && c.s > 0
  {
    forall e: nat :: e < Order(c) ==> Covered(c, base, e)
  }

  /** No valid exponent belongs to two subshards. */
  ghost predicate CoversOnce(c: Cut, base: nat, m: nat)
    requires c.p > 1 && c.s > 0
  {
    forall e: nat, i: nat, j: nat ::
      e < Order(c) && Valid(m, PowMod(c.g, e, c.p)) && base <= i < j < base + c.s && Covers(c, i, e) ==> !Covers(c, j, e)
  }

  ghost predicate Answered(t: Tree, c: Cut, base: nat, a: u32)
    requires c.p > 1 && c.s > 0
  {
    exists i: nat :: base <= i < base + c.s && a in SubshardAnswers(t, c, Total(t, ALLOWED), i)
  }

  lemma InScan(t: Tree, c: Cut, base: nat, a: u32)
    requires c.p > 1 && c.s > 0
    ensures a in ScanOutput(t, c, Total(t, ALLOWED), base, c.s) <==> Answered(t, c, base, a)
  {
    hide SubshardAnswers, Total;
    var parts := Parts(t, c, Total(t, ALLOWED), base, c.s);
    FlattenMember(parts, a);
    if i: nat :| base <= i < base + c.s && a in SubshardAnswers(t, c, Total(t, ALLOWED), i) { assert a in parts[i - base]; }
  }

  /** When nobody is idle, the answers are the counted addresses. */
  lemma BusyIsExact(t: Tree, c: Cut, base: nat)
    requires Rooted(c) && Total(t, ALLOWED) < c.p && CoversAll(c, base) && AllBusy(t, c, base)
    ensures Exact(t, ScanOutput(t, c, Total(t, ALLOWED), base, c.s))
  {
    hide AddressOf, Total, Target, ShardOutput, ScanOutput, Covers, PowMod, PrimitiveRoot;
    var m := Total(t, ALLOWED);
    forall a: u32 ensures a in ScanOutput(t, c, m, base, c.s) <==> Target(t, a) {
      InScan(t, c, base, a);
      if Target(t, a) {
        var e := ExponentOf(t, c, a);
        assert Covered(c, base, e);
      var i: nat :| base <= i < base + c.s && Covers(c, i, e);
        assert a in SubshardAnswers(t, c, m, i);
      }
      if i: nat :| base <= i < base + c.s && a in SubshardAnswers(t, c, m, i) { ShardHandsOut(t, c, i); }
    }
  }

  /** When somebody is idle, one more address is among them. */
  lemma IdleAnswers(t: Tree, c: Cut, base: nat, a: u32)
    requires Rooted(c) && Total(t, ALLOWED) < c.p && CoversAll(c, base) && !AllBusy(t, c, base)
    ensures a in ScanOutput(t, c, Total(t, ALLOWED), base, c.s) <==> Target(t, a) || a == AddressOf(t, 0)
  {
    hide AddressOf, Total, Target, ShardOutput, ScanOutput, Covers, PowMod, PrimitiveRoot;
    var m := Total(t, ALLOWED);
    InScan(t, c, base, a);
    var idle: nat :| base <= idle < base + c.s && ShardOutput(t, c, m, idle) == [];
    assert SubshardAnswers(t, c, m, idle) == [AddressOf(t, 0)];
    if Target(t, a) {
      var e := ExponentOf(t, c, a);
      assert Covered(c, base, e);
      var i: nat :| base <= i < base + c.s && Covers(c, i, e);
      assert a in SubshardAnswers(t, c, m, i);
    }
    if i: nat :| base <= i < base + c.s && a in SubshardAnswers(t, c, m, i) { ShardHandsOut(t, c, i); }
  }

  /**
   * The answers are exactly the counted addresses iff every subshard has something to hand out
   * or 255.255.255.255 is counted, too.
   */
  lemma ExactIff(t: Tree, c: Cut, base: nat)
    requires Rooted(c) && Total(t, ALLOWED) < c.p && CoversAll(c, base)
    ensures 0xFFFF_FFFF < Pow2(W)
    ensures Exact(t, ScanOutput(t, c, Total(t, ALLOWED), base, c.s))
        <==> AllBusy(t, c, base) || Counted(t, W, ALLOWED, 0xFFFF_FFFF)
  {
    hide AddressOf, Total, Counted, ScanOutput, CoversAll, AllBusy, PrimitiveRoot, Pow2, Ntohl;
    IdleAddress(t);
    if AllBusy(t, c, base) {
      BusyIsExact(t, c, base);
    } else {
      forall a: u32
        ensures a in ScanOutput(t, c, Total(t, ALLOWED), base, c.s) <==> Target(t, a) || a == AddressOf(t, 0)
      {
        IdleAnswers(t, c, base, a);
      }
      assert AddressOf(t, 0) in ScanOutput(t, c, Total(t, ALLOWED), base, c.s);
    }
  }

  /** Exactly the counted addresses and each once: iff nobody is idle and no counted address is covered twice. */
  lemma OnceIff(t: Tree, c: Cut, base: nat)
    requires Rooted(c) && Total(t, ALLOWED) < c.p && CoversAll(c, base)
    ensures var out := ScanOutput(t, c, Total(t, ALLOWED), base, c.s);
            NoDup(out) && Exact(t, out) <==> AllBusy(t, c, base) && CoversOnce(c, base, Total(t, ALLOWED))
  {
    hide AddressOf, Total, Target, ShardOutput, Covers, PowMod, PrimitiveRoot, Flatten, Apart, Exact, CoversOnce, SubshardAnswers;
    var m := Total(t, ALLOWED);
    FlattenNoDupIff(Parts(t, c, m, base, c.s));
    if AllBusy(t, c, base) {
      BusyIsExact(t, c, base);
      BusyApartIff(t, c, base);
    } else {
      IdleNotOnce(t, c, base);
    }
  }

  lemma BusyApartIff(t: Tree, c: Cut, base: nat)
    requires Rooted(c) && Total(t, ALLOWED) < c.p && AllBusy(t, c, base)
    ensures Apart(Parts(t, c, Total(t, ALLOWED), base, c.s)) <==> CoversOnce(c, base, Total(t, ALLOWED))
  {
    hide AddressOf, Total, Target, ShardOutput, Covers, PowMod, PrimitiveRoot, NoDup;
    var m, parts := Total(t, ALLOWED), Parts(t, c, Total(t, ALLOWED), base, c.s);
    forall n | 0 <= n < c.s ensures parts[n] == ShardOutput(t, c, m, base + n) && NoDup(parts[n]) {
      ShardHandsOut(t, c, base + n);
    }
    if CoversOnce(c, base, m) {
      forall j, n, a | 0 <= j < n < c.s && a in parts[j] ensures a !in parts[n] {
        ShardHandsOut(t, c, base + j);
        var e := ExponentOf(t, c, a);
        assert Covers(c, base + j, e);
      }
    }
    if Apart(parts) {
      forall e: nat, i: nat, j: nat
        | e < Order(c) && Valid(m, PowMod(c.g, e, c.p)) && base <= i < j < base + c.s && Covers(c, i, e)
        ensures !Covers(c, j, e)
      {
        ShardHandsOut(t, c, i);
        ShardHandsOut(t, c, j);
        assert AddressOf(t, PowMod(c.g, e, c.p)) in parts[i - base] && parts[j - base] == ShardOutput(t, c, m, j);
      }
    }
  }

  /** An idle subshard's answer is either not counted or somebody else's. */
  lemma IdleNotOnce(t: Tree, c: Cut, base: nat)
    requires Rooted(c) && Total(t, ALLOWED) < c.p && CoversAll(c, base) && !AllBusy(t, c, base)
    ensures var out := ScanOutput(t, c, Total(t, ALLOWED), base, c.s);
            !(NoDup(out) && Exact(t, out))
  {
    hide AddressOf, Total, Target, ShardOutput, Covers, PowMod, PrimitiveRoot, Flatten, NoDup;
    var m, parts, a := Total(t, ALLOWED), Parts(t, c, Total(t, ALLOWED), base, c.s), AddressOf(t, 0);
    FlattenNoDupIff(parts);
    IdleAnswers(t, c, base, a);
    var idle: nat :| base <= idle < base + c.s && ShardOutput(t, c, m, idle) == [];
    assert parts[idle - base] == [a];
    if Target(t, a) {
      var e := ExponentOf(t, c, a);
      assert Covered(c, base, e);
      var i: nat :| base <= i < base + c.s && Covers(c, i, e);
      assert a in parts[i - base] && a in parts[idle - base] && i != idle;
    }
  }

  // ----- subshards numbered from 0 -----

  lemma FromZero(c: Cut, m: nat)
    requires Rooted(c)
    ensures CoversAll(c, 0)
    ensures c.s <= Order(c) ==> CoversOnce(c, 0, m)
  {
    hide Covers, PrimitiveRoot;
    forall e: nat | e < Order(c) ensures Covered(c, 0, e) {
      if c.s <= Order(c) { var i := Partition(c, e); } else { MoreThanOrder(c, 0, e); }
    }
    if c.s <= Order(c) {
      forall e: nat, i: nat, j: nat
        | e < Order(c) && Valid(m, PowMod(c.g, e, c.p)) && 0 <= i < j < 0 + c.s && Covers(c, i, e)
        ensures !Covers(c, j, e)
      {
        var home := Partition(c, e);
      }
    }
  }

  /**
   * The scan over subshards 0..s-1 of one cycle answers exactly the counted addresses, each once,
   * iff there are no more subshards than exponents and every subshard has something to hand out.
   */
  lemma EveryAddressOnce(t: Tree, c: Cut)
    requires Rooted(c) && Total(t, ALLOWED) < c.p
    ensures var out := ScanOutput(t, c, Total(t, ALLOWED), 0, c.s);
            NoDup(out) && Exact(t, out) <==> c.s <= Order(c) && AllBusy(t, c, 0)
  {
    hide PrimitiveRoot, CoversAll, Exact, ScanOutput, ShardOutput, Total, Covers, Target, PowMod, AddressOf;
    FromZero(c, Total(t, ALLOWED));
    OnceIff(t, c, 0);
    if c.s > Order(c) && AllBusy(t, c, 0) && Order(c) > 0 {
      var own := ShardOutput(t, c, Total(t, ALLOWED), 0);
      ShardHandsOut(t, c, 0);
      assert own[0] in own;
      var e := ExponentOf(t, c, own[0]);
      MoreThanOrder(c, 0, e);
      MoreThanOrder(c, 1, e);
    }
  }

  /** With fewer addresses than subshards, one of them is idle. */
  lemma TooFewAddresses(t: Tree, c: Cut)
    requires Sound(c) && Total(t, ALLOWED) < c.p && Total(t, ALLOWED) < c.s
    ensures !AllBusy(t, c, 0)
  {
    hide Total, PrimitiveRoot, Emits, AllVisits, Begin, Length, AddressOf;
    var m := Total(t, ALLOWED);
    if AllBusy(t, c, 0) {
      forall n: nat | n < c.s ensures Emits(c.g, c.p, m, Begin(c, n), Length(c, n)) != [] {
        assert ShardOutput(t, c, m, n) != [];
      }
      VisitsAtLeast(c, m, c.s);
      VisitsInAll(c, m);
      assert false;
    }
  }

  lemma {:induction false} VisitsAtLeast(c: Cut, m: nat, k: nat)
    requires c.p > 1 && c.s > 0
    requires forall n: nat :: n < k ==> Emits(c.g, c.p, m, Begin(c, n), Length(c, n)) != []
    ensures |AllVisits(c, m, k)| >= k
  {
    hide Emits, Begin, Length;
    if k > 0 { VisitsAtLeast(c, m, k - 1); }
  }

  lemma VisitsInAll(c: Cut, m: nat)
    requires Sound(c) && m < c.p
    ensures |AllVisits(c, m, c.s)| == m
  {
    hide AllVisits, PrimitiveRoot;
    ExactlyOnce(c, m);
    AllNumbers(AllVisits(c, m, c.s), m);
  }

  /** Numbers 1..m, each once, are m numbers. */
  lemma AllNumbers(xs: seq<nat>, m: nat)
    requires NoDup(xs) && forall x: nat :: x in xs <==> Valid(m, x)
    ensures |xs| == m
  {
    NoDupSize(xs);
    BelowSize(m + 1);
    assert Elems(xs) == Below(m + 1) - {0};
  }

  // ----- subshards numbered from 1, as the senders number them -----

  /**
   * Numbered from 1, they answer each counted address once iff moreover none of the exponents
   * that two of them visit numbers an address.
   */
  lemma OneBasedScan(t: Tree, c: Cut)
    requires Rooted(c) && Total(t, ALLOWED) < c.p
    ensures CoversAll(c, 1)
    ensures var out := ScanOutput(t, c, Total(t, ALLOWED), 1, c.s);
            NoDup(out) && Exact(t, out) <==>
              && AllBusy(t, c, 1)
              && forall e: nat :: e < Order(c) && Twice(c, e) ==> !Valid(Total(t, ALLOWED), PowMod(c.g, e, c.p))
  {
    hide Covers, PrimitiveRoot, Total, AllBusy, Exact, ScanOutput, PowMod;
    forall e: nat | e < Order(c) ensures Covered(c, 1, e) {
      if c.s <= Order(c) { var i := OneBasedCovers(c, e); } else { MoreThanOrder(c, 1, e); }
    }
    OnceIff(t, c, 1);
    TwiceIff(c, Total(t, ALLOWED));
  }

  lemma TwiceIff(c: Cut, m: nat)
    requires c.p > 1 && c.s > 0
    ensures CoversOnce(c, 1, m) <==> forall e: nat :: e < Order(c) && Twice(c, e) ==> !Valid(m, PowMod(c.g, e, c.p))
  {
    hide Covers, PowMod;
    if CoversOnce(c, 1, m) {
      forall e: nat | e < Order(c) && Twice(c, e) ensures !Valid(m, PowMod(c.g, e, c.p)) {
        var i: nat, j: nat :| 1 <= i < j <= c.s && Covers(c, i, e) && Covers(c, j, e);
      }
    }
    if forall e: nat :: e < Order(c) && Twice(c, e) ==> !Valid(m, PowMod(c.g, e, c.p)) {
      forall e: nat, i: nat, j: nat
        | e < Order(c) && Valid(m, PowMod(c.g, e, c.p)) && 1 <= i < j < 1 + c.s && Covers(c, i, e)
        ensures !Covers(c, j, e)
      {
        assert !Twice(c, e);
      }
    }
  }

  // ----- a subshard that never ends -----

  /** The first answers of an endless subshard, as many as there are counted addresses, are all of them. */
  lemma EndlessScan(t: Tree, g: nat, p: nat, b: nat, steps: nat)
    requires PrimitiveRoot(g, p) && Total(t, ALLOWED) < p
    requires |Emits(g, p, Total(t, ALLOWED), b, steps)| == Total(t, ALLOWED)
    ensures var out := Addresses(t, Emits(g, p, Total(t, ALLOWED), b, steps)); NoDup(out) && Exact(t, out)
  {
    hide Total, AddressOf, Emits, PrimitiveRoot, PowMod, Target, Addresses;
    var m := Total(t, ALLOWED);
    var xs, turn := Emits(g, p, m, b, steps), Emits(g, p, m, b, p - 1);
    TurnIsAll(g, p, m, b);
    AllNumbers(turn, m);
    if steps <= p - 1 {
      EmitsConcat(g, p, m, b, steps, p - 1 - steps);
    } else {
      EmitsConcat(g, p, m, b, p - 1, steps - (p - 1));
    }
    assert xs == turn;
    AddressesOfValid(t, xs);
    forall a: u32 | Target(t, a) ensures a in Addresses(t, xs) { var x := ElementOf(t, a); }
  }

  /** One turn of the cycle hands out every valid element once. */
  lemma TurnIsAll(g: nat, p: nat, m: nat, b: nat)
    requires PrimitiveRoot(g, p) && m < p
    ensures var turn := Emits(g, p, m, b, p - 1);
            NoDup(turn) && forall x: nat :: x in turn <==> Valid(m, x)
  {
    hide Emits, PrimitiveRoot, PowMod;
    EmitsNoDup(g, p, m, b, p - 1);
    forall x: nat ensures x in Emits(g, p, m, b, p - 1) <==> Valid(m, x) {
      EmitsMembers(g, p, m, b, p - 1, x);
      if Valid(m, x) {
        var k := PowOnto(g, x, p);
        ExponentInTurn(g, p, b, k);
      }
    }
  }

  /** Every power is met on a turn from any exponent. */
  lemma ExponentInTurn(g: nat, p: nat, b: nat, k: nat)
    requires PrimitiveRoot(g, p) && k < p - 1
    ensures Reaches(g, p, b, p - 1, PowMod(g, k, p))
  {
    hide PrimitiveRoot, PowMod, Mod;
    var q, r := p - 1, Mod(b, p - 1);
    var d := Dist(q, r, k);
    var e := b + d;
    PowReduce(g, e, p);
    ModShift(d, b, q);
    assert At(g, p, e, PowMod(g, k, p));
  }
}
