/** One subshard of a scan: it steps through its range of group elements and hands out addresses. */
module Shards {
  import opened Arith
  import opened ModPower
  import opened Subshards
  import opened Visits
  import opened TrieCount
  import opened Wblist
  import Cyclic

  const DONE: u64 := 0
  const LIMIT: nat := 0x1_0000_0000  // elements from here on are no addresses
  const WORD: nat := 0x1_0000_0000_0000_0000

  /** x - 1 in 64-bit arithmetic. */
  function Minus1(x: u64): u64 {
    if x == 0 then WORD - 1 else x - 1
  }

  /** One multiplication in 64-bit words, then the reduction. */
  function NextElem(current: u64, factor: u64, modulus: u64): u64
    requires modulus > 0
  {
    ((current * factor) % WORD) % modulus
  }

  /** No product of a group element with the factor leaves 64 bits. */
  ghost predicate NoWrap(factor: nat, modulus: nat) {
    forall x: nat :: x < modulus ==> Times(x, factor) < WORD
  }

  lemma NextElemIsMul(current: u64, factor: u64, modulus: u64)
    requires modulus > 0 && current < modulus && NoWrap(factor, modulus)
    ensures NextElem(current, factor, modulus) == Mul(factor, current, modulus)
  {
    assert Times(current, factor) < WORD;
    assert current * factor == factor * current == Times(current, factor);
    SmallMod(current * factor, WORD);
  }

  /** In the largest group the products fit exactly for factors up to 2^32 - 14. */
  lemma NoWrapIff(factor: nat)
    ensures NoWrap(factor, 4294967311) <==> factor <= 0x1_0000_0000 - 14
  {
    if factor <= 0x1_0000_0000 - 14 {
      forall x: nat | x < 4294967311 ensures Times(x, factor) < WORD {
        MulMono(x, 4294967310, factor);
      }
    } else {
      assert Times(4294967310, factor) >= WORD;
    }
  }

  /** And a product that leaves 64 bits always takes the walk to a wrong element there. */
  lemma NextElemIff(current: u64, factor: u32)
    requires current < 4294967311
    ensures NextElem(current, factor, 4294967311) == Mul(factor, current, 4294967311) <==> Times(current, factor) < WORD
  {
    MulMono(current, 4294967310, factor);
    ProductCommutes(current, factor);
    if Times(current, factor) < WORD {
      SmallMod(current * factor, WORD);
    } else {
      var y := Times(current, factor) - WORD;
      DivModUnique(y + WORD, WORD, 1, y);
      WordNotMultiple(y);
    }
  }

  lemma ProductCommutes(a: nat, b: nat)
    ensures a * b == b * a == Times(a, b)
  {
  }

  lemma WordNotMultiple(y: nat)
    ensures y % 4294967311 != (y + WORD) % 4294967311
  {
    var a, r := y / 4294967311, y % 4294967311;
    if r + 225 < 4294967311 {
      DivModUnique(y + WORD, 4294967311, a + 4294967281, r + 225);
    } else {
      DivModUnique(y + WORD, 4294967311, a + 4294967282, r + 225 - 4294967311);
    }
  }

  /** In the smaller groups they always fit. */
  lemma NoWrapSmall(factor: nat, modulus: nat)
    requires factor < modulus <= LIMIT
    ensures NoWrap(factor, modulus)
  {
    forall x: nat | x < modulus ensures Times(x, factor) < WORD {
      MulMono(x, LIMIT - 1, factor);
      MulMono(factor, LIMIT - 1, LIMIT - 1);
    }
  }

  /** The element ends a call: it is the last one, or it numbers an address. */
  predicate Stops(last: u64, maxIndex: u64, x: nat) {
    x < LIMIT && (x == last || 0 < x <= maxIndex)
  }

  lemma StopMeans(last: u64, maxIndex: u64, x: nat)
    ensures Stops(last, maxIndex, x) <==> x < LIMIT && (x == last || 0 < x <= maxIndex)
  {
  }

  /** How many of the powers at exponents b..e-1 are below 2^32. */
  function Addressable(g: nat, p: nat, b: nat, e: nat): nat
    requires p > 0
    decreases e
  {
    if e <= b then 0 else Addressable(g, p, b, e - 1) + (if PowMod(g, e - 1, p) < LIMIT then 1 else 0)
  }

  lemma {:induction false} AddressableGap(g: nat, p: nat, b: nat, e: nat, e': nat)
    requires p > 0 && b <= e <= e'
    requires forall k :: e <= k < e' ==> PowMod(g, k, p) >= LIMIT
    ensures Addressable(g, p, b, e') == Addressable(g, p, b, e)
    decreases e'
  {
    if e < e' { AddressableGap(g, p, b, e, e' - 1); }
  }

  ghost function AddressableSet(g: nat, p: nat, b: nat, e: nat): set<nat>
    requires p > 0
  {
    set k: nat | k in Below(e) && b <= k && PowMod(g, k, p) < LIMIT
  }

  /** That is the number of such exponents. */
  lemma {:induction false} AddressableMeans(g: nat, p: nat, b: nat, e: nat)
    requires p > 0
    ensures Addressable(g, p, b, e) == |AddressableSet(g, p, b, e)|
    decreases e
  {
    hide PowMod, Below;
    if e <= b {
      assert AddressableSet(g, p, b, e) == {};
    } else {
      hide AddressableSet;
      AddressableMeans(g, p, b, e - 1);
      AddressableSetStep(g, p, b, e);
    }
  }

  lemma AddressableSetStep(g: nat, p: nat, b: nat, e: nat)
    requires p > 0 && b < e
    ensures e - 1 !in AddressableSet(g, p, b, e - 1)
    ensures AddressableSet(g, p, b, e) ==
              AddressableSet(g, p, b, e - 1) + (if PowMod(g, e - 1, p) < LIMIT then {e - 1} else {})
  {
    hide PowMod, Below;
  }

  lemma AddressableNone(g: nat, p: nat, b: nat)
    requires p > 0
    ensures Addressable(g, p, b, b) == 0
  {
  }

  lemma AddressableStep(g: nat, p: nat, b: nat, e: nat)
    requires p > 0 && b <= e && PowMod(g, e, p) < LIMIT
    ensures Addressable(g, p, b, e + 1) == Addressable(g, p, b, e) + 1
  {
  }

  class Shard {
    const first: u64
    const last: u64
    const factor: u64
    const modulus: u64
    const maxIndex: u64
    const list: Wblist
    var current: u64
    var whitelisted: u32
    var blacklisted: u32
    var maxTargets: u32
    ghost var e: nat     // current is the factor to this exponent
    ghost const stop: nat  // the exponent of last

    ghost predicate Valid()
      reads this, list, list.tree, list.tree.radix, list.tree.root, list.tree.root.Repr
    {
      && PrimitiveRoot(factor, modulus) && NoWrap(factor, modulus)
      && last == PowMod(factor, stop, modulus)
      && list.Valid() && this !in list.tree.Repr()
      && (current != DONE ==> current == PowMod(factor, e, modulus))
      && (current != DONE && last < LIMIT ==> e < stop <= e + (modulus - 1))
    }

    /** What this shard has still to hand out after the current element. */
    ghost function After(): seq<nat>
      requires modulus > 0
      reads this`e
    {
      if e < stop then Emits(factor, modulus, maxIndex, e + 1, stop - e - 1) else []
    }

    /**
     * Subshard number shardIdx * numThreads + threadIdx of numShards * numThreads: its first and
     * last elements are powers of the generator; it starts at its first valid element.
     */
    constructor (shardIdx: nat, numShards: nat, threadIdx: nat, numThreads: nat, maxTotalTargets: u32,
                 maxIndex: u64, cycle: Cyclic.Cycle, list: Wblist)
      requires Cyclic.SoundCycle(cycle) && Times(numShards, numThreads) > 0 && list.Valid()
      requires NoWrap(cycle.generator, cycle.group.prime)
      requires var c := CutOf(cycle, Times(numShards, numThreads));
               PowMod(c.g, End(c, Times(shardIdx, numThreads) + threadIdx), c.p) < LIMIT || maxIndex > 0
      modifies list.tree.Repr()
      ensures Valid() && this.list == list && this.maxIndex == maxIndex
      ensures list.tree.Model() == old(list.tree.Model()) && list.tree.Repr() == old(list.tree.Repr())
      ensures factor == cycle.generator && modulus == cycle.group.prime
      ensures var c, i := CutOf(cycle, Times(numShards, numThreads)), Times(shardIdx, numThreads) + threadIdx;
              && first == PowMod(c.g, Begin(c, i), c.p) && last == PowMod(c.g, End(c, i), c.p)
              && stop == Begin(c, i) + Length(c, i)
              && (last < LIMIT && maxIndex < LIMIT ==>
                    Emits(c.g, c.p, maxIndex, Begin(c, i), Length(c, i)) == if current == DONE then [] else [current] + After())
              && (last >= LIMIT && maxIndex < LIMIT ==> StartsAt(c.g, c.p, maxIndex, Begin(c, i), current, e))
              && (maxTotalTargets > 0 ==> maxTargets == Targets(maxTotalTargets, c.s, i))
    {
      var c, i := CutOf(cycle, Times(numShards, numThreads)), Times(shardIdx, numThreads) + threadIdx;
      var begin, end := Begin(c, i), End(c, i);
      this.list := list;
      this.maxIndex := maxIndex;
      first := PowMod(c.g, begin, c.p);
      last := PowMod(c.g, end, c.p);
      factor := c.g;
      modulus := c.p;
      current := PowMod(c.g, begin, c.p);
      e := begin;
      stop := begin + Length(c, i);
      maxTargets := if maxTotalTargets > 0 then Targets(maxTotalTargets, c.s, i) else 0;
      new;
      hide Targets, Times, Mod, Length, Share, Emits, StartsAt, PowMod, Begin, End;
      hide PrimitiveRoot, NoWrap, Index, Ntohl, Reversed, Wblist.Valid;
      StopIsLast(c, i);
      RollToValid();
    }

    /** Moves on from a first element that numbers no address. */
    method RollToValid()
      requires Valid() && (last < LIMIT || maxIndex > 0) && current != DONE
      modifies this, list.tree.Repr()
      ensures Valid() && list.tree.Model() == old(list.tree.Model()) && list.tree.Repr() == old(list.tree.Repr())
      ensures maxTargets == old(maxTargets)
      ensures last < LIMIT && maxIndex < LIMIT ==>
                (if current == DONE then [] else [current] + After()) ==
                  (if old(current) <= maxIndex then [old(current)] else []) + old(After())
      ensures last >= LIMIT && maxIndex < LIMIT ==> StartsAt(factor, modulus, maxIndex, old(e), current, e)
    {
      hide Emits, PrimitiveRoot, NoWrap, PowMod, Index, StartsAt, Wblist.Valid;
      if Minus1(current) < maxIndex {
        FirstIsValid(factor, modulus, maxIndex, e, e, last);
        return;
      }
      ghost var begin := e;
      var _ := GetNextIp();
      if last >= LIMIT && maxIndex < LIMIT { FirstIsValid(factor, modulus, maxIndex, begin, e, last); }
    }

    /** Multiplies until the element is below 2^32. */
    method GetNextElem(ghost bound: nat) returns (x: u32)
      requires PrimitiveRoot(factor, modulus) && NoWrap(factor, modulus)
      requires current == PowMod(factor, e, modulus) && e < bound && PowMod(factor, bound, modulus) < LIMIT
      modifies this`current, this`e
      ensures old(e) < e <= bound && x == current == PowMod(factor, e, modulus)
      ensures forall k :: old(e) < k < e ==> PowMod(factor, k, modulus) >= LIMIT
    {
      hide NextElem, Mul, PrimitiveRoot;
      NextElemIsMul(current, factor, modulus);
      current := NextElem(current, factor, modulus);
      e := e + 1;
      while current >= LIMIT
        invariant old(e) < e <= bound && current == PowMod(factor, e, modulus)
        invariant forall k :: old(e) < k < e ==> PowMod(factor, k, modulus) >= LIMIT
        decreases bound - e
      {
        NextElemIsMul(current, factor, modulus);
        current := NextElem(current, factor, modulus);
        e := e + 1;
      }
      x := current;
    }

    /**
     * The address of the next element that numbers one, or DONE when the last element comes
     * first.  When the last element is 2^32 or more it is never met.
     */
    method GetNextIp() returns (ip: u32)
      requires Valid() && (last < LIMIT || maxIndex > 0)
      modifies this, list.tree.Repr()
      ensures Valid() && list.tree.Model() == old(list.tree.Model()) && list.tree.Repr() == old(list.tree.Repr())
      ensures old(current) == DONE ==>
                ip == 0 && current == DONE && whitelisted == old(whitelisted) && blacklisted == old(blacklisted)
      ensures old(current) != DONE ==>
                && old(e) < e && Stops(last, maxIndex, PowMod(factor, e, modulus))
                && (forall k :: old(e) < k < e ==> !Stops(last, maxIndex, PowMod(factor, k, modulus)))
      ensures old(current) != DONE && PowMod(factor, e, modulus) == last ==> ip == 0 && current == DONE
      ensures old(current) != DONE && PowMod(factor, e, modulus) != last ==>
                && current == PowMod(factor, e, modulus) && 0 < current <= maxIndex
                && ip == Ntohl(Index(list.tree.Model(), ALLOWED, current - 1))
      ensures old(current) != DONE ==>
                && whitelisted == Cyclic.Low32(old(whitelisted) + if current == DONE then 0 else 1)
                && blacklisted == Cyclic.Low32(old(blacklisted) + Addressable(factor, modulus, old(e) + 1, e))
      ensures old(current) != DONE && last < LIMIT && maxIndex < LIMIT ==>
                old(After()) == if current == DONE then [] else [current] + After()
      ensures old(current) != DONE ==> (current == DONE <==> last < LIMIT && PowMod(factor, e, modulus) == last)
      ensures old(current) != DONE && last < LIMIT ==> e <= stop && (current == DONE <==> e == stop)
      ensures maxTargets == old(maxTargets)
    {
      hide NextElem, Mul, PrimitiveRoot, NoWrap, Index, Ntohl, Reversed, Addressable, PowMod, Wblist.Valid;
      if current == DONE {
        return 0;
      }
      hide Emits, Cyclic.Low32, Stops;
      ghost var bound, start := stop, e;
      if last >= LIMIT {
        bound := OneAhead(factor, modulus, e);
      }
      StopMeans(last, maxIndex, PowMod(factor, bound, modulus));
      var candidate := SeekStop(bound);
      if last < LIMIT { BeforeLast(factor, modulus, maxIndex, last, stop, start, e); }
      CountersWrap(whitelisted, 0);
      if candidate == last {
        current := DONE;
        return 0;
      }
      whitelisted := Cyclic.Low32(whitelisted + 1);
      ip := list.LookupIndex(candidate - 1);
    }

    /** Multiplies until an element is the last one or numbers an address, and counts the others. */
    method SeekStop(ghost bound: nat) returns (candidate: u32)
      requires PrimitiveRoot(factor, modulus) && NoWrap(factor, modulus)
      requires current == PowMod(factor, e, modulus) && e < bound && Stops(last, maxIndex, PowMod(factor, bound, modulus))
      modifies this`current, this`e, this`blacklisted
      ensures old(e) < e <= bound && 0 < candidate == current == PowMod(factor, e, modulus)
      ensures Stops(last, maxIndex, candidate) && (candidate == last || candidate <= maxIndex)
      ensures forall k :: old(e) < k < e ==> !Stops(last, maxIndex, PowMod(factor, k, modulus))
      ensures blacklisted == Cyclic.Low32(old(blacklisted) + Addressable(factor, modulus, old(e) + 1, e))
    {
      hide NextElem, Mul, PrimitiveRoot, NoWrap, Addressable, PowMod, Cyclic.Low32, Stops;
      ghost var start := e;
      StopMeans(last, maxIndex, PowMod(factor, bound, modulus));
      CountersWrap(blacklisted, 0);
      AddressableNone(factor, modulus, start + 1);
      while true
        invariant current == PowMod(factor, e, modulus) && start <= e < bound
        invariant forall k :: start < k <= e ==> !Stops(last, maxIndex, PowMod(factor, k, modulus))
        invariant blacklisted == Cyclic.Low32(old(blacklisted) + Addressable(factor, modulus, start + 1, e + 1))
        decreases bound - e
      {
        ghost var before := e;
        candidate := GetNextElem(bound);
        Arrived(factor, modulus, maxIndex, last, start, before, e);
        if candidate == last || candidate - 1 < maxIndex {
          return;
        }
        CountersWrap(old(blacklisted), Addressable(factor, modulus, start + 1, e));
        blacklisted := Cyclic.Low32(blacklisted + 1);
      }
    }

    /** The address of the current element; index 2^64 - 1 when there is none. */
    method GetCurIp() returns (ip: u32)
      requires Valid()
      modifies list.tree.Repr()
      ensures Valid() && list.tree.Model() == old(list.tree.Model()) && list.tree.Repr() == old(list.tree.Repr())
      ensures var index := if current == DONE then WORD - 1 else current - 1;
              ip == Ntohl(Index(list.tree.Model(), ALLOWED, index))
    {
      hide NextElem, Mul, PrimitiveRoot, NoWrap, Index;
      ip := list.LookupIndex(Minus1(current));
    }
  }

  /** The first valid element from exponent b on is x, at exponent e. */
  ghost predicate StartsAt(g: nat, p: nat, m: nat, b: nat, x: nat, e: nat)
    requires p > 0
  {
    x != DONE && b <= e && x == PowMod(g, e, p) && Emits(g, p, m, b, e - b + 1) == [x]
  }

  lemma FirstIsValid(g: nat, p: nat, m: nat, b: nat, e: nat, last: u64)
    requires p > 0 && b <= e && 0 < PowMod(g, e, p) <= m
    requires b < e ==> m < LIMIT <= last && PowMod(g, b, p) > m
    requires forall k :: b < k < e ==> !Stops(last, m, PowMod(g, k, p))
    ensures StartsAt(g, p, m, b, PowMod(g, e, p), e)
  {
    hide Emits, PowMod;
    EmitsSkip(g, p, m, b, e, e + 1);
    EmitsHead(g, p, m, e, 1);
    EmitsNone(g, p, m, e + 1);
  }

  /** Counting one more in a 32-bit counter. */
  lemma CountersWrap(c: u32, n: nat)
    ensures Cyclic.Low32(c) == c && Cyclic.Low32(Cyclic.Low32(c + n) + 1) == Cyclic.Low32(c + n + 1)
  {
  }

  /** The cut of a cycle into a number of subshards. */
  function CutOf(cycle: Cyclic.Cycle, subshards: nat): Cut {
    Cut(cycle.generator, cycle.group.prime, cycle.offset, subshards)
  }

  /**
   * The first and last elements of subshard i of s: the powers of the generator at i shares, and at
   * i + 1 shares or none behind the last subshard, from the offset on.
   */
  lemma CutMeans(cycle: Cyclic.Cycle, s: nat, i: nat)
    requires Cyclic.SoundCycle(cycle) && s > 0
    ensures var c := CutOf(cycle, s);
            && c.g == cycle.generator && c.p == cycle.group.prime && c.s == s
            && Begin(c, i) == (cycle.order / s * i + cycle.offset) % cycle.order
            && End(c, i) == (cycle.order / s * ((i + 1) % s) + cycle.offset) % cycle.order
  {
    hide PowMod, PrimitiveRoot;
    BeginMeans(CutOf(cycle, s), i);
    EndMeans(CutOf(cycle, s), i);
    hide Begin, End;
  }

  lemma BeginMeans(c: Cut, i: nat)
    requires c.p > 1 && c.s > 0
    ensures Begin(c, i) == ((c.p - 1) / c.s * i + c.offset) % (c.p - 1)
  {
  }

  lemma EndMeans(c: Cut, i: nat)
    requires c.p > 1 && c.s > 0
    ensures End(c, i) == ((c.p - 1) / c.s * ((i + 1) % c.s) + c.offset) % (c.p - 1)
  {
  }

  /** The share of a target limit: the quotient, and one more for as many of the first subshards as remain. */
  lemma TargetsMean(total: u32, s: nat, i: nat)
    requires s > 0
    ensures Targets(total, s, i) == total / s + (if i < total % s then 1 else 0)
  {
  }

  /** The share of a scan's target limit: the remainder goes to the first subshards. */
  function Targets(total: u32, s: nat, i: nat): u32
    requires s > 0
  {
    TargetsBound(total, s, i);
    total / s + (if i < Mod(total, s) then 1 else 0)
  }

  lemma TargetsBound(total: u32, s: nat, i: nat)
    requires s > 0
    ensures 0 <= total / s + (if i < Mod(total, s) then 1 else 0) <= total
  {
    var q := total / s;
    assert total == q * s + total % s;
    MulMono(1, s, q);
  }

  ghost function SumTargets(total: u32, s: nat, n: nat): nat
    requires s > 0
  {
    if n == 0 then 0 else SumTargets(total, s, n - 1) + Targets(total, s, n - 1)
  }

  /** The limits of all subshards add up to the limit of the scan. */
  lemma TargetsAddUp(total: u32, s: nat)
    requires s > 0
    ensures SumTargets(total, s, s) == total
  {
    TargetsPrefix(total, s, s);
    assert total == s * (total / s) + total % s;
  }

  lemma {:induction false} TargetsPrefix(total: u32, s: nat, n: nat)
    requires s > 0
    ensures SumTargets(total, s, n) == n * (total / s) + (if n < Mod(total, s) then n else Mod(total, s))
  {
    if n > 0 {
      TargetsPrefix(total, s, n - 1);
      assert n * (total / s) == (n - 1) * (total / s) + total / s;
    }
  }

  /** The end of a subshard's range is one walk away from its beginning. */
  lemma StopIsLast(c: Cut, i: nat)
    requires PrimitiveRoot(c.g, c.p) && c.p > 2 && c.s > 0
    ensures PowMod(c.g, Begin(c, i) + Length(c, i), c.p) == PowMod(c.g, End(c, i), c.p)
    ensures 0 < Length(c, i) <= Order(c)
    ensures PowMod(c.g, Begin(c, i), c.p) != 0
  {
    hide Mul, Mod, Times, Share, PrimitiveRoot;
    LengthBound(c, i);
    PowNonzero(c.g, Begin(c, i), c.p);
    if Begin(c, i) + Length(c, i) != End(c, i) { TurnSame(c.g, c.p, End(c, i)); }
  }

  /** Arriving at the next element below 2^32: it stops the walk iff it should, and counts as one more. */
  lemma Arrived(g: nat, p: nat, m: u64, last: u64, start: nat, before: nat, e: nat)
    requires PrimitiveRoot(g, p) && start <= before < e && PowMod(g, e, p) < LIMIT
    requires forall k :: before < k < e ==> PowMod(g, k, p) >= LIMIT
    requires forall k :: start < k <= before ==> !Stops(last, m, PowMod(g, k, p))
    ensures PowMod(g, e, p) != 0
    ensures Stops(last, m, PowMod(g, e, p)) <==> PowMod(g, e, p) == last || PowMod(g, e, p) - 1 < m
    ensures Addressable(g, p, start + 1, e) == Addressable(g, p, start + 1, before + 1)
    ensures Addressable(g, p, start + 1, e + 1) == Addressable(g, p, start + 1, e) + 1
    ensures forall k :: start < k < e ==> !Stops(last, m, PowMod(g, k, p))
  {
    hide Mul, PowMod, PrimitiveRoot, Addressable;
    PowNonzero(g, e, p);
    AddressableGap(g, p, start + 1, before + 1, e);
    AddressableStep(g, p, start + 1, e);
  }

  /** What such an element means for a shard whose last element is below 2^32. */
  lemma BeforeLast(g: nat, p: nat, m: u64, last: u64, stop: nat, start: nat, e: nat)
    requires PrimitiveRoot(g, p) && last < LIMIT && last == PowMod(g, stop, p)
    requires start < e <= stop <= start + (p - 1)
    requires forall k :: start < k < e ==> !Stops(last, m, PowMod(g, k, p))
    ensures PowMod(g, e, p) == last <==> e == stop
    ensures m < LIMIT && e == stop ==> Emits(g, p, m, start + 1, stop - start - 1) == []
    ensures m < LIMIT && e < stop && 0 < PowMod(g, e, p) <= m ==>
              Emits(g, p, m, start + 1, stop - start - 1) == [PowMod(g, e, p)] + Emits(g, p, m, e + 1, stop - e - 1)
  {
    hide Mul, PowMod, PrimitiveRoot, Emits, Stops;
    if e < stop { TurnDistinct(g, p, e, stop - e); }
    if m < LIMIT { AfterStop(g, p, m, last, stop, start, e); }
  }

  /** Skipping to the first stopping element loses nothing of what is to be handed out. */
  lemma AfterStop(g: nat, p: nat, m: nat, last: u64, stop: nat, start: nat, e: nat)
    requires PrimitiveRoot(g, p) && m < LIMIT && last < LIMIT && last == PowMod(g, stop, p)
    requires start < e <= stop <= start + (p - 1)
    requires forall k :: start < k < e ==> !Stops(last, m, PowMod(g, k, p))
    ensures PowMod(g, e, p) == last <==> e == stop
    ensures e == stop ==> Emits(g, p, m, start + 1, stop - start - 1) == []
    ensures e < stop && 0 < PowMod(g, e, p) <= m ==>
              Emits(g, p, m, start + 1, stop - start - 1) == [PowMod(g, e, p)] + Emits(g, p, m, e + 1, stop - e - 1)
  {
    hide Mul, Emits;
    if e < stop { TurnDistinct(g, p, e, stop - e); }
    EmitsSkip(g, p, m, start + 1, e, stop);
    if e < stop { EmitsHead(g, p, m, e, stop - e); } else { assert Emits(g, p, m, e, 0) == [] by { EmitsNone(g, p, m, e); } }
  }

  lemma EmitsNone(g: nat, p: nat, m: nat, b: nat)
    requires p > 0
    ensures Emits(g, p, m, b, 0) == []
  {
  }

  lemma EmitsHead(g: nat, p: nat, m: nat, b: nat, n: nat)
    requires p > 0 && n > 0
    ensures Emits(g, p, m, b, n) ==
              (if Valid(m, PowMod(g, b, p)) then [PowMod(g, b, p)] else []) + Emits(g, p, m, b + 1, n - 1)
  {
  }

  lemma {:induction false} EmitsSkip(g: nat, p: nat, m: nat, b: nat, e: nat, stop: nat)
    requires p > 0 && b <= e <= stop
    requires forall k :: b <= k < e ==> !Valid(m, PowMod(g, k, p))
    ensures Emits(g, p, m, b, stop - b) == Emits(g, p, m, e, stop - e)
    decreases e - b
  {
    if b < e { EmitsSkip(g, p, m, b + 1, e, stop); }
  }

  /** A walk in two parts. */
  lemma {:induction false} EmitsConcat(g: nat, p: nat, m: nat, b: nat, n: nat, k: nat)
    requires p > 0
    ensures Emits(g, p, m, b, n + k) == Emits(g, p, m, b, n) + Emits(g, p, m, b + n, k)
    decreases n
  {
    hide PowMod, Valid;
    if n == 0 {
      EmitsNone(g, p, m, b);
    } else {
      EmitsConcat(g, p, m, b + 1, n - 1, k);
      var head := if Valid(m, PowMod(g, b, p)) then [PowMod(g, b, p)] else [];
      Associative(head, Emits(g, p, m, b + 1, n - 1), Emits(g, p, m, b + n, k));
    }
  }

  /** Some later power is 1. */
  lemma OneAhead(g: nat, p: nat, e: nat) returns (b: nat)
    requires PrimitiveRoot(g, p)
    ensures e < b && PowMod(g, b, p) == 1
  {
    b := (p - 1) * (e + 1);
    PowPow(g, p - 1, e + 1, p);
    PowOfOne(e + 1, p);
    MulMono(1, p - 1, e + 1);
  }
}
