/** The whole scan: every allowed address is handed out exactly once. */
module Scan {
  import opened Arith
  import opened ModPower
  import opened TrieModel
  import opened TrieCount
  import opened Wblist
  import opened Subshards
  import opened Visits
  import opened Shards
  import Cyclic

  /** The address, in network byte order, of element x; element 0 stands for no element at all. */
  function AddressOf(t: Tree, x: nat): u32 {
    Ntohl(Index(t, ALLOWED, if x == 0 then WORD - 1 else x - 1))
  }

  function Addresses(t: Tree, xs: seq<nat>): (r: seq<u32>)
    ensures |r| == |xs| && forall i :: 0 <= i < |xs| ==> r[i] == AddressOf(t, xs[i])
  {
    if xs == [] then [] else [AddressOf(t, xs[0])] + Addresses(t, xs[1..])
  }

  lemma AddressesCons(t: Tree, x: nat, xs: seq<nat>)
    ensures Addresses(t, [x] + xs) == [AddressOf(t, x)] + Addresses(t, xs)
  {
    assert ([x] + xs)[1..] == xs;
  }

  /** An allowed address is not zero once 0.0.0.0 is denied, so zero can mean the end. */
  lemma AddressNotZero(t: Tree, x: nat)
    requires 0 < x <= Total(t, ALLOWED) && 0 < Pow2(W) && Look(t, W, 0) != ALLOWED
    ensures AddressOf(t, x) != 0
  {
    hide Index, Total, Ntohl;
    IndexSound(t, ALLOWED, x - 1);
    BlockFacts();
    NtohlZero(Index(t, ALLOWED, x - 1));
  }

  /**
   * What a shard without a current element answers to the first question is an address other
   * than 0, and one to be scanned iff 255.255.255.255 is.
   */
  lemma IdleAddress(t: Tree)
    ensures AddressOf(t, 0) != 0 && Ntohl(AddressOf(t, 0)) < Pow2(W)
    ensures Pow2(W) > 0xFFFF_FFFF
    ensures Counted(t, W, ALLOWED, Ntohl(AddressOf(t, 0))) <==> Counted(t, W, ALLOWED, 0xFFFF_FFFF)
  {
    hide Index, Ntohl, Counted;
    IdleIndex(t, ALLOWED);
    BlockFacts();
    NtohlZero(Index(t, ALLOWED, WORD - 1));
    NtohlInvolution(Index(t, ALLOWED, WORD - 1));
  }

  /**
   * Asks a shard for its current address and then for the next ones until the answer is 0.
   * A shard that begins with nothing to hand out still answers once, as for index 2^64 - 1.
   */
  method RunShard(shard: Shard) returns (out: seq<u32>)
    requires shard.Valid() && shard.last < LIMIT && 0 < shard.maxIndex < LIMIT
    requires shard.current <= shard.maxIndex <= Total(shard.list.tree.Model(), ALLOWED)
    requires 0 < Pow2(W) && Look(shard.list.tree.Model(), W, 0) != ALLOWED
    modifies shard, shard.list.tree.Repr()
    ensures shard.list.Valid() && shard.list.tree.Model() == old(shard.list.tree.Model())
    ensures shard.list.tree.Repr() == old(shard.list.tree.Repr())
    ensures old(shard.current) != DONE ==>
              out == Addresses(old(shard.list.tree.Model()), old([shard.current] + shard.After()))
    ensures old(shard.current) == DONE ==>
              out == [AddressOf(old(shard.list.tree.Model()), 0)]
  {
    hide AddressOf, Index, Total, Emits, PowMod, PrimitiveRoot, NoWrap, Look, Wblist.Valid;
    ghost var t := shard.list.tree.Model();
    ghost var all := if shard.current == DONE then [AddressOf(t, 0)] else Addresses(t, [shard.current] + shard.After());
    IdleAddress(t);
    if shard.current != DONE {
      AddressNotZero(t, shard.current);
      AddressesCons(t, shard.current, shard.After());
    }
    var next := CurrentAddress(shard);
    out := [];
    ghost var rest := all;
    while next != 0
      invariant shard.Valid() && shard.list.tree.Model() == t && shard.list.tree.Repr() == old(shard.list.tree.Repr())
      invariant shard.current != DONE ==> next != 0
      invariant all == out + rest && rest == (if next == 0 then [] else [next] + Remaining(t, shard))
      decreases if next == 0 then 0 else if shard.current == DONE then 1 else 1 + shard.stop - shard.e
    {
      Associative(out, [next], Remaining(t, shard));
      out, rest := out + [next], Remaining(t, shard);
      next := NextAddress(shard);
      if shard.current != DONE {
        AddressNotZero(t, shard.current);
        AddressesCons(t, shard.current, shard.After());
      }
    }
  }

  /** The addresses that a shard has still to answer after the current one. */
  ghost function Remaining(t: Tree, shard: Shard): seq<u32>
    requires shard.modulus > 0
    reads shard
  {
    if shard.current == DONE then [] else Addresses(t, shard.After())
  }

  /** The first question, in terms of group elements. */
  method CurrentAddress(shard: Shard) returns (ip: u32)
    requires shard.Valid()
    modifies shard.list.tree.Repr()
    ensures shard.Valid() && shard.list.tree.Model() == old(shard.list.tree.Model())
    ensures shard.list.tree.Repr() == old(shard.list.tree.Repr())
    ensures ip == AddressOf(shard.list.tree.Model(), shard.current)
  {
    hide Index, Wblist.Valid, PowMod, PrimitiveRoot, NoWrap;
    ip := shard.GetCurIp();
  }

  /** The following questions: each answers for the next element still to be handed out. */
  method NextAddress(shard: Shard) returns (ip: u32)
    requires shard.Valid() && shard.last < LIMIT && 0 < shard.maxIndex < LIMIT
    modifies shard, shard.list.tree.Repr()
    ensures shard.Valid() && shard.list.tree.Model() == old(shard.list.tree.Model())
    ensures shard.list.tree.Repr() == old(shard.list.tree.Repr())
    ensures shard.current == DONE ==> ip == 0
    ensures shard.current != DONE ==>
              && old(shard.current) != DONE && old(shard.e) < shard.e && 0 < shard.current <= shard.maxIndex
              && ip == AddressOf(shard.list.tree.Model(), shard.current)
    ensures old(shard.current) != DONE ==>
              old(shard.After()) == if shard.current == DONE then [] else [shard.current] + shard.After()
  {
    hide Index, Wblist.Valid, PowMod, PrimitiveRoot, NoWrap, Emits;
    ip := shard.GetNextIp();
  }

  /** What subshard i is to hand out. */
  function ShardOutput(t: Tree, c: Cut, m: nat, i: nat): seq<u32>
    requires c.p > 1 && c.s > 0
  {
    Addresses(t, Emits(c.g, c.p, m, Begin(c, i), Length(c, i)))
  }

  /** Creates one subshard of a scan and runs it to its end. */
  method ScanSubshard(shardIdx: nat, numShards: nat, threadIdx: nat, numThreads: nat, maxTotalTargets: u32,
                      maxIndex: u64, cycle: Cyclic.Cycle, list: Wblist)
      returns (out: seq<u32>)
    requires Cyclic.SoundCycle(cycle) && NoWrap(cycle.generator, cycle.group.prime)
    requires Times(numShards, numThreads) > 0 && list.Valid()
    requires 0 < maxIndex < LIMIT && maxIndex <= Total(list.tree.Model(), ALLOWED)
    requires 0 < Pow2(W) && Look(list.tree.Model(), W, 0) != ALLOWED
    requires var c := CutOf(cycle, Times(numShards, numThreads));
             PowMod(c.g, End(c, Times(shardIdx, numThreads) + threadIdx), c.p) < LIMIT
    modifies list.tree.Repr()
    ensures var c, i := CutOf(cycle, Times(numShards, numThreads)), Times(shardIdx, numThreads) + threadIdx;
            out == SubshardAnswers(old(list.tree.Model()), c, maxIndex, i)
    ensures list.Valid() && list.tree.Model() == old(list.tree.Model()) && list.tree.Repr() == old(list.tree.Repr())
  {
    hide AddressOf, Index, Total, Emits, PowMod, PrimitiveRoot, NoWrap, Look, Wblist.Valid, Begin, End, Times;
    var shard := new Shard(shardIdx, numShards, threadIdx, numThreads, maxTotalTargets, maxIndex, cycle, list);
    ghost var c, i := CutOf(cycle, Times(numShards, numThreads)), Times(shardIdx, numThreads) + threadIdx;
    if shard.current != DONE {
      ghost var all := [shard.current] + shard.After();
      EmitsMembers(c.g, c.p, maxIndex, Begin(c, i), Length(c, i), shard.current);
      assert all[0] == shard.current;
    }
    out := RunShard(shard);
  }

  /** The answers of subshard i. */
  function SubshardAnswers(t: Tree, c: Cut, m: nat, i: nat): seq<u32>
    requires c.p > 1 && c.s > 0
  {
    if ShardOutput(t, c, m, i) == [] then [AddressOf(t, 0)] else ShardOutput(t, c, m, i)
  }

  /** The answers of the k subshards from number base on, each for itself. */
  function Parts(t: Tree, c: Cut, m: nat, base: nat, k: nat): (parts: seq<seq<u32>>)
    requires c.p > 1 && c.s > 0
    ensures |parts| == k && forall n :: 0 <= n < k ==> parts[n] == SubshardAnswers(t, c, m, base + n)
  {
    seq(k, n requires 0 <= n < k => SubshardAnswers(t, c, m, base + n))
  }

  /** And one after the other. */
  function ScanOutput(t: Tree, c: Cut, m: nat, base: nat, k: nat): seq<u32>
    requires c.p > 1 && c.s > 0
  {
    Flatten(Parts(t, c, m, base, k))
  }

  lemma ScanOutputStep(t: Tree, c: Cut, m: nat, base: nat, k: nat)
    requires c.p > 1 && c.s > 0
    ensures ScanOutput(t, c, m, base, 0) == []
    ensures ScanOutput(t, c, m, base, k + 1) == ScanOutput(t, c, m, base, k) + SubshardAnswers(t, c, m, base + k)
  {
    hide SubshardAnswers;
    assert Parts(t, c, m, base, k + 1)[..k] == Parts(t, c, m, base, k);
  }

  /** The walk of every subshard ends: no range stops at an element of 2^32 or more. */
  ghost predicate AllEnd(c: Cut, base: nat)
    requires c.p > 1 && c.s > 0
  {
    forall i: nat :: base <= i < base + c.s ==> PowMod(c.g, End(c, i), c.p) < LIMIT
  }

  /** Runs all shards with all their threads, numbered from base on, over one cycle. */
  method ScanAll(base: nat, numShards: nat, numThreads: nat, maxTotalTargets: u32, maxIndex: u64,
                 cycle: Cyclic.Cycle, list: Wblist)
      returns (out: seq<u32>)
    requires Cyclic.SoundCycle(cycle) && NoWrap(cycle.generator, cycle.group.prime)
    requires Times(numShards, numThreads) > 0 && list.Valid()
    requires 0 < maxIndex < LIMIT && maxIndex <= Total(list.tree.Model(), ALLOWED)
    requires 0 < Pow2(W) && Look(list.tree.Model(), W, 0) != ALLOWED
    requires AllEnd(CutOf(cycle, Times(numShards, numThreads)), base)
    modifies list.tree.Repr()
    ensures var c := CutOf(cycle, Times(numShards, numThreads));
            out == ScanOutput(old(list.tree.Model()), c, maxIndex, base, c.s)
  {
    hide SubshardAnswers, ScanOutput, Index, Total, PowMod, PrimitiveRoot, NoWrap, Look, Wblist.Valid, End, Times, Pow2, AllEnd;
    ghost var t, c := list.tree.Model(), CutOf(cycle, Times(numShards, numThreads));
    out := [];
    ScanOutputStep(t, c, maxIndex, base, 0);
    TimesStep(numThreads, 0);
    var shard := 0;
    while shard < numShards
      invariant 0 <= shard <= numShards && Kept(list, t, old(list.tree.Repr()))
      invariant out == ScanOutput(t, c, maxIndex, base, Times(numThreads, shard))
    {
      TimesStep(numThreads, shard);
      TimesMono(numThreads, shard + 1, numShards);
      var thread := 0;
      while thread < numThreads
        invariant 0 <= thread <= numThreads && Kept(list, t, old(list.tree.Repr()))
        invariant out == ScanOutput(t, c, maxIndex, base, Times(numThreads, shard) + thread)
      {
        TimesCommutes(numThreads, shard);
        TimesCommutes(numThreads, numShards);
        AllEndMeans(c, base, Times(shard, numThreads) + base + thread);
        var part := ScanSubshard(shard, numShards, base + thread, numThreads, maxTotalTargets, maxIndex, cycle, list);
        ScanOutputStep(t, c, maxIndex, base, Times(numThreads, shard) + thread);
        out := out + part;
        thread := thread + 1;
      }
      shard := shard + 1;
    }
    TimesCommutes(numThreads, numShards);
  }

  /** The list's trie is the same, in the same nodes. */
  ghost predicate Kept(list: Wblist, t: Tree, repr: set<object>)
    reads list, list.tree, list.tree.radix, list.tree.root, list.tree.root.Repr
  {
    list.Valid() && list.tree.Model() == t && list.tree.Repr() == repr
  }

  lemma AllEndMeans(c: Cut, base: nat, i: nat)
    requires c.p > 1 && c.s > 0 && AllEnd(c, base) && base <= i < base + c.s
    ensures PowMod(c.g, End(c, i), c.p) < LIMIT
  {
  }

  // ----- a subshard whose last element is 2^32 or more -----

  /**
   * A last element of 2^32 or more is never met: however often such a shard is asked, it answers,
   * and its answers are those of the valid elements in order, past its range and on round the cycle.
   */
  method AskShard(shard: Shard, n: nat) returns (out: seq<u32>)
    requires shard.Valid() && shard.last >= LIMIT && 0 < shard.maxIndex < LIMIT && shard.current != DONE
    modifies shard, shard.list.tree.Repr()
    ensures shard.Valid() && shard.current != DONE && old(shard.e) <= shard.e && |out| == n
    ensures out == Addresses(old(shard.list.tree.Model()),
                             Emits(shard.factor, shard.modulus, shard.maxIndex, old(shard.e) + 1, shard.e - old(shard.e)))
  {
    hide Addresses, Index, Ntohl, Emits, PowMod, PrimitiveRoot, NoWrap, Wblist.Valid;
    ghost var t := shard.list.tree.Model();
    EmitsNone(shard.factor, shard.modulus, shard.maxIndex, shard.e + 1);
    assert Addresses(t, []) == [] by { AddressesNone(t); }
    out := [];
    while |out| < n
      invariant |out| <= n && shard.Valid() && shard.current != DONE && old(shard.e) <= shard.e
      invariant shard.list.tree.Model() == t && shard.list.tree.Repr() == old(shard.list.tree.Repr())
      invariant out == Addresses(t, Emits(shard.factor, shard.modulus, shard.maxIndex, old(shard.e) + 1, shard.e - old(shard.e)))
    {
      ghost var before := shard.e;
      var ip := shard.GetNextIp();
      OneMore(t, shard.factor, shard.modulus, shard.maxIndex, old(shard.e), before, shard.e, shard.last);
      out := out + [ip];
    }
  }

  /** Creates such a subshard and takes its first n + 1 answers. */
  method AskSubshard(shardIdx: nat, numShards: nat, threadIdx: nat, numThreads: nat, maxTotalTargets: u32,
                     maxIndex: u64, cycle: Cyclic.Cycle, list: Wblist, n: nat)
      returns (out: seq<u32>, ghost steps: nat)
    requires Cyclic.SoundCycle(cycle) && NoWrap(cycle.generator, cycle.group.prime)
    requires Times(numShards, numThreads) > 0 && list.Valid() && 0 < maxIndex < LIMIT
    requires var c := CutOf(cycle, Times(numShards, numThreads));
             PowMod(c.g, End(c, Times(shardIdx, numThreads) + threadIdx), c.p) >= LIMIT
    modifies list.tree.Repr()
    ensures |out| == n + 1
    ensures var c, i := CutOf(cycle, Times(numShards, numThreads)), Times(shardIdx, numThreads) + threadIdx;
            out == Addresses(old(list.tree.Model()), Emits(c.g, c.p, maxIndex, Begin(c, i), steps))
  {
    hide AddressOf, Addresses, Index, Emits, PowMod, PrimitiveRoot, NoWrap, Wblist.Valid, Begin, End, Times;
    ghost var t := list.tree.Model();
    var shard := new Shard(shardIdx, numShards, threadIdx, numThreads, maxTotalTargets, maxIndex, cycle, list);
    ghost var begin, e := Begin(CutOf(cycle, Times(numShards, numThreads)), Times(shardIdx, numThreads) + threadIdx), shard.e;
    ghost var x: nat := shard.current;
    var first := CurrentAddress(shard);
    var more := AskShard(shard, n);
    out := [first] + more;
    steps := shard.e - begin + 1;
    EmitsConcat(shard.factor, shard.modulus, maxIndex, begin, e - begin + 1, shard.e - e);
    AddressesCons(t, x, Emits(shard.factor, shard.modulus, maxIndex, e + 1, shard.e - e));
  }

  lemma AddressesNone(t: Tree)
    ensures Addresses(t, []) == []
  {
  }

  /** Going on to the next valid element adds its address. */
  lemma OneMore(t: Tree, g: nat, p: nat, m: nat, b: nat, d: nat, e: nat, last: u64)
    requires p > 0 && b <= d < e && 0 < PowMod(g, e, p) <= m < LIMIT <= last
    requires forall k :: d < k < e ==> !Stops(last, m, PowMod(g, k, p))
    ensures Addresses(t, Emits(g, p, m, b + 1, e - b)) ==
              Addresses(t, Emits(g, p, m, b + 1, d - b)) + [AddressOf(t, PowMod(g, e, p))]
  {
    hide AddressOf, Addresses, Emits, PowMod;
    EmitsConcat(g, p, m, b + 1, d - b, e - d);
    EmitsSkip(g, p, m, d + 1, e, e + 1);
    EmitsHead(g, p, m, e, 1);
    EmitsNone(g, p, m, e + 1);
    AddressesConcat(t, Emits(g, p, m, b + 1, d - b), [PowMod(g, e, p)]);
    AddressesCons(t, PowMod(g, e, p), []);
    AddressesNone(t);
  }

  lemma {:induction false} AddressesConcat(t: Tree, xs: seq<nat>, ys: seq<nat>)
    ensures Addresses(t, xs + ys) == Addresses(t, xs) + Addresses(t, ys)
  {
  }
}
