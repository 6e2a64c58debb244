/** A scan as it is set up: the list, the group by the number of addresses, the cycle by two random words. */
module Campaign {
  import opened Arith
  import opened ModPower
  import opened TrieModel
  import opened TrieRuns
  import opened TrieCount
  import opened Wblist
  import opened ListCount
  import opened Subshards
  import opened Shards
  import opened Scan
  import opened ScanOnce
  import Cyclic
  import CutRoots
  import GroupTable

  const LARGE: nat := 268435459  // the prime of the fourth group

  /**
   * The cycle and the index limit of a sender; s is the exponent of the generator before it is cut.
   * Below 2^28 + 3 addresses nothing can go wrong.  From there on the largest group is used, where
   * the search may trap, the cut generator may generate no longer, and products may wrap.
   */
  method CreateCycle(list: Wblist, word1: u64, word2: u64)
      returns (trap: bool, cycle: Cyclic.Cycle, maxIndex: u32, ghost s: nat)
    requires list.Valid() && Total(list.tree.Model(), ALLOWED) < LIMIT
    ensures maxIndex == Total(list.tree.Model(), ALLOWED)
    ensures !trap ==>
              && cycle.group in Cyclic.Groups() && maxIndex < cycle.group.prime && cycle.order == cycle.group.prime - 1
              && cycle.offset == Mod(Cyclic.Low32(word2), cycle.group.prime)
    ensures maxIndex < LARGE ==>
              && !trap && Cyclic.SoundCycle(cycle) && cycle.group.prime < LIMIT
              && NoWrap(cycle.generator, cycle.group.prime)
    ensures maxIndex >= LARGE ==> (trap <==> Cyclic.Low32(word1) >= 0xFFFF_FFFE)
    ensures maxIndex >= LARGE && !trap ==>
              && cycle.group == Cyclic.Groups()[4] && Cyclic.Chosen(cycle.group, word1, s)
              && cycle.generator == Cyclic.Low32(PowMod(3, s, CutRoots.P))
              && (Cyclic.SoundCycle(cycle) <==> !CutRoots.Broken(s))
              && (NoWrap(cycle.generator, cycle.group.prime) <==> cycle.generator <= 0x1_0000_0000 - 14)
              && (PowMod(3, s, CutRoots.P) <= 0x1_0000_0000 - 14 ==>
                    Cyclic.SoundCycle(cycle) && NoWrap(cycle.generator, cycle.group.prime))
  {
    hide Cyclic.Sound, Cyclic.SoundCycle, Cyclic.Chosen, NoWrap, Total, Wblist.Valid, PowMod, Mod;
    TotalIsCount(list.tree.Model(), ALLOWED);
    var count := list.CountAllowed();
    var i := Cyclic.GetCyclicGroup(count);
    maxIndex := count;
    GroupTable.TableSound(i);
    trap, cycle, s := Cyclic.MakeCycle(Cyclic.Groups()[i], word1, word2);
    GroupBySize(i, count);
    if count < LARGE {
      GeneratorFits(cycle);
    } else {
      Cyclic.LargestGroupTraps(word1);
      if !trap { LargestCycle(cycle, word1, s); }
    }
  }

  lemma GroupBySize(i: nat, count: nat)
    requires i < |Cyclic.Groups()| && Cyclic.Groups()[i].prime > count
    requires forall j :: 0 <= j < i ==> Cyclic.Groups()[j].prime <= count
    ensures count < LARGE ==> Cyclic.Groups()[i].prime < LIMIT
    ensures count >= LARGE ==> i == 4
  {
    assert Cyclic.Groups()[3].prime == LARGE;
  }

  lemma GeneratorFits(cycle: Cyclic.Cycle)
    requires Cyclic.SoundCycle(cycle) && cycle.group.prime < LIMIT
    ensures NoWrap(cycle.generator, cycle.group.prime)
  {
    NoWrapSmall(cycle.generator, cycle.group.prime);
  }

  lemma LargestCycle(cycle: Cyclic.Cycle, word: u64, s: nat)
    requires cycle.group == Cyclic.Groups()[4] && cycle.order == CutRoots.P - 1
    requires Cyclic.Chosen(cycle.group, word, s) && cycle.generator == Cyclic.Low32(PowMod(3, s, CutRoots.P))
    ensures Cyclic.SoundCycle(cycle) <==> !CutRoots.Broken(s)
    ensures NoWrap(cycle.generator, cycle.group.prime) <==> cycle.generator <= 0x1_0000_0000 - 14
    ensures PowMod(3, s, CutRoots.P) <= 0x1_0000_0000 - 14 ==>
              Cyclic.SoundCycle(cycle) && NoWrap(cycle.generator, cycle.group.prime)
  {
    hide PrimitiveRoot, PowMod, NoWrap, Cyclic.Accepts;
    CutRoots.StoredRootIff(s);
    NoWrapIff(cycle.generator);
  }

  // ----- what the lists intend -----

  /** The list counts an address iff it intends it. */
  ghost predicate CountsIntended(whiteGiven: bool, white: Prefixes, black: Prefixes, a: nat)
    requires a < Pow2(W)
  {
    Counted(ListTrie(whiteGiven, white, black), W, ALLOWED, a) <==> Intended(whiteGiven, white, black, a)
  }

  /**
   * It does so iff the last of its insertions that contains the address takes effect and no bare
   * allowed prefix buries it, or neither for an address it does not intend.
   */
  lemma CountsIntendedIff(whiteGiven: bool, white: Prefixes, black: Prefixes, a: nat)
    requires a < Pow2(W)
    ensures var ws := Allowing(whiteGiven, white);
            var decided := Decided(Default(whiteGiven), Entries(ws, black), a);
            var intended := Intended(whiteGiven, white, black, a);
            CountsIntended(whiteGiven, white, black, a) <==>
              (if intended then decided && !Buried(ws, a) else decided || Buried(ws, a))
  {
    hide Decided, Buried, Intended, ListTrie, Look, LeafDepth, Entries;
    var t := ListTrie(whiteGiven, white, black);
    IntendedIff(whiteGiven, white, black, a);
    CountedMeans(t, a);
    if Look(t, W, a) == ALLOWED { CountedIff(whiteGiven, white, black, a); }
  }

  /** It does so everywhere when no allowed prefix is longer than 32 bits and none lies inside a shorter later one. */
  lemma NestFreeCountsIntended(whiteGiven: bool, white: Prefixes, black: Prefixes, a: nat)
    requires a < Pow2(W) && ShortPrefixes(Allowing(whiteGiven, white))
    requires NestFree(Entries(Allowing(whiteGiven, white), black))
    ensures CountsIntended(whiteGiven, white, black, a)
  {
    hide NestFree, ShortPrefixes, Intended, ListTrie, Look, LeafDepth, Entries, Counted;
    AllowedIsCounted(whiteGiven, white, black, a);
    NestFreeListIsIntended(whiteGiven, white, black, a);
  }

  /** The answers are exactly the intended addresses. */
  ghost predicate AsIntended(whiteGiven: bool, white: Prefixes, black: Prefixes, out: seq<u32>) {
    BlockFacts();
    forall a: u32 :: a in out <==> Intended(whiteGiven, white, black, Ntohl(a))
  }

  /**
   * For such a list, the scan over subshards 0..s-1 of a cycle answers exactly the intended
   * addresses, each once, iff they are no more than the order and each has something to hand out.
   */
  lemma IntendedScan(whiteGiven: bool, white: Prefixes, black: Prefixes, cycle: Cyclic.Cycle, s: nat)
    requires Cyclic.SoundCycle(cycle) && s > 0
    requires Total(ListTrie(whiteGiven, white, black), ALLOWED) < cycle.group.prime
    requires forall a: nat :: a < Pow2(W) ==> CountsIntended(whiteGiven, white, black, a)
    ensures var t, c := ListTrie(whiteGiven, white, black), CutOf(cycle, s);
            var out := ScanOutput(t, c, Total(t, ALLOWED), 0, s);
            NoDup(out) && AsIntended(whiteGiven, white, black, out) <==> s <= cycle.order && AllBusy(t, c, 0)
  {
    hide PrimitiveRoot, ListTrie, Total, ScanOutput, Intended, AllBusy, Counted, Ntohl;
    var t, c := ListTrie(whiteGiven, white, black), CutOf(cycle, s);
    EveryAddressOnce(t, c);
    BlockFacts();
    forall a: u32 ensures Target(t, a) <==> Intended(whiteGiven, white, black, Ntohl(a)) {
      assert CountsIntended(whiteGiven, white, black, Ntohl(a));
    }
  }

  /**
   * Two random words with which a scan in the largest group runs as meant: the search ends, the
   * value it stores generates the group with products of 64 bits, and every shard ends.
   */
  ghost predicate LargeRuns(word1: u64, word2: u64, s: nat, base: nat)
    requires s > 0
  {
    && Cyclic.Low32(word1) < 0xFFFF_FFFE
    && forall e: nat :: Cyclic.Chosen(Cyclic.Groups()[4], word1, e) ==>
         var g := Cyclic.Low32(PowMod(3, e, CutRoots.P));
         && !CutRoots.Broken(e) && g <= 0x1_0000_0000 - 14
         && AllEnd(Cut(g, CutRoots.P, Mod(Cyclic.Low32(word2), CutRoots.P), s), base)
  }

  lemma LargeRunsMeans(word1: u64, word2: u64, s: nat, base: nat)
    requires s > 0 && LargeRuns(word1, word2, s, base)
    ensures Cyclic.Low32(word1) < 0xFFFF_FFFE
  {
  }

  lemma LargeRunsCycle(cycle: Cyclic.Cycle, word1: u64, word2: u64, e: nat, s: nat, base: nat)
    requires s > 0 && LargeRuns(word1, word2, s, base)
    requires cycle.group == Cyclic.Groups()[4] && Cyclic.Chosen(cycle.group, word1, e)
    requires cycle.generator == Cyclic.Low32(PowMod(3, e, CutRoots.P))
    requires cycle.offset == Mod(Cyclic.Low32(word2), cycle.group.prime)
    ensures !CutRoots.Broken(e) && cycle.generator <= 0x1_0000_0000 - 14 && AllEnd(CutOf(cycle, s), base)
  {
    hide Cyclic.Chosen, Cyclic.Low32, CutRoots.Broken, PowMod, AllEnd, Mod;
  }

  lemma SmallEnds(cycle: Cyclic.Cycle, s: nat, base: nat)
    requires Cyclic.SoundCycle(cycle) && cycle.group.prime < LIMIT && s > 0
    ensures AllEnd(CutOf(cycle, s), base)
  {
    hide End, PrimitiveRoot;
  }

  /**
   * The whole of it: makes the list, sets up one cycle and runs all shards with all their threads,
   * numbered from base on.  Below 2^28 + 3 addresses this works for all random words.
   */
  method ScanLists(base: nat, whiteGiven: bool, white: Prefixes, black: Prefixes, word1: u64, word2: u64,
                   numShards: nat, numThreads: nat, maxTotalTargets: u32)
      returns (out: seq<u32>, cycle: Cyclic.Cycle)
    requires Times(numShards, numThreads) > 0
    requires Total(ListTrie(whiteGiven, white, black), ALLOWED) < LARGE
             || LargeRuns(word1, word2, Times(numShards, numThreads), base)
    ensures var t, s := ListTrie(whiteGiven, white, black), Times(numShards, numThreads);
            if Total(t, ALLOWED) == 0 then out == []
            else
              && Cyclic.SoundCycle(cycle) && cycle.group in Cyclic.Groups() && Total(t, ALLOWED) < cycle.group.prime
              && out == ScanOutput(t, CutOf(cycle, s), Total(t, ALLOWED), base, s)
              && (base == 0 ==> (NoDup(out) && Exact(t, out) <==> s <= cycle.order && AllBusy(t, CutOf(cycle, s), 0)))
  {
    hide PrimitiveRoot, NoWrap, ListTrie, Total, ScanOutput, AllBusy, Exact, CountedSet, Wblist.Valid, Times, Look, AllEnd;
    hide PowMod, Mod, LargeRuns, Cyclic.Chosen, Cyclic.Low32, CutRoots.Broken;
    ghost var t := ListTrie(whiteGiven, white, black);
    CountFitsLimit(whiteGiven, white, black);
    TotalIsCount(t, ALLOWED);
    var list := Wblist.Create(whiteGiven, white, black);
    if list == null {
      return [], Cyclic.Cycle(Cyclic.Groups()[0], 0, 0, 0);
    }
    var trap, made, maxIndex, e := CreateCycle(list, word1, word2);
    cycle := made;
    ZeroDisallowed(whiteGiven, white, black);
    if maxIndex < LARGE {
      SmallEnds(made, Times(numShards, numThreads), base);
    } else {
      assert !trap by { LargeRunsMeans(word1, word2, Times(numShards, numThreads), base); }
      LargeRunsCycle(made, word1, word2, e, Times(numShards, numThreads), base);
    }
    out := ScanAll(base, numShards, numThreads, maxTotalTargets, maxIndex, made, list);
    EveryAddressOnce(t, CutOf(made, Times(numShards, numThreads)));
  }

  /** A failing scan: one allowed address and several subshards.  An address nobody allowed is answered, too. */
  lemma OneAddressManyShards(address: u32, cycle: Cyclic.Cycle, s: nat)
    requires Cyclic.SoundCycle(cycle) && 2 <= s <= cycle.order && address != 0xFFFF_FFFF
    ensures var t := ListTrie(true, [(address, 32)], []);
            var a := AddressOf(t, 0);
            && Ntohl(a) < Pow2(W) && !Intended(true, [(address, 32)], [], Ntohl(a))
            && a in ScanOutput(t, CutOf(cycle, s), Total(t, ALLOWED), 0, s)
  {
    hide PrimitiveRoot, ListTrie, Total, ScanOutput, AllBusy, Counted, Ntohl, CoversAll, CoversOnce;
    var t, c := ListTrie(true, [(address, 32)], []), CutOf(cycle, s);
    OnlyOne(address);
    FromZero(c, Total(t, ALLOWED));
    TooFewAddresses(t, c);
    IdleAnswers(t, c, 0, AddressOf(t, 0));
    IdleAddress(t);
    OneCounted(address);
    ListedAlone(address, Ntohl(AddressOf(t, 0)));
  }

  /** The list of one address counts at most that one. */
  lemma OnlyOne(address: u32)
    ensures Total(ListTrie(true, [(address, 32)], []), ALLOWED) <= 1
    ensures address != 0xFFFF_FFFF ==>
              Address(0xFFFF_FFFF) && !Counted(ListTrie(true, [(address, 32)], []), W, ALLOWED, 0xFFFF_FFFF)
  {
    hide ListTrie, Total, Look, LeafDepth, Pow2;
    var white, t := [(address, 32)], ListTrie(true, [(address, 32)], []);
    BlockFacts();
    forall a: nat | a < Pow2(W) && Counted(t, W, ALLOWED, a) ensures a == address {
      CountedMeans(t, a);
      ListedAlone(address, a);
      if a != address { NeverAllowsUnlisted(white, [], a); }
    }
    TotalIsCount(t, ALLOWED);
    SubsetSize(CountedSet(t, W, ALLOWED), {address});
  }

  lemma OneCounted(address: u32)
    ensures Address(address) && (address != 0 ==> Counted(ListTrie(true, [(address, 32)], []), W, ALLOWED, address))
  {
    hide ListTrie, Counted, Pow2;
    var white, es := [(address, 32)], Entries([(address, 32)], []);
    BlockFacts();
    assert es == [Entry(address, 32, ALLOWED), ZERO];
    ListedAlone(address, address);
    NestFreeCountsIntended(true, white, [], address);
  }

  lemma ListedAlone(address: u32, a: nat)
    requires a < Pow2(W)
    ensures Listed([(address, 32)], a) <==> a == address
  {
    assert Pow2(0) == 1;
    assert InPrefix((address, 32), a) <==> a == address;
    if a == address { assert [(address, 32)][0] == (address, 32); }
  }
}
