/** The receiving side: responses are validated, counted and filtered for duplicates. */
module Receive {
  import opened Arith
  import opened PagedBitmap
  import Wblist

  /** What a packet amounts to: its checks come out as they may, with the source that validation leaves. */
  datatype Packet = Packet(tooShort: bool, valid: bool, source: u32, fragment: bool, sendComplete: bool)

  // ----- what a history of packets means -----

  predicate Accepted(p: Packet) { !p.tooShort && p.valid }

  /** The sources of the accepted packets, in order. */
  function Sources(h: seq<Packet>): (s: seq<u32>)
    ensures |s| <= |h|
  {
    if h == [] then []
    else Sources(h[..|h| - 1]) + (if Accepted(h[|h| - 1]) then [h[|h| - 1].source] else [])
  }

  /** The sources at their first accepted packet, in order. */
  function Firsts(h: seq<Packet>): (s: seq<u32>)
    ensures |s| <= |Sources(h)|
  {
    if h == [] then []
    else Firsts(h[..|h| - 1]) + (if IsFirst(h[..|h| - 1], h[|h| - 1]) then [h[|h| - 1].source] else [])
  }

  predicate IsFirst(h: seq<Packet>, p: Packet) { Accepted(p) && p.source !in Sources(h) }

  /** How many packets were rejected by validation, how many accepted ones were fragments. */
  function Rejected(h: seq<Packet>): nat {
    if h == [] then 0
    else Rejected(h[..|h| - 1]) + (if !h[|h| - 1].tooShort && !h[|h| - 1].valid then 1 else 0)
  }

  function Fragments(h: seq<Packet>): nat {
    if h == [] then 0
    else Fragments(h[..|h| - 1]) + (if Accepted(h[|h| - 1]) && h[|h| - 1].fragment then 1 else 0)
  }

  /** Accepted packets after sending completed, and the first ones of their source among them. */
  function Cooldown(h: seq<Packet>): (n: nat)
    ensures n <= |Sources(h)|
  {
    if h == [] then 0
    else Cooldown(h[..|h| - 1]) + (if Accepted(h[|h| - 1]) && h[|h| - 1].sendComplete then 1 else 0)
  }

  function CooldownFirsts(h: seq<Packet>): (n: nat)
    ensures n <= Cooldown(h) && n <= |Firsts(h)|
  {
    if h == [] then 0
    else CooldownFirsts(h[..|h| - 1]) + (if IsFirst(h[..|h| - 1], h[|h| - 1]) && h[|h| - 1].sendComplete then 1 else 0)
  }

  lemma {:induction false} FirstsElems(h: seq<Packet>)
    ensures forall a :: a in Firsts(h) <==> a in Sources(h)
    ensures NoDup(Firsts(h))
  {
    if h != [] {
      FirstsElems(h[..|h| - 1]);
    }
  }

  /** First sources are all the sources, each once. */
  lemma FirstsAreTheSet(h: seq<Packet>)
    ensures NoDup(Firsts(h)) && Elems(Firsts(h)) == Elems(Sources(h)) && |Firsts(h)| == |Elems(Sources(h))|
  {
    FirstsElems(h);
    NoDupSize(Firsts(h));
    assert Elems(Firsts(h)) == Elems(Sources(h));
  }

  // The counts are the numbers of packets with the property that they are named for.

  ghost function RejectedSet(h: seq<Packet>): set<nat> {
    set i: nat | i in Below(|h|) && !h[i].tooShort && !h[i].valid
  }

  ghost function FragmentSet(h: seq<Packet>): set<nat> {
    set i: nat | i in Below(|h|) && !h[i].tooShort && h[i].valid && h[i].fragment
  }

  ghost function CooldownSet(h: seq<Packet>): set<nat> {
    set i: nat | i in Below(|h|) && !h[i].tooShort && h[i].valid && h[i].sendComplete
  }

  lemma {:induction false} CountsMean(h: seq<Packet>)
    ensures Rejected(h) == |RejectedSet(h)| && Fragments(h) == |FragmentSet(h)| && Cooldown(h) == |CooldownSet(h)|
  {
    hide Below;
    if h == [] {
      assert RejectedSet(h) == {} && FragmentSet(h) == {} && CooldownSet(h) == {};
    } else {
      var n, g := |h| - 1, h[..|h| - 1];
      CountsMean(g);
      SetsGrow(h);
      hide RejectedSet, FragmentSet, CooldownSet;
    }
  }

  lemma SetsGrow(h: seq<Packet>)
    requires h != []
    ensures var n, g, p := |h| - 1, h[..|h| - 1], h[|h| - 1];
            && n !in RejectedSet(g) && n !in FragmentSet(g) && n !in CooldownSet(g)
            && RejectedSet(h) == RejectedSet(g) + (if !p.tooShort && !p.valid then {n} else {})
            && FragmentSet(h) == FragmentSet(g) + (if Accepted(p) && p.fragment then {n} else {})
            && CooldownSet(h) == CooldownSet(g) + (if Accepted(p) && p.sendComplete then {n} else {})
  {
    hide Below;
    var g := h[..|h| - 1];
    forall i: nat | i < |g| ensures g[i] == h[i] {
    }
  }

  /** What a 32-bit counter shows. */
  function Counted(n: nat): u32 { n % 0x1_0000_0000 }

  /** As long as fewer than 2^32 packets are accepted, the stored counters are ordered as their names say. */
  lemma CountersOrdered(h: seq<Packet>)
    requires |Sources(h)| < 0x1_0000_0000
    ensures Counted(|Firsts(h)|) == |Elems(Sources(h))|
    ensures Counted(CooldownFirsts(h)) <= Counted(Cooldown(h)) <= Counted(|Sources(h)|)
    ensures Counted(CooldownFirsts(h)) <= Counted(|Firsts(h)|) <= Counted(|Sources(h)|)
  {
    hide Sources, Firsts, Cooldown, CooldownFirsts, Counted;
    FirstsAreTheSet(h);
    CountedSmall();
  }

  lemma CountedSmall()
    ensures forall n: nat :: n < 0x1_0000_0000 ==> Counted(n) == n
  {
  }

  // ----- the receiver -----

  function Next(c: u32): u32 { if c == 0xffff_ffff then 0 else c + 1 }

  class Receiver {
    const seen: Bitmap
    const filterDuplicates: bool
    var validationFailed: u32
    var validationPassed: u32
    var ipFragments: u32
    var successTotal: u32
    var successUnique: u32
    var cooldownTotal: u32
    var cooldownUnique: u32
    var filterSuccess: u32
    var processed: seq<u32>        // the sources of the packets handed to the probe
    ghost var history: seq<Packet>

    /** The bitmap holds exactly these sources, in host byte order. */
    ghost predicate Knows(sources: seq<u32>)
      reads seen.pages, seen.pages[..]
    {
      seen.Valid() && forall a: u32 :: Wblist.Ntohl(a) in seen.Contents() <==> a in sources
    }

    /** The bitmap is the set of accepted sources, every counter counts what it is named for. */
    ghost predicate Valid()
      reads this, seen.pages, seen.pages[..]
    {
      && Knows(Sources(history))
      && validationFailed == Counted(Rejected(history))
      && validationPassed == successTotal == Counted(|Sources(history)|)
      && ipFragments == Counted(Fragments(history))
      && successUnique == Counted(|Firsts(history)|)
      && cooldownTotal == Counted(Cooldown(history))
      && cooldownUnique == Counted(CooldownFirsts(history))
      && filterSuccess == Counted(|processed|)
      && processed == (if filterDuplicates then Firsts(history) else Sources(history))
    }

    constructor (filterDuplicates: bool)
      ensures Valid() && history == [] && this.filterDuplicates == filterDuplicates && fresh(seen.pages)
    {
      this.filterDuplicates := filterDuplicates;
      seen := new Bitmap();
      validationFailed, validationPassed, ipFragments := 0, 0, 0;
      successTotal, successUnique, cooldownTotal, cooldownUnique, filterSuccess := 0, 0, 0, 0, 0;
      processed, history := [], [];
    }

    method IsRepeat(source: u32, ghost sources: seq<u32>) returns (b: bool)
      requires Knows(sources)
      ensures b <==> source in sources
      ensures b ==> Knows(sources + [source])
    {
      hide Wblist.Ntohl, seen.Valid, seen.Has, seen.Contents;
      b := seen.Check(Wblist.Ntohl(source));
    }

    method Remember(source: u32, ghost sources: seq<u32>)
      requires Knows(sources)
      modifies seen.pages, seen.pages[..]
      ensures Knows(sources + [source])
    {
      hide Wblist.Ntohl, seen.Valid, seen.Has, seen.Contents;
      seen.Set(Wblist.Ntohl(source));
      forall a: u32 ensures Wblist.Ntohl(a) == Wblist.Ntohl(source) <==> a == source { NtohlInjective(a, source); }
    }

    /** Counts an accepted packet. */
    method Tally(p: Packet, isRepeat: bool)
      modifies `ipFragments, `successTotal, `successUnique, `cooldownTotal, `cooldownUnique
      ensures ipFragments == if p.fragment then Next(old(ipFragments)) else old(ipFragments)
      ensures successTotal == Next(old(successTotal))
      ensures successUnique == if isRepeat then old(successUnique) else Next(old(successUnique))
      ensures cooldownTotal == if p.sendComplete then Next(old(cooldownTotal)) else old(cooldownTotal)
      ensures cooldownUnique == if p.sendComplete && !isRepeat then Next(old(cooldownUnique)) else old(cooldownUnique)
    {
      if p.fragment {
        ipFragments := Next(ipFragments);
      }
      successTotal := Next(successTotal);
      if !isRepeat {
        successUnique := Next(successUnique);
      }
      if p.sendComplete {
        cooldownTotal := Next(cooldownTotal);
        if !isRepeat {
          cooldownUnique := Next(cooldownUnique);
        }
      }
    }

    method Handle(p: Packet)
      requires Valid()
      modifies this, seen.pages, seen.pages[..]
      ensures Valid() && history == old(history) + [p]
    {
      hide Wblist.Ntohl, Counted, Next, Sources, Firsts, Rejected, Fragments, Cooldown, CooldownFirsts, Knows;
      ghost var h := history;
      HistoryStep(h, p);
      NextCounts(h);
      history := history + [p];
      if p.tooShort {
        return;
      }
      if !p.valid {
        validationFailed := Next(validationFailed);
        return;
      }
      validationPassed := Next(validationPassed);
      var isRepeat := Accept(p, h);
      Tally(p, isRepeat);
      if isRepeat && filterDuplicates {
        return;
      }
      filterSuccess := Next(filterSuccess);
      processed := processed + [p.source];
    }

    /** Looks an accepted packet's source up and enters it when it is new. */
    method Accept(p: Packet, ghost h: seq<Packet>) returns (isRepeat: bool)
      requires Knows(Sources(h))
      modifies seen.pages, seen.pages[..]
      ensures Knows(Sources(h) + [p.source]) && (isRepeat <==> p.source in Sources(h))
    {
      hide Sources, Knows;
      isRepeat := IsRepeat(p.source, Sources(h));
      if !isRepeat {
        Remember(p.source, Sources(h));
      }
    }
  }

  lemma NextCount(n: nat)
    ensures Next(Counted(n)) == Counted(n + 1)
  {
  }

  lemma NextCounts(h: seq<Packet>)
    ensures Next(Counted(Rejected(h))) == Counted(Rejected(h) + 1) && Next(Counted(|Sources(h)|)) == Counted(|Sources(h)| + 1)
    ensures Next(Counted(Fragments(h))) == Counted(Fragments(h) + 1) && Next(Counted(|Firsts(h)|)) == Counted(|Firsts(h)| + 1)
    ensures Next(Counted(Cooldown(h))) == Counted(Cooldown(h) + 1)
    ensures Next(Counted(CooldownFirsts(h))) == Counted(CooldownFirsts(h) + 1)
  {
    hide Counted, Next, Sources, Firsts, Rejected, Fragments, Cooldown, CooldownFirsts;
    NextCount(Rejected(h));
    NextCount(|Sources(h)|);
    NextCount(Fragments(h));
    NextCount(|Firsts(h)|);
    NextCount(Cooldown(h));
    NextCount(CooldownFirsts(h));
  }

  lemma NtohlInjective(a: u32, b: u32)
    ensures Wblist.Ntohl(a) == Wblist.Ntohl(b) <==> a == b
  {
    hide Wblist.Ntohl;
    Wblist.NtohlInvolution(a);
    Wblist.NtohlInvolution(b);
  }

  /** One packet more. */
  lemma HistoryStep(h: seq<Packet>, p: Packet)
    ensures var g := h + [p];
            && Sources(g) == (if Accepted(p) then Sources(h) + [p.source] else Sources(h))
            && Firsts(g) == (if IsFirst(h, p) then Firsts(h) + [p.source] else Firsts(h))
            && Rejected(g) == Rejected(h) + (if !p.tooShort && !p.valid then 1 else 0)
            && Fragments(g) == Fragments(h) + (if Accepted(p) && p.fragment then 1 else 0)
            && Cooldown(g) == Cooldown(h) + (if Accepted(p) && p.sendComplete then 1 else 0)
            && CooldownFirsts(g) == CooldownFirsts(h) + (if IsFirst(h, p) && p.sendComplete then 1 else 0)
  {
    assert (h + [p])[..|h + [p]| - 1] == h;
  }
}
