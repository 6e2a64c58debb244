/** The allow and deny list over the prefix trie. */
module Wblist {
  import opened Arith
  import opened TrieModel
  import opened TrieRuns
  import opened TrieCount
  import opened Iptree

  const DISALLOWED: u32 := 0
  const ALLOWED: u32 := 1

  type byte = x: nat | x < 0x100

  /** The number with four given bytes, most significant first. */
  function Join(a: byte, b: byte, c: byte, d: byte): (r: nat)
    ensures r < 0x1_0000_0000
  {
    0x100 * (0x100 * (0x100 * a + b) + c) + d
  }

  /** Byte i of an address, counted from the least significant. */
  function ByteOf(a: nat, i: nat): byte {
    if i == 0 then a % 0x100 else ByteOf(a / 0x100, i - 1)
  }

  lemma JoinBytes(a: byte, b: byte, c: byte, d: byte)
    ensures var r := Join(a, b, c, d); ByteOf(r, 0) == d && ByteOf(r, 1) == c && ByteOf(r, 2) == b && ByteOf(r, 3) == a
  {
    var ab := 0x100 * a + b;
    var abc := 0x100 * ab + c;
    assert Join(a, b, c, d) / 0x100 == abc && abc / 0x100 == ab && ab / 0x100 == a;
    assert ByteOf(a, 0) == a;
    assert ByteOf(ab, 1) == ByteOf(a, 0);
    assert ByteOf(abc, 2) == ByteOf(ab, 1) && ByteOf(abc, 1) == ByteOf(ab, 0);
  }

  lemma BytesJoin(a: u32)
    ensures Join(ByteOf(a, 3), ByteOf(a, 2), ByteOf(a, 1), ByteOf(a, 0)) == a
  {
    var b := a / 0x100;
    var c := b / 0x100;
    var d := c / 0x100;
    assert ByteOf(a, 1) == ByteOf(b, 0);
    assert ByteOf(a, 2) == ByteOf(b, 1) == ByteOf(c, 0);
    assert ByteOf(a, 3) == ByteOf(b, 2) == ByteOf(c, 1) == ByteOf(d, 0) == d;
  }

  /** Reverses the four bytes of an address, as ntohl and htonl do on a little-endian host. */
  function Ntohl(a: nat): (r: nat)
    ensures r < 0x1_0000_0000
  {
    Join(ByteOf(a, 0), ByteOf(a, 1), ByteOf(a, 2), ByteOf(a, 3))
  }

  /** The number with the bytes of a 32-bit word in reverse: the lowest one becomes the highest, and so on. */
  function Reversed(a: nat): nat {
    a % 0x100 * 0x100_0000 + a / 0x100 % 0x100 * 0x1_0000 + a / 0x1_0000 % 0x100 * 0x100 + a / 0x100_0000
  }

  lemma NtohlBytes(a: u32)
    ensures Ntohl(a) == a % 0x100 * 0x100_0000 + a / 0x100 % 0x100 * 0x1_0000 + a / 0x1_0000 % 0x100 * 0x100 + a / 0x100_0000
    ensures Ntohl(a) == Reversed(a)
  {
    BytesOf(a);
  }

  lemma BytesOf(a: u32)
    ensures ByteOf(a, 0) == a % 0x100 && ByteOf(a, 1) == a / 0x100 % 0x100
    ensures ByteOf(a, 2) == a / 0x1_0000 % 0x100 && ByteOf(a, 3) == a / 0x100_0000
  {
    ByteMoves(a, 1);
    ByteMoves(a, 2);
    ByteMoves(a / 0x100, 1);
    ByteMoves(a, 3);
    ByteMoves(a / 0x100, 2);
    ByteMoves(a / 0x1_0000, 1);
    hide ByteOf;
    QuotientOfQuotient(a);
    LowestByte(a);
    LowestByte(a / 0x100);
    LowestByte(a / 0x1_0000);
    LowestByte(a / 0x100_0000);
  }

  lemma ByteMoves(a: nat, i: nat)
    requires i > 0
    ensures ByteOf(a, i) == ByteOf(a / 0x100, i - 1)
  {
  }

  lemma LowestByte(a: nat)
    ensures ByteOf(a, 0) == a % 0x100
  {
  }

  lemma QuotientOfQuotient(a: nat)
    ensures a / 0x100 / 0x100 == a / 0x1_0000 && a / 0x1_0000 / 0x100 == a / 0x100_0000
  {
  }

  /** Byte reversal undoes itself, so it maps addresses one to one and only 0 to 0. */
  lemma NtohlInvolution(a: u32)
    ensures Ntohl(Ntohl(a)) == a
  {
    JoinBytes(ByteOf(a, 0), ByteOf(a, 1), ByteOf(a, 2), ByteOf(a, 3));
    BytesJoin(a);
  }

  lemma NtohlZero(a: u32)
    ensures Ntohl(a) == 0 <==> a == 0
  {
    hide Ntohl;
    ZeroReversed();
    if Ntohl(a) == 0 { NtohlInvolution(a); }
  }

  lemma ZeroReversed()
    ensures Ntohl(0) == 0
  {
    assert ByteOf(0, 0) == 0;
    assert ByteOf(0, 1) == ByteOf(0, 0);
    assert ByteOf(0, 2) == ByteOf(0, 1);
    assert ByteOf(0, 3) == ByteOf(0, 2);
  }

  /** A list of prefixes to insert with one value. */
  type Prefixes = seq<(u32, int)>

  function Tagged(ps: Prefixes, value: u32): (es: seq<Entry>)
    ensures |es| == |ps| && forall i :: 0 <= i < |ps| ==> es[i] == Entry(ps[i].0, ps[i].1, value)
    ensures Addresses(es)
  {
    BlockFacts();
    seq(|ps|, i requires 0 <= i < |ps| => Entry(ps[i].0, ps[i].1, value))
  }

  const ZERO := Entry(0, 256, DISALLOWED)

  /** The insertions a list makes: allowed prefixes, denied prefixes, and last 0.0.0.0. */
  function Entries(white: Prefixes, black: Prefixes): (es: seq<Entry>)
    ensures Addresses(es)
  {
    BlockFacts();
    Tagged(white, ALLOWED) + Tagged(black, DISALLOWED) + [ZERO]
  }

  /** The value of addresses no prefix mentions: allowed unless allowed prefixes were given. */
  function Default(whiteGiven: bool): u32 {
    if whiteGiven then DISALLOWED else ALLOWED
  }

  function Allowing(whiteGiven: bool, white: Prefixes): Prefixes {
    if whiteGiven then white else []
  }

  /** The trie of a list. */
  ghost function ListTrie(whiteGiven: bool, white: Prefixes, black: Prefixes): Tree {
    var t := Run(false, Leaf(Default(whiteGiven)), Tagged(Allowing(whiteGiven, white), ALLOWED));
    Apply(false, Run(false, t, Tagged(black, DISALLOWED)), ZERO)
  }

  lemma EntriesAddresses(white: Prefixes, black: Prefixes)
    ensures Addresses(Entries(white, black))
    ensures Addresses(Tagged(white, ALLOWED) + Tagged(black, DISALLOWED))
  {
    BlockFacts();
  }

  lemma ListTrieIsRun(whiteGiven: bool, white: Prefixes, black: Prefixes)
    ensures Addresses(Entries(Allowing(whiteGiven, white), black))
    ensures ListTrie(whiteGiven, white, black) ==
              Run(false, Leaf(Default(whiteGiven)), Entries(Allowing(whiteGiven, white), black))
  {
    var ws := Allowing(whiteGiven, white);
    var es := Entries(ws, black);
    EntriesAddresses(ws, black);
    RunConcat(false, Leaf(Default(whiteGiven)), Tagged(ws, ALLOWED), Tagged(black, DISALLOWED));
    assert es[..|es| - 1] == Tagged(ws, ALLOWED) + Tagged(black, DISALLOWED);
  }

  class Wblist {
    const tree: IpTree

    ghost predicate Valid()
      reads this, tree, tree.radix, tree.root, tree.root.Repr
    {
      tree.Valid() && this !in tree.Repr()
    }

    constructor (tree: IpTree)
      ensures this.tree == tree
    {
      this.tree := tree;
    }

    /**
     * Inserts all prefixes in order, then 0.0.0.0, and paints the allowed addresses.  Null when
     * no address is left to scan.
     */
    static method Create(whiteGiven: bool, white: Prefixes, black: Prefixes) returns (w: Wblist?)
      ensures w == null <==> CountedSet(ListTrie(whiteGiven, white, black), W, ALLOWED) == {}
      ensures w != null ==> fresh(w) && fresh(w.tree.Repr()) && w.Valid()
      ensures w != null ==> w.tree.Model() == ListTrie(whiteGiven, white, black)
      ensures w != null ==> w.tree.painted && w.tree.paintValue == ALLOWED
    {
      hide Run, Insert, Tagged, IpTree.Valid, CountedSet, Count, Addresses, Pow2;
      var tree := new IpTree(if whiteGiven then DISALLOWED else ALLOWED);
      if whiteGiven {
        AddAll(tree, white, ALLOWED);
      } else {
        RunNothing(tree.Model());
      }
      AddAll(tree, black, DISALLOWED);
      tree.Add(0, 256, DISALLOWED);
      tree.PaintValue(ALLOWED);
      var allowed := tree.CountIps(ALLOWED);
      if allowed == 0 {
        return null;
      }
      w := new Wblist(tree);
    }

    method LookupIndex(index: u64) returns (a: u32)
      requires Valid()
      modifies tree.Repr()
      ensures Valid() && tree.Repr() == old(tree.Repr()) && tree.Model() == old(tree.Model())
      ensures Index(tree.Model(), ALLOWED, index) < 0x1_0000_0000
      ensures a == Ntohl(Index(tree.Model(), ALLOWED, index))
      ensures a == Reversed(Index(tree.Model(), ALLOWED, index))
    {
      hide Index, IpTree.Valid, Ntohl, Reversed;
      var i := tree.LookupIndex(index, ALLOWED);
      NtohlBytes(i);
      a := Ntohl(i);
    }

    /** Whether an address, in network byte order, may be scanned. */
    method IsAllowed(address: u32) returns (b: bool)
      requires Valid()
      ensures Ntohl(address) < Pow2(W) && (b <==> Look(tree.Model(), W, Ntohl(address)) == ALLOWED)
      ensures Reversed(address) < Pow2(W) && (b <==> Look(tree.Model(), W, Reversed(address)) == ALLOWED)
    {
      hide Look, IpTree.Valid, Ntohl, Reversed, Pow2;
      NtohlBytes(address);
      var v := tree.LookupIp(Ntohl(address));
      b := v == ALLOWED;
    }

    method CountAllowed() returns (n: u64)
      requires Valid()
      ensures n == |CountedSet(tree.Model(), W, ALLOWED)|
    {
      n := tree.CountIps(ALLOWED);
    }
  }

  lemma RunNothing(t: Tree)
    ensures Run(false, t, []) == t && Tagged([], ALLOWED) == []
  {
  }

  lemma RunExtend(t: Tree, es: seq<Entry>, n: nat)
    requires Addresses(es) && n < |es|
    ensures Run(false, t, es[..n + 1]) == Apply(false, Run(false, t, es[..n]), es[n])
  {
    assert es[..n + 1][..n] == es[..n];
  }

  /** Adds the prefixes one by one. */
  method AddAll(tree: IpTree, ps: Prefixes, value: u32)
    requires tree.Valid()
    modifies tree.Repr()
    ensures tree.Valid() && fresh(tree.Repr() - old(tree.Repr()))
    ensures tree.Model() == Run(false, old(tree.Model()), Tagged(ps, value))
  {
    hide Run, Insert;
    ghost var es := Tagged(ps, value);
    var i := 0;
    assert es[..0] == [];
    RunNothing(tree.Model());
    while i < |ps|
      invariant 0 <= i <= |ps|
      invariant tree.Valid() && fresh(tree.Repr() - old(tree.Repr()))
      invariant tree.Model() == Run(false, old(tree.Model()), es[..i])
    {
      RunExtend(old(tree.Model()), es, i);
      tree.Add(ps[i].0, ps[i].1, value);
      i := i + 1;
    }
    assert es[..|ps|] == es;
  }

  /** 0.0.0.0 is never allowed, whatever was inserted before. */
  lemma ZeroDisallowed(whiteGiven: bool, white: Prefixes, black: Prefixes)
    ensures 0 < Pow2(W) && Look(ListTrie(whiteGiven, white, black), W, 0) == DISALLOWED
  {
    var ws, d := Allowing(whiteGiven, white), Default(whiteGiven);
    EntriesAddresses(ws, black);
    var fs := Tagged(ws, ALLOWED) + Tagged(black, DISALLOWED);
    RunConcat(false, Leaf(d), Tagged(ws, ALLOWED), Tagged(black, DISALLOWED));
    UnderSelf(W, 0, 256);
    DepthBound(d, fs, 0, MAXLEN);
    InsertEffect(Run(false, Leaf(d), fs), W, 0, 256, DISALLOWED, 0);
  }

  ghost predicate Listed(ps: Prefixes, a: nat)
    requires a < Pow2(W)
  {
    exists i :: 0 <= i < |ps| && InPrefix(ps[i], a)
  }

  /** The address agrees with the prefix in its first bits; lengths above 32 mean the address itself. */
  ghost predicate InPrefix(p: (u32, int), a: nat)
    requires a < Pow2(W)
  {
    BlockFacts();
    && 0 <= p.1 <= MAXLEN
    && if p.1 <= W then a / Pow2(W - p.1) == p.0 / Pow2(W - p.1) else a == p.0
  }

  lemma MatchesIsInPrefix(p: (u32, int), value: u32, a: nat)
    requires a < Pow2(W)
    ensures Address(p.0) && Address(a) && (Matches(Entry(p.0, p.1, value), a) <==> InPrefix(p, a))
  {
    BlockFacts();
    if 0 <= p.1 <= MAXLEN { UnderMeaning(W, a, p.0, p.1); }
  }

  lemma BareMatch(address: u32, value: u32, a: nat)
    requires a < Pow2(W)
    ensures Address(address) && Address(a) && (Matches(Entry(address, 256, value), a) <==> a == address)
  {
    MatchesIsInPrefix((address, 256), value, a);
  }

  /** What the lists are documented to allow. */
  ghost predicate Intended(whiteGiven: bool, white: Prefixes, black: Prefixes, a: nat)
    requires a < Pow2(W)
  {
    a != 0 && (whiteGiven ==> Listed(white, a)) && !Listed(black, a)
  }

  /** The last entry matching an address decides it as the lists intend. */
  lemma LastMatchIsIntended(whiteGiven: bool, white: Prefixes, black: Prefixes, a: nat)
    requires a < Pow2(W)
    ensures LastMatch(Default(whiteGiven), Entries(Allowing(whiteGiven, white), black), a) == ALLOWED
        <==> Intended(whiteGiven, white, black, a)
  {
    hide InPrefix, Matches;
    var ws, d := Allowing(whiteGiven, white), Default(whiteGiven);
    EntriesAddresses(ws, black);
    var es := Entries(ws, black);
    assert es[..|es| - 1] == Tagged(ws, ALLOWED) + Tagged(black, DISALLOWED);
    BareMatch(0, DISALLOWED, a);
    LastMatchConcat(d, Tagged(ws, ALLOWED), Tagged(black, DISALLOWED), a);
    LastMatchTagged(d, ws, ALLOWED, a);
    LastMatchTagged(LastMatch(d, Tagged(ws, ALLOWED), a), black, DISALLOWED, a);
  }

  /** Among entries with one value, the last match is that value iff one of them matches. */
  lemma {:induction false} LastMatchTagged(d: nat, ps: Prefixes, value: u32, a: nat)
    requires a < Pow2(W)
    ensures LastMatch(d, Tagged(ps, value), a) == if Listed(ps, a) then value else d
    decreases |ps|
  {
    hide InPrefix, Matches;
    if ps != [] {
      var n, qs := |ps| - 1, ps[..|ps| - 1];
      LastMatchTagged(d, qs, value, a);
      assert Tagged(ps, value)[..n] == Tagged(qs, value);
      MatchesIsInPrefix(ps[n], value, a);
      if Listed(ps, a) && !InPrefix(ps[n], a) {
        var i :| 0 <= i < |ps| && InPrefix(ps[i], a);
        assert qs[i] == ps[i];
      }
      if Listed(qs, a) {
        var i :| 0 <= i < |qs| && InPrefix(qs[i], a);
        assert ps[i] == qs[i];
      }
    }
  }

  /** An address of a list's trie is allowed or denied. */
  lemma AllowedOrDenied(whiteGiven: bool, white: Prefixes, black: Prefixes, a: nat)
    requires a < Pow2(W)
    ensures Look(ListTrie(whiteGiven, white, black), W, a) in {ALLOWED, DISALLOWED}
  {
    hide Insert, Run;
    ListTrieIsRun(whiteGiven, white, black);
    var v := Look(ListTrie(whiteGiven, white, black), W, a);
    if v != ALLOWED && v != DISALLOWED {
      ValueOrigin(Default(whiteGiven), Entries(Allowing(whiteGiven, white), black), a, v);
    }
  }

  /**
   * A list allows an address as it intends iff the last of its insertions that contains the
   * address takes effect there.
   */
  lemma IntendedIff(whiteGiven: bool, white: Prefixes, black: Prefixes, a: nat)
    requires a < Pow2(W)
    ensures (Look(ListTrie(whiteGiven, white, black), W, a) == ALLOWED <==> Intended(whiteGiven, white, black, a))
        <==> Decided(Default(whiteGiven), Entries(Allowing(whiteGiven, white), black), a)
  {
    hide InPrefix, Insert, Run, Decided, Look, Intended, ListTrie, Entries;
    var d, es := Default(whiteGiven), Entries(Allowing(whiteGiven, white), black);
    ListTrieIsRun(whiteGiven, white, black);
    AllowedOrDenied(whiteGiven, white, black, a);
    LastMatchIsIntended(whiteGiven, white, black, a);
    LastAllowedOrDenied(whiteGiven, white, black, a);
    DocumentedIff(d, es, a);
  }

  lemma LastAllowedOrDenied(whiteGiven: bool, white: Prefixes, black: Prefixes, a: nat)
    requires a < Pow2(W)
    ensures LastMatch(Default(whiteGiven), Entries(Allowing(whiteGiven, white), black), a) in {ALLOWED, DISALLOWED}
  {
    LastMatchOrigin(Default(whiteGiven), Entries(Allowing(whiteGiven, white), black), a);
  }

  lemma {:induction false} LastMatchOrigin(d: nat, es: seq<Entry>, a: nat)
    requires Addresses(es) && a < Pow2(W)
    ensures LastMatch(d, es, a) == d || exists i :: 0 <= i < |es| && LastMatch(d, es, a) == es[i].value
    decreases |es|
  {
    hide Matches;
    if es != [] && !Matches(es[|es| - 1], a) {
      var fs := es[..|es| - 1];
      LastMatchOrigin(d, fs, a);
      if LastMatch(d, fs, a) != d {
        var i :| 0 <= i < |fs| && LastMatch(d, fs, a) == fs[i].value;
        assert es[i] == fs[i];
      }
    }
  }

  /** When no prefix lies inside a shorter one that is inserted later, the list allows what it intends. */
  lemma NestFreeListIsIntended(whiteGiven: bool, white: Prefixes, black: Prefixes, a: nat)
    requires a < Pow2(W)
    requires NestFree(Entries(Allowing(whiteGiven, white), black))
    ensures Look(ListTrie(whiteGiven, white, black), W, a) == ALLOWED <==> Intended(whiteGiven, white, black, a)
  {
    hide InPrefix, NestFree, Insert, Run, Look, Intended, ListTrie, Entries;
    ListTrieIsRun(whiteGiven, white, black);
    LastMatchIsIntended(whiteGiven, white, black, a);
    NestFreeRun(Default(whiteGiven), Entries(Allowing(whiteGiven, white), black), a);
  }

  /** The same holds in any order for a trie whose collapse works. */
  lemma CollapsingListIsIntended(whiteGiven: bool, white: Prefixes, black: Prefixes, a: nat)
    requires a < Pow2(W)
    ensures Look(Run(true, Leaf(Default(whiteGiven)), Entries(Allowing(whiteGiven, white), black)), W, a) == ALLOWED
        <==> Intended(whiteGiven, white, black, a)
  {
    hide InPrefix;
    LastMatchIsIntended(whiteGiven, white, black, a);
    CollapsingRun(Default(whiteGiven), Entries(Allowing(whiteGiven, white), black), a);
  }

  /** In any order, an address outside every allowed prefix is never allowed. */
  lemma NeverAllowsUnlisted(white: Prefixes, black: Prefixes, a: nat)
    requires a < Pow2(W) && !Listed(white, a)
    ensures Look(ListTrie(true, white, black), W, a) == DISALLOWED
  {
    hide InPrefix;
    forall i | 0 <= i < |white| ensures !Matches(Tagged(white, ALLOWED)[i], a) {
      MatchesIsInPrefix(white[i], ALLOWED, a);
    }
    UnmatchedRun(false, Leaf(DISALLOWED), Tagged(white, ALLOWED), a);
    DenyingKeeps(Run(false, Leaf(DISALLOWED), Tagged(white, ALLOWED)), Tagged(black, DISALLOWED) + [ZERO], a);
    BlockFacts();
    var bs := Tagged(black, DISALLOWED) + [ZERO];
    assert bs[..|bs| - 1] == Tagged(black, DISALLOWED);
  }

  /** Inserting only denials never allows an address. */
  lemma {:induction false} DenyingKeeps(t: Tree, es: seq<Entry>, a: nat)
    requires Addresses(es) && a < Pow2(W) && Look(t, W, a) == DISALLOWED
    requires forall i :: 0 <= i < |es| ==> es[i].value == DISALLOWED
    ensures Look(Run(false, t, es), W, a) == DISALLOWED
    decreases |es|
  {
    if es != [] {
      var e, fs := es[|es| - 1], es[..|es| - 1];
      DenyingKeeps(t, fs, a);
      if Accepted(e) { InsertEffect(Run(false, t, fs), W, e.prefix, e.len, e.value, a); }
    }
  }

  /** Allowing a single bare address, which defaults to length 256, leaves nothing to scan. */
  lemma BareAddressCountsNothing(address: u32)
    ensures CountedSet(ListTrie(true, [(address, 256)], []), W, ALLOWED) == {}
  {
    BlockFacts();
    var white: Prefixes := [(address, 256)];
    var e := Entry(address, 256, ALLOWED);
    var t := Apply(false, Leaf(DISALLOWED), e);
    assert Tagged(white, ALLOWED) == [e] && [e][..0] == [] && Tagged([], DISALLOWED) == [];
    RunNothing(t);
    RunNothing(Leaf(DISALLOWED));
    var u := Apply(false, t, ZERO);
    assert ListTrie(true, white, []) == u;
    forall a: nat | a < Pow2(W) ensures !Counted(u, W, ALLOWED, a) {
      InsertEffect(Leaf(DISALLOWED), W, address, 256, ALLOWED, a);
      assert StateOf(t, W, a).value == ALLOWED ==> StateOf(t, W, a).depth == 256;
      InsertEffect(t, W, 0, 256, DISALLOWED, a);
      assert StateOf(u, W, a).value == ALLOWED ==> StateOf(u, W, a).depth == 256;
    }
  }
}
