/** Which of the allowed addresses a list's trie counts: all but those that only an over-long prefix allows. */
module ListCount {
  import opened Arith
  import opened TrieModel
  import opened TrieRuns
  import opened TrieCount
  import opened Wblist

  // ----- one insertion -----

  lemma {:induction false} CommonBelow(k: nat, r: nat, p: nat, len: nat)
    requires r < Pow2(k) && p < Pow2(k) && r != p
    ensures Common(k, r, p, len) < k
    decreases len
  {
    if len > 0 && GoesRight(k, r) == GoesRight(k, p) {
      if k > 0 { CommonBelow(k - 1, Strip(k, r), Strip(k, p), len - 1); }
    }
  }

  /** An entry longer than 32 bits touches its own address deeper than 32 and others at most 32 deep. */
  lemma LongEffect(t: Tree, e: Entry, a: nat)
    requires Address(e.prefix) && Address(a) && W < e.len <= MAXLEN
    ensures var s, s' := StateOf(t, W, a), StateOf(Apply(false, t, e), W, a);
            if a == e.prefix then
              s' == s || (s' == State(e.value, e.len) && s.depth <= e.len && (s.value != e.value || s.depth == e.len))
            else s'.value == s.value && (s' == s || (s.value != e.value && s'.depth <= W))
    ensures var s, s' := StateOf(t, W, a), StateOf(Apply(false, t, e), W, a);
            a == e.prefix && s.depth <= e.len ==> s'.value == e.value
  {
    hide Insert, Look, LeafDepth;
    InsertEffect(t, W, e.prefix, e.len, e.value, a);
    if a == e.prefix { UnderSelf(W, a, e.len); } else { CommonBelow(W, a, e.prefix, e.len); }
  }

  /** Allowing a prefix longer than 32 bits changes no count: an address is counted iff it was counted before. */
  lemma LongAllowCountsNothing(t: Tree, e: Entry, a: nat)
    requires Address(e.prefix) && Address(a) && W < e.len <= MAXLEN && e.value == ALLOWED
    ensures Counted(Apply(false, t, e), W, ALLOWED, a) <==> Counted(t, W, ALLOWED, a)
  {
    hide Apply, Look, LeafDepth;
    LongEffect(t, e, a);
  }

  /** Denying, at any length, leaves an address that stays allowed counted or uncounted as it was. */
  lemma DenyKeepsCounted(t: Tree, e: Entry, a: nat)
    requires Address(e.prefix) && Address(a) && e.value == DISALLOWED
    requires Look(Apply(false, t, e), W, a) == ALLOWED
    ensures Look(t, W, a) == ALLOWED && (Counted(Apply(false, t, e), W, ALLOWED, a) <==> Counted(t, W, ALLOWED, a))
  {
    hide Insert, Look, LeafDepth;
    if Accepted(e) {
      InsertEffect(t, W, e.prefix, e.len, e.value, a);
      if a == e.prefix { UnderSelf(W, a, e.len); } else { CommonBelow(W, a, e.prefix, e.len); }
    }
  }

  // ----- whole lists -----

  lemma {:induction false} DenialsKeepCounted(t: Tree, es: seq<Entry>, a: nat)
    requires Addresses(es) && Address(a) && forall i :: 0 <= i < |es| ==> es[i].value == DISALLOWED
    requires Look(Run(false, t, es), W, a) == ALLOWED
    ensures Look(t, W, a) == ALLOWED && (Counted(Run(false, t, es), W, ALLOWED, a) <==> Counted(t, W, ALLOWED, a))
    decreases |es|
  {
    hide Apply, Look, LeafDepth, Counted;
    if es != [] {
      var e, fs := es[|es| - 1], es[..|es| - 1];
      DenyKeepsCounted(Run(false, t, fs), e, a);
      DenialsKeepCounted(t, fs, a);
    }
  }

  /** Allowed prefix number j is longer than 32 bits and the first to allow its address. */
  ghost predicate Buries(white: Prefixes, j: nat, a: nat)
    requires j < |white| && Address(a)
  {
    && W < white[j].1 <= MAXLEN && white[j].0 == a
    && Look(Run(false, Leaf(DISALLOWED), Tagged(white[..j], ALLOWED)), W, a) == DISALLOWED
  }

  ghost predicate Buried(white: Prefixes, a: nat)
    requires Address(a)
  {
    exists j: nat :: j < |white| && Buries(white, j, a)
  }

  /** After the allowed prefixes: denied addresses lie at most 32 deep, allowed ones deeper iff buried. */
  lemma {:induction false} AllowedDepth(white: Prefixes, a: nat)
    requires Address(a)
    ensures var s := StateOf(Run(false, Leaf(DISALLOWED), Tagged(white, ALLOWED)), W, a);
            && s.value in {ALLOWED, DISALLOWED}
            && (s.value == DISALLOWED ==> s.depth <= W && !Buried(white, a))
            && (s.value == ALLOWED ==> (s.depth > W <==> Buried(white, a)))
    decreases |white|
  {
    hide Insert, Look, LeafDepth, Buries;
    if white == [] {
      assert StateOf(Leaf(DISALLOWED), W, a) == State(DISALLOWED, 0) by { LeafState(DISALLOWED, a); }
    } else {
      var n := |white| - 1;
      var ws, es := white[..n], Tagged(white, ALLOWED);
      AllowedDepth(ws, a);
      assert es[..n] == Tagged(ws, ALLOWED);
      BuriedStep(white, a);
      AllowStep(Run(false, Leaf(DISALLOWED), es[..n]), es[n], a);
      BuriesMeans(white, n, a);
    }
  }

  lemma LeafState(v: nat, a: nat)
    requires Address(a)
    ensures StateOf(Leaf(v), W, a) == State(v, 0)
  {
  }

  lemma BuriesMeans(white: Prefixes, j: nat, a: nat)
    requires j < |white| && Address(a)
    ensures Buries(white, j, a) <==>
              && W < white[j].1 <= MAXLEN && white[j].0 == a
              && Look(Run(false, Leaf(DISALLOWED), Tagged(white[..j], ALLOWED)), W, a) == DISALLOWED
  {
  }

  lemma BuriedStep(white: Prefixes, a: nat)
    requires white != [] && Address(a)
    ensures Buried(white, a) <==> Buried(white[..|white| - 1], a) || Buries(white, |white| - 1, a)
  {
    hide Look, Run;
    var ws := white[..|white| - 1];
    if j: nat :| j < |white| && Buries(white, j, a) {
      assert white[..j] == ws[..if j < |ws| then j else |ws|];
      if j < |ws| { assert Buries(ws, j, a); }
    }
    if j: nat :| j < |ws| && Buries(ws, j, a) {
      assert white[..j] == ws[..j];
      assert Buries(white, j, a);
    }
  }

  /** One allowed prefix more, seen from an address that is allowed, or denied at most 32 deep. */
  lemma AllowStep(t: Tree, e: Entry, a: nat)
    requires Address(e.prefix) && Address(a) && e.value == ALLOWED
    requires Look(t, W, a) == ALLOWED || (Look(t, W, a) == DISALLOWED && LeafDepth(t, W, a) <= W)
    ensures var s, s' := StateOf(t, W, a), StateOf(Apply(false, t, e), W, a);
            && (s.value == ALLOWED ==> s'.value == ALLOWED && (s'.depth > W <==> s.depth > W))
            && (s.value == DISALLOWED ==>
                  if W < e.len <= MAXLEN && e.prefix == a then s' == State(ALLOWED, e.len)
                  else s'.value in {ALLOWED, DISALLOWED} && s'.depth <= W)
  {
    hide Insert, Look, LeafDepth;
    if Accepted(e) {
      InsertEffect(t, W, e.prefix, e.len, e.value, a);
      if a == e.prefix { UnderSelf(W, a, e.len); } else { CommonBelow(W, a, e.prefix, e.len); }
    }
  }

  /**
   * Exactly which allowed addresses are counted: all but those that were first allowed by a
   * prefix of more than 32 bits.
   */
  lemma CountedIff(whiteGiven: bool, white: Prefixes, black: Prefixes, a: nat)
    requires Address(a) && Look(ListTrie(whiteGiven, white, black), W, a) == ALLOWED
    ensures Counted(ListTrie(whiteGiven, white, black), W, ALLOWED, a) <==> !Buried(Allowing(whiteGiven, white), a)
  {
    hide Insert, Look, LeafDepth, Buried;
    var ws, d := Allowing(whiteGiven, white), Default(whiteGiven);
    var t := Run(false, Leaf(d), Tagged(ws, ALLOWED));
    var bs := Tagged(black, DISALLOWED) + [ZERO];
    BlockFacts();
    RunConcat(false, t, Tagged(black, DISALLOWED), [ZERO]);
    assert [ZERO][..0] == [];
    assert ListTrie(whiteGiven, white, black) == Run(false, t, bs);
    DenialsKeepCounted(t, bs, a);
    CountedMeans(t, a);
    if whiteGiven {
      AllowedDepth(ws, a);
    } else {
      LeafState(ALLOWED, a);
      NothingBuried(a);
    }
  }

  lemma CountedMeans(t: Tree, a: nat)
    requires Address(a)
    ensures Counted(t, W, ALLOWED, a) <==> Look(t, W, a) == ALLOWED && LeafDepth(t, W, a) <= W
  {
  }

  lemma NothingBuried(a: nat)
    requires Address(a)
    ensures !Buried([], a) && Tagged([], ALLOWED) == []
  {
  }

  /** No allowed prefix is longer than an address. */
  ghost predicate ShortPrefixes(ps: Prefixes) {
    forall i :: 0 <= i < |ps| ==> ps[i].1 <= W
  }

  /** Then every allowed address is counted, whatever the denied prefixes. */
  lemma AllowedIsCounted(whiteGiven: bool, white: Prefixes, black: Prefixes, a: nat)
    requires Address(a) && ShortPrefixes(Allowing(whiteGiven, white))
    ensures Counted(ListTrie(whiteGiven, white, black), W, ALLOWED, a)
        <==> Look(ListTrie(whiteGiven, white, black), W, a) == ALLOWED
  {
    hide ListTrie, Look, LeafDepth;
    CountedMeans(ListTrie(whiteGiven, white, black), a);
    if Look(ListTrie(whiteGiven, white, black), W, a) == ALLOWED { CountedIff(whiteGiven, white, black, a); }
  }

  /** 0.0.0.0 is denied, so a count never reaches 2^32 and the 32-bit limit of a sender holds it. */
  lemma CountFitsLimit(whiteGiven: bool, white: Prefixes, black: Prefixes)
    ensures Total(ListTrie(whiteGiven, white, black), ALLOWED) < 0x1_0000_0000
  {
    hide Index, ListTrie;
    var t := ListTrie(whiteGiven, white, black);
    ZeroDisallowed(whiteGiven, white, black);
    TotalIsCount(t, ALLOWED);
    BlockFacts();
    BelowSize(Pow2(W));
    assert 0 in Below(Pow2(W)) && 0 !in CountedSet(t, W, ALLOWED);
    SubsetSize(CountedSet(t, W, ALLOWED), Below(Pow2(W)));
  }
}
