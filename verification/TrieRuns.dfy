/** Whole sequences of insertions, seen one address at a time. */
module TrieRuns {
  import opened Arith
  import opened TrieModel

  /** One request to map an address prefix to a value. */
  datatype Entry = Entry(prefix: nat, len: int, value: nat)

  ghost predicate Address(a: nat) { a < Pow2(W) }

  ghost predicate Addresses(es: seq<Entry>) {
    forall i :: 0 <= i < |es| ==> Address(es[i].prefix)
  }

  /** Lengths outside 0..256 are ignored. */
  predicate Accepted(e: Entry) { 0 <= e.len <= MAXLEN }

  ghost function Apply(collapse: bool, t: Tree, e: Entry): Tree
    requires Address(e.prefix)
  {
    if Accepted(e) then Insert(collapse, t, W, e.prefix, e.len, e.value) else t
  }

  /** The trie after a sequence of insertions. */
  ghost function Run(collapse: bool, t: Tree, es: seq<Entry>): Tree
    requires Addresses(es)
    decreases |es|
  {
    if es == [] then t
    else Apply(collapse, Run(collapse, t, es[..|es| - 1]), es[|es| - 1])
  }

  lemma {:induction false} RunConcat(collapse: bool, t: Tree, xs: seq<Entry>, ys: seq<Entry>)
    requires Addresses(xs) && Addresses(ys)
    ensures Addresses(xs + ys) && Run(collapse, t, xs + ys) == Run(collapse, Run(collapse, t, xs), ys)
    decreases |ys|
  {
    if ys == [] {
      assert xs + ys == xs;
    } else {
      var zs := ys[..|ys| - 1];
      RunConcat(collapse, t, xs, zs);
      assert (xs + ys)[..|xs + ys| - 1] == xs + zs;
    }
  }

  /** The entry's prefix contains the address. */
  ghost predicate Matches(e: Entry, a: nat)
    requires Address(a) && Address(e.prefix)
  {
    Accepted(e) && Under(W, a, e.prefix, e.len)
  }

  /** The documented result: the value of the last entry containing the address, else the default. */
  ghost function LastMatch(default: nat, es: seq<Entry>, a: nat): nat
    requires Addresses(es) && Address(a)
    decreases |es|
  {
    if es == [] then default
    else if Matches(es[|es| - 1], a) then es[|es| - 1].value
    else LastMatch(default, es[..|es| - 1], a)
  }

  lemma {:induction false} LastMatchConcat(default: nat, xs: seq<Entry>, ys: seq<Entry>, a: nat)
    requires Addresses(xs) && Addresses(ys) && Address(a)
    ensures Addresses(xs + ys) && LastMatch(default, xs + ys, a) == LastMatch(LastMatch(default, xs, a), ys, a)
    decreases |ys|
  {
    if ys == [] {
      assert xs + ys == xs;
    } else {
      var zs := ys[..|ys| - 1];
      LastMatchConcat(default, xs, zs, a);
      assert (xs + ys)[..|xs + ys| - 1] == xs + zs;
    }
  }

  /** With a working collapse the trie maps every address to its last matching entry. */
  lemma {:induction false} CollapsingRun(default: nat, es: seq<Entry>, a: nat)
    requires Addresses(es) && Address(a)
    ensures Look(Run(true, Leaf(default), es), W, a) == LastMatch(default, es, a)
    decreases |es|
  {
    if es != [] {
      var e, fs := es[|es| - 1], es[..|es| - 1];
      CollapsingRun(default, fs, a);
      if Accepted(e) {
        if Under(W, a, e.prefix, e.len) {
          InsertInsideCollapsing(Run(true, Leaf(default), fs), W, e.prefix, e.len, e.value, a);
        } else {
          InsertOutside(true, Run(true, Leaf(default), fs), W, e.prefix, e.len, e.value, a);
        }
      }
    }
  }

  /** What one address sees of a run of the code as written: a value and a leaf depth. */
  ghost function Track(s: State, es: seq<Entry>, a: nat): State
    requires Addresses(es) && Address(a)
    decreases |es|
  {
    if es == [] then s
    else
      var e, s' := es[|es| - 1], Track(s, es[..|es| - 1], a);
      if Accepted(e) then Effect(s', Common(W, a, e.prefix, e.len), e.len, e.value) else s'
  }

  /** As written, a run of insertions is exactly the tracked per-address machine. */
  lemma {:induction false} WrittenRun(t: Tree, es: seq<Entry>, a: nat)
    requires Addresses(es) && Address(a)
    ensures StateOf(Run(false, t, es), W, a) == Track(StateOf(t, W, a), es, a)
    decreases |es|
  {
    if es != [] {
      var e, fs := es[|es| - 1], es[..|es| - 1];
      WrittenRun(t, fs, a);
      if Accepted(e) {
        InsertEffect(Run(false, t, fs), W, e.prefix, e.len, e.value, a);
      }
    }
  }

  /** Leaves never lie deeper than the longest accepted prefix. */
  lemma {:induction false} DepthBound(default: nat, es: seq<Entry>, a: nat, bound: nat)
    requires Addresses(es) && Address(a)
    requires forall i :: 0 <= i < |es| && Accepted(es[i]) ==> es[i].len <= bound
    ensures LeafDepth(Run(false, Leaf(default), es), W, a) <= bound
    decreases |es|
  {
    if es != [] {
      var e, fs := es[|es| - 1], es[..|es| - 1];
      DepthBound(default, fs, a, bound);
      if Accepted(e) {
        InsertEffect(Run(false, Leaf(default), fs), W, e.prefix, e.len, e.value, a);
      }
    }
  }

  /**
   * One more entry honours the documentation at an address inside its prefix iff the address's
   * leaf is not deeper than the prefix, or the address already has the entry's value.
   */
  lemma LastEntryWinsIff(default: nat, es: seq<Entry>, e: Entry, a: nat)
    requires Addresses(es) && Address(e.prefix) && Address(a) && Matches(e, a)
    ensures Look(Run(false, Leaf(default), es + [e]), W, a) == LastMatch(default, es + [e], a)
        <==> LeafDepth(Run(false, Leaf(default), es), W, a) <= e.len || Look(Run(false, Leaf(default), es), W, a) == e.value
  {
    assert (es + [e])[..|es|] == es;
    InsertEffect(Run(false, Leaf(default), es), W, e.prefix, e.len, e.value, a);
  }

  /** Entries that do not match leave the address's value alone, in any order. */
  lemma {:induction false} UnmatchedRun(collapse: bool, t: Tree, es: seq<Entry>, a: nat)
    requires Addresses(es) && Address(a)
    requires forall i :: 0 <= i < |es| ==> !Matches(es[i], a)
    ensures Look(Run(collapse, t, es), W, a) == Look(t, W, a)
    decreases |es|
  {
    if es != [] {
      var e, fs := es[|es| - 1], es[..|es| - 1];
      UnmatchedRun(collapse, t, fs, a);
      if Accepted(e) {
        assert !Matches(e, a);
        InsertOutside(collapse, Run(collapse, t, fs), W, e.prefix, e.len, e.value, a);
      }
    }
  }

  // ----- whole lists, address by address -----

  /** The number of entries up to and including the last one that contains the address; 0 if none does. */
  ghost function UpToLast(es: seq<Entry>, a: nat): (n: nat)
    requires Addresses(es) && Address(a)
    ensures n <= |es| && (n > 0 ==> Matches(es[n - 1], a))
    ensures forall i :: n <= i < |es| ==> !Matches(es[i], a)
    decreases |es|
  {
    if es == [] then 0 else if Matches(es[|es| - 1], a) then |es| else UpToLast(es[..|es| - 1], a)
  }

  /** No entry contains the address, or the last one that does finds a leaf in time or its own value there. */
  ghost predicate Decided(default: nat, es: seq<Entry>, a: nat)
    requires Addresses(es) && Address(a)
  {
    var n := UpToLast(es, a);
    n == 0 ||
      var t := Run(false, Leaf(default), es[..n - 1]);
      LeafDepth(t, W, a) <= es[n - 1].len || Look(t, W, a) == es[n - 1].value
  }

  /** A whole list gives an address its documented value iff the last entry containing it takes effect there. */
  lemma DocumentedIff(default: nat, es: seq<Entry>, a: nat)
    requires Addresses(es) && Address(a)
    ensures Look(Run(false, Leaf(default), es), W, a) == LastMatch(default, es, a) <==> Decided(default, es, a)
  {
    hide Insert, Matches, Run, LastMatch, Look, LeafDepth, UpToLast, Address;
    var n := UpToLast(es, a);
    var xs, ys := es[..n], es[n..];
    assert es == xs + ys;
    RunConcat(false, Leaf(default), xs, ys);
    LastMatchConcat(default, xs, ys, a);
    UnmatchedRun(false, Run(false, Leaf(default), xs), ys, a);
    UnmatchedLast(LastMatch(default, xs, a), ys, a);
    if n > 0 {
      assert xs == es[..n - 1] + [es[n - 1]];
      LastEntryWinsIff(default, es[..n - 1], es[n - 1], a);
    } else {
      NoEntries(default, a);
    }
  }

  lemma NoEntries(default: nat, a: nat)
    requires Address(a)
    ensures Look(Run(false, Leaf(default), []), W, a) == LastMatch(default, [], a) == default
  {
  }

  lemma {:induction false} UnmatchedLast(default: nat, es: seq<Entry>, a: nat)
    requires Addresses(es) && Address(a)
    requires forall i :: 0 <= i < |es| ==> !Matches(es[i], a)
    ensures LastMatch(default, es, a) == default
    decreases |es|
  {
    if es != [] { UnmatchedLast(default, es[..|es| - 1], a); }
  }

  // ----- lists without trouble -----

  /** The second prefix is shorter than the first and contains it. */
  ghost predicate Swallows(later: Entry, earlier: Entry)
    requires Address(later.prefix) && Address(earlier.prefix)
  {
    && Accepted(earlier) && Accepted(later) && later.len < earlier.len
    && Under(W, earlier.prefix, later.prefix, later.len)
  }

  /** No prefix lies inside a shorter one that comes later. */
  ghost predicate NestFree(es: seq<Entry>)
    requires Addresses(es)
  {
    forall i, j :: 0 <= i < j < |es| ==> !Swallows(es[j], es[i])
  }

  /** Two numbers that share n bits with a third are under the same n bits. */
  lemma {:induction false} CommonUnder(k: nat, r: nat, p: nat, len: nat, q: nat, n: nat)
    requires r < Pow2(k) && p < Pow2(k) && q < Pow2(k)
    requires n <= Common(k, r, p, len) && Under(k, r, q, n)
    ensures Under(k, p, q, n)
    decreases n
  {
    if n > 0 { CommonUnder(Down(k), Strip(k, r), Strip(k, p), len - 1, Strip(k, q), n - 1); }
  }

  /** Where an entry contains an address, the leaf is deeper than its prefix only if it swallows an earlier one. */
  lemma {:induction false} NestDepth(default: nat, es: seq<Entry>, e: Entry, a: nat)
    requires Addresses(es) && Address(e.prefix) && Address(a) && Matches(e, a)
    requires forall i :: 0 <= i < |es| ==> !Swallows(e, es[i])
    ensures LeafDepth(Run(false, Leaf(default), es), W, a) <= e.len
    decreases |es|
  {
    hide Insert, Look;
    if es != [] {
      var f, fs := es[|es| - 1], es[..|es| - 1];
      NestDepth(default, fs, e, a);
      if Accepted(f) {
        InsertEffect(Run(false, Leaf(default), fs), W, f.prefix, f.len, f.value, a);
        if Common(W, a, f.prefix, f.len) >= e.len && f.len > e.len {
          CommonUnder(W, a, f.prefix, f.len, e.prefix, e.len);
        }
      }
    }
  }

  /** Such a list meets its documentation at every address. */
  lemma NestFreeRun(default: nat, es: seq<Entry>, a: nat)
    requires Addresses(es) && Address(a) && NestFree(es)
    ensures Look(Run(false, Leaf(default), es), W, a) == LastMatch(default, es, a)
  {
    hide Insert, Swallows, Look, Matches;
    DocumentedIff(default, es, a);
    var n := UpToLast(es, a);
    if n > 0 { NestDepth(default, es[..n - 1], es[n - 1], a); }
  }

  /** Lists from short to long prefixes are of this kind. */
  ghost predicate LongerLater(es: seq<Entry>) {
    forall i, j :: 0 <= i < j < |es| && Accepted(es[i]) && Accepted(es[j]) ==> es[i].len <= es[j].len
  }

  lemma LongerLaterRun(default: nat, es: seq<Entry>, a: nat)
    requires Addresses(es) && Address(a) && LongerLater(es)
    ensures NestFree(es) && Look(Run(false, Leaf(default), es), W, a) == LastMatch(default, es, a)
  {
    hide Insert, Look, Under;
    NestFreeRun(default, es, a);
  }

  /** The entries' values differ from each other and from the default. */
  ghost predicate OwnValues(default: nat, es: seq<Entry>) {
    && (forall i :: 0 <= i < |es| ==> es[i].value != default)
    && forall i, j :: 0 <= i < j < |es| ==> es[i].value != es[j].value
  }

  /** Every value comes from the default or an entry. */
  lemma {:induction false} ValueOrigin(default: nat, es: seq<Entry>, a: nat, v: nat)
    requires Addresses(es) && Address(a) && v != default && forall i :: 0 <= i < |es| ==> es[i].value != v
    ensures Look(Run(false, Leaf(default), es), W, a) != v
    decreases |es|
  {
    hide Insert;
    if es != [] {
      var f, fs := es[|es| - 1], es[..|es| - 1];
      ValueOrigin(default, fs, a, v);
      if Accepted(f) { InsertEffect(Run(false, Leaf(default), fs), W, f.prefix, f.len, f.value, a); }
    }
  }

  /** An entry with a value of its own leaves its address at least as deep as its prefix for good. */
  lemma {:induction false} DepthKept(default: nat, es: seq<Entry>, i: nat, n: nat)
    requires Addresses(es) && OwnValues(default, es) && i < n <= |es| && Accepted(es[i])
    ensures LeafDepth(Run(false, Leaf(default), es[..n]), W, es[i].prefix) >= es[i].len
    decreases n
  {
    hide Insert, Look;
    var f, fs, a := es[n - 1], es[..n - 1], es[i].prefix;
    assert es[..n][..n - 1] == fs;
    if n - 1 == i {
      ValueOrigin(default, fs, a, f.value);
      UnderSelf(W, a, f.len);
    } else {
      DepthKept(default, es, i, n - 1);
    }
    if Accepted(f) { InsertEffect(Run(false, Leaf(default), fs), W, f.prefix, f.len, f.value, a); }
  }

  ghost predicate MeetsDocumentation(default: nat, es: seq<Entry>, n: nat, a: nat)
    requires Addresses(es) && Address(a) && n <= |es|
  {
    Look(Run(false, Leaf(default), es[..n]), W, a) == LastMatch(default, es[..n], a)
  }

  /** With values of their own, the entries meet the documentation after every add iff no add swallows an earlier one. */
  lemma NestFreeIff(default: nat, es: seq<Entry>)
    requires Addresses(es) && OwnValues(default, es)
    ensures (forall n: nat, a: nat | n <= |es| && Address(a) :: MeetsDocumentation(default, es, n, a)) <==> NestFree(es)
  {
    hide Insert, Look, Swallows;
    if NestFree(es) {
      forall n: nat, a: nat | n <= |es| && Address(a) ensures MeetsDocumentation(default, es, n, a) {
        NestFreeRun(default, es[..n], a);
      }
    } else {
      var i, j :| 0 <= i < j < |es| && Swallows(es[j], es[i]);
      SwallowFails(default, es, i, j);
    }
  }

  /** An address of the swallowed prefix does not get the value of the entry that swallows it. */
  lemma SwallowFails(default: nat, es: seq<Entry>, i: nat, j: nat)
    requires Addresses(es) && OwnValues(default, es) && i < j < |es| && Swallows(es[j], es[i])
    ensures !MeetsDocumentation(default, es, j + 1, es[i].prefix)
  {
    hide Insert, Look;
    var a := es[i].prefix;
    DepthKept(default, es, i, j);
    ValueOrigin(default, es[..j], a, es[j].value);
    LastEntryWinsIff(default, es[..j], es[j], a);
    assert es[..j] + [es[j]] == es[..j + 1];
  }

  /**
   * A failing run: allow a /24, then deny the /8 around it.  The /24 stays allowed, although
   * the last entry containing the address denies it.
   */
  lemma NestedDenyFails(a: nat, v: nat, w: nat)
    requires Address(a) && v != w
    ensures var es := [Entry(a, 24, v), Entry(a, 8, w)];
            Look(Run(false, Leaf(w), es), W, a) == v && LastMatch(w, es, a) == w
  {
    var e1, e2 := Entry(a, 24, v), Entry(a, 8, w);
    var es := [e1, e2];
    assert es[..1] == [e1] && [e1][..0] == [];
    UnderSelf(W, a, 24);
    UnderSelf(W, a, 8);
    var t := Apply(false, Leaf(w), e1);
    assert Run(false, Leaf(w), [e1]) == t;
    InsertEffect(Leaf(w), W, a, 24, v, a);
    assert StateOf(t, W, a) == State(v, 24);
    InsertEffect(t, W, a, 8, w, a);
  }
}
