/**
 * The prefix trie on values: what a tree of nodes means, what one insertion does to it, how
 * its addresses are counted and numbered.
 *
 * An address is followed downwards as a remainder r of k bits (r < 2^k): a node k bits above
 * the bottom sends r to its right half when r >= 2^(k-1).  Below the last bit (k == 0) every
 * descent goes left, as a shifted-out 32-bit mask or prefix does.
 */
module TrieModel {
  import opened Arith

  const W: nat := 32  // bits of an address
  const R: nat := 20  // prefix length of the radix array
  const BLOCK: nat := 4096 // 2^(W - R), addresses of one radix entry
  const MAXLEN: nat := 256  // largest prefix length an insertion accepts

  datatype Tree = Leaf(value: nat) | Branch(left: Tree, right: Tree)

  predicate GoesRight(k: nat, r: nat) {
    k > 0 && r >= Pow2(k - 1)
  }

  function Down(k: nat): nat {
    if k == 0 then 0 else k - 1
  }

  function Strip(k: nat, r: nat): (s: nat)
    requires r < Pow2(k)
    ensures s < Pow2(Down(k))
  {
    if GoesRight(k, r) then r - Pow2(k - 1) else r
  }

  function Child(t: Tree, k: nat, r: nat): Tree
    requires t.Branch?
  {
    if GoesRight(k, r) then t.right else t.left
  }

  /** The value an address is mapped to. */
  function Look(t: Tree, k: nat, r: nat): nat
    requires r < Pow2(k)
  {
    if t.Leaf? then t.value else Look(Child(t, k, r), Down(k), Strip(k, r))
  }

  /** How far below t the leaf deciding an address lies. */
  function LeafDepth(t: Tree, k: nat, r: nat): nat
    requires r < Pow2(k)
  {
    if t.Leaf? then 0 else 1 + LeafDepth(Child(t, k, r), Down(k), Strip(k, r))
  }

  /** The node reached after at most len steps towards p; a leaf stops the descent. */
  function NodeAt(t: Tree, k: nat, p: nat, len: nat): Tree
    requires p < Pow2(k)
  {
    if len == 0 || t.Leaf? then t else NodeAt(Child(t, k, p), Down(k), Strip(k, p), len - 1)
  }

  /** Number of leading bits, at most len, in which r and p agree. */
  function Common(k: nat, r: nat, p: nat, len: nat): (c: nat)
    requires r < Pow2(k) && p < Pow2(k)
    ensures c <= len
  {
    if len == 0 || GoesRight(k, r) != GoesRight(k, p) then 0
    else 1 + Common(Down(k), Strip(k, r), Strip(k, p), len - 1)
  }

  /** r lies under the prefix made of the first len bits of p. */
  predicate Under(k: nat, r: nat, p: nat, len: nat)
    requires r < Pow2(k) && p < Pow2(k)
  {
    Common(k, r, p, len) == len
  }

  /**
   * One insertion.  With collapse, a node whose prefix is overwritten, or whose children are
   * equal leaves, becomes a leaf, as the comments of the source say; without it an internal
   * node stays internal, as its inverted guard has it.
   */
  function Insert(collapse: bool, t: Tree, k: nat, p: nat, len: nat, v: nat): Tree
    requires p < Pow2(k)
    decreases len
  {
    if len == 0 then (if t.Leaf? || collapse then Leaf(v) else t)
    else if t == Leaf(v) then t
    else
      var b := if t.Leaf? then Branch(t, t) else t;
      var c := Insert(collapse, Child(b, k, p), Down(k), Strip(k, p), len - 1, v);
      var n := if GoesRight(k, p) then Branch(b.left, c) else Branch(c, b.right);
      if collapse && n.left.Leaf? && n.left == n.right then n.left else n
  }

  /** One level of an insertion that goes below the node. */
  lemma InsertStep(t: Tree, k: nat, p: nat, len: nat, v: nat)
    requires p < Pow2(k) && len > 0 && t != Leaf(v)
    ensures var b := if t.Leaf? then Branch(t, t) else t;
            var c := Insert(false, Child(b, k, p), Down(k), Strip(k, p), len - 1, v);
            Insert(false, t, k, p, len, v) == if GoesRight(k, p) then Branch(b.left, c) else Branch(c, b.right)
  {
  }

  // ----- what one insertion does to one address -----

  /** Addresses outside the inserted prefix keep their value, with or without collapsing. */
  lemma {:induction false} InsertOutside(collapse: bool, t: Tree, k: nat, p: nat, len: nat, v: nat, r: nat)
    requires p < Pow2(k) && r < Pow2(k) && !Under(k, r, p, len)
    ensures Look(Insert(collapse, t, k, p, len, v), k, r) == Look(t, k, r)
    decreases len
  {
    if t != Leaf(v) {
      var b := if t.Leaf? then Branch(t, t) else t;
      assert Look(b, k, r) == Look(t, k, r);
      if GoesRight(k, r) == GoesRight(k, p) {
        InsertOutside(collapse, Child(b, k, p), Down(k), Strip(k, p), len - 1, v, Strip(k, r));
      }
    }
  }

  /** With a working collapse, every address under the prefix gets the new value. */
  lemma {:induction false} InsertInsideCollapsing(t: Tree, k: nat, p: nat, len: nat, v: nat, r: nat)
    requires p < Pow2(k) && r < Pow2(k) && Under(k, r, p, len)
    ensures Look(Insert(true, t, k, p, len, v), k, r) == v
    decreases len
  {
    if len > 0 && t != Leaf(v) {
      var b := if t.Leaf? then Branch(t, t) else t;
      InsertInsideCollapsing(Child(b, k, p), Down(k), Strip(k, p), len - 1, v, Strip(k, r));
    }
  }

  /** A leaf's state for one address: its value and its depth. */
  datatype State = State(value: nat, depth: nat)

  function StateOf(t: Tree, k: nat, r: nat): State
    requires r < Pow2(k)
  {
    State(Look(t, k, r), LeafDepth(t, k, r))
  }

  /** The effect of an insertion agreeing with the address in its first c bits out of len. */
  function Effect(s: State, c: nat, len: nat, v: nat): State
    requires c <= len
  {
    if s.depth > c then s
    else if c == len then (if s.value == v && s.depth < len then s else State(v, len))
    else if s.value == v then s
    else State(s.value, c + 1)
  }

  /** As written, an insertion changes each address's deciding leaf exactly as Effect says. */
  lemma {:induction false} InsertEffect(t: Tree, k: nat, p: nat, len: nat, v: nat, r: nat)
    requires p < Pow2(k) && r < Pow2(k)
    ensures StateOf(Insert(false, t, k, p, len, v), k, r) == Effect(StateOf(t, k, r), Common(k, r, p, len), len, v)
    decreases len
  {
    if len > 0 && t != Leaf(v) {
      var b := if t.Leaf? then Branch(t, t) else t;
      assert Look(b, k, r) == Look(t, k, r);
      assert LeafDepth(b, k, r) == if t.Leaf? then 1 else LeafDepth(t, k, r);
      if GoesRight(k, r) == GoesRight(k, p) {
        InsertEffect(Child(b, k, p), Down(k), Strip(k, p), len - 1, v, Strip(k, r));
        assert StateOf(Child(b, k, r), Down(k), Strip(k, r)).depth == LeafDepth(b, k, r) - 1;
      }
    }
  }

  /** The node the prefix ends at is a leaf iff the path to the prefix meets a leaf in time. */
  lemma {:induction false} NodeAtIsLeaf(t: Tree, k: nat, p: nat, len: nat)
    requires p < Pow2(k)
    ensures NodeAt(t, k, p, len).Leaf? <==> LeafDepth(t, k, p) <= len
    ensures NodeAt(t, k, p, len).Leaf? ==> NodeAt(t, k, p, len).value == Look(t, k, p)
    decreases len
  {
    if len > 0 && t.Branch? {
      NodeAtIsLeaf(Child(t, k, p), Down(k), Strip(k, p), len - 1);
    }
  }

  lemma {:induction false} NodeAtUnder(t: Tree, k: nat, p: nat, len: nat, r: nat)
    requires p < Pow2(k) && r < Pow2(k) && Under(k, r, p, len)
    ensures NodeAt(t, k, r, len) == NodeAt(t, k, p, len)
    decreases len
  {
    if len > 0 && t.Branch? {
      NodeAtUnder(Child(t, k, p), Down(k), Strip(k, p), len - 1, Strip(k, r));
    }
  }

  /** Every address under the prefix is mapped to v. */
  ghost predicate Uniform(t: Tree, k: nat, p: nat, len: nat, v: nat)
    requires p < Pow2(k)
  {
    forall r: nat | r < Pow2(k) && Under(k, r, p, len) :: Look(t, k, r) == v
  }

  lemma {:induction false} UnderSelf(k: nat, p: nat, len: nat)
    requires p < Pow2(k)
    ensures Under(k, p, p, len)
    decreases len
  {
    if len > 0 { UnderSelf(Down(k), Strip(k, p), len - 1); }
  }

  /**
   * The documented overwrite, exactly: as written, an insertion maps its whole prefix to v iff
   * the node at the prefix is a leaf or the prefix already mapped to v everywhere.
   */
  lemma OverwritesIff(t: Tree, k: nat, p: nat, len: nat, v: nat)
    requires p < Pow2(k)
    ensures Uniform(Insert(false, t, k, p, len, v), k, p, len, v)
        <==> NodeAt(t, k, p, len).Leaf? || Uniform(t, k, p, len, v)
  {
    var t' := Insert(false, t, k, p, len, v);
    NodeAtIsLeaf(t, k, p, len);
    forall r: nat | r < Pow2(k) && Under(k, r, p, len)
      ensures Look(t', k, r) == if NodeAt(t, k, p, len).Leaf? then v else Look(t, k, r)
    {
      NodeAtUnder(t, k, p, len, r);
      NodeAtIsLeaf(t, k, r, len);
      InsertEffect(t, k, p, len, v, r);
    }
    if NodeAt(t, k, p, len).Branch? && Uniform(t', k, p, len, v) {
      forall r: nat | r < Pow2(k) && Under(k, r, p, len) ensures Look(t, k, r) == v {
        assert Look(t', k, r) == Look(t, k, r);
      }
    }
  }

  /** An insertion works for every value iff the node at its prefix is a leaf. */
  lemma OverwritesEveryValueIff(t: Tree, k: nat, p: nat, len: nat, v: nat, v': nat)
    requires p < Pow2(k) && v != v'
    ensures (Uniform(Insert(false, t, k, p, len, v), k, p, len, v) &&
             Uniform(Insert(false, t, k, p, len, v'), k, p, len, v'))
        <==> NodeAt(t, k, p, len).Leaf?
  {
    OverwritesIff(t, k, p, len, v);
    OverwritesIff(t, k, p, len, v');
    UnderSelf(k, p, len);
  }

  /** Under, at the top of the tree, is agreement of the first len bits. */
  lemma {:induction false} UnderMeaning(k: nat, r: nat, p: nat, len: nat)
    requires r < Pow2(k) && p < Pow2(k)
    ensures len <= k ==> (Under(k, r, p, len) <==> r / Pow2(k - len) == p / Pow2(k - len))
    ensures len >= k ==> (Under(k, r, p, len) <==> r == p)
    decreases len
  {
    if len == 0 {
      assert r / Pow2(k) == 0 && p / Pow2(k) == 0 by {
        DivModUnique(r, Pow2(k), 0, r);
        DivModUnique(p, Pow2(k), 0, p);
      }
    } else if k == 0 {
      UnderMeaning(0, r, p, len - 1);
    } else {
      if len <= k {
        StripQuotient(k, r, len);
        StripQuotient(k, p, len);
      }
      UnderSplit(k, r, p, len);
      if GoesRight(k, r) == GoesRight(k, p) {
        UnderMeaning(k - 1, Strip(k, r), Strip(k, p), len - 1);
      }
    }
  }

  lemma UnderSplit(k: nat, r: nat, p: nat, len: nat)
    requires r < Pow2(k) && p < Pow2(k) && len > 0
    ensures Under(k, r, p, len) <==>
              GoesRight(k, r) == GoesRight(k, p) && Under(Down(k), Strip(k, r), Strip(k, p), len - 1)
  {
  }

  /** The quotient of r by 2^(k-len) is that of its remainder, plus the top bit's weight. */
  lemma StripQuotient(k: nat, r: nat, len: nat)
    requires 0 < len <= k && r < Pow2(k)
    ensures r / Pow2(k - len) == Strip(k, r) / Pow2(k - len) + (if GoesRight(k, r) then Pow2(len - 1) else 0)
    ensures 0 <= Strip(k, r) / Pow2(k - len) < Pow2(len - 1)
  {
    var m, h := Pow2(k - len), Pow2(len - 1);
    assert Pow2(k - 1) == m * h by { Pow2Add(k - len, len - 1); }
    QuotientSplit(Strip(k, r), m, h);
  }

  lemma QuotientSplit(s: nat, m: nat, h: nat)
    requires m > 0 && s < m * h
    ensures 0 <= s / m < h
    ensures (s + m * h) / m == s / m + h
  {
    var q := s / m;
    if q >= h {
      MulMono(h, q, m);
    }
    assert s + m * h == (q + h) * m + s % m;
    DivModUnique(s + m * h, m, q + h, s % m);
  }
}
