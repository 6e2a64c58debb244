/** The prefix trie as the program keeps it: nodes updated in place, with a painted index. */
module Iptree {
  import opened Arith
  import opened TrieModel
  import opened TrieCount

  /** A trie node.  A leaf has no children; an internal node's value is not used. */
  class Node {
    var l: Node?
    var r: Node?
    var value: u32
    var count: u64
    ghost var Repr: set<object>
    ghost var Model: Tree

    ghost predicate Valid()
      reads this, Repr
      decreases Repr
    {
      && this in Repr
      && (l == null <==> r == null)
      && (l == null ==> Model == Leaf(value))
      && (l != null ==>
            && l in Repr && r in Repr && l.Repr <= Repr && r.Repr <= Repr
            && this !in l.Repr && this !in r.Repr && l.Repr !! r.Repr
            && l.Valid() && r.Valid()
            && Model == Branch(l.Model, r.Model))
    }

    /** Every node below holds the number of painted addresses under it that are not in the radix array. */
    ghost predicate Painted(size: nat, v: nat)
      requires Valid()
      reads this, Repr
      decreases Repr
    {
      && count == CountSmall(Model, size, v)
      && (l != null ==> l.Painted(size / 2, v) && r.Painted(size / 2, v))
    }

    constructor (value: u32)
      ensures Valid() && fresh(Repr) && l == null && this.value == value
      ensures Repr == {this} && Model == Leaf(value)
    {
      l, r := null, null;
      this.value := value;
      Repr := {this};
      Model := Leaf(value);
    }

    /** Returns early on an internal node, so it never changes what the node means. */
    method ConvertToLeaf()
      requires Valid()
      modifies this
      ensures Valid() && Model == old(Model) && Repr == old(Repr)
      ensures l == old(l) && r == old(r) && value == old(value)
    {
      if l != null {
        return;
      }
      l, r := null, null;
    }

    /** Turns a leaf into an internal node over two leaves with its value. */
    method Split()
      requires Valid() && l == null
      modifies this
      ensures Valid() && l != null && fresh(Repr - old(Repr)) && value == old(value)
      ensures Model == Branch(old(Model), old(Model))
    {
      l := new Node(this.value);
      r := new Node(this.value);
      Repr := Repr + {l, r};
      Model := Branch(l.Model, r.Model);
    }

    /** Meant to discard two equal leaf children; only the unused value changes. */
    method MergeLeaves()
      requires Valid() && l != null
      modifies this
      ensures Valid() && Model == old(Model) && Repr == old(Repr) && l == old(l) && r == old(r)
      ensures value == if r.l == null && l.l == null && r.value == l.value then l.value else old(value)
    {
      if r.l == null && l.l == null && r.value == l.value {
        value := l.value;
        ConvertToLeaf();
      }
    }

    /** Maps the remaining len bits of a left-shifted prefix to a value. */
    method SetRecurse(prefix: u32, len: int, value: u32, ghost k: nat, ghost p: nat)
      requires Valid()
      requires k <= W && p < Pow2(k) && prefix == ShiftLeft(p, W - k)
      modifies Repr
      ensures Valid() && fresh(Repr - old(Repr))
      ensures Model == if 0 <= len <= MAXLEN then Insert(false, old(Model), k, p, len, value) else old(Model)
      decreases if len < 0 then 0 else len, 1
    {
      if len < 0 || len > 256 {
        return;
      }
      if len == 0 {
        if l != null {
          ConvertToLeaf();
        }
        this.value := value;
        Model := if l == null then Leaf(value) else Model;
        return;
      }
      if l == null {
        if this.value == value {
          return;
        }
        Split();
      }
      InsertStep(old(Model), k, p, len, value);
      SetBelow(prefix, len, value, k, p);
      MergeLeaves();
    }

    /** Continues in the child chosen by the prefix's top bit. */
    method SetBelow(prefix: u32, len: int, value: u32, ghost k: nat, ghost p: nat)
      requires Valid() && l != null && 0 < len <= MAXLEN
      requires k <= W && p < Pow2(k) && prefix == ShiftLeft(p, W - k)
      modifies Repr
      ensures Valid() && l != null && fresh(Repr - old(Repr))
      ensures var b := old(Model);
              var c := Insert(false, Child(b, k, p), Down(k), Strip(k, p), len - 1, value);
              Model == if GoesRight(k, p) then Branch(b.left, c) else Branch(c, b.right)
      decreases len, 0
    {
      hide And, ShiftLeft, Insert, Strip, GoesRight, Pow2;
      ShiftedBit(prefix, k, p);
      if And(prefix, 0x80000000) != 0 {
        r.SetRecurse((2 * prefix) % 0x1_0000_0000, len - 1, value, Down(k), Strip(k, p));
        Repr := Repr + r.Repr;
      } else {
        l.SetRecurse((2 * prefix) % 0x1_0000_0000, len - 1, value, Down(k), Strip(k, p));
        Repr := Repr + l.Repr;
      }
      Model := Branch(l.Model, r.Model);
    }

    /** The value of an address: walk down while shifting a one-bit mask to the right. */
    method LookupIp(address: u32) returns (v: u32)
      requires Valid()
      ensures address < Pow2(W) && v == Look(Model, W, address)
    {
      hide And, LowBits, Pow2, Strip, GoesRight;
      BlockFacts();
      var node: Node, mask := this, 0x80000000;
      ghost var k: nat, a: nat := W, address;
      LowBitsAll(address, W);
      while node.l != null
        invariant node.Valid()
        invariant k <= W && mask == Pow2(k) / 2 && a < Pow2(k) && a == LowBits(address, k)
        invariant Look(node.Model, k, a) == Look(Model, W, address)
        decreases node.Repr
      {
        MaskBit(address, k);
        k, a := Down(k), Strip(k, a);
        if And(address, mask) != 0 {
          node := node.r;
        } else {
          node := node.l;
        }
        mask := mask / 2;
      }
      v := node.value;
    }

    /** The node that decides the addresses with the given prefix. */
    method LookupNode(prefix: u32, len: nat) returns (node: Node)
      requires Valid()
      ensures node.Valid() && prefix < Pow2(W) && node.Model == NodeAt(Model, W, prefix, len)
    {
      hide And, LowBits, Pow2, Strip, GoesRight;
      node := this;
      var mask, i := 0x80000000, 0;
      BlockFacts();
      ghost var k: nat, p: nat := W, prefix;
      LowBitsAll(prefix, W);
      while i < len
        invariant 0 <= i <= len && node.Valid()
        invariant k <= W && mask == Pow2(k) / 2 && p < Pow2(k) && p == LowBits(prefix, k)
        invariant NodeAt(node.Model, k, p, len - i) == NodeAt(Model, W, prefix, len)
      {
        if node.l == null {
          return;
        }
        MaskBit(prefix, k);
        k, p := Down(k), Strip(k, p);
        if And(prefix, mask) != 0 {
          node := node.r;
        } else {
          node := node.l;
        }
        mask, i := mask / 2, i + 1;
      }
    }

    /** The painted address with index n among those not in the radix array. */
    method LookupIndex(n: u64, ghost v: nat) returns (a: u32)
      requires Valid() && Painted(Pow2(W), v)
      ensures a == Descend(Model, Pow2(W), v, 0, n)
    {
      BlockFacts();
      var node: Node, ip: nat, mask: nat, m: nat := this, 0, 0x80000000, n;
      ghost var size: nat := Pow2(W);
      while node.l != null
        invariant node.Valid() && node.Painted(size, v)
        invariant ip < 0x1_0000_0000 && mask == size / 2 && size <= Pow2(W) && m <= n
        invariant Descend(node.Model, size, v, ip, m) == Descend(Model, Pow2(W), v, 0, n)
        decreases node.Repr
      {
        if m < node.l.count {
          node := node.l;
        } else {
          m := m - node.l.count;
          node := node.r;
          OrBound(ip, mask, W);
          ip := Or(ip, mask);
        }
        mask := mask / 2;
        size := size / 2;
      }
      a := Or(ip, m) % 0x1_0000_0000;
    }

    /** Counts the addresses with a value, storing the counts when painting. */
    method CountRecurse(value: u32, size: u64, paint: bool, excludeRadix: bool) returns (n: u64)
      requires Valid() && size <= 0x1_0000_0000
      modifies if paint then Repr else {}
      ensures Valid() && Model == old(Model) && Repr == old(Repr)
      ensures n == if excludeRadix then CountSmall(Model, size, value) else Count(Model, size, value)
      ensures n <= size
      ensures paint && excludeRadix ==> Painted(size, value)
      decreases Repr
    {
      if l == null {
        if this.value == value {
          n := size;
          if excludeRadix && size >= 4096 {
            n := 0;
          }
        } else {
          n := 0;
        }
      } else {
        var a := l.CountRecurse(value, size / 2, paint, excludeRadix);
        var b := r.CountRecurse(value, size / 2, paint, excludeRadix);
        n := a + b;
      }
      if paint {
        count := n;
      }
    }
  }

  /** The top bit of a left-shifted prefix decides the direction; shifting strips it. */
  lemma ShiftedBit(prefix: u32, k: nat, p: nat)
    requires k <= W && p < Pow2(k) && prefix == ShiftLeft(p, W - k)
    ensures And(prefix, 0x80000000) != 0 <==> GoesRight(k, p)
    ensures (2 * prefix) % 0x1_0000_0000 == ShiftLeft(Strip(k, p), W - Down(k))
  {
    TopBit(prefix);
    if k == 0 {
      ShiftLeftSum(0, 0, W);
    } else {
      ShiftSplit(prefix, k, p);
      assert ShiftLeft(Strip(k, p), W - k + 1) == 2 * ShiftLeft(Strip(k, p), W - k);
    }
  }

  lemma ShiftSplit(prefix: u32, k: nat, p: nat)
    requires 0 < k <= W && p < Pow2(k) && prefix == ShiftLeft(p, W - k)
    ensures ShiftLeft(Strip(k, p), W - k) < 0x80000000
    ensures prefix == ShiftLeft(Strip(k, p), W - k) + (if GoesRight(k, p) then 0x80000000 else 0)
  {
    var s := Strip(k, p);
    assert Pow2(W - 1) == 0x80000000 by { BlockFacts(); }
    ShiftLeftBound(s, k - 1, W - k);
    if GoesRight(k, p) {
      ShiftLeftSum(s, Pow2(k - 1), W - k);
      ShiftLeftPow2(k - 1, W - k);
    }
  }

  lemma TopBit(a: u32)
    ensures And(a, 0x80000000) != 0 <==> a >= 0x80000000
  {
    BlockFacts();
    assert Pow2(W - 1) == 0x80000000;
    AndBit(a, W - 1);
    LowBitsAll(a, W);
  }

  lemma {:induction false} ShiftLeftSum(a: nat, b: nat, n: nat)
    ensures ShiftLeft(a + b, n) == ShiftLeft(a, n) + ShiftLeft(b, n)
  {
    if n > 0 { ShiftLeftSum(a, b, n - 1); }
  }

  lemma {:induction false} ShiftLeftPow2(k: nat, n: nat)
    ensures ShiftLeft(Pow2(k), n) == Pow2(k + n)
  {
    if n > 0 { ShiftLeftPow2(k, n - 1); }
  }

  lemma {:induction false} ShiftLeftBound(a: nat, k: nat, n: nat)
    requires a < Pow2(k)
    ensures ShiftLeft(a, n) < Pow2(k + n)
  {
    if n > 0 { ShiftLeftBound(a, k, n - 1); }
  }

  /** Testing an address against the mask of level k decides the direction. */
  lemma MaskBit(a: u32, k: nat)
    requires k <= W
    ensures And(a, Pow2(k) / 2) != 0 <==> GoesRight(k, LowBits(a, k))
    ensures Strip(k, LowBits(a, k)) == LowBits(a, Down(k))
    ensures LowBits(a, k) < Pow2(k) && Pow2(k) / 2 / 2 == Pow2(Down(k)) / 2
  {
    if k > 0 { AndBit(a, k - 1); }
  }

  /** The trie with its painted index. */
  class IpTree {
    const root: Node
    const radix: array<u32>
    var radixLen: nat
    var painted: bool
    var paintValue: u32

    ghost function Model(): Tree
      reads this, root
    {
      root.Model
    }

    ghost function Repr(): set<object>
      reads this, root
    {
      {this, radix} + root.Repr
    }

    /** When painted, the node counts and the radix array describe the current trie. */
    ghost predicate Valid()
      reads this, radix, root, root.Repr
    {
      && root.Valid() && this !in root.Repr && radix !in root.Repr
      && radix.Length == Pow2(R) && radixLen <= radix.Length
      && (painted ==>
            && root.Painted(Pow2(W), paintValue)
            && Holds(radix[..radixLen], Blocks(root.Model, paintValue, Pow2(R))))
    }

    constructor (value: u32)
      ensures Valid() && fresh(Repr()) && Model() == Leaf(value)
    {
      root := new Node(value);
      radix := new u32[0x10_0000];
      radixLen := 0;
      painted := false;
      new;
      BlockFacts();
    }

    method Add(prefix: u32, len: int, value: u32)
      requires Valid()
      modifies Repr()
      ensures Valid() && fresh(Repr() - old(Repr()))
      ensures prefix < Pow2(W)
      ensures Model() == if 0 <= len <= MAXLEN then Insert(false, old(Model()), W, prefix, len, value) else old(Model())
    {
      BlockFacts();
      root.SetRecurse(prefix, len, value, W, prefix);
      painted := false;
    }

    method LookupIp(address: u32) returns (v: u32)
      requires Valid()
      ensures address < Pow2(W) && v == Look(Model(), W, address)
    {
      v := root.LookupIp(address);
    }

    /** Numbers the addresses of a value: whole /20 blocks in the radix array, the rest by node counts. */
    method PaintValue(value: u32)
      requires Valid()
      modifies Repr()
      ensures Valid() && Repr() == old(Repr()) && Model() == old(Model())
      ensures painted && paintValue == value
    {
      hide Blocks, Holds, CountSmall, Pow2;
      BlockFacts();
      var _ := root.CountRecurse(value, 0x1_0000_0000, true, true);
      radixLen := 0;
      FillRadix(value);
      painted := true;
      paintValue := value;
    }

    /** Lists the prefixes of the /20 blocks that one leaf maps to the value. */
    method FillRadix(value: u32)
      requires root.Valid() && this !in root.Repr && radix !in root.Repr && radix.Length == Pow2(R)
      modifies this`radixLen, radix
      ensures radixLen <= radix.Length && Holds(radix[..radixLen], Blocks(root.Model, value, Pow2(R)))
    {
      hide Blocks, Holds, NodeAt, Pow2;
      BlockFacts();
      radixLen := 0;
      NoBlocks(root.Model, value);
      var i := 0;
      while i < 0x10_0000
        invariant 0 <= i <= Pow2(R) && radixLen <= i
        invariant root.Valid() && root.Model == old(root.Model)
        invariant Holds(radix[..radixLen], Blocks(root.Model, value, i))
      {
        var prefix := i * 4096;
        var node := root.LookupNode(prefix, 20);
        ghost var before := radix[..radixLen];
        OneBlockMore(before, root.Model, value, i);
        if node.l == null && node.value == value {
          radix[radixLen] := prefix;
          radixLen := radixLen + 1;
          assert radix[..radixLen] == before + [prefix];
        } else {
          assert radix[..radixLen] == before + [];
        }
        i := i + 1;
      }
    }

    /** The address with the given index among those having the value. */
    method LookupIndex(index: u64, value: u32) returns (a: u32)
      requires Valid()
      modifies Repr()
      ensures Valid() && Repr() == old(Repr()) && Model() == old(Model())
      ensures a == Index(Model(), value, index)
    {
      hide Blocks, CountSmall, Descend, Or, Pow2;
      BlockFacts();
      if !painted || paintValue != value {
        PaintValue(value);
      }
      var radixIdx := index / 4096;
      BlocksMembers(root.Model, value, Pow2(R));
      if radixIdx < radixLen {
        OrBound(radix[radixIdx], index % 4096, W);
        a := Or(radix[radixIdx], index % 4096);
        return;
      }
      a := root.LookupIndex(index - radixLen * 4096, value);
    }

    /** The number of addresses with the value, from the painting when it is current. */
    method CountIps(value: u32) returns (n: u64)
      requires Valid()
      ensures n == Count(Model(), Pow2(W), value) == |CountedSet(Model(), W, value)|
    {
      BlockFacts();
      TotalIsCount(root.Model, value);
      CountBound(root.Model, Pow2(W), value);
      if painted && paintValue == value {
        n := root.count + radixLen * 4096;
      } else {
        n := root.CountRecurse(value, 0x1_0000_0000, false, false);
      }
    }
  }

  lemma NoBlocks(t: Tree, v: nat)
    ensures Holds([], Blocks(t, v, 0))
  {
  }

  /** Block i is listed iff the node at its prefix is a leaf with the value. */
  lemma OneBlockMore(prefixes: seq<u32>, t: Tree, v: nat, i: nat)
    requires i < Pow2(R) && Holds(prefixes, Blocks(t, v, i))
    ensures i * 4096 < Pow2(W) && i * 4096 < 0x1_0000_0000
    ensures var n := NodeAt(t, W, i * 4096, R);
            Holds(prefixes + (if n.Leaf? && n.value == v then [i * 4096] else []), Blocks(t, v, i + 1))
  {
    hide NodeAt, Pow2;
    BlockFacts();
  }

  /** The stored prefixes are those of the given blocks. */
  ghost predicate Holds(prefixes: seq<u32>, blocks: seq<nat>) {
    |prefixes| == |blocks| && forall j :: 0 <= j < |blocks| ==> prefixes[j] == blocks[j] * BLOCK
  }
}
