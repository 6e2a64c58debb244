/** How the painted trie counts and numbers its addresses. */
module TrieCount {
  import opened Arith
  import opened TrieModel

  /** Addresses below a node covering `size` of them; halves round down, so below one address all counts are 0. */
  function Count(t: Tree, size: nat, v: nat): nat {
    if t.Leaf? then (if t.value == v then size else 0)
    else Count(t.left, size / 2, v) + Count(t.right, size / 2, v)
  }

  /** The same count without the leaves that span whole radix blocks. */
  function CountSmall(t: Tree, size: nat, v: nat): nat {
    if t.Leaf? then (if t.value == v && size < BLOCK then size else 0)
    else CountSmall(t.left, size / 2, v) + CountSmall(t.right, size / 2, v)
  }

  /** The address has value v and its leaf is no deeper than the address is long. */
  predicate Counted(t: Tree, k: nat, v: nat, r: nat)
    requires r < Pow2(k)
  {
    LeafDepth(t, k, r) <= k && Look(t, k, r) == v
  }

  /** A counted address whose leaf is smaller than a radix block. */
  predicate Small(t: Tree, k: nat, v: nat, r: nat)
    requires r < Pow2(k)
  {
    Counted(t, k, v, r) && Pow2(k - LeafDepth(t, k, r)) < BLOCK
  }

  lemma {:induction false} CountBelowZero(t: Tree, v: nat)
    ensures Count(t, 0, v) == 0 && CountSmall(t, 0, v) == 0
  {
    if t.Branch? {
      CountBelowZero(t.left, v);
      CountBelowZero(t.right, v);
    }
  }

  lemma {:induction false} CountBound(t: Tree, size: nat, v: nat)
    ensures CountSmall(t, size, v) <= Count(t, size, v) <= size
  {
    if t.Branch? {
      CountBound(t.left, size / 2, v);
      CountBound(t.right, size / 2, v);
    }
  }

  lemma CountAtBottom(t: Tree, v: nat)
    requires t.Branch?
    ensures Count(t, 1, v) == 0 && CountSmall(t, 1, v) == 0
  {
    CountBelowZero(t.left, v);
    CountBelowZero(t.right, v);
  }

  lemma CountStep(t: Tree, k: nat, v: nat)
    requires t.Branch? && k > 0
    ensures Pow2(k) / 2 == Pow2(k - 1)
    ensures Count(t, Pow2(k), v) == Count(t.left, Pow2(k - 1), v) + Count(t.right, Pow2(k - 1), v)
    ensures CountSmall(t, Pow2(k), v) == CountSmall(t.left, Pow2(k - 1), v) + CountSmall(t.right, Pow2(k - 1), v)
  {
  }

  // ----- the count is the number of counted addresses -----

  ghost function CountedSet(t: Tree, k: nat, v: nat): set<nat> {
    set r | r in Below(Pow2(k)) && Counted(t, k, v, r)
  }

  ghost function Shift(s: set<nat>, m: nat): set<nat> {
    set r | r in s :: r + m
  }

  lemma ShiftMember(s: set<nat>, m: nat)
    ensures forall y: nat :: y in Shift(s, m) <==> y >= m && y - m in s
  {
    forall y: nat ensures y in Shift(s, m) <==> y >= m && y - m in s {
      if y >= m { assert y == (y - m) + m; }
    }
  }

  lemma {:induction false} ShiftSize(s: set<nat>, m: nat)
    ensures |Shift(s, m)| == |s|
    decreases |s|
  {
    if s != {} {
      var x :| x in s;
      ShiftSize(s - {x}, m);
      ShiftMember(s, m);
      ShiftMember(s - {x}, m);
      assert Shift(s, m) == Shift(s - {x}, m) + {x + m};
    }
  }

  lemma CountedSplit(t: Tree, k: nat, v: nat)
    requires t.Branch? && k > 0
    ensures var a, b := CountedSet(t.left, k - 1, v), Shift(CountedSet(t.right, k - 1, v), Pow2(k - 1));
            CountedSet(t, k, v) == a + b && a !! b
  {
    var h := Pow2(k - 1);
    var a, b := CountedSet(t.left, k - 1, v), Shift(CountedSet(t.right, k - 1, v), h);
    ShiftMember(CountedSet(t.right, k - 1, v), h);
    forall r: nat ensures r in CountedSet(t, k, v) <==> r in a + b {
      if r < Pow2(k) { CountedStep(t, k, v, r); }
    }
  }

  lemma CountedStep(t: Tree, k: nat, v: nat, r: nat)
    requires t.Branch? && k > 0 && r < Pow2(k)
    ensures Counted(t, k, v, r) <==> Counted(Child(t, k, r), k - 1, v, Strip(k, r))
    ensures Small(t, k, v, r) <==> Small(Child(t, k, r), k - 1, v, Strip(k, r))
  {
  }

  /** The recursive recount is the number of addresses with the value at a leaf of depth <= k. */
  lemma {:induction false} CountIsCardinality(t: Tree, k: nat, v: nat)
    ensures Count(t, Pow2(k), v) == |CountedSet(t, k, v)|
  {
    if t.Leaf? {
      BelowSize(Pow2(k));
      assert CountedSet(t, k, v) == if t.value == v then Below(Pow2(k)) else {};
    } else if k == 0 {
      CountAtBottom(t, v);
      assert CountedSet(t, k, v) == {};
    } else {
      CountStep(t, k, v);
      CountIsCardinality(t.left, k - 1, v);
      CountIsCardinality(t.right, k - 1, v);
      CountedSplit(t, k, v);
      ShiftSize(CountedSet(t.right, k - 1, v), Pow2(k - 1));
    }
  }

  // ----- numbering the small leaves by subtree counts -----

  /** The n-th address, in address order, that lies in a small leaf with value v. */
  function Select(t: Tree, k: nat, v: nat, n: nat): (r: nat)
    requires n < CountSmall(t, Pow2(k), v)
    ensures r < Pow2(k)
  {
    if t.Leaf? then n
    else if k == 0 then 0
    else
      var c := CountSmall(t.left, Pow2(k - 1), v);
      if n < c then Select(t.left, k - 1, v, n) else Pow2(k - 1) + Select(t.right, k - 1, v, n - c)
  }

  /** How many such addresses precede r. */
  function Rank(t: Tree, k: nat, v: nat, r: nat): nat
    requires r < Pow2(k)
  {
    if t.Leaf? then r
    else if k == 0 then 0
    else if GoesRight(k, r) then CountSmall(t.left, Pow2(k - 1), v) + Rank(t.right, k - 1, v, r - Pow2(k - 1))
    else Rank(t.left, k - 1, v, r)
  }

  lemma {:induction false} SelectRank(t: Tree, k: nat, v: nat, n: nat)
    requires n < CountSmall(t, Pow2(k), v)
    ensures Small(t, k, v, Select(t, k, v, n)) && Rank(t, k, v, Select(t, k, v, n)) == n
  {
    if t.Branch? {
      if k == 0 {
        CountAtBottom(t, v);
      } else {
        CountStep(t, k, v);
        CountedStep(t, k, v, Select(t, k, v, n));
        var c := CountSmall(t.left, Pow2(k - 1), v);
        if n < c {
          SelectRank(t.left, k - 1, v, n);
        } else {
          SelectRank(t.right, k - 1, v, n - c);
        }
      }
    }
  }

  lemma {:induction false} RankSelect(t: Tree, k: nat, v: nat, r: nat)
    requires r < Pow2(k) && Small(t, k, v, r)
    ensures Rank(t, k, v, r) < CountSmall(t, Pow2(k), v) && Select(t, k, v, Rank(t, k, v, r)) == r
  {
    if t.Branch? {
      CountStep(t, k, v);
      CountedStep(t, k, v, r);
      RankSelect(Child(t, k, r), k - 1, v, Strip(k, r));
    }
  }

  /**
   * The index descent of the source: step left or right by comparing with the left count,
   * or-ing in the mask on the way right, and or the rest of the index in at the leaf.
   */
  function Descend(t: Tree, size: nat, v: nat, ip: nat, n: int): nat
    requires n >= 0
  {
    if t.Leaf? then Or(ip, n) % Pow2(W)
    else
      var c := CountSmall(t.left, size / 2, v);
      if n < c then Descend(t.left, size / 2, v, ip, n)
      else Descend(t.right, size / 2, v, Or(ip, size / 2), n - c)
  }

  lemma SmallMod(a: nat, m: nat)
    requires a < m
    ensures a % m == a
  {
  }

  lemma HalfAligned(ip: nat, h: nat)
    requires h > 0 && ip % (2 * h) == 0
    ensures ip % h == 0 && (ip + h) % h == 0
  {
    var q := ip / (2 * h);
    assert ip == (2 * q) * h;
    ModOfMultiple(2 * q, h);
    assert ip + h == (2 * q + 1) * h;
    ModOfMultiple(2 * q + 1, h);
  }

  /** The k lowest bits are clear. */
  predicate Aligned(ip: nat, k: nat) {
    ip % Pow2(k) == 0
  }

  lemma AlignedHalf(ip: nat, k: nat)
    requires Aligned(ip, k) && k > 0
    ensures Aligned(ip, k - 1) && Aligned(ip + Pow2(k - 1), k - 1) && Or(ip, Pow2(k - 1)) == ip + Pow2(k - 1)
  {
    hide Or;
    HalfAligned(ip, Pow2(k - 1));
    OrDisjoint(ip, k, Pow2(k - 1));
  }

  lemma AlignedOr(ip: nat, k: nat, n: nat)
    requires Aligned(ip, k) && n < Pow2(k) && ip + Pow2(k) <= Pow2(W)
    ensures Or(ip, n) % Pow2(W) == ip + n
  {
    hide Or;
    OrDisjoint(ip, k, n);
    SmallMod(ip + n, Pow2(W));
  }

  /** For an index in range the descent finds the selected address. */
  lemma {:induction false} DescendSelects(t: Tree, k: nat, v: nat, ip: nat, n: nat)
    requires n < CountSmall(t, Pow2(k), v)
    requires Aligned(ip, k) && ip + Pow2(k) <= Pow2(W)
    ensures Descend(t, Pow2(k), v, ip, n) == ip + Select(t, k, v, n)
  {
    hide Or, Aligned;
    if t.Leaf? {
      AlignedOr(ip, k, n);
    } else if k == 0 {
      CountAtBottom(t, v);
    } else {
      var h := Pow2(k - 1);
      var c := CountSmall(t.left, h, v);
      CountStep(t, k, v);
      AlignedHalf(ip, k);
      hide CountSmall;
      if n < c {
        DescendSelects(t.left, k - 1, v, ip, n);
      } else {
        DescendSelects(t.right, k - 1, v, ip + h, n - c);
      }
    }
  }

  lemma ZeroAligned(k: nat)
    ensures Aligned(0, k)
  {
  }

  // ----- numbering whole radix blocks first -----

  lemma BlockFacts()
    ensures Pow2(W) == 4294967296 && Pow2(R) == 1048576 && Pow2(W - R) == BLOCK
  {
    assert Pow2(4) == 16;
    Pow2Add(4, 4);
    Pow2Add(8, 4);
    Pow2Add(12, 8);
    Pow2Add(20, 12);
  }

  /** Block i is decided by a leaf at depth <= R holding v. */
  predicate BlockLeaf(t: Tree, v: nat, i: nat)
    requires i < Pow2(R)
  {
    BlockFacts();
    var n := NodeAt(t, W, i * BLOCK, R);
    n.Leaf? && n.value == v
  }

  /** The radix array, in blocks: the numbers of the block leaves among the first n, ascending. */
  function Blocks(t: Tree, v: nat, n: nat): seq<nat>
    requires n <= Pow2(R)
  {
    if n == 0 then []
    else Blocks(t, v, n - 1) + (if BlockLeaf(t, v, n - 1) then [n - 1] else [])
  }

  lemma {:induction false} BlocksMembers(t: Tree, v: nat, n: nat)
    requires n <= Pow2(R)
    ensures |Blocks(t, v, n)| <= n
    ensures forall j :: 0 <= j < |Blocks(t, v, n)| ==> Blocks(t, v, n)[j] < n && BlockLeaf(t, v, Blocks(t, v, n)[j])
    ensures forall i: nat :: i < n && BlockLeaf(t, v, i) ==> i in Blocks(t, v, n)
    ensures NoDup(Blocks(t, v, n))
  {
    hide BlockLeaf;
    if n > 0 {
      BlocksMembers(t, v, n - 1);
      var b := Blocks(t, v, n - 1);
      if BlockLeaf(t, v, n - 1) {
        assert Blocks(t, v, n) == b + [n - 1];
        assert forall i: nat :: i in b + [n - 1] <==> i in b || i == n - 1;
      }
    }
  }

  /** An address is decided by a block leaf iff it is counted and not in a small leaf. */
  lemma BlockOfAddress(t: Tree, v: nat, a: nat)
    requires a < Pow2(W)
    ensures a / BLOCK < Pow2(R)
    ensures BlockLeaf(t, v, a / BLOCK) <==> Counted(t, W, v, a) && !Small(t, W, v, a)
  {
    BlockFacts();
    var i := a / BLOCK;
    var p := i * BLOCK;
    assert p / BLOCK == i by { ModOfMultiple(i, BLOCK); }
    UnderMeaning(W, a, p, R);
    NodeAtUnder(t, W, p, R, a);
    NodeAtIsLeaf(t, W, a, R);
    var d := LeafDepth(t, W, a);
    if d <= R {
      Pow2Monotone(W - R, W - d);
    } else if d <= W {
      Pow2Monotone(W - d, W - R - 1);
    }
  }

  lemma {:induction false} Pow2Monotone(a: nat, b: nat)
    requires a <= b
    ensures Pow2(a) <= Pow2(b)
  {
    if a < b { Pow2Monotone(a, b - 1); }
  }

  // ----- the whole index -----

  /** Number of painted addresses: root count plus radix blocks. */
  function Total(t: Tree, v: nat): nat {
    |Blocks(t, v, Pow2(R))| * BLOCK + CountSmall(t, Pow2(W), v)
  }

  /** Index lookup: first the radix array, then the descent. */
  function Index(t: Tree, v: nat, n: nat): nat {
    var b := Blocks(t, v, Pow2(R));
    if n / BLOCK < |b| then Or(b[n / BLOCK] * BLOCK, n % BLOCK)
    else Descend(t, Pow2(W), v, 0, n - |b| * BLOCK)
  }

  lemma IndexInRadix(t: Tree, v: nat, n: nat)
    requires n / BLOCK < |Blocks(t, v, Pow2(R))|
    ensures var b := Blocks(t, v, Pow2(R));
            Index(t, v, n) == b[n / BLOCK] * BLOCK + n % BLOCK
            && Index(t, v, n) / BLOCK == b[n / BLOCK] && Index(t, v, n) % BLOCK == n % BLOCK
            && Index(t, v, n) < Pow2(W)
            && Counted(t, W, v, Index(t, v, n)) && !Small(t, W, v, Index(t, v, n))
  {
    BlockFacts();
    var i := Blocks(t, v, Pow2(R))[n / BLOCK];
    BlocksMembers(t, v, Pow2(R));
    ModOfMultiple(i, BLOCK);
    OrDisjoint(i * BLOCK, W - R, n % BLOCK);
    BlockOfAddress(t, v, i * BLOCK + n % BLOCK);
  }

  lemma IndexInTree(t: Tree, v: nat, n: nat)
    requires n / BLOCK >= |Blocks(t, v, Pow2(R))| && n < Total(t, v)
    ensures var m := n - |Blocks(t, v, Pow2(R))| * BLOCK;
            0 <= m < CountSmall(t, Pow2(W), v) && Index(t, v, n) == Select(t, W, v, m)
            && Index(t, v, n) < Pow2(W) && Small(t, W, v, Index(t, v, n)) && Rank(t, W, v, Index(t, v, n)) == m
  {
    hide Pow2, Blocks, CountSmall, Select, Small, Rank, Or, Aligned;
    var l := |Blocks(t, v, Pow2(R))|;
    var m := n - l * BLOCK;
    ZeroAligned(W);
    DescendSelects(t, W, v, 0, m);
    SelectRank(t, W, v, m);
  }

  /** Indexes in range land on counted addresses. */
  lemma IndexSound(t: Tree, v: nat, n: nat)
    requires n < Total(t, v)
    ensures Index(t, v, n) < Pow2(W) && Counted(t, W, v, Index(t, v, n))
  {
    if n / BLOCK < |Blocks(t, v, Pow2(R))| { IndexInRadix(t, v, n); } else { IndexInTree(t, v, n); }
  }

  /** Different indexes land on different addresses. */
  lemma IndexInjective(t: Tree, v: nat, n: nat, m: nat)
    requires n < Total(t, v) && m < Total(t, v) && Index(t, v, n) == Index(t, v, m)
    ensures n == m
  {
    hide Pow2, Blocks, CountSmall, Select, Small, Rank, Counted, Index;
    var b := Blocks(t, v, Pow2(R));
    if n / BLOCK < |b| { IndexInRadix(t, v, n); } else { IndexInTree(t, v, n); }
    if m / BLOCK < |b| { IndexInRadix(t, v, m); } else { IndexInTree(t, v, m); }
    BlocksMembers(t, v, Pow2(R));
  }

  /** Every counted address has an index. */
  lemma IndexOnto(t: Tree, v: nat, a: nat) returns (n: nat)
    requires a < Pow2(W) && Counted(t, W, v, a)
    ensures n < Total(t, v) && Index(t, v, n) == a
  {
    if Small(t, W, v, a) {
      n := SmallOnto(t, v, a);
    } else {
      n := LargeOnto(t, v, a);
    }
  }

  lemma SmallOnto(t: Tree, v: nat, a: nat) returns (n: nat)
    requires a < Pow2(W) && Small(t, W, v, a)
    ensures n < Total(t, v) && Index(t, v, n) == a
  {
    hide Pow2, Blocks, CountSmall, Select, Small, Rank, Index;
    var m, l := Rank(t, W, v, a), |Blocks(t, v, Pow2(R))|;
    RankSelect(t, W, v, a);
    n := l * BLOCK + m;
    assert n / BLOCK >= l;
    IndexInTree(t, v, n);
  }

  lemma LargeOnto(t: Tree, v: nat, a: nat) returns (n: nat)
    requires a < Pow2(W) && Counted(t, W, v, a) && !Small(t, W, v, a)
    ensures n < Total(t, v) && Index(t, v, n) == a
  {
    hide Pow2, Blocks, CountSmall, Index, Counted, Small;
    var b := Blocks(t, v, Pow2(R));
    BlockOfAddress(t, v, a);
    BlocksMembers(t, v, Pow2(R));
    var j :| 0 <= j < |b| && b[j] == a / BLOCK;
    n := j * BLOCK + a % BLOCK;
    DivModUnique(n, BLOCK, j, a % BLOCK);
    IndexInRadix(t, v, n);
  }

  ghost function Indexed(t: Tree, v: nat): seq<nat> {
    seq(Total(t, v), n requires 0 <= n < Total(t, v) => Index(t, v, n))
  }

  lemma IndexedMember(t: Tree, v: nat, a: nat)
    ensures a in CountedSet(t, W, v) <==> a in Indexed(t, v)
  {
    hide Index, Total, Counted, Pow2;
    var s := Indexed(t, v);
    if a in s {
      var n :| 0 <= n < |s| && s[n] == a;
      IndexSound(t, v, n);
    }
    if a in CountedSet(t, W, v) {
      var n := IndexOnto(t, v, a);
      assert s[n] == a;
    }
  }

  /** The painted count, the recount and the number of counted addresses agree. */
  lemma TotalIsCount(t: Tree, v: nat)
    ensures Total(t, v) == Count(t, Pow2(W), v) == |CountedSet(t, W, v)|
  {
    var s := Indexed(t, v);
    forall i, j | 0 <= i < j < |s| ensures s[i] != s[j] {
      if s[i] == s[j] { IndexInjective(t, v, i, j); }
    }
    NoDupSize(s);
    forall a: nat ensures a in CountedSet(t, W, v) <==> a in s { IndexedMember(t, v, a); }
    assert CountedSet(t, W, v) == Elems(s);
    CountIsCardinality(t, W, v);
  }

  // ----- an index far behind the last one -----

  /** The descent never clears a bit that it has set. */
  lemma {:induction false} DescendAtLeast(t: Tree, size: nat, v: nat, ip: nat, n: nat)
    requires ip < Pow2(W) && size <= Pow2(W)
    ensures ip <= Descend(t, size, v, ip, n) < Pow2(W)
  {
    hide Pow2, Or, CountSmall;
    if t.Leaf? {
      OrAtLeast(ip, n, W);
    } else {
      var c := CountSmall(t.left, size / 2, v);
      if n < c {
        DescendAtLeast(t.left, size / 2, v, ip, n);
      } else {
        BlockFacts();
        OrAtLeast(ip, size / 2, W);
        OrBound(ip, size / 2, W);
        DescendAtLeast(t.right, size / 2, v, Or(ip, size / 2), n - c);
      }
    }
  }

  lemma Pow2Step(k: nat)
    ensures Pow2(0) == 1 && (k > 0 ==> Pow2(k) == 2 * Pow2(k - 1))
  {
  }

  /** Two addresses of a subtree are decided by the same leaf, or by two alike. */
  predicate SameLeaf(t: Tree, k: nat, a: nat, b: nat)
    requires a < Pow2(k) && b < Pow2(k)
  {
    Look(t, k, a) == Look(t, k, b) && LeafDepth(t, k, a) == LeafDepth(t, k, b)
  }

  lemma SameLeafAtOnce(t: Tree, k: nat, a: nat, b: nat)
    requires a < Pow2(k) && b < Pow2(k) && (t.Leaf? || a == b)
    ensures SameLeaf(t, k, a, b)
  {
  }

  lemma SameLeafRight(t: Tree, k: nat, a: nat, b: nat)
    requires t.Branch? && k > 0 && a < Pow2(k - 1) && b < Pow2(k - 1) && SameLeaf(t.right, k - 1, a, b)
    ensures SameLeaf(t, k, Pow2(k - 1) + a, Pow2(k - 1) + b)
  {
    var h := Pow2(k - 1);
    assert Strip(k, h + a) == a && Strip(k, h + b) == b;
  }

  /** Far behind its last index a subtree answers from the leaf of its highest address. */
  lemma {:induction false} DescendFar(t: Tree, k: nat, v: nat, ip: nat, n: nat)
    requires Aligned(ip, k) && ip + Pow2(k) == Pow2(W) && n >= Pow2(k)
    ensures var r, top := Descend(t, Pow2(k), v, ip, n), Pow2(k) - 1;
            ip <= r < Pow2(W) && SameLeaf(t, k, r - ip, top)
  {
    hide Or, CountSmall, Aligned, SameLeaf, Descend, Pow2;
    Pow2Step(k);
    DescendAtLeast(t, Pow2(k), v, ip, n);
    var r := Descend(t, Pow2(k), v, ip, n);
    if t.Leaf? || k == 0 {
      SameLeafAtOnce(t, k, r - ip, Pow2(k) - 1);
    } else {
      var h := Pow2(k - 1);
      CountBound(t.left, h, v);
      AlignedHalf(ip, k);
      DescendRight(t, k, v, ip, n);
      DescendFar(t.right, k - 1, v, ip + h, n - CountSmall(t.left, h, v));
      SameLeafRight(t, k, r - (ip + h), h - 1);
    }
  }

  /** Index 2^64 - 1 answers an address other than 0, and a counted one iff the highest address is counted. */
  lemma IdleIndex(t: Tree, v: nat)
    ensures var a := Index(t, v, 0xffff_ffff_ffff_ffff);
            0 < a < Pow2(W) && (Counted(t, W, v, a) <==> Counted(t, W, v, Pow2(W) - 1))
  {
    hide Pow2, Or, CountSmall, Blocks, Look, LeafDepth, Aligned;
    var b, n := |Blocks(t, v, Pow2(R))|, 0xffff_ffff_ffff_ffff;
    BlocksMembers(t, v, Pow2(R));
    BlockFacts();
    var far := n - b * BLOCK;
    assert far % BLOCK == BLOCK - 1;
    ZeroAligned(W);
    DescendFar(t, W, v, 0, far);
    if t.Leaf? {
      NothingToOr(far);
    } else {
      CountBound(t.left, Pow2(W) / 2, v);
      NothingToOr(Pow2(W) / 2);
      DescendAtLeast(t.right, Pow2(W) / 2, v, Or(0, Pow2(W) / 2), far - CountSmall(t.left, Pow2(W) / 2, v));
    }
  }

  lemma NothingToOr(b: nat)
    ensures Or(0, b) == b
  {
  }

  /** A subtree's answer far behind its last index, exactly. */
  lemma {:induction false} DescendFarIs(t: Tree, k: nat, v: nat, n: nat)
    requires k <= W && Pow2(k) <= Pow2(W) && n >= Pow2(k) && CountSmall(t, Pow2(k), v) <= n
    ensures var d := LeafDepth(t, k, Pow2(k) - 1);
            Descend(t, Pow2(k), v, Pow2(W) - Pow2(k), n) == AnswerFar(k, d, n - CountSmall(t, Pow2(k), v))
  {
    hide Or, CountSmall, AnswerFar, LeafDepth, Descend, Pow2;
    Pow2Step(k);
    if t.Leaf? {
      OrTop(W, k, n);
      AtLeaf(t, k, v, Pow2(W) - Pow2(k), n);
      LeafFar(t, k, v, n);
    } else if k == 0 {
      DescendAtLeast(t, 1, v, Pow2(W) - 1, n);
      TopOfRight(t, 0);
      TooDeep(LeafDepth(t, 0, 0), n - CountSmall(t, 1, v));
    } else {
      var h := Pow2(k - 1);
      CountBound(t.left, h, v);
      CountBound(t.right, h, v);
      CountStep(t, k, v);
      DescendRight(t, k, v, Pow2(W) - Pow2(k), n);
      AlignedTop(k);
      DescendFarIs(t.right, k - 1, v, n - CountSmall(t.left, h, v));
      TopOfRight(t, k);
      FarStep(k, LeafDepth(t.right, k - 1, h - 1), n - CountSmall(t, Pow2(k), v));
    }
  }

  lemma AtLeaf(t: Tree, k: nat, v: nat, ip: nat, n: nat)
    requires t.Leaf?
    ensures Descend(t, Pow2(k), v, ip, n) == Or(ip, n) % Pow2(W) && LeafDepth(t, k, Pow2(k) - 1) == 0
  {
    hide Or, Pow2;
  }

  lemma DescendRight(t: Tree, k: nat, v: nat, ip: nat, n: nat)
    requires t.Branch? && k > 0 && n >= CountSmall(t.left, Pow2(k - 1), v)
    ensures Descend(t, Pow2(k), v, ip, n) ==
              Descend(t.right, Pow2(k - 1), v, Or(ip, Pow2(k - 1)), n - CountSmall(t.left, Pow2(k - 1), v))
  {
    hide Or, CountSmall;
    assert Pow2(k) / 2 == Pow2(k - 1);
  }

  /** At a leaf of depth d below k bits: all the higher bits, and the rest of the index in the others. */
  function AnswerFar(k: nat, d: nat, rest: nat): nat {
    if d > k then Pow2(W) - 1
    else if Pow2(k - d) <= Pow2(W) then Pow2(W) - Pow2(k - d) + rest % Pow2(k - d)
    else 0
  }

  lemma LeafFar(t: Tree, k: nat, v: nat, n: nat)
    requires t.Leaf? && k <= W && Pow2(k) <= Pow2(W) && CountSmall(t, Pow2(k), v) <= n
    ensures AnswerFar(k, 0, n - CountSmall(t, Pow2(k), v)) == Pow2(W) - Pow2(k) + n % Pow2(k)
  {
    hide Pow2;
    if CountSmall(t, Pow2(k), v) == Pow2(k) { LessModulus(n, Pow2(k)); }
  }

  lemma LessModulus(n: nat, m: nat)
    requires 0 < m <= n
    ensures (n - m) % m == n % m
  {
    DivModUnique(n - m, m, n / m - 1, n % m);
  }

  lemma TooDeep(d: nat, rest: nat)
    requires d > 0
    ensures AnswerFar(0, d, rest) == Pow2(W) - 1
  {
  }

  lemma FarStep(k: nat, d: nat, rest: nat)
    requires k > 0
    ensures AnswerFar(k, d + 1, rest) == AnswerFar(k - 1, d, rest)
  {
  }

  lemma AlignedTop(k: nat)
    requires 0 < k <= W && Pow2(k) <= Pow2(W)
    ensures Or(Pow2(W) - Pow2(k), Pow2(k - 1)) == Pow2(W) - Pow2(k - 1)
  {
    hide Or, Aligned;
    Pow2Add(W - k, k);
    TopAligned(k, Pow2(W - k));
    AlignedHalf(Pow2(W) - Pow2(k), k);
  }

  lemma TopAligned(k: nat, q: nat)
    requires q > 0 && Pow2(W) == q * Pow2(k)
    ensures Pow2(W) >= Pow2(k) && Aligned(Pow2(W) - Pow2(k), k)
  {
    hide Pow2;
    ModOfMultiple(q - 1, Pow2(k));
    assert (q - 1) * Pow2(k) == q * Pow2(k) - Pow2(k);
  }

  lemma TopOfRight(t: Tree, k: nat)
    requires t.Branch?
    ensures LeafDepth(t, k, Pow2(k) - 1) > 0
    ensures k > 0 ==> LeafDepth(t, k, Pow2(k) - 1) == 1 + LeafDepth(t.right, k - 1, Pow2(k - 1) - 1)
  {
    if k > 0 { assert Strip(k, Pow2(k) - 1) == Pow2(k - 1) - 1; }
  }

  /**
   * What index 2^64 - 1 answers: an address in the leaf of the highest one, in its free bits those
   * of the index less the number of painted addresses.
   */
  lemma IdleIndexIs(t: Tree, v: nat)
    ensures 0xffff_ffff < Pow2(W) && Total(t, v) <= 0xffff_ffff_ffff_ffff
    ensures var d := LeafDepth(t, W, 0xffff_ffff);
            Index(t, v, 0xffff_ffff_ffff_ffff) ==
              if d > W then 0xffff_ffff
              else 0x1_0000_0000 - Pow2(W - d) + (0xffff_ffff_ffff_ffff - Total(t, v)) % Pow2(W - d)
  {
    hide Or, CountSmall, Blocks, LeafDepth, Descend, Pow2;
    var b, n := |Blocks(t, v, Pow2(R))|, 0xffff_ffff_ffff_ffff;
    BlocksMembers(t, v, Pow2(R));
    BlockFacts();
    CountBound(t, Pow2(W), v);
    DescendFarIs(t, W, v, n - b * BLOCK);
    if LeafDepth(t, W, 0xffff_ffff) <= W { Pow2Monotone(W - LeafDepth(t, W, 0xffff_ffff), W); }
  }

  // ----- the order of the addresses -----

  /** The addresses in small leaves are numbered in ascending order. */
  lemma {:induction false} SelectAscends(t: Tree, k: nat, v: nat, n: nat, m: nat)
    requires n < m < CountSmall(t, Pow2(k), v)
    ensures Select(t, k, v, n) < Select(t, k, v, m)
  {
    if t.Branch? {
      if k == 0 {
        CountAtBottom(t, v);
      } else {
        CountStep(t, k, v);
        var c := CountSmall(t.left, Pow2(k - 1), v);
        if m < c { SelectAscends(t.left, k - 1, v, n, m); }
        if n >= c { SelectAscends(t.right, k - 1, v, n - c, m - c); }
      }
    }
  }

  lemma {:induction false} BlocksAscend(t: Tree, v: nat, n: nat, i: nat, j: nat)
    requires n <= Pow2(R) && i < j < |Blocks(t, v, n)|
    ensures Blocks(t, v, n)[i] < Blocks(t, v, n)[j]
  {
    hide BlockLeaf;
    if n > 0 {
      BlocksMembers(t, v, n - 1);
      if j < |Blocks(t, v, n - 1)| { BlocksAscend(t, v, n - 1, i, j); }
    }
  }

  /** Indexes number first the addresses of whole blocks and then the others, each in ascending order. */
  lemma IndexAscends(t: Tree, v: nat, n: nat, m: nat)
    requires n < m < Total(t, v)
    requires m / BLOCK < |Blocks(t, v, Pow2(R))| || n / BLOCK >= |Blocks(t, v, Pow2(R))|
    ensures Index(t, v, n) < Index(t, v, m)
  {
    hide Pow2, Blocks, CountSmall, Select, Small, Rank, Counted, Index;
    var b := Blocks(t, v, Pow2(R));
    if m / BLOCK < |b| {
      IndexInRadix(t, v, n);
      IndexInRadix(t, v, m);
      if n / BLOCK < m / BLOCK { BlocksAscend(t, v, Pow2(R), n / BLOCK, m / BLOCK); }
    } else {
      IndexInTree(t, v, n);
      IndexInTree(t, v, m);
      SelectAscends(t, W, v, n - |b| * BLOCK, m - |b| * BLOCK);
    }
  }
}
