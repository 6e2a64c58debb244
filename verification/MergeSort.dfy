/** The table's stable bottom-up mergesort of its entries, here of their positions in a sequence of keys. */
module MergeSort {
  import Arith
  import opened Keys

  ghost predicate Points(keys: seq<Text>, s: seq<nat>) {
    forall i :: 0 <= i < |s| ==> s[i] < |keys|
  }

  predicate Above(keys: seq<Text>, x: nat, y: nat)
    requires x < |keys| && y < |keys|
  {
    Compare(keys[x], keys[y]) > 0
  }

  ghost predicate Sorted(keys: seq<Text>, s: seq<nat>)
    requires Points(keys, s)
  {
    forall i, j :: 0 <= i < j < |s| ==> !Above(keys, s[i], s[j])
  }

  /** The positions whose key equals k, in order: what stability keeps. */
  function Filter(keys: seq<Text>, s: seq<nat>, k: Text): seq<nat>
    requires Points(keys, s)
  {
    if s == [] then []
    else (if Same(keys[s[0]], k) then [s[0]] else []) + Filter(keys, s[1..], k)
  }

  /** Merges two blocks, preferring the first one on equal keys. */
  function Merge(keys: seq<Text>, xs: seq<nat>, ys: seq<nat>): (r: seq<nat>)
    requires Points(keys, xs) && Points(keys, ys)
    ensures |r| == |xs| + |ys| && Points(keys, r)
    decreases |xs| + |ys|
  {
    if xs == [] then ys
    else if ys == [] then xs
    else if Above(keys, xs[0], ys[0]) then [ys[0]] + Merge(keys, xs, ys[1..])
    else [xs[0]] + Merge(keys, xs[1..], ys)
  }

  /** Merges consecutive pairs of blocks of size b; a last block without partner is kept. */
  function Pass(keys: seq<Text>, s: seq<nat>, b: nat): (r: seq<nat>)
    requires Points(keys, s) && b > 0
    ensures |r| == |s| && Points(keys, r)
    decreases |s|
  {
    if |s| <= b then s
    else
      var e := if |s| < 2 * b then |s| else 2 * b;
      Merge(keys, s[..b], s[b..e]) + Pass(keys, s[e..], b)
  }

  function SortFrom(keys: seq<Text>, s: seq<nat>, b: nat): (r: seq<nat>)
    requires Points(keys, s) && b > 0
    ensures |r| == |s| && Points(keys, r)
    decreases |s| - b
  {
    if b >= |s| then s else SortFrom(keys, Pass(keys, s, b), 2 * b)
  }

  /** Pairs first, then blocks of doubling size. */
  function Sort(keys: seq<Text>, s: seq<nat>): (r: seq<nat>)
    requires Points(keys, s)
    ensures |r| == |s| && Points(keys, r)
  {
    SortFrom(keys, Pass(keys, s, 1), 2)
  }

  // ----- the order -----

  lemma NotAboveTransitive(keys: seq<Text>, x: nat, y: nat, z: nat)
    requires x < |keys| && y < |keys| && z < |keys|
    requires !Above(keys, x, y) && !Above(keys, y, z)
    ensures !Above(keys, x, z)
  {
    CompareTransitive(keys[x], keys[y], keys[z]);
  }

  lemma AboveTotal(keys: seq<Text>, x: nat, y: nat)
    requires x < |keys| && y < |keys| && Above(keys, x, y)
    ensures !Above(keys, y, x)
  {
    CompareFlip(keys[x], keys[y]);
  }

  /** A key above another is not equal to it. */
  lemma AboveNotSame(keys: seq<Text>, x: nat, y: nat, k: Text)
    requires x < |keys| && y < |keys| && Above(keys, x, y) && Same(keys[x], k)
    ensures !Same(keys[y], k)
  {
    CompareZero(keys[x], keys[y]);
    if Same(keys[y], k) { SameTransitive(keys[y], k, k); SameTransitive(keys[x], k, keys[y]); }
  }

  // ----- one merge -----

  lemma HeadMultiset(s: seq<nat>)
    requires s != []
    ensures multiset(s) == multiset([s[0]]) + multiset(s[1..])
  {
    assert s == [s[0]] + s[1..];
  }

  lemma {:induction false} MergeMultiset(keys: seq<Text>, xs: seq<nat>, ys: seq<nat>)
    requires Points(keys, xs) && Points(keys, ys)
    ensures multiset(Merge(keys, xs, ys)) == multiset(xs) + multiset(ys)
    decreases |xs| + |ys|
  {
    hide Above;
    if xs != [] && ys != [] {
      if Above(keys, xs[0], ys[0]) {
        MergeMultiset(keys, xs, ys[1..]);
        HeadMultiset(ys);
      } else {
        MergeMultiset(keys, xs[1..], ys);
        HeadMultiset(xs);
      }
    }
  }

  lemma {:induction false} MergeSorted(keys: seq<Text>, xs: seq<nat>, ys: seq<nat>)
    requires Points(keys, xs) && Points(keys, ys) && Sorted(keys, xs) && Sorted(keys, ys)
    ensures Sorted(keys, Merge(keys, xs, ys))
    decreases |xs| + |ys|
  {
    hide Above;
    if xs != [] && ys != [] {
      if Above(keys, xs[0], ys[0]) {
        AboveTotal(keys, xs[0], ys[0]);
        MergeSorted(keys, xs, ys[1..]);
        SortedCons(keys, ys[0], xs, ys[1..]);
      } else {
        MergeSorted(keys, xs[1..], ys);
        SortedCons(keys, xs[0], ys, xs[1..]);
        MergeMultiset(keys, xs[1..], ys);
        MergeBelow(keys, xs[0], xs[1..], ys);
      }
    }
  }

  /** An element below the head of one sorted block and below all of the other is below their merge. */
  lemma SortedCons(keys: seq<Text>, x: nat, xs: seq<nat>, rest: seq<nat>)
    requires x < |keys| && Points(keys, xs) && Points(keys, rest) && xs != [] && Sorted(keys, xs)
    requires !Above(keys, x, xs[0]) && forall i :: 0 <= i < |rest| ==> !Above(keys, x, rest[i])
    ensures forall i :: 0 <= i < |xs| ==> !Above(keys, x, xs[i])
    ensures Sorted(keys, Merge(keys, xs, rest)) ==> Sorted(keys, [x] + Merge(keys, xs, rest))
  {
    hide Above;
    forall i | 0 <= i < |xs| ensures !Above(keys, x, xs[i]) {
      if i > 0 { NotAboveTransitive(keys, x, xs[0], xs[i]); }
    }
    MergeBelow(keys, x, xs, rest);
  }

  lemma MergeBelow(keys: seq<Text>, x: nat, xs: seq<nat>, ys: seq<nat>)
    requires x < |keys| && Points(keys, xs) && Points(keys, ys)
    requires forall i :: 0 <= i < |xs| ==> !Above(keys, x, xs[i])
    requires forall i :: 0 <= i < |ys| ==> !Above(keys, x, ys[i])
    ensures forall i :: 0 <= i < |Merge(keys, xs, ys)| ==> !Above(keys, x, Merge(keys, xs, ys)[i])
  {
    hide Above, Merge;
    MergeMultiset(keys, xs, ys);
    var m := Merge(keys, xs, ys);
    forall i | 0 <= i < |m| ensures !Above(keys, x, m[i]) {
      assert m[i] in multiset(m);
      assert m[i] in xs || m[i] in ys;
    }
  }

  lemma {:induction false} FilterConcat(keys: seq<Text>, xs: seq<nat>, ys: seq<nat>, k: Text)
    requires Points(keys, xs) && Points(keys, ys)
    ensures Filter(keys, xs + ys, k) == Filter(keys, xs, k) + Filter(keys, ys, k)
  {
    hide Same;
    if xs == [] {
      assert xs + ys == ys;
    } else {
      FilterConcat(keys, xs[1..], ys, k);
      assert (xs + ys)[1..] == xs[1..] + ys;
      var h := if Same(keys[xs[0]], k) then [xs[0]] else [];
      assert Filter(keys, xs + ys, k) == h + (Filter(keys, xs[1..], k) + Filter(keys, ys, k));
    }
  }

  lemma {:induction false} FilterNone(keys: seq<Text>, xs: seq<nat>, k: Text)
    requires Points(keys, xs) && forall i :: 0 <= i < |xs| ==> !Same(keys[xs[i]], k)
    ensures Filter(keys, xs, k) == []
  {
    if xs != [] { FilterNone(keys, xs[1..], k); }
  }

  /** Merging sorted blocks keeps the order of equal keys: those of the first block come first. */
  lemma {:induction false} MergeFilter(keys: seq<Text>, xs: seq<nat>, ys: seq<nat>, k: Text)
    requires Points(keys, xs) && Points(keys, ys) && Sorted(keys, xs)
    ensures Filter(keys, Merge(keys, xs, ys), k) == Filter(keys, xs, k) + Filter(keys, ys, k)
    decreases |xs| + |ys|
  {
    hide Above, Same, Filter, Sorted;
    if xs == [] || ys == [] {
      FilterNone(keys, [], k);
    } else if Above(keys, xs[0], ys[0]) {
      SortedTail(keys, xs);
      MergeFilter(keys, xs, ys[1..], k);
      FilterHead(keys, ys, k);
      FilterHead(keys, Merge(keys, xs, ys), k);
      if Same(keys[ys[0]], k) { NoneBefore(keys, xs, ys[0], k); }
    } else {
      SortedTail(keys, xs);
      MergeFilter(keys, xs[1..], ys, k);
      FilterHead(keys, xs, k);
      FilterHead(keys, Merge(keys, xs, ys), k);
      Arith.Associative(if Same(keys[xs[0]], k) then [xs[0]] else [], Filter(keys, xs[1..], k), Filter(keys, ys, k));
    }
  }

  lemma FilterHead(keys: seq<Text>, s: seq<nat>, k: Text)
    requires Points(keys, s) && s != []
    ensures Filter(keys, s, k) == (if Same(keys[s[0]], k) then [s[0]] else []) + Filter(keys, s[1..], k)
  {
  }

  lemma SortedTail(keys: seq<Text>, s: seq<nat>)
    requires Points(keys, s) && Sorted(keys, s) && s != []
    ensures Sorted(keys, s[1..])
  {
  }

  /** Before a smaller key equal to k, a sorted block has none equal to k. */
  lemma NoneBefore(keys: seq<Text>, xs: seq<nat>, y: nat, k: Text)
    requires Points(keys, xs) && Sorted(keys, xs) && xs != [] && y < |keys| && Above(keys, xs[0], y) && Same(keys[y], k)
    ensures Filter(keys, xs, k) == []
  {
    hide Above, Same, Filter;
    forall i | 0 <= i < |xs| ensures !Same(keys[xs[i]], k) { LowerHead(keys, xs, y, i, k); }
    FilterNone(keys, xs, k);
  }

  lemma LowerHead(keys: seq<Text>, xs: seq<nat>, y: nat, i: nat, k: Text)
    requires Points(keys, xs) && Sorted(keys, xs) && y < |keys| && i < |xs|
    requires Above(keys, xs[0], y) && Same(keys[y], k)
    ensures !Same(keys[xs[i]], k)
  {
    hide Above, Same;
    if !Above(keys, xs[i], y) { NotAboveTransitive(keys, xs[0], xs[i], y); }
    if Same(keys[xs[i]], k) { AboveNotSame(keys, xs[i], y, k); }
  }

  // ----- passes -----

  /** Consecutive blocks of size b are sorted. */
  ghost predicate BlocksSorted(keys: seq<Text>, s: seq<nat>, b: nat)
    requires Points(keys, s) && b > 0
    decreases |s|
  {
    if |s| <= b then Sorted(keys, s) else Sorted(keys, s[..b]) && BlocksSorted(keys, s[b..], b)
  }

  lemma {:induction false} SinglesSorted(keys: seq<Text>, s: seq<nat>)
    requires Points(keys, s)
    ensures BlocksSorted(keys, s, 1)
    decreases |s|
  {
    if |s| > 1 { SinglesSorted(keys, s[1..]); }
  }

  lemma {:induction false} PassSorts(keys: seq<Text>, s: seq<nat>, b: nat)
    requires Points(keys, s) && b > 0 && BlocksSorted(keys, s, b)
    ensures BlocksSorted(keys, Pass(keys, s, b), 2 * b)
    decreases |s|
  {
    hide Above, Merge;
    if |s| > b {
      var e := if |s| < 2 * b then |s| else 2 * b;
      var first, rest := Merge(keys, s[..b], s[b..e]), Pass(keys, s[e..], b);
      assert s[b..][..e - b] == s[b..e] && s[b..][e - b..] == s[e..];
      assert Sorted(keys, s[b..e]);
      MergeSorted(keys, s[..b], s[b..e]);
      assert BlocksSorted(keys, s[e..], b);
      PassSorts(keys, s[e..], b);
      if |s| > 2 * b {
        assert (first + rest)[..2 * b] == first && (first + rest)[2 * b..] == rest;
      } else {
        assert first + rest == first;
      }
    }
  }

  lemma {:induction false} PassKeeps(keys: seq<Text>, s: seq<nat>, b: nat, k: Text)
    requires Points(keys, s) && b > 0 && BlocksSorted(keys, s, b)
    ensures Filter(keys, Pass(keys, s, b), k) == Filter(keys, s, k)
    ensures multiset(Pass(keys, s, b)) == multiset(s)
    decreases |s|
  {
    hide Above, Merge, Filter;
    if |s| > b {
      var e := if |s| < 2 * b then |s| else 2 * b;
      assert s[b..][e - b..] == s[e..];
      assert Sorted(keys, s[..b]) && BlocksSorted(keys, s[e..], b);
      var merged, rest := Merge(keys, s[..b], s[b..e]), Pass(keys, s[e..], b);
      assert Pass(keys, s, b) == merged + rest;
      hide BlocksSorted, Sorted, Pass;
      PassKeeps(keys, s[e..], b, k);
      PairKeeps(keys, s, b, e, k);
      FilterConcat(keys, merged, rest, k);
      FilterConcat(keys, s[..e], s[e..], k);
      assert s[..e] + s[e..] == s;
    }
  }

  /** Merging two neighbouring blocks keeps their elements and the order of equal keys. */
  lemma PairKeeps(keys: seq<Text>, s: seq<nat>, b: nat, e: nat, k: Text)
    requires Points(keys, s) && b <= e <= |s| && Sorted(keys, s[..b])
    ensures Filter(keys, Merge(keys, s[..b], s[b..e]), k) == Filter(keys, s[..e], k)
    ensures multiset(Merge(keys, s[..b], s[b..e])) == multiset(s[..e])
  {
    hide Sorted, Above, Merge, Filter;
    MergeFilter(keys, s[..b], s[b..e], k);
    MergeMultiset(keys, s[..b], s[b..e]);
    FilterConcat(keys, s[..b], s[b..e], k);
    assert s[..b] + s[b..e] == s[..e];
  }

  lemma {:induction false} SortFromCorrect(keys: seq<Text>, s: seq<nat>, b: nat, k: Text)
    requires Points(keys, s) && b > 0 && BlocksSorted(keys, s, b)
    ensures Sorted(keys, SortFrom(keys, s, b))
    ensures Filter(keys, SortFrom(keys, s, b), k) == Filter(keys, s, k)
    ensures multiset(SortFrom(keys, s, b)) == multiset(s)
    decreases |s| - b
  {
    hide Above, Pass, Filter;
    if b < |s| {
      PassSorts(keys, s, b);
      PassKeeps(keys, s, b, k);
      SortFromCorrect(keys, Pass(keys, s, b), 2 * b, k);
    }
  }

  /** The sort is a sorted permutation that keeps the order of equal keys. */
  lemma SortCorrect(keys: seq<Text>, s: seq<nat>)
    requires Points(keys, s)
    ensures Sorted(keys, Sort(keys, s)) && multiset(Sort(keys, s)) == multiset(s)
    ensures forall k :: Filter(keys, Sort(keys, s), k) == Filter(keys, s, k)
  {
    hide Above, Pass, Filter, SortFrom;
    SinglesSorted(keys, s);
    PassSorts(keys, s, 1);
    forall k ensures Sorted(keys, Sort(keys, s)) && multiset(Sort(keys, s)) == multiset(s)
                     && Filter(keys, Sort(keys, s), k) == Filter(keys, s, k)
    {
      PassKeeps(keys, s, 1, k);
      SortFromCorrect(keys, Pass(keys, s, 1), 2, k);
    }
    var empty: Text := [];
    assert Filter(keys, Sort(keys, s), empty) == Filter(keys, s, empty);
  }

  /** In the sorted order no key is above a later one: at their first difference its byte, in lower case, is the smaller. */
  lemma SortAscends(keys: seq<Text>, s: seq<nat>, i: nat, j: nat, n: nat)
    requires Points(keys, s) && i < j < |s|
    ensures !AboveAt(keys[Sort(keys, s)[i]], keys[Sort(keys, s)[j]], n)
  {
    hide Sort, AboveAt, Compare, Filter;
    SortCorrect(keys, s);
    assert !Above(keys, Sort(keys, s)[i], Sort(keys, s)[j]);
    CompareMeans(keys[Sort(keys, s)[i]], keys[Sort(keys, s)[j]]);
  }

  // ----- the array program -----

  /** Picking the smaller head moves it from the blocks to the output. */
  lemma MergeStep(keys: seq<Text>, vs: seq<nat>, b1: nat, mid: nat, b2: nat, end: nat, out: seq<nat>)
    requires Points(keys, vs) && b1 < mid <= b2 < end <= |vs|
    ensures out + Merge(keys, vs[b1..mid], vs[b2..end]) ==
              if Above(keys, vs[b1], vs[b2]) then (out + [vs[b2]]) + Merge(keys, vs[b1..mid], vs[b2 + 1..end])
              else (out + [vs[b1]]) + Merge(keys, vs[b1 + 1..mid], vs[b2..end])
  {
    hide Above;
    assert vs[b2..end][1..] == vs[b2 + 1..end] && vs[b1..mid][1..] == vs[b1 + 1..mid];
    var m2, m1 := Merge(keys, vs[b1..mid], vs[b2 + 1..end]), Merge(keys, vs[b1 + 1..mid], vs[b2..end]);
    assert out + ([vs[b2]] + m2) == (out + [vs[b2]]) + m2;
    assert out + ([vs[b1]] + m1) == (out + [vs[b1]]) + m1;
  }

  lemma MergeOne(keys: seq<Text>, xs: seq<nat>, ys: seq<nat>)
    requires Points(keys, xs) && Points(keys, ys)
    ensures xs == [] ==> Merge(keys, xs, ys) == ys
    ensures ys == [] ==> Merge(keys, xs, ys) == xs
  {
  }

  /** Picks the smaller of the two heads until one block is empty. */
  method MergeHeads(keys: seq<Text>, values: array<nat>, dst: array<nat>, start: nat, mid: nat, end: nat)
      returns (block1: nat, block2: nat, ghost out: seq<nat>)
    requires values != dst && values.Length == dst.Length && Points(keys, values[..])
    requires start <= mid <= end <= values.Length
    modifies dst
    ensures start <= block1 <= mid <= block2 <= end && (block1 == mid || block2 == end)
    ensures |out| == block1 + block2 - mid - start
    ensures forall j :: 0 <= j < |out| ==> dst[start + j] == out[j]
    ensures Merge(keys, values[start..mid], values[mid..end]) ==
              out + Merge(keys, values[block1..mid], values[block2..end])
    ensures forall j :: 0 <= j < dst.Length && !(start <= j < end) ==> dst[j] == old(dst[j])
  {
    hide Above, Merge;
    block1, block2, out := start, mid, [];
    var d := start;
    ghost var vs := values[..];
    while block1 != mid && block2 != end
      invariant start <= block1 <= mid <= block2 <= end && d == block1 + block2 - mid
      invariant values[..] == vs && |out| == d - start
      invariant forall j :: 0 <= j < |out| ==> dst[start + j] == out[j]
      invariant Merge(keys, vs[start..mid], vs[mid..end]) == out + Merge(keys, vs[block1..mid], vs[block2..end])
      invariant forall j :: 0 <= j < dst.Length && !(start <= j < end) ==> dst[j] == old(dst[j])
      decreases end - d
    {
      MergeStep(keys, vs, block1, mid, block2, end, out);
      var next;
      if Above(keys, values[block1], values[block2]) {
        next := values[block2];
        block2 := block2 + 1;
      } else {
        next := values[block1];
        block1 := block1 + 1;
      }
      dst[d] := next;
      out := out + [next];
      d := d + 1;
    }
  }

  lemma PointsSlices(keys: seq<Text>, s: seq<nat>)
    requires Points(keys, s)
    ensures forall a, b :: 0 <= a <= b <= |s| ==> Points(keys, s[a..b])
  {
  }

  /** Merges two neighbouring blocks of values into the same stretch of dst. */
  method MergeBlocks(keys: seq<Text>, values: array<nat>, dst: array<nat>, start: nat, mid: nat, end: nat)
    requires values != dst && values.Length == dst.Length && Points(keys, values[..])
    requires start <= mid <= end <= values.Length
    modifies dst
    ensures dst[start..end] == Merge(keys, values[start..mid], values[mid..end])
    ensures forall j :: 0 <= j < dst.Length && !(start <= j < end) ==> dst[j] == old(dst[j])
  {
    hide Above, Merge;
    PointsSlices(keys, values[..]);
    var block1, block2, out := MergeHeads(keys, values, dst, start, mid, end);
    MergeOne(keys, values[block1..mid], values[block2..end]);
    var from, d := if block1 == mid then block2 else block1, block1 + block2 - mid;
    CopyBlock(values, dst, from, d, end - d);
    assert dst[start..end] == out + dst[d..end];
  }

  method CopyBlock(values: array<nat>, dst: array<nat>, from: nat, to: nat, n: nat)
    requires values != dst && from + n <= values.Length && to + n <= dst.Length
    modifies dst
    ensures dst[to..to + n] == values[from..from + n]
    ensures forall j :: 0 <= j < dst.Length && !(to <= j < to + n) ==> dst[j] == old(dst[j])
  {
    var i := 0;
    while i < n
      invariant 0 <= i <= n
      invariant forall j :: to <= j < to + i ==> dst[j] == values[j - to + from]
      invariant forall j :: 0 <= j < dst.Length && !(to <= j < to + n) ==> dst[j] == old(dst[j])
    {
      dst[to + i] := values[from + i];
      i := i + 1;
    }
  }

  lemma PassStep(keys: seq<Text>, vs: seq<nat>, start: nat, b: nat, mid: nat, end: nat)
    requires Points(keys, vs) && b > 0 && start + b < |vs| && mid == start + b
    requires end == if mid + b > |vs| then |vs| else mid + b
    ensures Points(keys, vs[start..mid]) && Points(keys, vs[mid..end]) && Points(keys, vs[end..])
    ensures Pass(keys, vs[start..], b) == Merge(keys, vs[start..mid], vs[mid..end]) + Pass(keys, vs[end..], b)
  {
    hide Merge;
    var s := vs[start..];
    assert s[..b] == vs[start..mid] && s[b..end - start] == vs[mid..end] && s[end - start..] == vs[end..];
  }

  lemma PassRest(keys: seq<Text>, s: seq<nat>, b: nat)
    requires Points(keys, s) && b > 0 && |s| <= b
    ensures Pass(keys, s, b) == s
  {
  }

  /** One doubling pass from values into dst. */
  method MergePass(keys: seq<Text>, values: array<nat>, dst: array<nat>, blocksize: nat)
    requires values != dst && values.Length == dst.Length && Points(keys, values[..])
    requires 0 < blocksize < values.Length
    modifies dst
    ensures dst[..] == Pass(keys, values[..], blocksize)
  {
    hide Merge, Pass;
    var n, start := values.Length, 0;
    ghost var vs := values[..];
    assert vs[0..] == vs;
    while start + blocksize < n
      invariant 0 <= start <= n && values[..] == vs
      invariant Pass(keys, vs, blocksize) == dst[..start] + Pass(keys, vs[start..], blocksize)
      decreases n - start
    {
      var mid := start + blocksize;
      var end := if mid + blocksize > n then n else mid + blocksize;
      ghost var before := dst[..start];
      PassStep(keys, vs, start, blocksize, mid, end);
      MergeBlocks(keys, values, dst, start, mid, end);
      assert dst[..start] == before;
      assert dst[..end] == before + dst[start..end];
      Arith.Associative(before, dst[start..end], Pass(keys, vs[end..], blocksize));
      start := end;
    }
    PassRest(keys, vs[start..], blocksize);
    CopyRest(values, dst, start);
  }

  /** Copies what is left behind the last pair of blocks. */
  method CopyRest(values: array<nat>, dst: array<nat>, start: nat)
    requires values != dst && values.Length == dst.Length && start <= dst.Length
    modifies dst
    ensures dst[..] == old(dst[..start]) + values[start..]
  {
    ghost var n, done := dst.Length, dst[..start];
    CopyBlock(values, dst, start, start, dst.Length - start);
    assert dst[..start] == done;
    assert dst[start..start + (n - start)] == dst[start..] && values[start..start + (n - start)] == values[start..];
    assert dst[..] == dst[..start] + dst[start..];
  }

  /** Sorts pairs in place: the pass for blocks of one element. */
  method SortPairs(keys: seq<Text>, values: array<nat>)
    requires Points(keys, values[..])
    modifies values
    ensures values[..] == Pass(keys, old(values[..]), 1)
  {
    hide Merge, Pass, Above;
    var n, i := values.Length, 0;
    ghost var vs := values[..];
    assert vs[0..] == vs;
    while i + 1 < n
      invariant 0 <= i <= n && forall j :: i <= j < n ==> values[j] == vs[j]
      invariant Pass(keys, vs, 1) == values[..i] + Pass(keys, vs[i..], 1)
    {
      ghost var before := values[..i];
      PairStep(keys, vs, i);
      if Above(keys, values[i], values[i + 1]) {
        values[i], values[i + 1] := values[i + 1], values[i];
      }
      assert values[..i] == before;
      assert values[..i + 2] == before + [values[i], values[i + 1]];
      Arith.Associative(before, [values[i], values[i + 1]], Pass(keys, vs[i + 2..], 1));
      i := i + 2;
    }
    PassRest(keys, vs[i..], 1);
    assert values[i..] == vs[i..];
    assert values[..] == values[..i] + values[i..];
  }

  /** The pass takes the next two elements in order. */
  lemma PairStep(keys: seq<Text>, vs: seq<nat>, i: nat)
    requires Points(keys, vs) && i + 1 < |vs|
    ensures Points(keys, vs[i + 2..])
    ensures Pass(keys, vs[i..], 1) ==
              (if Above(keys, vs[i], vs[i + 1]) then [vs[i + 1], vs[i]] else [vs[i], vs[i + 1]]) + Pass(keys, vs[i + 2..], 1)
  {
    hide Merge, Pass, Above;
    PassStep(keys, vs, i, 1, i + 1, i + 2);
    assert vs[i..i + 1] == [vs[i]] && vs[i + 1..i + 2] == [vs[i + 1]];
    PairMerge(keys, vs[i], vs[i + 1]);
  }

  lemma PairMerge(keys: seq<Text>, x: nat, y: nat)
    requires x < |keys| && y < |keys|
    ensures Merge(keys, [x], [y]) == if Above(keys, x, y) then [y, x] else [x, y]
  {
  }

  /** The whole sort; the result is whichever of the two buffers was written last. */
  method Mergesort(keys: seq<Text>, values: array<nat>) returns (result: array<nat>)
    requires Points(keys, values[..])
    modifies values
    ensures result == values || fresh(result)
    ensures result[..] == Sort(keys, old(values[..]))
    ensures Sorted(keys, result[..]) && multiset(result[..]) == multiset(old(values[..]))
    ensures forall k :: Filter(keys, result[..], k) == Filter(keys, old(values[..]), k)
  {
    hide Pass, Filter, Sorted;
    ghost var vs := values[..];
    var n := values.Length;
    var tmp := new nat[n];
    SortPairs(keys, values);
    var current, blocksize := values, 2;
    while blocksize < n
      invariant blocksize > 0 && current != tmp && current.Length == tmp.Length == n
      invariant (current == values || fresh(current)) && (tmp == values || fresh(tmp))
      invariant Points(keys, current[..]) && Sort(keys, vs) == SortFrom(keys, current[..], blocksize)
      decreases n - blocksize
    {
      MergePass(keys, current, tmp, blocksize);
      current, tmp := tmp, current;
      blocksize := blocksize + blocksize;
    }
    result := current;
    SortCorrect(keys, vs);
  }
}
