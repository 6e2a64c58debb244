/** Compressing a table in place: sort the positions, collapse runs of equal keys, shift out the rest. */
module TableCompress {
  import opened Keys
  import opened Tables
  import opened TableIndex
  import opened TableOverlap
  import opened MergeSort

  function KeysOf(es: seq<Entry>): (keys: seq<Text>)
    ensures |keys| == |es| && forall i :: 0 <= i < |es| ==> keys[i] == es[i].key
  {
    if es == [] then [] else KeysOf(es[..|es| - 1]) + [es[|es| - 1].key]
  }

  /** The positions 0 to n - 1. */
  function Upto(n: nat): (s: seq<nat>)
    ensures |s| == n && forall i :: 0 <= i < n ==> s[i] == i
  {
    if n == 0 then [] else Upto(n - 1) + [n - 1]
  }

  function ValuesAt(es: seq<Entry>, ps: seq<nat>): (r: seq<Text>)
    requires forall i :: 0 <= i < |ps| ==> ps[i] < |es|
    ensures |r| == |ps|
  {
    if ps == [] then [] else ValuesAt(es, ps[..|ps| - 1]) + [es[ps[|ps| - 1]].value]
  }

  /** s lists the positions of es by key, equal keys in their order in es. */
  ghost predicate Order(es: seq<Entry>, s: seq<nat>) {
    var keys := KeysOf(es);
    && Points(keys, s) && Sorted(keys, s) && multiset(s) == multiset(Upto(|es|))
    && forall k :: Filter(keys, s, k) == Filter(keys, Upto(|es|), k)
  }

  lemma SortedOrder(es: seq<Entry>, s: seq<nat>)
    requires Points(KeysOf(es), s) && Sorted(KeysOf(es), s) && multiset(s) == multiset(Upto(|es|))
    requires Points(KeysOf(es), Upto(|es|)) && forall k :: Filter(KeysOf(es), s, k) == Filter(KeysOf(es), Upto(|es|), k)
    ensures Order(es, s)
  {
    hide Filter, Sorted, KeysOf;
  }

  lemma OrderPoints(es: seq<Entry>, s: seq<nat>)
    requires Order(es, s)
    ensures |s| == |es| && forall p :: 0 <= p < |s| ==> s[p] < |es|
    ensures forall x: nat :: x < |es| ==> x in s
  {
    hide Sorted, Filter;
    assert |multiset(s)| == |multiset(Upto(|es|))|;
    forall x: nat | x < |es| ensures x in s {
      assert Upto(|es|)[x] == x;
      assert x in multiset(s);
    }
  }

  /** The positions from p on that a run of equal keys starting at lo covers. */
  ghost predicate Run(es: seq<Entry>, s: seq<nat>, lo: nat, hi: nat)
    requires lo < hi <= |s| && forall p :: 0 <= p < |s| ==> s[p] < |es|
  {
    && (forall p :: lo <= p < hi ==> Same(es[s[p]].key, es[s[lo]].key))
    && (lo > 0 ==> !Same(es[s[lo - 1]].key, es[s[lo]].key))
  }

  ghost predicate Closed(es: seq<Entry>, s: seq<nat>, lo: nat, hi: nat)
    requires lo < hi <= |s| && forall p :: 0 <= p < |s| ==> s[p] < |es|
  {
    hi < |s| ==> !Same(es[s[hi]].key, es[s[lo]].key)
  }

  lemma Squeeze(a: Text, b: Text, c: Text)
    requires Compare(a, b) <= 0 && Compare(b, c) <= 0 && Same(a, c)
    ensures Same(b, a) && Same(b, c)
  {
    hide Same, Compare;
    SameSymmetric(a, c);
    CompareZero(c, a);
    CompareTransitive(c, a, b);
    CompareFlip(c, b);
    CompareZero(b, c);
    SameTransitive(b, c, a);
  }

  /** In a sorted list, keys outside a closed run differ from the keys in it. */
  lemma RunAlone(es: seq<Entry>, s: seq<nat>, lo: nat, hi: nat, p: nat)
    requires Order(es, s) && lo < hi <= |s| && p < |s| && !(lo <= p < hi)
    requires forall p :: 0 <= p < |s| ==> s[p] < |es|
    requires Run(es, s, lo, hi) && Closed(es, s, lo, hi)
    ensures !Same(es[s[p]].key, es[s[lo]].key)
  {
    hide Same, Filter, Compare;
    var k := es[s[lo]].key;
    if Same(es[s[p]].key, k) {
      if p < lo {
        assert !Above(KeysOf(es), s[lo - 1], s[lo]);
        if p < lo - 1 {
          assert !Above(KeysOf(es), s[p], s[lo - 1]);
          Squeeze(es[s[p]].key, es[s[lo - 1]].key, k);
        }
      } else {
        assert !Above(KeysOf(es), s[lo], s[hi]);
        SameSymmetric(es[s[p]].key, k);
        if hi < p {
          assert !Above(KeysOf(es), s[hi], s[p]);
          Squeeze(k, es[s[hi]].key, es[s[p]].key);
        }
      }
    }
  }

  lemma {:induction false} FilterAll(keys: seq<Text>, xs: seq<nat>, k: Text)
    requires Points(keys, xs) && forall i :: 0 <= i < |xs| ==> Same(keys[xs[i]], k)
    ensures Filter(keys, xs, k) == xs
  {
    if xs != [] { FilterAll(keys, xs[1..], k); }
  }

  /** If exactly the positions from lo to hi point to a key, they are what filtering by it leaves. */
  lemma FilterMiddle(keys: seq<Text>, xs: seq<nat>, ys: seq<nat>, zs: seq<nat>, k: Text)
    requires Points(keys, xs) && Points(keys, ys) && Points(keys, zs)
    requires forall i :: 0 <= i < |xs| ==> !Same(keys[xs[i]], k)
    requires forall i :: 0 <= i < |ys| ==> Same(keys[ys[i]], k)
    requires forall i :: 0 <= i < |zs| ==> !Same(keys[zs[i]], k)
    ensures Filter(keys, xs + ys + zs, k) == ys
  {
    hide Same, Filter;
    FilterNone(keys, xs, k);
    FilterAll(keys, ys, k);
    FilterNone(keys, zs, k);
    FilterConcat(keys, xs, ys, k);
    FilterConcat(keys, xs + ys, zs, k);
  }

  /** By stability a closed run lists all the positions of its key, in order. */
  lemma RunIsFilter(es: seq<Entry>, s: seq<nat>, lo: nat, hi: nat)
    requires Order(es, s) && lo < hi <= |s| && forall p :: 0 <= p < |s| ==> s[p] < |es|
    requires Run(es, s, lo, hi) && Closed(es, s, lo, hi)
    ensures Filter(KeysOf(es), Upto(|es|), es[s[lo]].key) == s[lo..hi]
  {
    hide Same, Filter, Compare, Order, Upto, Run, Closed;
    var keys, k := KeysOf(es), es[s[lo]].key;
    var xs, ys, zs := s[..lo], s[lo..hi], s[hi..];
    RunParts(es, s, lo, hi);
    OrderFilter(es, s, k);
    FilterMiddle(keys, xs, ys, zs, k);
    assert xs + ys + zs == s;
  }

  lemma RunParts(es: seq<Entry>, s: seq<nat>, lo: nat, hi: nat)
    requires Order(es, s) && lo < hi <= |s| && forall p :: 0 <= p < |s| ==> s[p] < |es|
    requires Run(es, s, lo, hi) && Closed(es, s, lo, hi)
    ensures forall i :: 0 <= i < |s[..lo]| ==> !Same(es[s[..lo][i]].key, es[s[lo]].key)
    ensures forall i :: 0 <= i < |s[lo..hi]| ==> Same(es[s[lo..hi][i]].key, es[s[lo]].key)
    ensures forall i :: 0 <= i < |s[hi..]| ==> !Same(es[s[hi..][i]].key, es[s[lo]].key)
  {
    hide Same, Order, Closed;
    forall i | 0 <= i < lo ensures !Same(es[s[i]].key, es[s[lo]].key) { RunAlone(es, s, lo, hi, i); }
    forall i | 0 <= i < |s[hi..]| ensures !Same(es[s[hi..][i]].key, es[s[lo]].key) { RunAlone(es, s, lo, hi, hi + i); }
  }

  lemma OrderFilter(es: seq<Entry>, s: seq<nat>, k: Text)
    requires Order(es, s)
    ensures Points(KeysOf(es), s) && Points(KeysOf(es), Upto(|es|))
    ensures Filter(KeysOf(es), s, k) == Filter(KeysOf(es), Upto(|es|), k)
  {
    hide Same, Filter, Sorted, KeysOf;
  }

  /** f lists the positions of a key among the first n entries, ascending from its first occurrence. */
  ghost predicate Positions(es: seq<Entry>, n: nat, k: Text, f: seq<nat>)
    requires n <= |es|
  {
    && (f != [] ==> f[0] == Find(es, k, 0))
    && (f == [] ==> n <= Find(es, k, 0))
    && (forall i :: 0 <= i < |f| ==> f[i] < n)
    && (forall i :: 0 < i < |f| ==> f[0] < f[i])
  }

  lemma PositionsStep(es: seq<Entry>, n: nat, k: Text, g: seq<nat>)
    requires 0 < n <= |es| && Positions(es, n - 1, k, g) && Values(es[..n - 1], k) == ValuesAt(es, g)
    ensures var h := g + (if Same(es[n - 1].key, k) then [n - 1] else []);
            Positions(es, n, k, h) && Values(es[..n], k) == ValuesAt(es, h)
  {
    hide Same, Values, ValuesAt, Find;
    ValuesSnoc(es[..n - 1], es[n - 1], k);
    assert es[..n] == es[..n - 1] + [es[n - 1]];
    if Same(es[n - 1].key, k) {
      ValuesAtSnoc(es, g, n - 1);
    } else {
      assert g + [] == g && Values(es[..n - 1], k) + [] == Values(es[..n - 1], k);
    }
  }

  lemma ValuesSnoc(es: seq<Entry>, e: Entry, k: Text)
    ensures Values(es + [e], k) == Values(es, k) + (if Same(e.key, k) then [e.value] else [])
  {
    hide Same;
    assert (es + [e])[..|es + [e]| - 1] == es;
  }

  lemma ValuesAtSnoc(es: seq<Entry>, ps: seq<nat>, p: nat)
    requires p < |es| && forall i :: 0 <= i < |ps| ==> ps[i] < |es|
    ensures ValuesAt(es, ps + [p]) == ValuesAt(es, ps) + [es[p].value]
  {
    assert (ps + [p])[..|ps + [p]| - 1] == ps;
  }

  lemma {:induction false} FilterUpto(es: seq<Entry>, n: nat, k: Text)
    requires n <= |es| && Points(KeysOf(es), Upto(n))
    ensures var f := Filter(KeysOf(es), Upto(n), k);
            Positions(es, n, k, f) && Values(es[..n], k) == ValuesAt(es, f)
  {
    hide Same, Filter, KeysOf, Values, ValuesAt;
    var keys := KeysOf(es);
    if n == 0 {
      FilterNone(keys, [], k);
      NoValues(es, k);
    } else {
      hide Positions;
      assert Points(keys, Upto(n - 1)) && Points(keys, [n - 1]);
      FilterUpto(es, n - 1, k);
      FilterConcat(keys, Upto(n - 1), [n - 1], k);
      FilterOne(keys, n - 1, k);
      PositionsStep(es, n, k, Filter(keys, Upto(n - 1), k));
    }
  }

  lemma NoValues(es: seq<Entry>, k: Text)
    ensures Values(es[..0], k) == ValuesAt(es, [])
  {
  }

  lemma FilterOne(keys: seq<Text>, x: nat, k: Text)
    requires x < |keys|
    ensures Filter(keys, [x], k) == if Same(keys[x], k) then [x] else []
  {
    assert Filter(keys, [x], k) == (if Same(keys[x], k) then [x] else []) + Filter(keys, [], k);
  }

  /** The head of a closed run is the first occurrence of its key, and the run lists its values. */
  lemma RunFacts(es: seq<Entry>, s: seq<nat>, lo: nat, hi: nat)
    requires Order(es, s) && lo < hi <= |s| && forall p :: 0 <= p < |s| ==> s[p] < |es|
    requires Run(es, s, lo, hi) && Closed(es, s, lo, hi)
    ensures First(es, s[lo]) && Values(es, es[s[lo]].key) == ValuesAt(es, s[lo..hi])
    ensures forall p :: lo < p < hi ==> !First(es, s[p])
  {
    hide Same, Filter, Find, First, Order, Closed, KeysOf, Upto, Values, ValuesAt;
    var k, run := es[s[lo]].key, s[lo..hi];
    RunIsFilter(es, s, lo, hi);
    OrderFilter(es, s, k);
    FilterUpto(es, |es|, k);
    assert es[..|es|] == es && run[0] == s[lo];
    FirstOfFind(es, k);
    forall p | lo < p < hi ensures !First(es, s[p]) {
      assert run[p - lo] == s[p];
      SameSymmetric(es[s[p]].key, k);
      if First(es, s[p]) { OneFirst(es, k, s[lo], s[p]); }
    }
  }

  lemma {:induction false} UptoOnce(n: nat, x: nat)
    ensures multiset(Upto(n))[x] <= 1
  {
    if n > 0 {
      UptoOnce(n - 1, x);
      if x in Upto(n - 1) { assert x < n - 1; }
    }
  }

  /** No position is listed twice. */
  lemma OrderInjective(es: seq<Entry>, s: seq<nat>, p: nat, q: nat)
    requires Order(es, s) && p < q < |s|
    ensures s[p] != s[q]
  {
    hide Sorted, Filter;
    UptoOnce(|es|, s[p]);
    var xs, ys := s[..q], s[q..];
    assert s == xs + ys && xs[p] == s[p] && ys[0] == s[q];
    assert multiset(s)[s[p]] == multiset(xs)[s[p]] + multiset(ys)[s[p]];
  }

  // ----- the state while runs are collapsed -----

  /** Position x is as sorting left it. */
  ghost predicate Untouched(es: seq<Entry>, now: seq<Entry>, removed: set<nat>, x: nat) {
    x < |es| == |now| && x !in removed && now[x] == es[x]
  }

  /** Position x is done: marked for removal, or the cell of a first occurrence. */
  ghost predicate Settled(mode: Mode, es: seq<Entry>, now: seq<Entry>, removed: set<nat>, x: nat) {
    x < |es| == |now| && if First(es, x) then x !in removed && now[x] == Cell(mode, es, x) else x in removed
  }

  /** The positions before lo are settled and those from hi on untouched. */
  ghost predicate Progress(mode: Mode, es: seq<Entry>, s: seq<nat>, now: seq<Entry>, removed: set<nat>, lo: nat, hi: nat)
    requires lo <= hi <= |s|
  {
    && |now| == |es|
    && (forall i :: 0 <= i < |es| ==> now[i].key == es[i].key && now[i].checksum == es[i].checksum)
    && (forall p :: 0 <= p < lo ==> Settled(mode, es, now, removed, s[p]))
    && (forall p :: hi <= p < |s| ==> Untouched(es, now, removed, s[p]))
  }

  /** Collapsing a closed run settles it and leaves the other positions alone. */
  lemma RunCollapsed(mode: Mode, es: seq<Entry>, s: seq<nat>, now: seq<Entry>, removed: set<nat>, lo: nat, hi: nat)
    requires Order(es, s) && lo < hi <= |s| && forall p :: 0 <= p < |s| ==> s[p] < |es|
    requires Run(es, s, lo, hi) && Closed(es, s, lo, hi) && Progress(mode, es, s, now, removed, lo, lo)
    ensures var value := Combine(mode, ValuesAt(es, s[lo..hi]));
            Progress(mode, es, s, now[s[lo] := now[s[lo]].(value := value)], removed + Marks(s, lo + 1, hi), hi, hi)
  {
    hide Order, Run, Closed, Values, ValuesAt, First, Combine;
    RunFacts(es, s, lo, hi);
    var x, value := s[lo], Combine(mode, ValuesAt(es, s[lo..hi]));
    var next, marks := now[x := now[x].(value := value)], removed + Marks(s, lo + 1, hi);
    forall p | 0 <= p < |s| && !(lo <= p < hi) ensures s[p] != x && s[p] !in Marks(s, lo + 1, hi) {
      if p < lo { OrderInjective(es, s, p, lo); } else { OrderInjective(es, s, lo, p); }
      MarksApart(es, s, lo + 1, hi, p);
    }
    MarksApart(es, s, lo + 1, hi, lo);
    assert Untouched(es, now, removed, s[lo]);
    forall p | 0 <= p < hi ensures Settled(mode, es, next, marks, s[p]) {
      if p < lo { assert Settled(mode, es, now, removed, s[p]); }
      if p > lo { assert !First(es, s[p]) && s[p] in Marks(s, lo + 1, hi); }
    }
    forall p | hi <= p < |s| ensures Untouched(es, next, marks, s[p]) { assert Untouched(es, now, removed, s[p]); }
  }

  function Marks(s: seq<nat>, lo: nat, hi: nat): set<nat>
    requires lo <= hi <= |s|
  {
    set p | lo <= p < hi :: s[p]
  }

  lemma MarksApart(es: seq<Entry>, s: seq<nat>, lo: nat, hi: nat, p: nat)
    requires Order(es, s) && lo <= hi <= |s| && p < |s| && !(lo <= p < hi)
    ensures s[p] !in Marks(s, lo, hi)
  {
    hide Order;
    forall q | lo <= q < hi ensures s[q] != s[p] {
      if q < p { OrderInjective(es, s, q, p); } else { OrderInjective(es, s, p, q); }
    }
  }

  lemma ValuesAtStep(es: seq<Entry>, s: seq<nat>, lo: nat, q: nat)
    requires lo <= q < |s| && forall p :: 0 <= p < |s| ==> s[p] < |es|
    ensures ValuesAt(es, s[lo..q + 1]) == ValuesAt(es, s[lo..q]) + [es[s[q]].value]
  {
    hide ValuesAt;
    assert s[lo..q + 1] == s[lo..q] + [s[q]];
    ValuesAtSnoc(es, s[lo..q], s[q]);
  }

  /** The values of a run joined by commas. */
  method JoinRun(t: Table, s: seq<nat>, lo: nat, hi: nat) returns (value: Text)
    requires lo < hi <= |s| && forall p :: 0 <= p < |s| ==> s[p] < |t.elts|
    ensures value == Combine(Join, ValuesAt(t.elts, s[lo..hi]))
  {
    hide Combine, ValuesAt, JoinTwo;
    value := t.elts[s[lo]].value;
    var q := lo + 1;
    ValuesAtStep(t.elts, s, lo, lo);
    assert s[lo..lo] == [];
    EmptyValues(t.elts, value);
    while q < hi
      invariant lo < q <= hi && value == Combine(Join, ValuesAt(t.elts, s[lo..q]))
    {
      ValuesAtStep(t.elts, s, lo, q);
      CombineStep(Join, ValuesAt(t.elts, s[lo..q]), t.elts[s[q]].value);
      value := JoinTwo(value, t.elts[s[q]].value);
      q := q + 1;
    }
  }

  lemma EmptyValues(es: seq<Entry>, v: Text)
    ensures ValuesAt(es, []) + [v] == [v] && Combine(Join, [v]) == v && Combine(Overwrite, [v]) == v
  {
  }

  lemma EmptyValue(mode: Mode, es: seq<Entry>, s: seq<nat>, lo: nat)
    requires lo < |s| && forall p :: 0 <= p < |s| ==> s[p] < |es|
    ensures Combine(mode, ValuesAt(es, s[lo..lo + 1])) == es[s[lo]].value
  {
    ValuesAtStep(es, s, lo, lo);
    assert s[lo..lo] == [];
    EmptyValues(es, es[s[lo]].value);
  }

  lemma LastValue(es: seq<Entry>, s: seq<nat>, lo: nat, hi: nat)
    requires lo < hi <= |s| && forall p :: 0 <= p < |s| ==> s[p] < |es|
    ensures Combine(Overwrite, ValuesAt(es, s[lo..hi])) == es[s[hi - 1]].value
  {
    hide ValuesAt, Combine;
    ValuesAtStep(es, s, lo, hi - 1);
    var vs, v := ValuesAt(es, s[lo..hi - 1]), es[s[hi - 1]].value;
    CombineStep(Overwrite, vs, v);
    assert vs == [] ==> vs + [v] == [v];
  }

  /** The values that a run lists are still the original ones. */
  lemma {:induction false} RunUntouched(
    mode: Mode, es: seq<Entry>, s: seq<nat>, now: seq<Entry>, removed: set<nat>, lo: nat, hi: nat)
    requires lo <= hi <= |s| && Progress(mode, es, s, now, removed, lo, lo)
    requires forall p :: 0 <= p < |s| ==> s[p] < |es|
    ensures ValuesAt(now, s[lo..hi]) == ValuesAt(es, s[lo..hi])
  {
    hide Settled;
    if lo < hi {
      RunUntouched(mode, es, s, now, removed, lo, hi - 1);
      ValuesAtStep(es, s, lo, hi - 1);
      ValuesAtStep(now, s, lo, hi - 1);
      assert Untouched(es, now, removed, s[hi - 1]);
    }
  }

  lemma AllUntouched(mode: Mode, es: seq<Entry>, s: seq<nat>)
    requires forall p :: 0 <= p < |s| ==> s[p] < |es|
    ensures Progress(mode, es, s, es, {}, 0, 0)
    ensures s != [] ==> Run(es, s, 0, 1)
  {
    if s != [] { SameReflexive(es[s[0]].key); }
  }

  lemma RunGrows(es: seq<Entry>, s: seq<nat>, lo: nat, hi: nat)
    requires lo < hi < |s| && forall p :: 0 <= p < |s| ==> s[p] < |es|
    requires Run(es, s, lo, hi)
    ensures Same(es[s[hi]].key, es[s[lo]].key) ==> Run(es, s, lo, hi + 1)
    ensures !Same(es[s[hi]].key, es[s[lo]].key) ==> Closed(es, s, lo, hi) && Run(es, s, hi, hi + 1)
  {
    hide Same;
    SameReflexive(es[s[hi]].key);
    if !Same(es[s[hi]].key, es[s[lo]].key) && Same(es[s[hi - 1]].key, es[s[hi]].key) {
      SameSymmetric(es[s[hi - 1]].key, es[s[hi]].key);
      SameTransitive(es[s[hi]].key, es[s[hi - 1]].key, es[s[lo]].key);
    }
  }

  /** A run of one keeps its value and marks nothing. */
  lemma SingleRun(mode: Mode, es: seq<Entry>, s: seq<nat>, now: seq<Entry>, removed: set<nat>, lo: nat)
    requires Order(es, s) && lo < |s| && forall p :: 0 <= p < |s| ==> s[p] < |es|
    requires Run(es, s, lo, lo + 1) && Closed(es, s, lo, lo + 1) && Progress(mode, es, s, now, removed, lo, lo)
    ensures Progress(mode, es, s, now, removed, lo + 1, lo + 1)
  {
    hide Order, Run, Closed, ValuesAt, First, Combine, Settled;
    RunCollapsed(mode, es, s, now, removed, lo, lo + 1);
    EmptyValue(mode, es, s, lo);
    assert Untouched(es, now, removed, s[lo]);
    var value := Combine(mode, ValuesAt(es, s[lo..lo + 1]));
    assert now[s[lo] := now[s[lo]].(value := value)] == now;
    assert removed + Marks(s, lo + 1, lo + 1) == removed;
  }

  /** The head of a run gets the last value, or all joined, and the others are marked. */
  method CollapseRun(t: Table, mode: Mode, s: seq<nat>, removed0: set<nat>, lo: nat, hi: nat, ghost es: seq<Entry>)
    returns (removed: set<nat>)
    requires t.Shape() && Order(es, s) && lo + 1 < hi <= |s| && forall p :: 0 <= p < |s| ==> s[p] < |es|
    requires Run(es, s, lo, hi) && Closed(es, s, lo, hi) && Progress(mode, es, s, t.elts, removed0, lo, lo)
    modifies t`elts
    ensures t.Shape() && Progress(mode, es, s, t.elts, removed, hi, hi) && removed != {}
  {
    hide Order, Same, First, Settled, Untouched, ValuesAt, Combine, Checksum, Closed, Run;
    RunUntouched(mode, es, s, t.elts, removed0, lo, hi);
    RunCollapsed(mode, es, s, t.elts, removed0, lo, hi);
    var value;
    if mode == Join {
      value := JoinRun(t, s, lo, hi);
    } else {
      LastValue(t.elts, s, lo, hi);
      value := t.elts[s[hi - 1]].value;
    }
    t.elts := t.elts[s[lo] := t.elts[s[lo]].(value := value)];
    removed := removed0;
    var next := lo + 1;
    while next < hi
      invariant lo < next <= hi && removed == removed0 + Marks(s, lo + 1, next)
      invariant next > lo + 1 ==> removed != {}
    {
      removed := removed + {s[next]};
      next := next + 1;
    }
  }

  /** Walks the sorted positions, run by run of equal keys. */
  method CollapseRuns(t: Table, mode: Mode, s: seq<nat>) returns (removed: set<nat>)
    requires t.Shape() && Order(t.elts, s) && s != []
    modifies t`elts
    ensures t.Shape() && Progress(mode, old(t.elts), s, t.elts, removed, |s|, |s|)
  {
    hide Order, Same, First, Settled, Untouched, ValuesAt, Combine, Checksum, Closed, Run, Marks;
    ghost var es := t.elts;
    OrderPoints(es, s);
    removed := {};
    var last := 0;
    AllUntouched(mode, es, s);
    while last < |s|
      invariant last <= |s| && t.Shape()
      invariant Progress(mode, es, s, t.elts, removed, last, last)
      invariant last < |s| ==> Run(es, s, last, last + 1)
    {
      ghost var now := t.elts;
      var next := last + 1;
      while next < |s|
        invariant t.elts == now
        invariant last < next <= |s| && Run(es, s, last, next)
      {
        var equal := t.IsEqual(t.elts[s[last]].key, t.elts[s[last]].checksum, t.elts[s[next]]);
        RunGrows(es, s, last, next);
        if !equal { break; }
        next := next + 1;
      }
      RunEnds(es, s, last, next);
      if next > last + 1 {
        removed := CollapseRun(t, mode, s, removed, last, next, es);
      } else {
        SingleRun(mode, es, s, t.elts, removed, last);
      }
      last := next;
    }
  }

  lemma RunEnds(es: seq<Entry>, s: seq<nat>, lo: nat, hi: nat)
    requires lo < hi <= |s| && forall p :: 0 <= p < |s| ==> s[p] < |es|
    ensures hi == |s| ==> Closed(es, s, lo, hi)
  {
  }

  /** Moves the entries that are not marked to the left. */
  method ShiftOut(t: Table, mode: Mode, removed: set<nat>, ghost es: seq<Entry>)
    requires t.Shape() && |t.elts| == |es|
    requires forall x: nat :: x < |es| ==> Settled(mode, es, t.elts, removed, x)
    modifies t`elts
    ensures t.Shape() && t.elts == Compressed(mode, es, |es|)
  {
    hide Checksum, First, Cell, Combine;
    ghost var now := t.elts;
    var src, dst := 0, 0;
    while src < |t.elts|
      invariant dst <= src <= |t.elts| == |now| && t.Shape()
      invariant t.elts[..dst] == Compressed(mode, es, src)
      invariant forall x :: src <= x < |now| ==> t.elts[x] == now[x]
    {
      assert Settled(mode, es, now, removed, src);
      if src !in removed {
        t.elts := t.elts[dst := t.elts[src]];
        dst := dst + 1;
      }
      src := src + 1;
    }
    t.elts := t.elts[..dst];
  }

  lemma NothingRemoved(mode: Mode, es: seq<Entry>, now: seq<Entry>, n: nat)
    requires n <= |es| == |now| && forall x: nat :: x < |es| ==> Settled(mode, es, now, {}, x)
    ensures Compressed(mode, es, n) == now[..n]
  {
    hide First, Cell, Combine;
    if n > 0 {
      NothingRemoved(mode, es, now, n - 1);
      assert Settled(mode, es, now, {}, n - 1);
    }
  }

  lemma AllSettled(mode: Mode, es: seq<Entry>, s: seq<nat>, now: seq<Entry>, removed: set<nat>)
    requires Order(es, s) && Progress(mode, es, s, now, removed, |s|, |s|)
    ensures |now| == |es| && forall x: nat :: x < |es| ==> Settled(mode, es, now, removed, x)
  {
    hide Order, Settled;
    OrderPoints(es, s);
    forall x: nat | x < |es| ensures Settled(mode, es, now, removed, x) {
      assert x in s;
      var p :| 0 <= p < |s| && s[p] == x;
    }
  }

  /** Each key is left once, where it first occurred, with its last or its joined value. */
  method Compress(t: Table, mode: Mode)
    requires t.Valid()
    modifies t, t.indexFirst, t.indexLast
    ensures t.Valid() && t.elts == Compressed(mode, old(t.elts), |old(t.elts)|)
  {
    hide Checksum, Order, Settled, Compressed, Progress;
    if |t.elts| <= 1 {
      CompressedIdentity(mode, t.elts);
      return;
    }
    ghost var es := t.elts;
    var order := new nat[|t.elts|](i => i);
    assert order[..] == Upto(|es|);
    assert Points(KeysOf(es), order[..]);
    var sorted := Mergesort(KeysOf(t.elts), order);
    var s := sorted[..];
    SortedOrder(es, s);
    OrderPoints(es, s);
    var removed := CollapseRuns(t, mode, s);
    AllSettled(mode, es, s, t.elts, removed);
    if removed != {} {
      ShiftOut(t, mode, removed, es);
    } else {
      NothingRemoved(mode, es, t.elts, |es|);
    }
    t.Reindex();
  }

  // ----- concatenating and overlapping -----

  /** The index of a concatenation, slot by slot. */
  lemma SlotConcat(es: seq<Entry>, fs: seq<Entry>, set0: bool, first0: nat, last0: nat,
                   set1: bool, first1: nat, last1: nat, h: nat)
    requires SlotExact(es, set0, first0, last0, h) && SlotExact(fs, set1, first1, last1, h)
    ensures SlotExact(es + fs, set0 || set1, if !set0 && set1 then first1 + |es| else first0,
                      if set1 then last1 + |es| else last0, h)
  {
    hide Hash;
    var gs := es + fs;
    assert forall i :: 0 <= i < |es| ==> gs[i] == es[i];
    assert forall i :: |es| <= i < |gs| ==> gs[i] == fs[i - |es|];
    if set0 { assert Hash(gs[first0].key) == h; }
    if set1 { assert Hash(gs[first1 + |es|].key) == h && Hash(gs[last1 + |es|].key) == h; }
  }

  /** The two tables share no index array. */
  ghost predicate Apart(t: Table, s: Table) {
    t != s && {t.indexFirst, t.indexLast} !! {s.indexFirst, s.indexLast}
  }

  /** Appends the entries of s, updating the index from the index of s without a scan. */
  method Cat(t: Table, s: Table)
    requires t.Valid() && s.Valid() && Apart(t, s)
    modifies t, t.indexFirst, t.indexLast
    ensures t.Valid() && t.elts == old(t.elts) + s.elts
  {
    hide Checksum, Hash, SlotExact;
    var n := |t.elts|;
    ghost var es := t.elts;
    t.elts := t.elts + s.elts;
    if n == 0 {
      assert t.elts == s.elts;
      var i := 0;
      while i < 32
        invariant t.elts == es + s.elts && i <= 32
        invariant forall h :: 0 <= h < i ==> t.indexFirst[h] == s.indexFirst[h] && t.indexLast[h] == s.indexLast[h]
      {
        t.indexFirst[i] := s.indexFirst[i];
        t.indexLast[i] := s.indexLast[i];
        i := i + 1;
      }
      t.initialized := s.initialized;
      return;
    }
    var idx := 0;
    while idx < 32
      invariant t.elts == es + s.elts && t.initialized == old(t.initialized) && idx <= 32
      invariant forall h :: 0 <= h < idx ==>
        SlotExact(t.elts, h in t.initialized || h in s.initialized, t.indexFirst[h], t.indexLast[h], h)
      invariant forall h :: idx <= h < 32 ==> SlotExact(es, h in t.initialized, t.indexFirst[h], t.indexLast[h], h)
    {
      SlotConcat(es, s.elts, idx in t.initialized, t.indexFirst[idx], t.indexLast[idx],
                 idx in s.initialized, s.indexFirst[idx], s.indexLast[idx], idx);
      if idx in s.initialized {
        t.indexLast[idx] := s.indexLast[idx] + n;
        if idx !in t.initialized {
          t.indexFirst[idx] := s.indexFirst[idx] + n;
        }
      }
      idx := idx + 1;
    }
    t.initialized := t.initialized + s.initialized;
  }

  /** Concatenates and compresses: inserting the second table's entries one by one, if the first's keys are distinct. */
  method Overlap(a: Table, b: Table, mode: Mode)
    requires a.Valid() && b.Valid() && Apart(a, b)
    modifies a, a.indexFirst, a.indexLast
    ensures a.Valid() && a.elts == Compressed(mode, old(a.elts) + b.elts, |old(a.elts) + b.elts|)
    ensures Distinct(old(a.elts)) ==> a.elts == InsertAll(mode, old(a.elts), b.elts)
  {
    hide Checksum, SlotExact, Compressed, Insert, Same;
    CompressedIdentity(mode, a.elts);
    assert Summed(b.elts);
    CompressedConcat(mode, a.elts, b.elts);
    if |a.elts| + |b.elts| == 0 {
      CompressedIdentity(mode, a.elts + b.elts);
      return;
    }
    Cat(a, b);
    Compress(a, mode);
  }
}
