/** Merging one table into another by sorting: the same result as setting or merging entry by entry. */
module TableOverlap {
  import opened Keys
  import opened Tables

  datatype Mode = Overwrite | Join

  // ----- what compressing a table means -----

  /** The values of the entries with an equal key, in order. */
  function Values(es: seq<Entry>, key: Text): seq<Text> {
    if es == [] then []
    else Values(es[..|es| - 1], key) + (if Same(es[|es| - 1].key, key) then [es[|es| - 1].value] else [])
  }

  /** The last value, or all of them joined by commas. */
  function Combine(mode: Mode, values: seq<Text>): Text {
    if values == [] then []
    else if mode == Overwrite || |values| == 1 then values[|values| - 1]
    else JoinTwo(Combine(mode, values[..|values| - 1]), values[|values| - 1])
  }

  /** One value is itself; of more, the last one counts, or they are joined by a comma and a blank. */
  lemma CombineMeans(mode: Mode, values: seq<Text>, value: Text)
    ensures Combine(mode, [value]) == value
    ensures values != [] ==>
              Combine(mode, values + [value]) == if mode == Overwrite then value else Combine(mode, values) + [44, 32] + value
  {
    var all := values + [value];
    assert all[..|all| - 1] == values && all[|all| - 1] == value;
  }

  predicate First(es: seq<Entry>, i: nat)
    requires i < |es|
  {
    Find(es, es[i].key, 0) == i
  }

  function Cell(mode: Mode, es: seq<Entry>, i: nat): Entry
    requires i < |es|
  {
    es[i].(value := Combine(mode, Values(es, es[i].key)))
  }

  /** Each key once, where it first occurs among the first n entries, with its combined value. */
  function Compressed(mode: Mode, es: seq<Entry>, n: nat): seq<Entry>
    requires n <= |es|
  {
    if n == 0 then []
    else Compressed(mode, es, n - 1) + (if First(es, n - 1) then [Cell(mode, es, n - 1)] else [])
  }

  function Insert(mode: Mode, es: seq<Entry>, e: Entry): seq<Entry> {
    if mode == Overwrite then SetIn(es, e.key, e.value) else MergeIn(es, e.key, e.value)
  }

  /** Sets or merges the entries of fs into es one by one. */
  function InsertAll(mode: Mode, es: seq<Entry>, fs: seq<Entry>): seq<Entry> {
    if fs == [] then es else Insert(mode, InsertAll(mode, es, fs[..|fs| - 1]), fs[|fs| - 1])
  }

  ghost predicate Summed(es: seq<Entry>) {
    forall i :: 0 <= i < |es| ==> es[i].checksum == Checksum(es[i].key)
  }

  /** No two entries have equal keys. */
  ghost predicate Distinct(es: seq<Entry>) {
    forall i, j :: 0 <= i < j < |es| ==> !Same(es[i].key, es[j].key)
  }

  // ----- compressing is inserting one by one -----

  lemma FindExtend(xs: seq<Entry>, e: Entry, key: Text)
    ensures Find(xs + [e], key, 0) ==
              if Find(xs, key, 0) < |xs| then Find(xs, key, 0) else if Same(e.key, key) then |xs| else |xs| + 1
  {
    hide Same;
    var ys, f := xs + [e], Find(xs, key, 0);
    assert forall j :: 0 <= j < |xs| ==> ys[j] == xs[j];
    FindUnique(ys, key, 0, if f < |xs| then f else if Same(e.key, key) then |xs| else |xs| + 1);
  }

  /** What a further entry changes: nothing about first occurrences, and only values of its own key. */
  lemma CellExtend(mode: Mode, xs: seq<Entry>, e: Entry, i: nat)
    requires i < |xs|
    ensures First(xs + [e], i) == First(xs, i)
    ensures Values(xs + [e], xs[i].key) == Values(xs, xs[i].key) + (if Same(e.key, xs[i].key) then [e.value] else [])
    ensures !Same(e.key, xs[i].key) ==> Cell(mode, xs + [e], i) == Cell(mode, xs, i)
  {
    hide Same, Combine;
    var ys := xs + [e];
    SameReflexive(xs[i].key);
    FindExtend(xs, e, xs[i].key);
    assert ys[i] == xs[i] && ys[..|ys| - 1] == xs;
    assert !Same(e.key, xs[i].key) ==> Values(xs, xs[i].key) + [] == Values(xs, xs[i].key);
  }

  /** A further entry with a new key changes no other cell. */
  lemma {:induction false} CompressedNew(mode: Mode, xs: seq<Entry>, e: Entry, n: nat)
    requires n <= |xs| && forall i :: 0 <= i < |xs| ==> !Same(e.key, xs[i].key)
    ensures Compressed(mode, xs + [e], n) == Compressed(mode, xs, n)
  {
    hide Same, Cell, First;
    if n > 0 {
      CompressedNew(mode, xs, e, n - 1);
      CellExtend(mode, xs, e, n - 1);
    }
  }

  /** A further entry with a known key f changes only the cell of its first occurrence. */
  lemma {:induction false} CompressedKnown(mode: Mode, xs: seq<Entry>, e: Entry, n: nat, f: nat)
    requires f < n <= |xs| && Find(xs, e.key, 0) == f
    ensures var c, p := Compressed(mode, xs, n), |Compressed(mode, xs, f)|;
            p < |c| && c[p] == Cell(mode, xs, f)
            && Compressed(mode, xs + [e], n) == c[p := Cell(mode, xs + [e], f)]
    decreases n
  {
    hide Same, Cell, Find, First, Compressed;
    var i := n - 1;
    CellExtend(mode, xs, e, i);
    LastCell(mode, xs, n);
    LastCell(mode, xs + [e], n);
    if n == f + 1 {
      CompressedPrefix(mode, xs, e, f);
      FirstOfFind(xs, e.key);
    } else {
      CompressedKnown(mode, xs, e, n - 1, f);
      if First(xs, i) && Same(e.key, xs[i].key) { OneFirst(xs, e.key, f, i); }
    }
  }

  lemma LastCell(mode: Mode, es: seq<Entry>, n: nat)
    requires 0 < n <= |es|
    ensures Compressed(mode, es, n) == Compressed(mode, es, n - 1) + (if First(es, n - 1) then [Cell(mode, es, n - 1)] else [])
  {
  }

  lemma FirstOfFind(xs: seq<Entry>, key: Text)
    requires Find(xs, key, 0) < |xs|
    ensures First(xs, Find(xs, key, 0))
  {
    hide Same;
    var f := Find(xs, key, 0);
    SameReflexive(xs[f].key);
    forall j | 0 <= j < f ensures !Same(xs[j].key, xs[f].key) {
      if Same(xs[j].key, xs[f].key) { SameTransitive(xs[j].key, xs[f].key, key); }
    }
    FindUnique(xs, xs[f].key, 0, f);
  }

  /** A key has only one first occurrence. */
  lemma OneFirst(xs: seq<Entry>, key: Text, f: nat, i: nat)
    requires f < |xs| && i < |xs| && Find(xs, key, 0) == f && First(xs, i) && Same(key, xs[i].key)
    ensures i == f
  {
    hide Same;
    SameTransitive(xs[f].key, key, xs[i].key);
    SameSymmetric(key, xs[i].key);
  }

  /** Cells before the first occurrence of a key do not see a further entry with it. */
  lemma {:induction false} CompressedPrefix(mode: Mode, xs: seq<Entry>, e: Entry, n: nat)
    requires n <= Find(xs, e.key, 0)
    ensures Compressed(mode, xs + [e], n) == Compressed(mode, xs, n)
  {
    hide Same, Cell, First;
    if n > 0 {
      CompressedPrefix(mode, xs, e, n - 1);
      CellExtend(mode, xs, e, n - 1);
      if Same(e.key, xs[n - 1].key) { SameSymmetric(e.key, xs[n - 1].key); }
    }
  }

  /** An entry is the cell of a first occurrence among the first n entries. */
  ghost predicate IsCell(mode: Mode, es: seq<Entry>, n: nat, c: Entry)
    requires n <= |es|
  {
    exists i: nat :: i < n && First(es, i) && c == Cell(mode, es, i)
  }

  /** Compressed entries are cells of first occurrences, so their keys are distinct. */
  lemma {:induction false} CompressedMembers(mode: Mode, es: seq<Entry>, n: nat)
    requires n <= |es|
    ensures Distinct(Compressed(mode, es, n))
    ensures forall c :: c in Compressed(mode, es, n) ==> IsCell(mode, es, n, c)
  {
    hide Same, Combine, Find;
    if n > 0 {
      CompressedMembers(mode, es, n - 1);
      var c := Compressed(mode, es, n - 1);
      if First(es, n - 1) {
        forall j | 0 <= j < |c| ensures !Same(c[j].key, es[n - 1].key) {
          assert c[j] in c;
          var i: nat :| i < n - 1 && First(es, i) && c[j] == Cell(mode, es, i);
          NotSameBefore(es, i, n - 1);
        }
      }
    }
  }

  lemma NotSameBefore(es: seq<Entry>, i: nat, n: nat)
    requires i < n < |es| && First(es, n)
    ensures !Same(es[i].key, es[n].key)
  {
  }

  lemma CombineStep(mode: Mode, values: seq<Text>, v: Text)
    ensures Combine(mode, [v]) == v
    ensures values != [] ==> Combine(mode, values + [v]) == if mode == Overwrite then v else JoinTwo(Combine(mode, values), v)
  {
    assert (values + [v])[..|values|] == values;
  }

  lemma {:induction false} ValuesNonempty(xs: seq<Entry>, key: Text, f: nat)
    requires f < |xs| && Same(xs[f].key, key)
    ensures Values(xs, key) != []
    decreases |xs|
  {
    if f < |xs| - 1 { ValuesNonempty(xs[..|xs| - 1], key, f); }
  }

  lemma {:induction false} ValuesNone(xs: seq<Entry>, key: Text)
    requires forall i :: 0 <= i < |xs| ==> !Same(xs[i].key, key)
    ensures Values(xs, key) == []
    decreases |xs|
  {
    if xs != [] { ValuesNone(xs[..|xs| - 1], key); }
  }

  /** Compressing one entry more is inserting it into the compressed rest. */
  lemma CompressedStep(mode: Mode, xs: seq<Entry>, e: Entry)
    requires e.checksum == Checksum(e.key)
    ensures Compressed(mode, xs + [e], |xs| + 1) == Insert(mode, Compressed(mode, xs, |xs|), e)
  {
    hide Same, Combine, Checksum;
    var ys, n, f := xs + [e], |xs|, Find(xs, e.key, 0);
    assert ys[n] == e && ys[..n] == xs;
    SameReflexive(e.key);
    FindExtend(xs, e, e.key);
    if f == n {
      forall i | 0 <= i < |xs| ensures !Same(e.key, xs[i].key) {
        if Same(e.key, xs[i].key) { SameSymmetric(e.key, xs[i].key); }
      }
      NewKeyStep(mode, xs, e);
    } else {
      KnownKeyStep(mode, xs, e, f);
    }
  }

  lemma NewKeyStep(mode: Mode, xs: seq<Entry>, e: Entry)
    requires e.checksum == Checksum(e.key) && Find(xs, e.key, 0) == |xs|
    requires forall i :: 0 <= i < |xs| ==> !Same(e.key, xs[i].key)
    ensures Compressed(mode, xs + [e], |xs| + 1) == Insert(mode, Compressed(mode, xs, |xs|), e)
  {
    hide Same, Combine, Checksum, Find;
    var ys, c := xs + [e], Compressed(mode, xs, |xs|);
    assert ys[|xs|] == e && ys[..|xs|] == xs;
    CompressedNew(mode, xs, e, |xs|);
    SameReflexive(e.key);
    FindExtend(xs, e, e.key);
    ValuesNone(xs, e.key);
    CombineStep(mode, [], e.value);
    assert Values(ys, e.key) == [] + [e.value] == [e.value];
    assert Cell(mode, ys, |xs|) == e;
    CompressedMembers(mode, xs, |xs|);
    forall j | 0 <= j < |c| ensures !Same(c[j].key, e.key) {
      assert c[j] in c;
      var i: nat :| i < |xs| && First(xs, i) && c[j] == Cell(mode, xs, i);
      if Same(xs[i].key, e.key) { SameSymmetric(xs[i].key, e.key); }
    }
    FindUnique(c, e.key, 0, |c|);
  }

  lemma KnownKeyStep(mode: Mode, xs: seq<Entry>, e: Entry, f: nat)
    requires f < |xs| && Find(xs, e.key, 0) == f
    ensures Compressed(mode, xs + [e], |xs| + 1) == Insert(mode, Compressed(mode, xs, |xs|), e)
  {
    hide Same, Combine, Find, Values, Cell, Insert, Compressed, Updated;
    var ys, c, p := xs + [e], Compressed(mode, xs, |xs|), |Compressed(mode, xs, f)|;
    assert ys[|xs|] == e;
    CompressedKnown(mode, xs, e, |xs|, f);
    FindExtend(xs, e, e.key);
    LastCell(mode, ys, |ys|);
    CellKnown(mode, xs, e, f);
    CompressedMembers(mode, xs, |xs|);
    InsertKnown(mode, c, e, p);
  }

  /** An entry with one value more. */
  function Updated(mode: Mode, old': Entry, value: Text): Entry {
    old'.(value := if mode == Overwrite then value else JoinTwo(old'.value, value))
  }

  lemma CellKnown(mode: Mode, xs: seq<Entry>, e: Entry, f: nat)
    requires f < |xs| && Find(xs, e.key, 0) == f
    ensures Cell(mode, xs + [e], f) == Updated(mode, Cell(mode, xs, f), e.value) && Same(Cell(mode, xs, f).key, e.key)
  {
    hide Same, Combine, Find;
    var ys := xs + [e];
    assert ys[|xs|] == e && ys[f] == xs[f] && ys[..|xs|] == xs;
    SameSymmetric(xs[f].key, e.key);
    SameReflexive(xs[f].key);
    ValuesNonempty(xs, xs[f].key, f);
    CombineStep(mode, Values(xs, xs[f].key), e.value);
  }

  /** Into a table with distinct keys, an entry with a known key is inserted at its place. */
  lemma InsertKnown(mode: Mode, c: seq<Entry>, e: Entry, p: nat)
    requires Distinct(c) && p < |c| && Same(c[p].key, e.key)
    ensures Insert(mode, c, e) == c[p := Updated(mode, c[p], e.value)]
  {
    hide Same, Find, Remove;
    DistinctFind(c, e.key, p);
  }

  /** In a table with distinct keys, a position with the key is the only one. */
  lemma DistinctFind(c: seq<Entry>, key: Text, p: nat)
    requires Distinct(c) && p < |c| && Same(c[p].key, key)
    ensures Find(c, key, 0) == p && Remove(c[p + 1..], key) == c[p + 1..]
  {
    hide Same;
    SameSymmetric(c[p].key, key);
    forall j | 0 <= j < |c| && j != p ensures !Same(c[j].key, key) {
      if Same(c[j].key, key) {
        SameTransitive(c[j].key, key, c[p].key);
        SameSymmetric(c[j].key, c[p].key);
      }
    }
    FindUnique(c, key, 0, p);
    RemoveNothing(c[p + 1..], key);
  }

  /** Compressing a concatenation inserts the second part, one by one, into the compressed first. */
  lemma {:induction false} CompressedConcat(mode: Mode, xs: seq<Entry>, ys: seq<Entry>)
    requires Summed(ys)
    ensures Compressed(mode, xs + ys, |xs + ys|) == InsertAll(mode, Compressed(mode, xs, |xs|), ys)
    decreases |ys|
  {
    hide Checksum, Compressed, Insert;
    if ys == [] {
      assert xs + ys == xs;
    } else {
      var zs, e := ys[..|ys| - 1], ys[|ys| - 1];
      CompressedConcat(mode, xs, zs);
      assert xs + ys == (xs + zs) + [e];
      CompressedStep(mode, xs + zs, e);
    }
  }

  /** Compressing changes nothing exactly when the keys are distinct. */
  lemma CompressedIdentity(mode: Mode, es: seq<Entry>)
    ensures Compressed(mode, es, |es|) == es <==> Distinct(es)
  {
    CompressedMembers(mode, es, |es|);
    if Distinct(es) { CompressedDistinct(mode, es, |es|); }
  }

  lemma {:induction false} CompressedDistinct(mode: Mode, es: seq<Entry>, n: nat)
    requires Distinct(es) && n <= |es|
    ensures Compressed(mode, es, n) == es[..n]
  {
    hide Same, Combine;
    if n > 0 {
      CompressedDistinct(mode, es, n - 1);
      var i := n - 1;
      SameReflexive(es[i].key);
      FindUnique(es, es[i].key, 0, i);
      forall j | 0 <= j < |es| && j != i ensures !Same(es[j].key, es[i].key) {
        if j > i && Same(es[j].key, es[i].key) { SameSymmetric(es[j].key, es[i].key); }
      }
      ValuesOne(es, es[i].key, i);
      CombineStep(mode, [], es[i].value);
    }
  }

  lemma {:induction false} ValuesOne(xs: seq<Entry>, key: Text, f: nat)
    requires f < |xs| && Same(xs[f].key, key) && forall i :: 0 <= i < |xs| && i != f ==> !Same(xs[i].key, key)
    ensures Values(xs, key) == [xs[f].value]
    decreases |xs|
  {
    if f == |xs| - 1 { ValuesNone(xs[..f], key); } else { ValuesOne(xs[..|xs| - 1], key, f); }
  }

  /**
   * The documented equivalence, exactly: overlapping gives what setting (or merging) the entries
   * of every second table one by one gives iff the keys of the first table are distinct.
   */
  lemma OverlapIsInsertAll(mode: Mode, a: seq<Entry>)
    ensures (forall b: seq<Entry> :: Summed(b) ==> Compressed(mode, a + b, |a + b|) == InsertAll(mode, a, b))
        <==> Distinct(a)
  {
    hide Checksum, Compressed;
    CompressedIdentity(mode, a);
    if Distinct(a) {
      forall b: seq<Entry> | Summed(b) ensures Compressed(mode, a + b, |a + b|) == InsertAll(mode, a, b) {
        CompressedConcat(mode, a, b);
      }
    } else {
      var none: seq<Entry> := [];
      assert Summed(none) && a + none == a && InsertAll(mode, a, none) == a;
    }
  }
}
