/** What the string table means: an ordered list of entries looked up by case-insensitive key. */
module Tables {
  import opened Keys
  import opened Wrappers

  datatype Entry = Entry(key: Text, value: Text, checksum: bv32)

  function NewEntry(key: Text, value: Text): Entry {
    Entry(key, value, Checksum(key))
  }

  /** The first position from i on whose key equals key, or the length. */
  function Find(es: seq<Entry>, key: Text, i: nat): (r: nat)
    requires i <= |es|
    ensures i <= r <= |es|
    ensures r < |es| ==> Same(es[r].key, key)
    ensures forall j :: i <= j < r ==> !Same(es[j].key, key)
    decreases |es| - i
  {
    if i == |es| || Same(es[i].key, key) then i else Find(es, key, i + 1)
  }

  lemma FindUnique(es: seq<Entry>, key: Text, i: nat, r: nat)
    requires i <= r <= |es| && (r < |es| ==> Same(es[r].key, key))
    requires forall j :: i <= j < r ==> !Same(es[j].key, key)
    ensures Find(es, key, i) == r
  {
  }

  /** A full linear scan for the first equal key. */
  function Lookup(es: seq<Entry>, key: Text): Option<Text> {
    var i := Find(es, key, 0);
    if i < |es| then Some(es[i].value) else None
  }

  /** All entries with other keys, in order. */
  function Remove(es: seq<Entry>, key: Text): seq<Entry> {
    if es == [] then []
    else (if Same(es[0].key, key) then [] else [es[0]]) + Remove(es[1..], key)
  }

  /** The first equal key gets the value and later ones go; a new key is appended. */
  function SetIn(es: seq<Entry>, key: Text, value: Text): seq<Entry> {
    var i := Find(es, key, 0);
    if i == |es| then es + [NewEntry(key, value)]
    else es[..i] + [es[i].(value := value)] + Remove(es[i + 1..], key)
  }

  const COMMA: bv8 := 44
  const BLANK: bv8 := 32

  function JoinTwo(a: Text, b: Text): Text {
    a + [COMMA, BLANK] + b
  }

  /** The first equal key's value is extended; a new key is appended. */
  /** The first text, a comma, a blank, the second text. */
  lemma JoinTwoMeans(a: Text, b: Text)
    ensures |JoinTwo(a, b)| == |a| + 2 + |b| && JoinTwo(a, b)[..|a|] == a
    ensures JoinTwo(a, b)[|a|] == 44 && JoinTwo(a, b)[|a| + 1] == 32 && JoinTwo(a, b)[|a| + 2..] == b
  {
  }

  function MergeIn(es: seq<Entry>, key: Text, value: Text): seq<Entry> {
    var i := Find(es, key, 0);
    if i == |es| then es + [NewEntry(key, value)]
    else es[i := es[i].(value := JoinTwo(es[i].value, value))]
  }

  // ----- laws -----

  lemma RemoveHead(e: Entry, rest: seq<Entry>, key: Text)
    ensures Remove([e] + rest, key) == (if Same(e.key, key) then [] else [e]) + Remove(rest, key)
  {
    hide Same;
    assert ([e] + rest)[1..] == rest;
  }

  lemma {:induction false} RemoveConcat(xs: seq<Entry>, ys: seq<Entry>, key: Text)
    ensures Remove(xs + ys, key) == Remove(xs, key) + Remove(ys, key)
  {
    hide Same;
    if xs == [] {
      assert xs + ys == ys;
    } else {
      hide Remove;
      var e, rest := xs[0], xs[1..];
      RemoveConcat(rest, ys, key);
      assert xs == [e] + rest && xs + ys == [e] + (rest + ys);
      RemoveHead(e, rest, key);
      RemoveHead(e, rest + ys, key);
      var h := if Same(e.key, key) then [] else [e];
      assert h + (Remove(rest, key) + Remove(ys, key)) == (h + Remove(rest, key)) + Remove(ys, key);
    }
  }

  lemma {:induction false} RemoveMembers(es: seq<Entry>, key: Text)
    ensures forall e :: e in Remove(es, key) <==> e in es && !Same(e.key, key)
  {
    hide Same;
    if es != [] {
      RemoveMembers(es[1..], key);
      assert forall e :: e in es <==> e == es[0] || e in es[1..];
    }
  }

  lemma {:induction false} RemoveNothing(es: seq<Entry>, key: Text)
    requires forall i :: 0 <= i < |es| ==> !Same(es[i].key, key)
    ensures Remove(es, key) == es
  {
    if es != [] { RemoveNothing(es[1..], key); }
  }

  /** Looking up ignores the case of the key. */
  lemma LookupSame(es: seq<Entry>, a: Text, b: Text)
    requires Same(a, b)
    ensures Lookup(es, a) == Lookup(es, b)
  {
    hide Same;
    var i := Find(es, a, 0);
    forall j | 0 <= j <= i && j < |es| ensures Same(es[j].key, a) <==> Same(es[j].key, b) {
      SameSymmetric(a, b);
      if Same(es[j].key, a) { SameTransitive(es[j].key, a, b); }
      if Same(es[j].key, b) { SameTransitive(es[j].key, b, a); }
    }
    FindUnique(es, b, 0, i);
  }

  lemma SameSymmetric(a: Text, b: Text)
    requires Same(a, b)
    ensures Same(b, a)
  {
  }

  lemma SameReflexive(a: Text)
    ensures Same(a, a)
  {
  }

  /** Removing a key does not change the lookup of another. */
  lemma {:induction false} LookupAfterRemove(es: seq<Entry>, key: Text, other: Text)
    ensures Same(key, other) ==> Lookup(Remove(es, key), other) == None
    ensures !Same(key, other) ==> Lookup(Remove(es, key), other) == Lookup(es, other)
  {
    hide Same;
    if es != [] {
      LookupAfterRemove(es[1..], key, other);
      var e, rest := es[0], es[1..];
      assert es == [e] + rest;
      LookupCons(e, rest, other);
      if Same(e.key, key) {
        assert [] + Remove(rest, key) == Remove(rest, key);
        if Same(e.key, other) { SameSymmetric(e.key, key); SameTransitive(key, e.key, other); }
      } else {
        LookupCons(e, Remove(rest, key), other);
        if Same(e.key, other) && Same(key, other) { SameSymmetric(key, other); SameTransitive(e.key, other, key); }
      }
    }
  }

  lemma LookupCons(e: Entry, rest: seq<Entry>, key: Text)
    ensures Lookup([e] + rest, key) == if Same(e.key, key) then Some(e.value) else Lookup(rest, key)
  {
    var es := [e] + rest;
    if !Same(e.key, key) {
      var i := Find(rest, key, 0);
      forall j | 0 <= j < i + 1 ensures !Same(es[j].key, key) { if j > 0 { assert es[j] == rest[j - 1]; } }
      FindUnique(es, key, 0, i + 1);
    }
  }

  lemma LookupOne(e: Entry, key: Text)
    ensures Lookup([e], key) == if Same(e.key, key) then Some(e.value) else None
  {
    hide Same;
  }

  /** A table from the first equal key on, after a set. */
  function SetTail(es: seq<Entry>, i: nat, key: Text, value: Text): seq<Entry>
    requires i <= |es|
  {
    if i == |es| then [NewEntry(key, value)] else [es[i].(value := value)] + Remove(es[i + 1..], key)
  }

  lemma SetSplit(es: seq<Entry>, key: Text, value: Text)
    ensures var i := Find(es, key, 0);
            SetIn(es, key, value) == es[..i] + SetTail(es, i, key, value) && es == es[..i] + es[i..]
  {
  }

  /** In that part every other key is looked up as before. */
  lemma LookupInTail(es: seq<Entry>, i: nat, key: Text, value: Text, other: Text)
    requires i <= |es| && (i < |es| ==> Same(es[i].key, key))
    ensures Lookup(SetTail(es, i, key, value), other) == if Same(key, other) then Some(value) else Lookup(es[i..], other)
  {
    hide Same, NewEntry, Lookup, Remove;
    NewEntryFields(key, value);
    if i == |es| {
      LookupOne(NewEntry(key, value), other);
      assert es[i..] == [] && Lookup([], other) == None by { LookupNone(other); }
    } else {
      assert es[i..] == [es[i]] + es[i + 1..];
      LookupCons(es[i].(value := value), Remove(es[i + 1..], key), other);
      LookupCons(es[i], es[i + 1..], other);
      LookupAfterRemove(es[i + 1..], key, other);
      if Same(es[i].key, other) { SameSymmetric(es[i].key, key); SameTransitive(key, es[i].key, other); }
      if Same(key, other) { SameTransitive(es[i].key, key, other); }
    }
  }

  lemma LookupNone(key: Text)
    ensures Lookup([], key) == None
  {
  }

  /** After a set, the key looks up the new value and every other key what it did before. */
  lemma LookupAfterSet(es: seq<Entry>, key: Text, value: Text, other: Text)
    ensures Lookup(SetIn(es, key, value), other) == if Same(key, other) then Some(value) else Lookup(es, other)
  {
    hide Same, NewEntry, Find, Lookup, SetIn, SetTail;
    var i := Find(es, key, 0);
    SetSplit(es, key, value);
    LookupInTail(es, i, key, value, other);
    LookupThroughPrefix(es[..i], SetTail(es, i, key, value), es[i..], key, other);
  }

  /** Behind entries that do not have the key, lookups agree if they agree behind them. */
  lemma {:induction false} LookupThroughPrefix(pre: seq<Entry>, a: seq<Entry>, b: seq<Entry>, key: Text, other: Text)
    requires forall j :: 0 <= j < |pre| ==> !Same(pre[j].key, key)
    ensures !Same(key, other) && Lookup(a, other) == Lookup(b, other) ==> Lookup(pre + a, other) == Lookup(pre + b, other)
    ensures Same(key, other) ==> Lookup(pre + a, other) == Lookup(a, other)
  {
    hide Same;
    if pre == [] {
      assert pre + a == a && pre + b == b;
    } else {
      LookupThroughPrefix(pre[1..], a, b, key, other);
      assert pre + a == [pre[0]] + (pre[1..] + a) && pre + b == [pre[0]] + (pre[1..] + b);
      LookupCons(pre[0], pre[1..] + a, other);
      LookupCons(pre[0], pre[1..] + b, other);
      if Same(key, other) && Same(pre[0].key, other) {
        SameSymmetric(key, other);
        SameTransitive(pre[0].key, other, key);
      }
    }
  }

  /** A set writes to the place of the first equal key, or behind the last entry; nothing before it changes. */
  lemma SetPlace(es: seq<Entry>, key: Text, value: Text)
    ensures var r, i := SetIn(es, key, value), Find(es, key, 0);
            && |r| > i && r[..i] == es[..i] && r[i].value == value
            && (if i < |es| then r[i].key == es[i].key else r[i].key == key && |r| == |es| + 1)
  {
    hide Same, Checksum;
  }

  /** A merge does the same and changes nothing behind it either. */
  lemma MergePlace(es: seq<Entry>, key: Text, value: Text)
    ensures var r, i := MergeIn(es, key, value), Find(es, key, 0);
            && |r| == (if i < |es| then |es| else |es| + 1)
            && (forall j :: 0 <= j < |es| && j != i ==> r[j] == es[j])
            && (if i < |es| then r[i].key == es[i].key else r[i].key == key && r[i].value == value)
  {
    hide Same, Checksum, JoinTwo;
  }

  /** A lookup finds the value of the first entry whose key differs in case at most. */
  lemma LookupMeans(es: seq<Entry>, key: Text)
    ensures Lookup(es, key) == None <==> forall i :: 0 <= i < |es| ==> !IgnoringCase(es[i].key, key)
    ensures Lookup(es, key) == None || exists i ::
              && 0 <= i < |es| && IgnoringCase(es[i].key, key) && Lookup(es, key) == Some(es[i].value)
              && forall j :: 0 <= j < i ==> !IgnoringCase(es[j].key, key)
  {
    hide Same, IgnoringCase;
    var i := Find(es, key, 0);
    forall j | 0 <= j < |es| ensures Same(es[j].key, key) <==> IgnoringCase(es[j].key, key) { SameMeans(es[j].key, key); }
    if i < |es| { assert IgnoringCase(es[i].key, key); }
  }

  /** Keys that differ in the case of their letters only look up the same value. */
  lemma LookupIgnoresCase(es: seq<Entry>, a: Text, b: Text)
    requires IgnoringCase(a, b)
    ensures Lookup(es, a) == Lookup(es, b)
  {
    hide Same, IgnoringCase, Lookup;
    SameMeans(a, b);
    LookupSame(es, a, b);
  }

  /** A set keeps the entries with other keys, in order. */
  lemma SetKeepsOthers(es: seq<Entry>, key: Text, value: Text)
    ensures Remove(SetIn(es, key, value), key) == Remove(es, key)
  {
    hide Same;
    SameReflexive(key);
    SetSplit(es, key, value);
    var i := Find(es, key, 0);
    assert es == es[..i] + es[i..];
    RemoveConcat(es[..i], es[i..], key);
    if i == |es| {
      assert es[..i] == es;
      RemoveConcat(es, [NewEntry(key, value)], key);
    } else {
      var rest := Remove(es[i + 1..], key);
      RemoveConcat(es[..i], [es[i].(value := value)] + rest, key);
      RemoveMembers(es[i + 1..], key);
      forall j | 0 <= j < |rest| ensures !Same(rest[j].key, key) { assert rest[j] in rest; }
      RemoveNothing(rest, key);
      assert ([es[i].(value := value)] + rest)[1..] == rest;
      assert es[i..][1..] == es[i + 1..];
    }
  }

  /** A table from the first equal key on, after a merge. */
  function MergedTail(es: seq<Entry>, i: nat, key: Text, value: Text): seq<Entry>
    requires i <= |es|
  {
    if i == |es| then [NewEntry(key, value)]
    else [es[i].(value := JoinTwo(es[i].value, value))] + es[i + 1..]
  }

  lemma MergeSplit(es: seq<Entry>, key: Text, value: Text)
    ensures var i := Find(es, key, 0);
            && MergeIn(es, key, value) == es[..i] + MergedTail(es, i, key, value)
            && Lookup(es, key) == if i == |es| then None else Some(es[i].value)
  {
    hide Same, JoinTwo, NewEntry;
  }

  lemma LookupMergedTail(es: seq<Entry>, i: nat, key: Text, value: Text, other: Text)
    requires i <= |es| && (i < |es| ==> Same(es[i].key, key))
    ensures Lookup(MergedTail(es, i, key, value), other) ==
              if !Same(key, other) then Lookup(es[i..], other)
              else if i == |es| then Some(value) else Some(JoinTwo(es[i].value, value))
  {
    hide Same, JoinTwo, NewEntry;
    if i == |es| {
      NewEntryFields(key, value);
      LookupOne(NewEntry(key, value), other);
    } else {
      hide Lookup;
      assert es[i..] == [es[i]] + es[i + 1..];
      LookupCons(es[i].(value := JoinTwo(es[i].value, value)), es[i + 1..], other);
      LookupCons(es[i], es[i + 1..], other);
      if Same(es[i].key, other) { SameSymmetric(es[i].key, key); SameTransitive(key, es[i].key, other); }
      if Same(key, other) { SameTransitive(es[i].key, key, other); }
    }
  }

  /** After a merge, the key looks up its old value extended, and others are as before. */
  lemma LookupAfterMerge(es: seq<Entry>, key: Text, value: Text, other: Text)
    ensures Lookup(MergeIn(es, key, value), other) ==
              if !Same(key, other) then Lookup(es, other)
              else match Lookup(es, key) case None => Some(value) case Some(v) => Some(JoinTwo(v, value))
    ensures Same(key, other) && Lookup(es, key).Some? ==>
              var v, r := Lookup(es, key).value, Lookup(MergeIn(es, key, value), other);
              && r.Some? && |r.value| == |v| + 2 + |value|
              && r.value[..|v|] == v && r.value[|v|] == 44 && r.value[|v| + 1] == 32 && r.value[|v| + 2..] == value
  {
    if Lookup(es, key).Some? { JoinTwoMeans(Lookup(es, key).value, value); }
    hide Same, JoinTwo, MergeIn, Lookup, Find, MergedTail;
    var i := Find(es, key, 0);
    MergeSplit(es, key, value);
    LookupMergedTail(es, i, key, value, other);
    assert es == es[..i] + es[i..];
    LookupThroughPrefix(es[..i], MergedTail(es, i, key, value), es[i..], key, other);
  }

  lemma NewEntryFields(key: Text, value: Text)
    ensures NewEntry(key, value).key == key && NewEntry(key, value).value == value
  {
  }
}
