/** The string table as the program keeps it: entries in order, with an index of 32 hash slots. */
module TableIndex {
  import opened Keys
  import opened Tables
  import opened Wrappers

  /** Slot h of the index is exact: its bit is clear iff no key has the hash, else first and last are its extremes. */
  ghost predicate SlotExact(es: seq<Entry>, set': bool, first: nat, last: nat, h: nat) {
    && (set' <==> exists i :: 0 <= i < |es| && Hash(es[i].key) == h)
    && (set' ==> first <= last < |es| && Hash(es[first].key) == h && Hash(es[last].key) == h)
    && (set' ==> forall i :: 0 <= i < |es| && Hash(es[i].key) == h ==> first <= i <= last)
  }

  class Table {
    var elts: seq<Entry>
    var initialized: set<nat>  // the slots whose bit is set
    const indexFirst: array<nat>
    const indexLast: array<nat>

    ghost predicate Shape()
      reads this
    {
      && indexFirst.Length == 32 && indexLast.Length == 32 && indexFirst != indexLast
      && forall i :: 0 <= i < |elts| ==> elts[i].checksum == Checksum(elts[i].key)
    }

    ghost predicate Valid()
      reads this, indexFirst, indexLast
    {
      Shape() && forall h :: 0 <= h < 32 ==> SlotExact(elts, h in initialized, indexFirst[h], indexLast[h], h)
    }

    constructor ()
      ensures Valid() && elts == [] && fresh(indexFirst) && fresh(indexLast)
    {
      elts := [];
      initialized := {};
      indexFirst := new nat[32];
      indexLast := new nat[32];
    }

    /** Rebuilds the index by one scan of the entries. */
    method Reindex()
      requires Shape()
      modifies `initialized, indexFirst, indexLast
      ensures Valid()
    {
      hide Checksum, Hash;
      initialized := {};
      var i := 0;
      while i < |elts|
        invariant 0 <= i <= |elts|
        invariant forall h :: 0 <= h < 32 ==> SlotExact(elts[..i], h in initialized, indexFirst[h], indexLast[h], h)
      {
        var hash := Hash(elts[i].key);
        ghost var wasSet, first, last := hash in initialized, indexFirst[hash], indexLast[hash];
        indexLast[hash] := i;
        if hash !in initialized {
          indexFirst[hash] := i;
          initialized := initialized + {hash};
        }
        forall h | 0 <= h < 32 ensures SlotExact(elts[..i + 1], h in initialized, indexFirst[h], indexLast[h], h) {
          SlotAppend(elts[..i], elts[i], if h == hash then wasSet else h in initialized,
                     if h == hash then first else indexFirst[h], if h == hash then last else indexLast[h], h);
          assert elts[..i + 1] == elts[..i] + [elts[i]];
        }
        i := i + 1;
      }
      assert elts[..i] == elts;
    }

    /**
     * Searches the entries between the first and the last of the key's slot, comparing checksums
     * before keys: the position of the first equal key, or the number of entries.
     */
    method Scan(key: Text) returns (i: nat)
      requires Valid()
      ensures i == Find(elts, key, 0)
    {
      hide Checksum, Hash, Same;
      var checksum, hash := Checksum(key), Hash(key);
      assert SlotExact(elts, hash in initialized, indexFirst[hash], indexLast[hash], hash);
      if hash !in initialized {
        NoHashNoKey(elts, key, 0);
        return |elts|;
      }
      i := indexFirst[hash];
      BeforeFirst(elts, key, i);
      while i <= indexLast[hash]
        invariant i <= |elts| && forall j :: 0 <= j < i ==> !Same(elts[j].key, key)
        invariant i <= indexLast[hash] + 1
      {
        var equal := IsEqual(key, checksum, elts[i]);
        if equal {
          FindUnique(elts, key, 0, i);
          return;
        }
        i := i + 1;
      }
      NoHashNoKey(elts, key, i);
      FindUnique(elts, key, 0, |elts|);
      i := |elts|;
    }

    method Get(key: Text) returns (r: Option<Text>)
      requires Valid()
      ensures r == Lookup(elts, key)
      ensures r == None <==> forall i :: 0 <= i < |elts| ==> !IgnoringCase(elts[i].key, key)
      ensures r == None || exists i ::
                && 0 <= i < |elts| && IgnoringCase(elts[i].key, key) && r == Some(elts[i].value)
                && forall j :: 0 <= j < i ==> !IgnoringCase(elts[j].key, key)
    {
      hide Same, IgnoringCase, Hash, Checksum;
      LookupMeans(elts, key);
      var i := Scan(key);
      r := if i < |elts| then Some(elts[i].value) else None;
    }

    /** Appends an entry, whether or not the key is there already. */
    method Add(key: Text, value: Text)
      requires Valid()
      modifies this, indexFirst, indexLast
      ensures Valid() && elts == old(elts) + [NewEntry(key, value)]
    {
      hide Checksum, Hash;
      var hash := Hash(key);
      indexLast[hash] := |elts|;
      if hash !in initialized {
        indexFirst[hash] := |elts|;
        initialized := initialized + {hash};
      }
      elts := elts + [Entry(key, value, Checksum(key))];
      forall h | 0 <= h < 32 ensures SlotExact(elts, h in initialized, indexFirst[h], indexLast[h], h) {
        assert old(SlotExact(elts, h in initialized, indexFirst[h], indexLast[h], h));
        SlotAppend(old(elts), NewEntry(key, value), h in old(initialized), old(indexFirst[h]), old(indexLast[h]), h);
      }
    }

    /** Stores another value in an entry; the index depends on keys only. */
    method StoreValue(i: nat, value: Text)
      requires Valid() && i < |elts|
      modifies `elts
      ensures Valid() && elts == old(elts)[i := old(elts)[i].(value := value)]
      ensures Hash(elts[i].key) in initialized
      ensures forall j :: indexLast[Hash(elts[i].key)] < j < |elts| ==> Hash(elts[j].key) != Hash(elts[i].key)
    {
      hide Checksum, Hash;
      elts := elts[i := elts[i].(value := value)];
      forall h | 0 <= h < 32 ensures SlotExact(elts, h in initialized, indexFirst[h], indexLast[h], h) {
        assert old(SlotExact(elts, h in initialized, indexFirst[h], indexLast[h], h));
        SlotSameKeys(old(elts), elts, h in initialized, indexFirst[h], indexLast[h], h);
      }
      assert SlotExact(elts, Hash(elts[i].key) in initialized,
                       indexFirst[Hash(elts[i].key)], indexLast[Hash(elts[i].key)], Hash(elts[i].key));
    }

    /** Sets the value of the first equal key and drops the others; appends a new key. */
    method Set(key: Text, value: Text)
      requires Valid()
      modifies this, indexFirst, indexLast
      ensures Valid() && elts == SetIn(old(elts), key, value)
    {
      hide Checksum, Hash, SlotExact, Same, Remove, Find;
      var i := Scan(key);
      if i == |elts| {
        Add(key, value);
        return;
      }
      StoreValue(i, value);
      SameHash(elts[i].key, key);
      NotSameBehind(elts, key, indexLast[Hash(key)]);
      assert elts[i + 1..] == old(elts)[i + 1..];
      assert elts[..i + 1] == old(elts)[..i] + [elts[i]];
      var removed := RemoveAfter(key, i + 1);
      if removed {
        Reindex();
      }
    }

    /**
     * Removes the equal keys from position from to the end of the key's slot by moving the
     * entries behind the first of them down in place, then moves down the rest of the table.
     */
    method RemoveAfter(key: Text, from: nat) returns (removed: bool)
      requires Shape() && from <= |elts|
      requires forall j :: indexLast[Hash(key)] < j < |elts| ==> !Same(elts[j].key, key)
      modifies `elts
      ensures Shape() && elts == old(elts)[..from] + Remove(old(elts)[from..], key)
      ensures !removed ==> elts == old(elts)
    {
      hide Same, Checksum, Hash, Remove;
      var dst, next;
      dst, next, removed := CompactSlot(key, from, indexLast[Hash(key)]);
      RemoveTail(old(elts), key, from, next);
      if removed {
        ShiftRest(dst, next);
      } else {
        assert elts == elts[..next] + elts[next..];
      }
    }

    /** Moves the entries with other keys down over the removed ones, up to the end of a slot. */
    method CompactSlot(key: Text, from: nat, last: nat) returns (dst: nat, next: nat, removed: bool)
      requires Shape() && from <= |elts|
      modifies `elts
      ensures Shape() && |elts| == old(|elts|) && from <= dst <= next <= |elts| && (next == |elts| || next > last)
      ensures elts[..dst] == old(elts)[..from] + Remove(old(elts)[from..next], key)
      ensures elts[next..] == old(elts)[next..]
      ensures !removed ==> dst == next && elts == old(elts)
    {
      hide Same, Checksum, Hash, Remove;
      var checksum := Checksum(key);
      dst, next, removed := from, from, false;
      ghost var es := elts;
      RemoveNone(es, key, from);
      while next < |elts| && next <= last
        invariant from <= dst <= next <= |elts| == |es| && (!removed ==> dst == next && elts == es)
        invariant Shape()
        invariant elts[..dst] == es[..from] + Remove(es[from..next], key)
        invariant forall j :: next <= j < |es| ==> elts[j] == es[j]
      {
        var e := elts[next];
        ghost var done := elts[..dst];
        RemoveStep(es, key, from, next);
        var equal := IsEqual(key, checksum, e);
        if equal {
          removed := true;
        } else {
          if removed {
            elts := elts[dst := e];
          }
          assert elts[..dst + 1] == done + [e];
          dst := dst + 1;
        }
        next := next + 1;
      }
    }

    /** The checksum filter, then the comparison. */
    method IsEqual(key: Text, checksum: bv32, e: Entry) returns (b: bool)
      requires checksum == Checksum(key) && e.checksum == Checksum(e.key)
      ensures b <==> Same(e.key, key)
    {
      hide Same, Checksum;
      CompareZero(e.key, key);
      if Same(e.key, key) { SameChecksum(e.key, key); }
      b := checksum == e.checksum && Compare(e.key, key) == 0;
    }

    /** Moves the rest of the table down to position dst. */
    method ShiftRest(dst0: nat, next0: nat)
      requires Shape() && dst0 <= next0 <= |elts|
      modifies `elts
      ensures Shape() && elts == old(elts)[..dst0] + old(elts)[next0..]
    {
      hide Checksum;
      var dst, next := dst0, next0;
      ghost var es := elts;
      while next < |elts|
        invariant dst0 <= dst <= next <= |elts| == |es| && dst - dst0 == next - next0
        invariant Shape()
        invariant forall j :: 0 <= j < dst0 ==> elts[j] == es[j]
        invariant forall j :: dst0 <= j < dst ==> elts[j] == es[j - dst0 + next0]
        invariant forall j :: next <= j < |es| ==> elts[j] == es[j]
      {
        elts := elts[dst := elts[next]];
        dst, next := dst + 1, next + 1;
      }
      elts := elts[..dst];
    }

    /** Removes all entries with an equal key. */
    method Unset(key: Text)
      requires Valid()
      modifies this, indexFirst, indexLast
      ensures Valid() && elts == Remove(old(elts), key)
    {
      hide Checksum, Hash, Same, Remove, Find;
      var i := Scan(key);
      UnsetSplit(elts, key);
      if i == |elts| {
        return;
      }
      SameHash(elts[i].key, key);
      assert SlotExact(elts, Hash(key) in initialized, indexFirst[Hash(key)], indexLast[Hash(key)], Hash(key));
      NotSameBehind(elts, key, indexLast[Hash(key)]);
      var removed := RemoveAfter(key, i);
      if removed {
        Reindex();
      }
    }

    /** Extends the value of the first equal key; appends a new key. */
    method Merge(key: Text, value: Text)
      requires Valid()
      modifies this, indexFirst, indexLast
      ensures Valid() && elts == MergeIn(old(elts), key, value)
    {
      hide Checksum, Hash, SlotExact, Same;
      var i := Scan(key);
      if i == |elts| {
        Add(key, value);
        return;
      }
      StoreValue(i, JoinTwo(elts[i].value, value));
    }

    method Clear()
      requires Valid()
      modifies this
      ensures Valid() && elts == []
    {
      elts := [];
      initialized := {};
    }
  }

  /** Appending an entry updates its own slot to end there and leaves the other slots exact. */
  lemma SlotAppend(es: seq<Entry>, e: Entry, set': bool, first: nat, last: nat, h: nat)
    requires SlotExact(es, set', first, last, h)
    ensures Hash(e.key) != h ==> SlotExact(es + [e], set', first, last, h)
    ensures Hash(e.key) == h ==> SlotExact(es + [e], true, if set' then first else |es|, |es|, h)
  {
    hide Hash;
    var fs := es + [e];
    if set' { assert fs[first] == es[first]; }
    assert fs[|es|] == e;
    if i :| 0 <= i < |fs| && Hash(fs[i].key) == h { if i < |es| { assert fs[i] == es[i]; } }
  }

  lemma SlotSameKeys(es: seq<Entry>, fs: seq<Entry>, set': bool, first: nat, last: nat, h: nat)
    requires |es| == |fs| && forall i :: 0 <= i < |es| ==> es[i].key == fs[i].key
    requires SlotExact(es, set', first, last, h)
    ensures SlotExact(fs, set', first, last, h)
  {
    hide Hash;
    if i :| 0 <= i < |es| && Hash(es[i].key) == h { assert Hash(fs[i].key) == h; }
  }

  lemma UnsetSplit(es: seq<Entry>, key: Text)
    ensures var i := Find(es, key, 0);
            es[..i] + Remove(es[i..], key) == Remove(es, key) && (i == |es| ==> Remove(es, key) == es)
  {
    hide Same;
    var i := Find(es, key, 0);
    RemoveNothing(es[..i], key);
    RemoveConcat(es[..i], es[i..], key);
    assert es == es[..i] + es[i..];
  }

  lemma NotSameBehind(es: seq<Entry>, key: Text, last: nat)
    requires forall j :: last < j < |es| ==> Hash(es[j].key) != Hash(key)
    ensures forall j :: last < j < |es| ==> !Same(es[j].key, key)
  {
    forall j | last < j < |es| ensures !Same(es[j].key, key) {
      if Same(es[j].key, key) { SameHash(es[j].key, key); }
    }
  }

  lemma NoHashNoKey(es: seq<Entry>, key: Text, from: nat)
    requires from <= |es| && forall i :: from <= i < |es| ==> Hash(es[i].key) != Hash(key)
    ensures forall i :: from <= i < |es| ==> !Same(es[i].key, key)
    ensures from == 0 ==> Find(es, key, 0) == |es|
  {
    forall i | from <= i < |es| ensures !Same(es[i].key, key) {
      if Same(es[i].key, key) { SameHash(es[i].key, key); }
    }
  }

  lemma BeforeFirst(es: seq<Entry>, key: Text, first: nat)
    requires first <= |es| && forall i :: 0 <= i < first ==> Hash(es[i].key) != Hash(key)
    ensures forall i :: 0 <= i < first ==> !Same(es[i].key, key)
  {
    NoHashNoKey(es[..first], key, 0);
    forall i | 0 <= i < first ensures !Same(es[i].key, key) { assert es[..first][i] == es[i]; }
  }

  lemma RemoveNone(es: seq<Entry>, key: Text, from: nat)
    requires from <= |es|
    ensures es[..from] + Remove(es[from..from], key) == es[..from]
  {
  }

  lemma RemoveStep(es: seq<Entry>, key: Text, from: nat, next: nat)
    requires from <= next < |es|
    ensures Remove(es[from..next + 1], key) ==
              Remove(es[from..next], key) + (if Same(es[next].key, key) then [] else [es[next]])
  {
    hide Same;
    assert es[from..next + 1] == es[from..next] + [es[next]];
    RemoveConcat(es[from..next], [es[next]], key);
    assert [es[next]][1..] == [];
  }

  lemma RemoveTail(es: seq<Entry>, key: Text, from: nat, next: nat)
    requires from <= next <= |es| && forall j :: next <= j < |es| ==> !Same(es[j].key, key)
    ensures Remove(es[from..], key) == Remove(es[from..next], key) + es[next..]
  {
    hide Same;
    assert es[from..] == es[from..next] + es[next..];
    RemoveConcat(es[from..next], es[next..], key);
    RemoveNothing(es[next..], key);
  }
}
