/** Table keys: case-insensitive comparison, the hash and the checksum computed from a key. */
module Keys {

  /** A C string without its terminating 0. */
  type Text = s: seq<bv8> | forall i :: 0 <= i < |s| ==> s[i] != 0

  /** Lower case of an ASCII letter, as strcasecmp folds it. */
  function Fold(c: bv8): bv8 {
    if 65 <= c <= 90 then c + 32 else c
  }

  /** strcasecmp: negative, zero or positive as a is below, equal to or above b. */
  function Compare(a: Text, b: Text): int {
    if a == [] then (if b == [] then 0 else -1)
    else if b == [] then 1
    else if Fold(a[0]) < Fold(b[0]) then -1
    else if Fold(a[0]) > Fold(b[0]) then 1
    else Compare(a[1..], b[1..])
  }

  /** Equal ignoring case. */
  predicate Same(a: Text, b: Text) {
    |a| == |b| && forall i :: 0 <= i < |a| ==> Fold(a[i]) == Fold(b[i])
  }

  /** The same byte, or the two cases of one of the letters A to Z. */
  predicate SameLetter(c: bv8, d: bv8) {
    c == d || (65 <= c <= 90 && d == c + 32) || (65 <= d <= 90 && c == d + 32)
  }

  predicate IgnoringCase(a: Text, b: Text) {
    |a| == |b| && forall i :: 0 <= i < |a| ==> SameLetter(a[i], b[i])
  }

  lemma FoldMeans(c: bv8, d: bv8)
    ensures Fold(c) == Fold(d) <==> SameLetter(c, d)
  {
  }

  /** Keys are equal iff they have equal lengths and, letter by letter, differ in case at most. */
  lemma SameMeans(a: Text, b: Text)
    ensures Same(a, b) <==> IgnoringCase(a, b)
  {
    hide Fold, SameLetter;
    if |a| == |b| {
      forall i | 0 <= i < |a| ensures Fold(a[i]) == Fold(b[i]) <==> SameLetter(a[i], b[i]) { FoldMeans(a[i], b[i]); }
    }
  }

  /** The keys agree up to position n, and there a has a byte that is above that of b, or b ends. */
  predicate AboveAt(a: Text, b: Text, n: nat) {
    && n < |a| && n <= |b| && (forall i :: 0 <= i < n ==> SameLetter(a[i], b[i]))
    && (n < |b| ==> (if 65 <= b[n] <= 90 then b[n] + 32 else b[n]) < (if 65 <= a[n] <= 90 then a[n] + 32 else a[n]))
  }

  /** One key is above another iff at the first difference its byte, in lower case, is the larger one. */
  lemma {:induction false} CompareMeans(a: Text, b: Text)
    ensures Compare(a, b) > 0 <==> exists n: nat :: AboveAt(a, b, n)
  {
    hide SameLetter, Fold, AboveAt;
    if a == [] {
      NothingAbove(b);
    } else {
      AboveFirst(a, b);
      if b != [] {
        CompareMeans(a[1..], b[1..]);
        FoldMeans(a[0], b[0]);
        if n: nat :| AboveAt(a, b, n) { if n > 0 { AboveTail(a, b, n); } }
        if n: nat :| AboveAt(a[1..], b[1..], n) { if SameLetter(a[0], b[0]) { AboveTail(a, b, n + 1); } }
      } else {
        if n: nat :| AboveAt(a, b, n) { if n > 0 { AboveTail(a, b, n); } }
      }
    }
  }

  lemma NothingAbove(b: Text)
    ensures forall n: nat :: !AboveAt([], b, n)
  {
  }

  lemma AboveFirst(a: Text, b: Text)
    requires a != []
    ensures AboveAt(a, b, 0) <==> b == [] || Fold(b[0]) < Fold(a[0])
  {
    hide SameLetter;
  }

  lemma AboveTail(a: Text, b: Text, n: nat)
    requires n > 0
    ensures AboveAt(a, b, n) ==> a != [] && b != [] && SameLetter(a[0], b[0])
    ensures a != [] && b != [] && SameLetter(a[0], b[0]) ==> (AboveAt(a, b, n) <==> AboveAt(a[1..], b[1..], n - 1))
  {
    hide SameLetter;
    if a != [] && b != [] && SameLetter(a[0], b[0]) && AboveAt(a[1..], b[1..], n - 1) {
      forall i | 0 <= i < n ensures SameLetter(a[i], b[i]) {
        if i > 0 { assert a[1..][i - 1] == a[i] && b[1..][i - 1] == b[i]; }
      }
    }
  }

  lemma {:induction false} CompareZero(a: Text, b: Text)
    ensures Compare(a, b) == 0 <==> Same(a, b)
  {
    if a != [] && b != [] {
      CompareZero(a[1..], b[1..]);
      if Same(a, b) {
        forall i | 0 <= i < |a[1..]| ensures Fold(a[1..][i]) == Fold(b[1..][i]) {
          assert a[1..][i] == a[i + 1] && b[1..][i] == b[i + 1];
        }
      }
      if Fold(a[0]) == Fold(b[0]) && Same(a[1..], b[1..]) {
        forall i | 0 <= i < |a| ensures Fold(a[i]) == Fold(b[i]) {
          if i > 0 { assert a[1..][i - 1] == a[i] && b[1..][i - 1] == b[i]; }
        }
      }
    }
  }

  lemma {:induction false} CompareFlip(a: Text, b: Text)
    ensures Compare(a, b) > 0 <==> Compare(b, a) < 0
  {
    if a != [] && b != [] { CompareFlip(a[1..], b[1..]); }
  }

  lemma {:induction false} CompareTransitive(a: Text, b: Text, c: Text)
    requires Compare(a, b) <= 0 && Compare(b, c) <= 0
    ensures Compare(a, c) <= 0
  {
    if a != [] && b != [] && c != [] && Fold(a[0]) == Fold(b[0]) == Fold(c[0]) {
      CompareTransitive(a[1..], b[1..], c[1..]);
    }
  }

  lemma SameTransitive(a: Text, b: Text, c: Text)
    requires Same(a, b) && Same(b, c)
    ensures Same(a, c) && Same(b, a)
  {
  }

  // ----- hash and checksum -----

  /** The index slot of a key: the low five bits of its first byte, the terminating 0 for an empty key. */
  function Hash(key: Text): (h: nat)
    ensures h < 32
  {
    if key == [] then 0 else (key[0] & 0x1f) as nat
  }

  lemma HashMeans(key: Text)
    ensures Hash(key) == if key == [] then 0 else key[0] as nat % 32
  {
    if key != [] { LowFive(key[0]); }
  }

  lemma LowFive(c: bv8)
    ensures (c & 0x1f) as nat == c as nat % 32
  {
    assert c & 0x1f == c % 32;
  }

  lemma FoldHash(c: bv8, d: bv8)
    requires Fold(c) == Fold(d)
    ensures c & 0x1f == d & 0x1f
  {
  }

  /** Equal keys use the same index slot. */
  lemma SameHash(a: Text, b: Text)
    requires Same(a, b)
    ensures Hash(a) == Hash(b)
  {
    if a != [] { FoldHash(a[0], b[0]); }
  }

  /** A signed char widened to an unsigned 32-bit word. */
  function Widen(c: bv8): bv32 {
    if c < 0x80 then c as bv32 else c as bv32 | 0xffffff00
  }

  function Masked(x: bv32): bv32 {
    x & 0xdfdfdfdf
  }

  function ShiftIn(x: bv32, c: bv32): bv32 {
    (x << 8) | c
  }

  /** Packs the bytes from position i on, k more of them, reading nothing past the end of the key. */
  function Pack(key: Text, i: nat, k: nat, sum: bv32): bv32
    decreases k
  {
    if k == 0 then sum
    else if i < |key| then Pack(key, i + 1, k - 1, ShiftIn(sum, Widen(key[i])))
    else Pack(key, i, k - 1, ShiftIn(sum, 0))
  }

  /** The first four bytes of a key with the case bits masked out. */
  function Checksum(key: Text): bv32 {
    Masked(Pack(key, 0, 4, 0))
  }

  /** For a key of four or more ASCII bytes: the first four, the first one highest, without the case bits. */
  lemma ChecksumMeans(key: Text)
    requires |key| >= 4 && forall i :: 0 <= i < 4 ==> key[i] < 0x80
    ensures Checksum(key) ==
              (((key[0] as bv32) << 24) | ((key[1] as bv32) << 16) | ((key[2] as bv32) << 8) | (key[3] as bv32)) & 0xdfdfdfdf
  {
    var w, x, y, z := key[0] as bv32, key[1] as bv32, key[2] as bv32, key[3] as bv32;
    assert Pack(key, 0, 4, 0) == ShiftIn(ShiftIn(ShiftIn(ShiftIn(0, w), x), y), z) by {
      hide ShiftIn;
      assert Pack(key, 0, 4, 0) == Pack(key, 1, 3, ShiftIn(0, w));
      assert Pack(key, 1, 3, ShiftIn(0, w)) == Pack(key, 2, 2, ShiftIn(ShiftIn(0, w), x));
      assert Pack(key, 2, 2, ShiftIn(ShiftIn(0, w), x)) == Pack(key, 3, 1, ShiftIn(ShiftIn(ShiftIn(0, w), x), y));
    }
    FourShifts(w, x, y, z);
  }

  lemma FourShifts(w: bv32, x: bv32, y: bv32, z: bv32)
    ensures ShiftIn(ShiftIn(ShiftIn(ShiftIn(0, w), x), y), z) == (w << 24) | (x << 16) | (y << 8) | z
  {
  }

  lemma FoldWiden(c: bv8, d: bv8)
    requires Fold(c) == Fold(d)
    ensures Masked(Widen(c)) == Masked(Widen(d))
  {
    if c != d {
      assert c == d + 32 || d == c + 32;
      assert c < 0x80 && d < 0x80;
      assert (c as bv32) & 0xdf == (d as bv32) & 0xdf;
    }
  }

  /** What is masked out is never shifted into a bit that is kept. */
  lemma MaskedShiftIn(x: bv32, c: bv32)
    ensures Masked(ShiftIn(x, c)) == Masked(ShiftIn(Masked(x), Masked(c)))
  {
  }

  lemma {:induction false} SamePack(a: Text, b: Text, i: nat, k: nat, x: bv32, y: bv32)
    requires Same(a, b) && Masked(x) == Masked(y)
    ensures Masked(Pack(a, i, k, x)) == Masked(Pack(b, i, k, y))
    decreases k
  {
    hide Widen, Fold, Masked, ShiftIn;
    if k > 0 {
      var c, d := if i < |a| then Widen(a[i]) else 0, if i < |a| then Widen(b[i]) else 0;
      if i < |a| { FoldWiden(a[i], b[i]); }
      MaskedShiftIn(x, c);
      MaskedShiftIn(y, d);
      SamePack(a, b, if i < |a| then i + 1 else i, k - 1, ShiftIn(x, c), ShiftIn(y, d));
    }
  }

  /** The checksum filter never rejects an equal key. */
  lemma SameChecksum(a: Text, b: Text)
    requires Same(a, b)
    ensures Checksum(a) == Checksum(b)
  {
    SamePack(a, b, 0, 4, 0, 0);
  }
}
