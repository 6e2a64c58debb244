/** The key schedules: section 5.2 of FIPS 197, and its reversal for decryption. */
module AesKeys {
  import Arith
  import opened AesTables
  import opened AesModel
  import opened Aes

  // ----- the key expansion of the standard -----

  function SubWord(w: bv32): bv32 { Pack(SubColumn(Unpack(w))) }

  /** Moves the top byte to the bottom. */
  function RotWord(w: bv32): bv32 { Word(Byte1(w), Byte2(w), Byte3(w), Byte0(w)) }

  /** {02} to the power n. */
  function PowerOfTwo(n: nat): bv8 {
    if n == 0 then 1 else Double(PowerOfTwo(n - 1))
  }

  /** The round constant number n, counted from 1. */
  function Rcon(n: nat): bv32
    requires n > 0
  {
    Word(PowerOfTwo(n - 1), 0, 0, 0)
  }

  /** What word i - 1 contributes to word i, for a key of nk words. */
  function Temp(nk: nat, i: nat, w: bv32): bv32
    requires 0 < nk <= i
  {
    if Place(nk, i) == 0 then XorWord(SubWord(RotWord(w)), Rcon(Period(nk, i)))
    else if nk > 6 && Place(nk, i) == 4 then SubWord(w)
    else w
  }

  /** The place of word i in its period of nk words, and the number of the period. */
  function Place(nk: nat, i: nat): nat
    requires nk > 0
  {
    i % nk
  }

  function Period(nk: nat, i: nat): (r: nat)
    requires 0 < nk <= i
    ensures r > 0
  {
    i / nk
  }

  /** Word i of the expanded key. */
  function Expanded(key: seq<bv32>, i: nat): bv32
    requires key != []
  {
    if i < |key| then key[i] else XorWord(Expanded(key, i - |key|), Temp(|key|, i, Expanded(key, i - 1)))
  }

  // ----- the recurrence written out in shifts -----

  /** The four bytes of a word substituted. */
  function Substituted(v: bv32): bv32 {
    ((S((v >> 24) as bv8) as bv32) << 24) | ((S(((v >> 16) & 0xff) as bv8) as bv32) << 16)
    | ((S(((v >> 8) & 0xff) as bv8) as bv32) << 8) | (S((v & 0xff) as bv8) as bv32)
  }

  /** A word rotated left by a byte. */
  function Rotated(w: bv32): bv32 { (w << 8) | (w >> 24) }

  ghost predicate Recurs(ws: seq<bv32>, nk: nat, i: nat)
    requires 0 < nk <= i < |ws|
  {
    NextIs(nk, i, ws[i - nk], ws[i - 1], ws[i])
  }

  /**
   * Word i is the word a key length back plus the last one; for the first word of a period the last
   * one is rotated left by a byte, substituted, and a round constant is added; for the fifth one of a
   * period of eight it is substituted.
   */
  ghost predicate NextIs(nk: nat, i: nat, x: bv32, w: bv32, next: bv32)
    requires 0 < nk
  {
    if i % nk == 0 then
      0 < i / nk <= 10 && next == XorWord(x, XorWord(Substituted(Rotated(w)), RCON[i / nk - 1]))
    else if nk == 8 && i % nk == 4 then next == XorWord(x, Substituted(w))
    else next == XorWord(x, w)
  }

  lemma RotWordMeans(w: bv32)
    ensures RotWord(w) == (w << 8) | (w >> 24) && Rotated(w) == RotWord(w)
  {
  }

  lemma SubWordMeans(w: bv32)
    ensures SubWord(w) == Substituted(w)
  {
    hide S;
  }

  lemma TempMeans(nk: nat, i: nat, w: bv32)
    requires 0 < nk <= i && (nk == 4 || nk == 6 || nk == 8) && i < 11 * nk
    ensures i % nk == 0 ==>
              0 < i / nk <= 10 && Temp(nk, i, w) == XorWord(Substituted(Rotated(w)), RCON[i / nk - 1])
    ensures i % nk != 0 ==> Temp(nk, i, w) == if nk == 8 && i % nk == 4 then Substituted(w) else w
  {
    hide Substituted, SubWord, RotWord, Rotated, XorWord, Rcon, Double;
    SubWordMeans(w);
    RotWordMeans(w);
    SubWordMeans(RotWord(w));
    if i % nk == 0 {
      PeriodBound(nk, i);
      RconIsPower(i / nk - 1);
    }
  }

  lemma PeriodBound(nk: nat, i: nat)
    requires 0 < nk <= i < 11 * nk
    ensures 0 < i / nk <= 10 && Place(nk, i) == i % nk && Period(nk, i) == i / nk
  {
    var q := i / nk;
    assert i == q * nk + i % nk;
    Arith.MulMono(11, if q > 11 then q else 11, nk);
    Arith.MulMono(if q < 0 then q else 0, 0, nk);
  }

  /** Every word of an expanded key is what the recurrence says. */
  lemma ScheduleRecurs(ws: seq<bv32>, key: seq<bv32>, n: nat, i: nat)
    requires |key| == 4 || |key| == 6 || |key| == 8
    requires Filled(ws, key, n) && |key| <= i < n && i < 11 * |key|
    ensures Recurs(ws, |key|, i)
  {
    hide Temp, NextIs, XorWord, Expanded;
    ExpandedStep(key, i);
    NextIsStep(|key|, i, ws[i - |key|], ws[i - 1]);
  }

  lemma NextIsStep(nk: nat, i: nat, x: bv32, w: bv32)
    requires 0 < nk <= i && (nk == 4 || nk == 6 || nk == 8) && i < 11 * nk
    ensures NextIs(nk, i, x, w, XorWord(x, Temp(nk, i, w)))
  {
    hide Temp, Substituted, Rotated, XorWord;
    TempMeans(nk, i, w);
  }

  lemma ExpandedStep(key: seq<bv32>, i: nat)
    requires key != [] && i >= |key|
    ensures Expanded(key, i) == XorWord(Expanded(key, i - |key|), Temp(|key|, i, Expanded(key, i - 1)))
  {
    hide XorWord, Temp;
  }

  /** The cipher key as words. */
  function KeyWords(bytes: seq<bv8>, nk: nat): (ws: seq<bv32>)
    requires 4 * nk <= |bytes|
    ensures |ws| == nk && forall i :: 0 <= i < nk ==> ws[i] == GetU32(bytes, 4 * i)
  {
    if nk == 0 then [] else KeyWords(bytes, nk - 1) + [GetU32(bytes, 4 * (nk - 1))]
  }

  /** The first n words of rk are those of the expanded key. */
  ghost predicate Filled(rk: seq<bv32>, key: seq<bv32>, n: nat)
    requires key != []
  {
    n <= |rk| && forall i :: 0 <= i < n ==> rk[i] == Expanded(key, i)
  }

  // ----- the round constants and the substitution as the source computes them -----

  const RCON: seq<bv32> := [0x01000000, 0x02000000, 0x04000000, 0x08000000, 0x10000000, 0x20000000,
                            0x40000000, 0x80000000, 0x1B000000, 0x36000000]

  lemma RconIsPower(i: nat)
    requires i < 10
    ensures RCON[i] == Rcon(i + 1)
  {
    hide Word, Double;
    PowersOfTwo();
    RconWords();
  }

  lemma PowersOfTwo()
    ensures PowerOfTwo(0) == 1 && PowerOfTwo(1) == 2 && PowerOfTwo(2) == 4 && PowerOfTwo(3) == 8
    ensures PowerOfTwo(4) == 16 && PowerOfTwo(5) == 32 && PowerOfTwo(6) == 64 && PowerOfTwo(7) == 128
    ensures PowerOfTwo(8) == 0x1b && PowerOfTwo(9) == 0x36
  {
    hide Double;
    Doubles();
  }

  lemma Doubles()
    ensures Double(1) == 2 && Double(2) == 4 && Double(4) == 8 && Double(8) == 16 && Double(16) == 32
    ensures Double(32) == 64 && Double(64) == 128 && Double(128) == 0x1b && Double(0x1b) == 0x36
  {
  }

  lemma RconWords()
    ensures Word(1, 0, 0, 0) == 0x01000000 && Word(2, 0, 0, 0) == 0x02000000 && Word(4, 0, 0, 0) == 0x04000000
    ensures Word(8, 0, 0, 0) == 0x08000000 && Word(16, 0, 0, 0) == 0x10000000 && Word(32, 0, 0, 0) == 0x20000000
    ensures Word(64, 0, 0, 0) == 0x40000000 && Word(128, 0, 0, 0) == 0x80000000
    ensures Word(0x1b, 0, 0, 0) == 0x1B000000 && Word(0x36, 0, 0, 0) == 0x36000000
  {
  }

  /** Four masked lookups: the bytes w, x, y and z substituted. */
  function Lookup4(w: bv8, x: bv8, y: bv8, z: bv8): bv32 {
    FourWords(Mask(Te4(w), 0xff000000), Mask(Te4(x), 0x00ff0000), Mask(Te4(y), 0x0000ff00), Mask(Te4(z), 0x000000ff))
  }

  lemma Lookup4IsSub(w: bv8, x: bv8, y: bv8, z: bv8)
    ensures Lookup4(w, x, y, z) == Pack(SubColumn(Column(w, x, y, z)))
  {
    hide S, Pack, Unpack, Word, Mask, FourWords, SumWords, Add;
    var c := Column(S(w), S(x), S(y), S(z));
    MaskedColumn(S(w), S(x), S(y), S(z), 0);
    Te4Word(w);
    Te4Word(x);
    Te4Word(y);
    Te4Word(z);
    NoKey(Mask(Te4(w), 0xff000000), Mask(Te4(x), 0x00ff0000), Mask(Te4(y), 0x0000ff00), Mask(Te4(z), 0x000000ff));
    AddNothing(c);
    PackUnpack(Lookup4(w, x, y, z), c);
  }

  lemma Te4Word(x: bv8)
    ensures Te4(x) == Word(S(x), S(x), S(x), S(x))
  {
    hide S, Word;
  }

  function RotLookup(w: bv32): bv32 { Lookup4(Byte1(w), Byte2(w), Byte3(w), Byte0(w)) }

  function SubLookup(w: bv32): bv32 { Lookup4(Byte0(w), Byte1(w), Byte2(w), Byte3(w)) }

  lemma LookupsAreSub(w: bv32)
    ensures RotLookup(w) == SubWord(RotWord(w)) && SubLookup(w) == SubWord(w)
  {
    hide SubColumn, Pack, Word, Lookup4, Byte0, Byte1, Byte2, Byte3;
    Lookup4IsSub(Byte1(w), Byte2(w), Byte3(w), Byte0(w));
    Lookup4IsSub(Byte0(w), Byte1(w), Byte2(w), Byte3(w));
    WordBytes(Byte1(w), Byte2(w), Byte3(w), Byte0(w));
  }

  /** Word i of the expanded key, by its place in the key's period. */
  lemma Step(key: seq<bv32>, i: nat, round: nat)
    requires 4 <= |key| <= 8 && |key| <= i
    ensures i == (round + 1) * |key| && round < 10 ==>
              Expanded(key, i) == XorWord(Expanded(key, i - |key|), XorWord(RotLookup(Expanded(key, i - 1)), RCON[round]))
    ensures |key| == 8 && i % 8 == 4 ==>
              Expanded(key, i) == XorWord(Expanded(key, i - 8), SubLookup(Expanded(key, i - 1)))
    ensures Place(|key|, i) != 0 && !(|key| == 8 && i % 8 == 4) && |key| != 7 ==>
              Expanded(key, i) == XorWord(Expanded(key, i - |key|), Expanded(key, i - 1))
  {
    hide RotLookup, SubLookup, SubWord, RotWord, XorWord, Rcon, Place, Period;
    LookupsAreSub(Expanded(key, i - 1));
    PlaceOfEight(i);
    if i == (round + 1) * |key| && round < 10 {
      RconIsPower(round);
      Multiple(|key|, round + 1);
    }
  }

  lemma PlaceOfEight(i: nat)
    ensures Place(8, i) == i % 8
  {
  }

  lemma Multiple(n: nat, k: nat)
    requires n > 0 && k > 0
    ensures k * n >= n && Place(n, k * n) == 0 && Period(n, k * n) == k
  {
    Arith.ModOfMultiple(k, n);
    Arith.MulMono(1, k, n);
  }

  // ----- expanding in place, one loop for each key size -----

  ghost predicate Kept(rk: seq<bv32>, was: seq<bv32>, from: nat) {
    |rk| == |was| && forall j :: from <= j < |rk| ==> rk[j] == was[j]
  }

  /** An ordinary word: the sum of the last one and the one a key length back. */
  method NextWord(rk: array<bv32>, i: nat, nk: nat, ghost key: seq<bv32>)
    requires nk == |key| && (nk == 4 || nk == 6 || nk == 8) && nk < i < rk.Length && Filled(rk[..], key, i)
    requires Place(nk, i) != 0 && !(nk == 8 && i % 8 == 4)
    modifies rk
    ensures Filled(rk[..], key, i + 1) && Kept(rk[..], old(rk[..]), i + 1)
  {
    hide Expanded, RotLookup, SubLookup, XorWord;
    Step(key, i, 0);
    rk[i] := XorWord(rk[i - nk], rk[i - 1]);
  }

  /** The first word of a period: the last one rotated and substituted, with the round constant. */
  method FirstWord(rk: array<bv32>, i: nat, nk: nat, round: nat, ghost key: seq<bv32>)
    requires nk == |key| && (nk == 4 || nk == 6 || nk == 8) && i < rk.Length && Filled(rk[..], key, i)
    requires i == (round + 1) * nk && round < 10
    modifies rk
    ensures Filled(rk[..], key, i + 1) && Kept(rk[..], old(rk[..]), i + 1)
  {
    hide Expanded, RotLookup, SubLookup, XorWord;
    Step(key, i, round);
    rk[i] := XorWord(rk[i - nk], XorWord(RotLookup(rk[i - 1]), RCON[round]));
  }

  /** The fifth word of a period of eight: the last one substituted. */
  method MiddleWord(rk: array<bv32>, i: nat, ghost key: seq<bv32>)
    requires |key| == 8 && 8 < i < rk.Length && i % 8 == 4 && Filled(rk[..], key, i)
    modifies rk
    ensures Filled(rk[..], key, i + 1) && Kept(rk[..], old(rk[..]), i + 1)
  {
    hide Expanded, RotLookup, SubLookup, XorWord;
    Step(key, i, 0);
    rk[i] := XorWord(rk[i - 8], SubLookup(rk[i - 1]));
  }

  method Expand128(rk: array<bv32>, ghost key: seq<bv32>) returns (nr: nat)
    requires |key| == 4 && rk.Length >= 44 && Filled(rk[..], key, 4)
    modifies rk
    ensures nr == 10 && Filled(rk[..], key, 44) && Kept(rk[..], old(rk[..]), 44)
  {
    hide Expanded, RotLookup, SubLookup, XorWord;
    var i, b: nat := 0, 0;
    while true
      invariant i < 10 && b == 4 * i && Filled(rk[..], key, b + 4) && Kept(rk[..], old(rk[..]), 44)
      decreases 10 - i
    {
      FirstWord(rk, b + 4, 4, i, key);
      NextWord(rk, b + 5, 4, key);
      NextWord(rk, b + 6, 4, key);
      NextWord(rk, b + 7, 4, key);
      i := i + 1;
      if i == 10 { return 10; }
      b := b + 4;
    }
  }

  method Expand192(rk: array<bv32>, ghost key: seq<bv32>) returns (nr: nat)
    requires |key| == 6 && rk.Length >= 52 && Filled(rk[..], key, 6)
    modifies rk
    ensures nr == 12 && Filled(rk[..], key, 52) && Kept(rk[..], old(rk[..]), 52)
  {
    hide Expanded, RotLookup, SubLookup, XorWord;
    var i, b: nat := 0, 0;
    while true
      invariant i < 8 && b == 6 * i && Filled(rk[..], key, b + 6) && Kept(rk[..], old(rk[..]), 52)
      decreases 8 - i
    {
      FirstWord(rk, b + 6, 6, i, key);
      NextWord(rk, b + 7, 6, key);
      NextWord(rk, b + 8, 6, key);
      NextWord(rk, b + 9, 6, key);
      i := i + 1;
      if i == 8 { return 12; }
      NextWord(rk, b + 10, 6, key);
      NextWord(rk, b + 11, 6, key);
      b := b + 6;
    }
  }

  method Expand256(rk: array<bv32>, ghost key: seq<bv32>) returns (nr: nat)
    requires |key| == 8 && rk.Length >= 60 && Filled(rk[..], key, 8)
    modifies rk
    ensures nr == 14 && Filled(rk[..], key, 60) && Kept(rk[..], old(rk[..]), 60)
  {
    hide Expanded, RotLookup, SubLookup, XorWord;
    var i, b: nat := 0, 0;
    while true
      invariant i < 7 && b == 8 * i && Filled(rk[..], key, b + 8) && Kept(rk[..], old(rk[..]), 60)
      decreases 7 - i
    {
      FirstWord(rk, b + 8, 8, i, key);
      NextWord(rk, b + 9, 8, key);
      NextWord(rk, b + 10, 8, key);
      NextWord(rk, b + 11, 8, key);
      i := i + 1;
      if i == 7 { return 14; }
      MiddleWord(rk, b + 12, key);
      NextWord(rk, b + 13, 8, key);
      NextWord(rk, b + 14, 8, key);
      NextWord(rk, b + 15, 8, key);
      b := b + 8;
    }
  }

  /** The number of rounds for a key size; 0 for a size the cipher does not have. */
  function RoundsFor(keyBits: int): (nr: nat)
    ensures nr == 0 || nr == 10 || nr == 12 || nr == 14
  {
    if keyBits == 128 then 10 else if keyBits == 192 then 12 else if keyBits == 256 then 14 else 0
  }

  /** The words of the cipher key that are read: all eight for an unknown size. */
  function WordsFor(keyBits: int): (nk: nat)
    ensures nk == 4 || nk == 6 || nk == 8
  {
    if keyBits == 128 then 4 else if keyBits == 192 then 6 else 8
  }

  function Filling(keyBits: int): nat {
    if RoundsFor(keyBits) == 0 then 8 else 4 * (RoundsFor(keyBits) + 1)
  }

  /** Loads words of the cipher key from word i on. */
  method LoadWords(rk: array<bv32>, cipherKey: seq<bv8>, from: nat, to: nat, ghost key: seq<bv32>)
    requires from <= to <= |key| && 4 * to <= |cipherKey| && to <= rk.Length
    requires key != [] && forall i :: 0 <= i < to ==> key[i] == GetU32(cipherKey, 4 * i)
    requires Filled(rk[..], key, from)
    modifies rk
    ensures Filled(rk[..], key, to) && Kept(rk[..], old(rk[..]), to)
  {
    hide GetU32, XorWord;
    var i := from;
    while i < to
      invariant from <= i <= to && Filled(rk[..], key, i) && Kept(rk[..], old(rk[..]), to)
    {
      rk[i] := GetU32(cipherKey, 4 * i);
      i := i + 1;
    }
  }

  /** The schedule begins with the bytes of the key, the first one of each word highest, and goes on by the recurrence. */
  ghost predicate Scheduled(ws: seq<bv32>, cipherKey: seq<bv8>, keyBits: int)
    requires |cipherKey| >= 4 * WordsFor(keyBits) && |ws| >= Filling(keyBits)
  {
    var nk := WordsFor(keyBits);
    && (forall i: nat :: i < nk ==> LoadedWord(cipherKey, i, ws[i]))
    && forall i: nat :: nk <= i < Filling(keyBits) ==> Recurs(ws, nk, i)
  }

  lemma FilledIsScheduled(ws: seq<bv32>, cipherKey: seq<bv8>, keyBits: int)
    requires |cipherKey| >= 4 * WordsFor(keyBits)
    requires Filled(ws, KeyWords(cipherKey, WordsFor(keyBits)), Filling(keyBits))
    ensures Scheduled(ws, cipherKey, keyBits)
  {
    hide Recurs, GetU32, LoadedWord;
    var key, nk := KeyWords(cipherKey, WordsFor(keyBits)), WordsFor(keyBits);
    forall i: nat | i < nk ensures LoadedWord(cipherKey, i, ws[i]) {
      LoadedGetU32(cipherKey, i);
      assert ws[i] == key[i];
    }
    forall i: nat | nk <= i < Filling(keyBits) ensures Recurs(ws, nk, i) { ScheduleRecurs(ws, key, Filling(keyBits), i); }
  }

  /** Word i of the key: four bytes, the first one highest. */
  predicate LoadedWord(bytes: seq<bv8>, i: nat, w: bv32)
    requires 4 * i + 4 <= |bytes|
  {
    w == ((bytes[4 * i] as bv32) << 24) | ((bytes[4 * i + 1] as bv32) << 16)
         | ((bytes[4 * i + 2] as bv32) << 8) | (bytes[4 * i + 3] as bv32)
  }

  lemma LoadedGetU32(bytes: seq<bv8>, i: nat)
    requires 4 * i + 4 <= |bytes|
    ensures LoadedWord(bytes, i, GetU32(bytes, 4 * i))
  {
  }

  /** The encryption schedule is the expanded key of the standard. */
  method KeySetupEnc(rk: array<bv32>, cipherKey: seq<bv8>, keyBits: int) returns (nr: nat)
    requires |cipherKey| >= 4 * WordsFor(keyBits) && rk.Length >= Filling(keyBits)
    modifies rk
    ensures nr == RoundsFor(keyBits)
    ensures Filled(rk[..], KeyWords(cipherKey, WordsFor(keyBits)), Filling(keyBits))
    ensures Kept(rk[..], old(rk[..]), Filling(keyBits))
    ensures Scheduled(rk[..], cipherKey, keyBits)
  {
    hide GetU32, Expanded, Scheduled;
    ghost var key := KeyWords(cipherKey, WordsFor(keyBits));
    LoadWords(rk, cipherKey, 0, 4, key);
    if keyBits == 128 {
      nr := Expand128(rk, key);
      FilledIsScheduled(rk[..], cipherKey, keyBits);
      return;
    }
    LoadWords(rk, cipherKey, 4, 6, key);
    if keyBits == 192 {
      nr := Expand192(rk, key);
      FilledIsScheduled(rk[..], cipherKey, keyBits);
      return;
    }
    LoadWords(rk, cipherKey, 6, 8, key);
    if keyBits == 256 {
      nr := Expand256(rk, key);
      FilledIsScheduled(rk[..], cipherKey, keyBits);
      return;
    }
    nr := 0;
    FilledIsScheduled(rk[..], cipherKey, keyBits);
  }

  // ----- the decryption schedule -----

  /** The first n round keys of the expanded key. */
  function RoundKeys(key: seq<bv32>, n: nat): (keys: seq<State>)
    requires key != []
    ensures |keys| == n && forall r :: 0 <= r < n ==> keys[r] == RoundKey(key, r)
  {
    if n == 0 then [] else RoundKeys(key, n - 1) + [RoundKey(key, n - 1)]
  }

  function RoundKey(key: seq<bv32>, r: nat): State
    requires key != []
  {
    Columns(Expanded(key, 4 * r), Expanded(key, 4 * r + 1), Expanded(key, 4 * r + 2), Expanded(key, 4 * r + 3))
  }

  lemma FilledKeys(ws: seq<bv32>, key: seq<bv32>, n: nat)
    requires key != [] && Filled(ws, key, 4 * n)
    ensures Keys(ws, n) == RoundKeys(key, n)
  {
    hide Expanded, Columns;
    forall r: nat | r < n ensures KeyAt(ws, r) == RoundKey(key, r) {
    }
  }

  /** Round key r of ws is round key t of vs. */
  ghost predicate SameKey(ws: seq<bv32>, r: nat, vs: seq<bv32>, t: nat) {
    && 4 * r + 4 <= |ws| && 4 * t + 4 <= |vs|
    && ws[4 * r] == vs[4 * t] && ws[4 * r + 1] == vs[4 * t + 1]
    && ws[4 * r + 2] == vs[4 * t + 2] && ws[4 * r + 3] == vs[4 * t + 3]
  }

  /** Round key r of ws is the round key of vs that is r places from the last. */
  ghost predicate Mirrored(ws: seq<bv32>, r: nat, vs: seq<bv32>, nr: nat) {
    r <= nr && SameKey(ws, r, vs, nr - r)
  }

  /** Exchanges the round keys at positions i and j, word by word. */
  method SwapKeys(rk: array<bv32>, i: nat, j: nat, ghost p: nat, ghost q: nat)
    requires i + 4 <= j && j + 4 <= rk.Length && i == 4 * p && j == 4 * q
    modifies rk
    ensures SameKey(rk[..], p, old(rk[..]), q) && SameKey(rk[..], q, old(rk[..]), p)
    ensures forall x :: 0 <= x < rk.Length && !(i <= x < i + 4) && !(j <= x < j + 4) ==> rk[x] == old(rk[x])
  {
    hide SameKey;
    ghost var ws := rk[..];
    var temp := rk[i];
    rk[i] := rk[j];
    rk[j] := temp;
    temp := rk[i + 1];
    rk[i + 1] := rk[j + 1];
    rk[j + 1] := temp;
    temp := rk[i + 2];
    rk[i + 2] := rk[j + 2];
    rk[j + 2] := temp;
    temp := rk[i + 3];
    rk[i + 3] := rk[j + 3];
    rk[j + 3] := temp;
    FourWordsSwapped(rk[..], ws, i, j, p, q);
  }

  lemma FourWordsSwapped(vs: seq<bv32>, ws: seq<bv32>, i: nat, j: nat, p: nat, q: nat)
    requires |vs| == |ws| && i + 4 <= |ws| && j + 4 <= |ws| && i == 4 * p && j == 4 * q
    requires vs[i] == ws[j] && vs[i + 1] == ws[j + 1] && vs[i + 2] == ws[j + 2] && vs[i + 3] == ws[j + 3]
    requires vs[j] == ws[i] && vs[j + 1] == ws[i + 1] && vs[j + 2] == ws[i + 2] && vs[j + 3] == ws[i + 3]
    ensures SameKey(vs, p, ws, q) && SameKey(vs, q, ws, p)
  {
  }

  /** What swapping keys p and q does to key r. */
  lemma SwappedKey(ws: seq<bv32>, vs: seq<bv32>, p: nat, q: nat, r: nat)
    requires |ws| == |vs| && p < q && 4 * q + 4 <= |ws| && 4 * r + 4 <= |ws|
    requires SameKey(ws, p, vs, q) && SameKey(ws, q, vs, p)
    requires forall x :: 0 <= x < |ws| && !(4 * p <= x < 4 * p + 4) && !(4 * q <= x < 4 * q + 4) ==> ws[x] == vs[x]
    ensures SameKey(ws, r, vs, if r == p then q else if r == q then p else r)
  {
  }

  /** Reverses the order of the round keys. */
  method ReverseKeys(rk: array<bv32>, nr: nat)
    requires rk.Length >= 4 * (nr + 1)
    modifies rk
    ensures forall r: nat :: r <= nr ==> Mirrored(rk[..], r, old(rk[..]), nr)
    ensures Kept(rk[..], old(rk[..]), 4 * (nr + 1))
  {
    hide SameKey;
    ghost var ws, p, q := rk[..], 0, nr;
    forall r: nat | r <= nr ensures SameKey(ws, r, ws, r) { SameKeyItself(ws, r); }
    var i, j := 0, 4 * nr;
    while i < j
      invariant i == 4 * p && j == 4 * q && p + q == nr && p <= q + 1
      invariant forall r: nat :: p <= r <= q ==> SameKey(rk[..], r, ws, r)
      invariant forall r: nat :: r < p ==> Mirrored(rk[..], r, ws, nr)
      invariant forall r: nat :: q < r <= nr ==> Mirrored(rk[..], r, ws, nr)
      invariant Kept(rk[..], ws, 4 * (nr + 1))
    {
      ghost var vs := rk[..];
      SwapKeys(rk, i, j, p, q);
      forall r: nat | r <= nr
        ensures if p < r < q then SameKey(rk[..], r, ws, r) else Mirrored(rk[..], r, ws, nr)
      {
        SwappedKey(rk[..], vs, p, q, r);
        var t := if r == p then q else if r == q then p else r;
        assert if p <= t <= q then SameKey(vs, t, ws, t) else Mirrored(vs, t, ws, nr);
        SameKeyTransitive(rk[..], r, vs, t, ws, if p <= t <= q then t else nr - t);
      }
      i := i + 4;
      j := j - 4;
      p, q := p + 1, q - 1;
    }
    forall r: nat | r <= nr ensures Mirrored(rk[..], r, ws, nr) {
      if p <= r <= q { assert SameKey(rk[..], r, ws, r); }
    }
  }

  lemma SameKeyItself(ws: seq<bv32>, r: nat)
    requires 4 * r + 4 <= |ws|
    ensures SameKey(ws, r, ws, r)
  {
  }

  lemma SameKeyTransitive(us: seq<bv32>, r: nat, vs: seq<bv32>, t: nat, ws: seq<bv32>, u: nat)
    requires SameKey(us, r, vs, t) && SameKey(vs, t, ws, u)
    ensures SameKey(us, r, ws, u)
  {
  }

  /** One word through Te4 and the Td tables. */
  function UnmixWord(w: bv32): bv32 {
    FourWords(Td0(Byte3(Te4(Byte0(w)))), Td1(Byte3(Te4(Byte1(w)))),
              Td2(Byte3(Te4(Byte2(w)))), Td3(Byte3(Te4(Byte3(w)))))
  }

  lemma UnmixWords(w0: bv32, w1: bv32, w2: bv32, w3: bv32)
    ensures Columns(UnmixWord(w0), UnmixWord(w1), UnmixWord(w2), UnmixWord(w3)) == InvMixColumns(Columns(w0, w1, w2, w3))
  {
    hide Unmix, Pack, Unpack, UnmixWord;
    UnmixWordIsUnmix(w0);
    UnmixWordIsUnmix(w1);
    UnmixWordIsUnmix(w2);
    UnmixWordIsUnmix(w3);
  }

  lemma UnmixWordIsUnmix(w: bv32)
    ensures Unpack(UnmixWord(w)) == Unmix(Unpack(w))
  {
    hide Unmix, Pack, Unpack, Te4, Td0, Td1, Td2, Td3, Byte0, Byte1, Byte2, Byte3, FourWords;
    KeyColumn(w);
    PackUnpack(0, Unmix(Unpack(w)));
  }

  /** Applies InvMixColumns to one round key. */
  method UnmixKey(rk: array<bv32>, b: nat, ghost r: nat)
    requires b == 4 * r && b + 4 <= rk.Length
    modifies rk
    ensures KeyAt(rk[..], r) == InvMixColumns(KeyAt(old(rk[..]), r))
    ensures forall x :: 0 <= x < rk.Length && !(b <= x < b + 4) ==> rk[x] == old(rk[x])
  {
    hide UnmixWord, Columns, InvMixColumns;
    UnmixWords(rk[b], rk[b + 1], rk[b + 2], rk[b + 3]);
    rk[b] := UnmixWord(rk[b]);
    rk[b + 1] := UnmixWord(rk[b + 1]);
    rk[b + 2] := UnmixWord(rk[b + 2]);
    rk[b + 3] := UnmixWord(rk[b + 3]);
  }

  /** Applies InvMixColumns to all round keys but the first and the last. */
  method UnmixKeys(rk: array<bv32>, nr: nat)
    requires rk.Length >= 4 * (nr + 1)
    modifies rk
    ensures forall r: nat :: r <= nr ==>
      KeyAt(rk[..], r) == if 0 < r < nr then InvMixColumns(KeyAt(old(rk[..]), r)) else KeyAt(old(rk[..]), r)
    ensures Kept(rk[..], old(rk[..]), 4 * (nr + 1))
  {
    hide Columns, InvMixColumns;
    ghost var ws := rk[..];
    var i: nat, b: nat := 1, 0;
    while i < nr
      invariant 1 <= i <= (if nr == 0 then 1 else nr) && b == 4 * (i - 1)
      invariant forall r: nat :: r <= nr ==>
        KeyAt(rk[..], r) == if 0 < r < i then InvMixColumns(KeyAt(ws, r)) else KeyAt(ws, r)
      invariant forall x :: 4 * i <= x < |ws| ==> rk[x] == ws[x]
    {
      b := b + 4;
      ghost var vs := rk[..];
      UnmixKey(rk, b, i);
      forall r: nat | r <= nr && r != i ensures KeyAt(rk[..], r) == KeyAt(vs, r) {
      }
      i := i + 1;
    }
  }

  /** The decryption schedule is the one the equivalent inverse cipher asks for. */
  method KeySetupDec(rk: array<bv32>, cipherKey: seq<bv8>, keyBits: int) returns (nr: nat)
    requires |cipherKey| >= 4 * WordsFor(keyBits) && rk.Length >= Filling(keyBits)
    modifies rk
    ensures nr == RoundsFor(keyBits)
    ensures nr > 0 ==> Keys(rk[..], nr + 1) == EqKeys(RoundKeys(KeyWords(cipherKey, WordsFor(keyBits)), nr + 1))
    ensures Kept(rk[..], old(rk[..]), Filling(keyBits))
  {
    hide Columns, InvMixColumns, Expanded, Filled, KeyAt, SameKey, Mirrored;
    ghost var key := KeyWords(cipherKey, WordsFor(keyBits));
    nr := KeySetupEnc(rk, cipherKey, keyBits);
    ghost var ws := rk[..];
    if nr > 0 { FilledKeys(ws, key, nr + 1); }
    ReverseKeys(rk, nr);
    ghost var vs := rk[..];
    UnmixKeys(rk, nr);
    if nr > 0 {
      DecryptionKeys(rk[..], vs, ws, key, nr);
    }
  }

  /** Reversed and unmixed round keys are the keys of the equivalent inverse cipher. */
  lemma DecryptionKeys(us: seq<bv32>, vs: seq<bv32>, ws: seq<bv32>, key: seq<bv32>, nr: nat)
    requires key != [] && |us| == |vs| == |ws| && 4 * (nr + 1) <= |ws| && Keys(ws, nr + 1) == RoundKeys(key, nr + 1)
    requires forall r: nat :: r <= nr ==> Mirrored(vs, r, ws, nr)
    requires forall r: nat :: r <= nr ==> KeyAt(us, r) == if 0 < r < nr then InvMixColumns(KeyAt(vs, r)) else KeyAt(vs, r)
    ensures Keys(us, nr + 1) == EqKeys(RoundKeys(key, nr + 1))
  {
    hide Columns, KeyAt, SameKey, InvMixColumns, Expanded, RoundKey;
    var keys := RoundKeys(key, nr + 1);
    forall r: nat | r <= nr ensures Keys(us, nr + 1)[r] == EqKeys(keys)[r] {
      assert Mirrored(vs, r, ws, nr);
      SameKeyAt(vs, r, ws, nr - r);
      assert Keys(ws, nr + 1)[nr - r] == keys[nr - r];
    }
  }

  lemma SameKeyAt(ws: seq<bv32>, r: nat, vs: seq<bv32>, t: nat)
    requires SameKey(ws, r, vs, t)
    ensures KeyAt(ws, r) == KeyAt(vs, t)
  {
    hide Columns;
  }

  // ----- the round trip -----

  /** Sets both schedules up, encrypts a block, decrypts the result: the block comes back. */
  method ThereAndBack(cipherKey: seq<bv8>, keyBits: int, block: array<bv8>) returns (back: array<bv8>)
    requires keyBits == 128 || keyBits == 192 || keyBits == 256
    requires |cipherKey| >= 4 * WordsFor(keyBits) && block.Length == 16
    ensures fresh(back) && back[..] == block[..]
  {
    hide Block, Bytes, Cipher, EqInvCipher, EqKeys, RoundKeys, KeyWords, Keys, Filled;
    var rke, rkd := new bv32[60], new bv32[60];
    var ct := new bv8[16];
    back := new bv8[16];
    var nr := KeySetupEnc(rke, cipherKey, keyBits);
    FilledKeys(rke[..], KeyWords(cipherKey, WordsFor(keyBits)), nr + 1);
    Encrypt(rke, nr, block, ct);
    nr := KeySetupDec(rkd, cipherKey, keyBits);
    Decrypt(rkd, nr, ct, back);
    RoundTrip(cipherKey, keyBits, block[..]);
  }

  /** What the two schedules and the two ciphers compute, composed: the block comes back, for every key. */
  lemma RoundTrip(cipherKey: seq<bv8>, keyBits: int, block: seq<bv8>)
    requires keyBits == 128 || keyBits == 192 || keyBits == 256
    requires |cipherKey| >= 4 * WordsFor(keyBits) && |block| == 16
    ensures var keys := RoundKeys(KeyWords(cipherKey, WordsFor(keyBits)), RoundsFor(keyBits) + 1);
            Bytes(EqInvCipher(EqKeys(keys), Block(Bytes(Cipher(keys, Block(block)))))) == block
  {
    hide Block, Bytes, Cipher, EqInvCipher, EqKeys, RoundKeys, KeyWords;
    var keys := RoundKeys(KeyWords(cipherKey, WordsFor(keyBits)), RoundsFor(keyBits) + 1);
    DecryptUndoesEncrypt(keys, Block(block));
    BytesBlock(block);
  }
}
