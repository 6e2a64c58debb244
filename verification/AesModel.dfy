/** The cipher as sections 5.1, 5.2 and 5.3 of FIPS 197 describe it, on a state of four columns. */
module AesModel {
  import opened AesTables

  datatype State = State(c0: Column, c1: Column, c2: Column, c3: Column)

  function SubColumn(c: Column): Column { Column(S(c.a), S(c.b), S(c.c), S(c.d)) }

  function UnsubColumn(c: Column): Column { Column(Si(c.a), Si(c.b), Si(c.c), Si(c.d)) }

  function SubBytes(s: State): State {
    State(SubColumn(s.c0), SubColumn(s.c1), SubColumn(s.c2), SubColumn(s.c3))
  }

  function InvSubBytes(s: State): State {
    State(UnsubColumn(s.c0), UnsubColumn(s.c1), UnsubColumn(s.c2), UnsubColumn(s.c3))
  }

  /** Row r moves left by r columns. */
  function ShiftRows(s: State): State {
    State(Column(s.c0.a, s.c1.b, s.c2.c, s.c3.d), Column(s.c1.a, s.c2.b, s.c3.c, s.c0.d),
          Column(s.c2.a, s.c3.b, s.c0.c, s.c1.d), Column(s.c3.a, s.c0.b, s.c1.c, s.c2.d))
  }

  /** Row r moves right by r columns. */
  function InvShiftRows(s: State): State {
    State(Column(s.c0.a, s.c3.b, s.c2.c, s.c1.d), Column(s.c1.a, s.c0.b, s.c3.c, s.c2.d),
          Column(s.c2.a, s.c1.b, s.c0.c, s.c3.d), Column(s.c3.a, s.c2.b, s.c1.c, s.c0.d))
  }

  function MixColumns(s: State): State { State(Mix(s.c0), Mix(s.c1), Mix(s.c2), Mix(s.c3)) }

  function InvMixColumns(s: State): State { State(Unmix(s.c0), Unmix(s.c1), Unmix(s.c2), Unmix(s.c3)) }

  function AddRoundKey(s: State, k: State): State {
    State(Add(s.c0, k.c0), Add(s.c1, k.c1), Add(s.c2, k.c2), Add(s.c3, k.c3))
  }

  // ----- the cipher and its inverse -----

  /** The state after the first r rounds, the initial key addition counting as none. */
  function Rounds(keys: seq<State>, s: State, r: nat): State
    requires r < |keys|
  {
    if r == 0 then AddRoundKey(s, keys[0])
    else AddRoundKey(MixColumns(ShiftRows(SubBytes(Rounds(keys, s, r - 1)))), keys[r])
  }

  /** Section 5.1: the last round does not mix columns. */
  function Cipher(keys: seq<State>, s: State): State
    requires |keys| >= 2
  {
    AddRoundKey(ShiftRows(SubBytes(Rounds(keys, s, |keys| - 2))), keys[|keys| - 1])
  }

  /** Section 5.3: the state before round r is undone, working back from the last key. */
  function Undone(keys: seq<State>, s: State, r: nat): State
    requires 0 < r < |keys|
    decreases |keys| - r
  {
    if r == |keys| - 1 then AddRoundKey(s, keys[r])
    else InvMixColumns(AddRoundKey(InvSubBytes(InvShiftRows(Undone(keys, s, r + 1))), keys[r]))
  }

  function InvCipher(keys: seq<State>, s: State): State
    requires |keys| >= 2
  {
    AddRoundKey(InvSubBytes(InvShiftRows(Undone(keys, s, 1))), keys[0])
  }

  /** Section 5.3.5: the rounds of the equivalent inverse cipher, in the shape of the encryption rounds. */
  function EqRounds(keys: seq<State>, s: State, r: nat): State
    requires r < |keys|
  {
    if r == 0 then AddRoundKey(s, keys[0])
    else AddRoundKey(InvMixColumns(InvShiftRows(InvSubBytes(EqRounds(keys, s, r - 1)))), keys[r])
  }

  function EqInvCipher(keys: seq<State>, s: State): State
    requires |keys| >= 2
  {
    AddRoundKey(InvShiftRows(InvSubBytes(EqRounds(keys, s, |keys| - 2))), keys[|keys| - 1])
  }

  /** The decryption schedule: reversed, with InvMixColumns applied to all but the first and the last. */
  function EqKeys(keys: seq<State>): (r: seq<State>)
    ensures |r| == |keys|
  {
    seq(|keys|, i requires 0 <= i < |keys| =>
      var k := keys[|keys| - 1 - i];
      if i == 0 || i == |keys| - 1 then k else InvMixColumns(k))
  }

  // ----- each step has its inverse -----

  lemma SubColumnInverse(c: Column)
    ensures UnsubColumn(SubColumn(c)) == c
  {
    hide S, Si;
    SBoxesInverse(c.a);
    SBoxesInverse(c.b);
    SBoxesInverse(c.c);
    SBoxesInverse(c.d);
  }

  lemma SubBytesInverse(s: State)
    ensures InvSubBytes(SubBytes(s)) == s && InvShiftRows(ShiftRows(s)) == s
  {
    hide SubColumn, UnsubColumn;
    SubColumnInverse(s.c0);
    SubColumnInverse(s.c1);
    SubColumnInverse(s.c2);
    SubColumnInverse(s.c3);
  }

  lemma MixColumnsInverse(s: State)
    ensures InvMixColumns(MixColumns(s)) == s
  {
    hide Mix, Unmix;
    UnmixMix(s.c0);
    UnmixMix(s.c1);
    UnmixMix(s.c2);
    UnmixMix(s.c3);
  }

  lemma AddTwice(x: Column, y: Column)
    ensures Add(Add(x, y), y) == x
  {
    hide Xor;
    XorLaws(x.a, y.a, 0);
    XorLaws(x.b, y.b, 0);
    XorLaws(x.c, y.c, 0);
    XorLaws(x.d, y.d, 0);
  }

  lemma AddRoundKeyInverse(s: State, k: State)
    ensures AddRoundKey(AddRoundKey(s, k), k) == s
  {
    hide Add;
    AddTwice(s.c0, k.c0);
    AddTwice(s.c1, k.c1);
    AddTwice(s.c2, k.c2);
    AddTwice(s.c3, k.c3);
  }

  lemma InvMixColumnsLinear(s: State, k: State)
    ensures InvMixColumns(AddRoundKey(s, k)) == AddRoundKey(InvMixColumns(s), InvMixColumns(k))
  {
    hide Add, Unmix;
    UnmixAdd(s.c0, k.c0);
    UnmixAdd(s.c1, k.c1);
    UnmixAdd(s.c2, k.c2);
    UnmixAdd(s.c3, k.c3);
  }

  /** Substituting bytes and shifting rows commute. */
  lemma InvShiftSub(s: State)
    ensures InvShiftRows(InvSubBytes(s)) == InvSubBytes(InvShiftRows(s))
  {
    hide Si;
  }

  // ----- the inverse cipher undoes the cipher -----

  /** Undoing rounds from the last key meets the rounds on their way up. */
  lemma {:induction false} UndoneIsRounds(keys: seq<State>, s: State, r: nat)
    requires 0 < r < |keys|
    ensures Undone(keys, Cipher(keys, s), r) == ShiftRows(SubBytes(Rounds(keys, s, r - 1)))
    decreases |keys| - r
  {
    hide SubBytes, InvSubBytes, ShiftRows, InvShiftRows, MixColumns, InvMixColumns, AddRoundKey;
    if r == |keys| - 1 {
      AddRoundKeyInverse(ShiftRows(SubBytes(Rounds(keys, s, r - 1))), keys[r]);
    } else {
      UndoneIsRounds(keys, s, r + 1);
      UndoSubShift(Rounds(keys, s, r));
      var before := ShiftRows(SubBytes(Rounds(keys, s, r - 1)));
      AddRoundKeyInverse(MixColumns(before), keys[r]);
      MixColumnsInverse(before);
    }
  }

  lemma UndoSubShift(s: State)
    ensures InvSubBytes(InvShiftRows(ShiftRows(SubBytes(s)))) == s
  {
    hide SubBytes, InvSubBytes, ShiftRows, InvShiftRows;
    SubBytesInverse(s);
    SubBytesInverse(SubBytes(s));
  }

  /** Section 5.3's inverse cipher undoes the cipher under any round keys. */
  lemma InvCipherUndoes(keys: seq<State>, s: State)
    requires |keys| >= 2
    ensures InvCipher(keys, Cipher(keys, s)) == s
  {
    hide SubBytes, InvSubBytes, ShiftRows, InvShiftRows, MixColumns, InvMixColumns, AddRoundKey;
    UndoneIsRounds(keys, s, 1);
    UndoSubShift(Rounds(keys, s, 0));
    AddRoundKeyInverse(s, keys[0]);
  }

  // ----- the equivalent inverse cipher -----

  lemma {:induction false} EqRoundsIsUndone(keys: seq<State>, s: State, r: nat)
    requires r < |keys| - 1
    ensures EqRounds(EqKeys(keys), s, r) == Undone(keys, s, |keys| - 1 - r)
  {
    hide SubBytes, InvSubBytes, ShiftRows, InvShiftRows, MixColumns, InvMixColumns, AddRoundKey;
    if r > 0 {
      EqRoundsIsUndone(keys, s, r - 1);
      var before := Undone(keys, s, |keys| - r);
      InvShiftSub(before);
      InvMixColumnsLinear(InvSubBytes(InvShiftRows(before)), keys[|keys| - 1 - r]);
    }
  }

  /** Section 5.3.5: under the decryption schedule it is the inverse cipher. */
  lemma EqInvCipherIsInvCipher(keys: seq<State>, s: State)
    requires |keys| >= 2
    ensures EqInvCipher(EqKeys(keys), s) == InvCipher(keys, s)
  {
    hide SubBytes, InvSubBytes, ShiftRows, InvShiftRows, MixColumns, InvMixColumns, AddRoundKey;
    EqRoundsIsUndone(keys, s, |keys| - 2);
    InvShiftSub(Undone(keys, s, 1));
  }

  /** Decrypting under the decryption schedule undoes encrypting, for every schedule and block. */
  lemma DecryptUndoesEncrypt(keys: seq<State>, s: State)
    requires |keys| >= 2
    ensures EqInvCipher(EqKeys(keys), Cipher(keys, s)) == s
  {
    hide EqInvCipher, Cipher, InvCipher, EqKeys;
    EqInvCipherIsInvCipher(keys, Cipher(keys, s));
    InvCipherUndoes(keys, s);
  }
}
