/** The table-driven cipher on 32-bit words: key schedules, encryption and decryption. */
module Aes {
  import opened AesTables
  import opened AesModel

  // ----- words, round keys and blocks -----

  function Columns(w0: bv32, w1: bv32, w2: bv32, w3: bv32): State {
    State(Unpack(w0), Unpack(w1), Unpack(w2), Unpack(w3))
  }

  /** Round key r: the four words from position 4r on. */
  function KeyAt(ws: seq<bv32>, r: nat): State
    requires 4 * r + 4 <= |ws|
  {
    Columns(ws[4 * r], ws[4 * r + 1], ws[4 * r + 2], ws[4 * r + 3])
  }

  /** The first n round keys. */
  function Keys(ws: seq<bv32>, n: nat): (keys: seq<State>)
    requires 4 * n <= |ws|
    ensures |keys| == n && forall r :: 0 <= r < n ==> keys[r] == KeyAt(ws, r)
  {
    if n == 0 then [] else Keys(ws, n - 1) + [KeyAt(ws, n - 1)]
  }

  function GetU32(bytes: seq<bv8>, i: nat): bv32
    requires i + 4 <= |bytes|
  {
    Word(bytes[i], bytes[i + 1], bytes[i + 2], bytes[i + 3])
  }

  function ColumnAt(bytes: seq<bv8>, i: nat): Column
    requires i + 4 <= |bytes|
  {
    Column(bytes[i], bytes[i + 1], bytes[i + 2], bytes[i + 3])
  }

  lemma UnpackGet(bytes: seq<bv8>, i: nat)
    requires i + 4 <= |bytes|
    ensures Unpack(GetU32(bytes, i)) == ColumnAt(bytes, i)
  {
    hide Word, Unpack;
    PackUnpack(0, ColumnAt(bytes, i));
  }

  /** The state of a block of 16 bytes, column by column. */
  function Block(bytes: seq<bv8>): State
    requires |bytes| == 16
  {
    State(ColumnAt(bytes, 0), ColumnAt(bytes, 4), ColumnAt(bytes, 8), ColumnAt(bytes, 12))
  }

  function ColumnBytes(c: Column): seq<bv8> { [c.a, c.b, c.c, c.d] }

  function Bytes(s: State): (r: seq<bv8>)
    ensures |r| == 16 && Block(r) == s
  {
    ColumnBytes(s.c0) + ColumnBytes(s.c1) + ColumnBytes(s.c2) + ColumnBytes(s.c3)
  }

  lemma BytesBlock(bytes: seq<bv8>)
    requires |bytes| == 16
    ensures Bytes(Block(bytes)) == bytes
  {
  }

  // ----- one round -----

  function EncWord(w: bv32, x: bv32, y: bv32, z: bv32, k: bv32): bv32 {
    SumWords(Te0(Byte0(w)), Te1(Byte1(x)), Te2(Byte2(y)), Te3(Byte3(z)), k)
  }

  function DecWord(w: bv32, x: bv32, y: bv32, z: bv32, k: bv32): bv32 {
    SumWords(Td0(Byte0(w)), Td1(Byte1(x)), Td2(Byte2(y)), Td3(Byte3(z)), k)
  }

  function LastEncWord(w: bv32, x: bv32, y: bv32, z: bv32, k: bv32): bv32 {
    SumWords(Mask(Te4(Byte0(w)), 0xff000000), Mask(Te4(Byte1(x)), 0x00ff0000),
             Mask(Te4(Byte2(y)), 0x0000ff00), Mask(Te4(Byte3(z)), 0x000000ff), k)
  }

  function LastDecWord(w: bv32, x: bv32, y: bv32, z: bv32, k: bv32): bv32 {
    SumWords(Mask(Td4(Byte0(w)), 0xff000000), Mask(Td4(Byte1(x)), 0x00ff0000),
             Mask(Td4(Byte2(y)), 0x0000ff00), Mask(Td4(Byte3(z)), 0x000000ff), k)
  }

  lemma Words(w: bv32, x: bv32, y: bv32, z: bv32, k: bv32)
    ensures var c := Column(Byte0(w), Byte1(x), Byte2(y), Byte3(z));
            && Unpack(EncWord(w, x, y, z, k)) == Add(Mix(SubColumn(c)), Unpack(k))
            && Unpack(DecWord(w, x, y, z, k)) == Add(Unmix(UnsubColumn(c)), Unpack(k))
            && Unpack(LastEncWord(w, x, y, z, k)) == Add(SubColumn(c), Unpack(k))
            && Unpack(LastDecWord(w, x, y, z, k)) == Add(UnsubColumn(c), Unpack(k))
  {
    hide S, Si, Te0, Te1, Te2, Te3, Td0, Td1, Td2, Td3, Mix, Unmix, Add, Unpack, SumWords, Mask, Word;
    hide Byte0, Byte1, Byte2, Byte3;
    EncryptColumn(Byte0(w), Byte1(x), Byte2(y), Byte3(z), k);
    DecryptColumn(Byte0(w), Byte1(x), Byte2(y), Byte3(z), k);
    MaskedColumn(S(Byte0(w)), S(Byte1(x)), S(Byte2(y)), S(Byte3(z)), k);
    MaskedColumn(Si(Byte0(w)), Si(Byte1(x)), Si(Byte2(y)), Si(Byte3(z)), k);
  }

  /** Every round of lookups is the round of bytes: substitute, shift rows, mix columns, add the key. */
  lemma EncryptRound(s0: bv32, s1: bv32, s2: bv32, s3: bv32, k0: bv32, k1: bv32, k2: bv32, k3: bv32)
    ensures var s, k := Columns(s0, s1, s2, s3), Columns(k0, k1, k2, k3);
            && Columns(EncWord(s0, s1, s2, s3, k0), EncWord(s1, s2, s3, s0, k1),
                       EncWord(s2, s3, s0, s1, k2), EncWord(s3, s0, s1, s2, k3))
               == AddRoundKey(MixColumns(ShiftRows(SubBytes(s))), k)
            && Columns(LastEncWord(s0, s1, s2, s3, k0), LastEncWord(s1, s2, s3, s0, k1),
                       LastEncWord(s2, s3, s0, s1, k2), LastEncWord(s3, s0, s1, s2, k3))
               == AddRoundKey(ShiftRows(SubBytes(s)), k)
  {
    hide S, EncWord, LastEncWord, Mix, Add, Byte0, Byte1, Byte2, Byte3;
    Words(s0, s1, s2, s3, k0);
    Words(s1, s2, s3, s0, k1);
    Words(s2, s3, s0, s1, k2);
    Words(s3, s0, s1, s2, k3);
  }

  lemma DecryptRound(s0: bv32, s1: bv32, s2: bv32, s3: bv32, k0: bv32, k1: bv32, k2: bv32, k3: bv32)
    ensures var s, k := Columns(s0, s1, s2, s3), Columns(k0, k1, k2, k3);
            && Columns(DecWord(s0, s3, s2, s1, k0), DecWord(s1, s0, s3, s2, k1),
                       DecWord(s2, s1, s0, s3, k2), DecWord(s3, s2, s1, s0, k3))
               == AddRoundKey(InvMixColumns(InvShiftRows(InvSubBytes(s))), k)
            && Columns(LastDecWord(s0, s3, s2, s1, k0), LastDecWord(s1, s0, s3, s2, k1),
                       LastDecWord(s2, s1, s0, s3, k2), LastDecWord(s3, s2, s1, s0, k3))
               == AddRoundKey(InvShiftRows(InvSubBytes(s)), k)
  {
    hide Si, DecWord, LastDecWord, Unmix, Add, Byte0, Byte1, Byte2, Byte3;
    Words(s0, s3, s2, s1, k0);
    Words(s1, s0, s3, s2, k1);
    Words(s2, s1, s0, s3, k2);
    Words(s3, s2, s1, s0, k3);
  }

  lemma FirstKey(p0: bv32, p1: bv32, p2: bv32, p3: bv32, k0: bv32, k1: bv32, k2: bv32, k3: bv32)
    ensures Columns(XorWord(p0, k0), XorWord(p1, k1), XorWord(p2, k2), XorWord(p3, k3))
         == AddRoundKey(Columns(p0, p1, p2, p3), Columns(k0, k1, k2, k3))
  {
    hide XorWord, Unpack, Add;
    UnpackAdd(p0, k0);
    UnpackAdd(p1, k1);
    UnpackAdd(p2, k2);
    UnpackAdd(p3, k3);
  }

  // ----- encryption and decryption -----

  /** Stores the four bytes of a word. */
  method PutU32(bytes: array<bv8>, i: nat, w: bv32)
    requires i + 4 <= bytes.Length
    modifies bytes
    ensures bytes[..] == old(bytes[..i]) + ColumnBytes(Unpack(w)) + old(bytes[i + 4..])
  {
    hide Byte0, Byte1, Byte2, Byte3;
    bytes[i] := Byte0(w);
    bytes[i + 1] := Byte1(w);
    bytes[i + 2] := Byte2(w);
    bytes[i + 3] := Byte3(w);
  }

  method PutBlock(bytes: array<bv8>, s0: bv32, s1: bv32, s2: bv32, s3: bv32)
    requires bytes.Length == 16
    modifies bytes
    ensures bytes[..] == Bytes(Columns(s0, s1, s2, s3))
  {
    hide Unpack;
    PutU32(bytes, 0, s0);
    PutU32(bytes, 4, s1);
    PutU32(bytes, 8, s2);
    PutU32(bytes, 12, s3);
  }

  lemma GetBlock(bytes: seq<bv8>)
    requires |bytes| == 16
    ensures Columns(GetU32(bytes, 0), GetU32(bytes, 4), GetU32(bytes, 8), GetU32(bytes, 12)) == Block(bytes)
  {
    hide GetU32, Unpack, ColumnAt;
    UnpackGet(bytes, 0);
    UnpackGet(bytes, 4);
    UnpackGet(bytes, 8);
    UnpackGet(bytes, 12);
  }

  /** The output buffer may be the input buffer. */
  method Encrypt(rk: array<bv32>, nr: nat, pt: array<bv8>, ct: array<bv8>)
    requires nr >= 2 && nr % 2 == 0 && rk.Length >= 4 * (nr + 1) && pt.Length == ct.Length == 16
    modifies ct
    ensures ct[..] == Bytes(Cipher(Keys(rk[..], nr + 1), Block(old(pt[..]))))
  {
    hide Columns, Cipher, XorWord, AddRoundKey, Bytes, Block, GetU32;
    GetBlock(pt[..]);
    FirstKey(GetU32(pt[..], 0), GetU32(pt[..], 4), GetU32(pt[..], 8), GetU32(pt[..], 12), rk[0], rk[1], rk[2], rk[3]);
    var s0, s1 := XorWord(GetU32(pt[..], 0), rk[0]), XorWord(GetU32(pt[..], 4), rk[1]);
    var s2, s3 := XorWord(GetU32(pt[..], 8), rk[2]), XorWord(GetU32(pt[..], 12), rk[3]);
    s0, s1, s2, s3 := EncryptRounds(rk, nr, s0, s1, s2, s3, Block(pt[..]));
    PutBlock(ct, s0, s1, s2, s3);
  }

  /** Two rounds a turn. */
  method EncryptRounds(rk: array<bv32>, nr: nat, w0: bv32, w1: bv32, w2: bv32, w3: bv32, ghost block: State)
      returns (s0: bv32, s1: bv32, s2: bv32, s3: bv32)
    requires nr >= 2 && nr % 2 == 0 && rk.Length >= 4 * (nr + 1)
    requires Columns(w0, w1, w2, w3) == AddRoundKey(block, Columns(rk[0], rk[1], rk[2], rk[3]))
    ensures Columns(s0, s1, s2, s3) == Cipher(Keys(rk[..], nr + 1), block)
  {
    hide Columns, EncWord, LastEncWord, AddRoundKey, MixColumns, ShiftRows, SubBytes;
    ghost var keys := Keys(rk[..], nr + 1);
    assert keys[0] == KeyAt(rk[..], 0);
    s0, s1, s2, s3 := w0, w1, w2, w3;
    var t0, t1, t2, t3;
    var b, r: nat := 0, nr / 2;
    ghost var k := 0;
    while true
      invariant 0 < r && 2 * r + k == nr && b == 4 * k && k % 2 == 0
      invariant Columns(s0, s1, s2, s3) == Rounds(keys, block, k)
      decreases r
    {
      assert keys[k + 1] == KeyAt(rk[..], k + 1) && keys[k + 2] == KeyAt(rk[..], k + 2);
      EncryptRound(s0, s1, s2, s3, rk[b + 4], rk[b + 5], rk[b + 6], rk[b + 7]);
      t0 := EncWord(s0, s1, s2, s3, rk[b + 4]);
      t1 := EncWord(s1, s2, s3, s0, rk[b + 5]);
      t2 := EncWord(s2, s3, s0, s1, rk[b + 6]);
      t3 := EncWord(s3, s0, s1, s2, rk[b + 7]);
      b := b + 8;
      r := r - 1;
      if r == 0 { break; }
      EncryptRound(t0, t1, t2, t3, rk[b], rk[b + 1], rk[b + 2], rk[b + 3]);
      s0 := EncWord(t0, t1, t2, t3, rk[b]);
      s1 := EncWord(t1, t2, t3, t0, rk[b + 1]);
      s2 := EncWord(t2, t3, t0, t1, rk[b + 2]);
      s3 := EncWord(t3, t0, t1, t2, rk[b + 3]);
      k := k + 2;
    }
    EncryptRound(t0, t1, t2, t3, rk[b], rk[b + 1], rk[b + 2], rk[b + 3]);
    s0 := LastEncWord(t0, t1, t2, t3, rk[b]);
    s1 := LastEncWord(t1, t2, t3, t0, rk[b + 1]);
    s2 := LastEncWord(t2, t3, t0, t1, rk[b + 2]);
    s3 := LastEncWord(t3, t0, t1, t2, rk[b + 3]);
  }

  method Decrypt(rk: array<bv32>, nr: nat, ct: array<bv8>, pt: array<bv8>)
    requires nr >= 2 && nr % 2 == 0 && rk.Length >= 4 * (nr + 1) && pt.Length == ct.Length == 16
    modifies pt
    ensures pt[..] == Bytes(EqInvCipher(Keys(rk[..], nr + 1), Block(old(ct[..]))))
  {
    hide Columns, EqInvCipher, XorWord, AddRoundKey, Bytes, Block, GetU32;
    GetBlock(ct[..]);
    FirstKey(GetU32(ct[..], 0), GetU32(ct[..], 4), GetU32(ct[..], 8), GetU32(ct[..], 12), rk[0], rk[1], rk[2], rk[3]);
    var s0, s1 := XorWord(GetU32(ct[..], 0), rk[0]), XorWord(GetU32(ct[..], 4), rk[1]);
    var s2, s3 := XorWord(GetU32(ct[..], 8), rk[2]), XorWord(GetU32(ct[..], 12), rk[3]);
    s0, s1, s2, s3 := DecryptRounds(rk, nr, s0, s1, s2, s3, Block(ct[..]));
    PutBlock(pt, s0, s1, s2, s3);
  }

  method DecryptRounds(rk: array<bv32>, nr: nat, w0: bv32, w1: bv32, w2: bv32, w3: bv32, ghost block: State)
      returns (s0: bv32, s1: bv32, s2: bv32, s3: bv32)
    requires nr >= 2 && nr % 2 == 0 && rk.Length >= 4 * (nr + 1)
    requires Columns(w0, w1, w2, w3) == AddRoundKey(block, Columns(rk[0], rk[1], rk[2], rk[3]))
    ensures Columns(s0, s1, s2, s3) == EqInvCipher(Keys(rk[..], nr + 1), block)
  {
    hide Columns, DecWord, LastDecWord, AddRoundKey, InvMixColumns, InvShiftRows, InvSubBytes;
    ghost var keys := Keys(rk[..], nr + 1);
    assert keys[0] == KeyAt(rk[..], 0);
    s0, s1, s2, s3 := w0, w1, w2, w3;
    var t0, t1, t2, t3;
    var b, r: nat := 0, nr / 2;
    ghost var k := 0;
    while true
      invariant 0 < r && 2 * r + k == nr && b == 4 * k && k % 2 == 0
      invariant Columns(s0, s1, s2, s3) == EqRounds(keys, block, k)
      decreases r
    {
      assert keys[k + 1] == KeyAt(rk[..], k + 1) && keys[k + 2] == KeyAt(rk[..], k + 2);
      DecryptRound(s0, s1, s2, s3, rk[b + 4], rk[b + 5], rk[b + 6], rk[b + 7]);
      t0 := DecWord(s0, s3, s2, s1, rk[b + 4]);
      t1 := DecWord(s1, s0, s3, s2, rk[b + 5]);
      t2 := DecWord(s2, s1, s0, s3, rk[b + 6]);
      t3 := DecWord(s3, s2, s1, s0, rk[b + 7]);
      b := b + 8;
      r := r - 1;
      if r == 0 { break; }
      DecryptRound(t0, t1, t2, t3, rk[b], rk[b + 1], rk[b + 2], rk[b + 3]);
      s0 := DecWord(t0, t3, t2, t1, rk[b]);
      s1 := DecWord(t1, t0, t3, t2, rk[b + 1]);
      s2 := DecWord(t2, t1, t0, t3, rk[b + 2]);
      s3 := DecWord(t3, t2, t1, t0, rk[b + 3]);
      k := k + 2;
    }
    DecryptRound(t0, t1, t2, t3, rk[b], rk[b + 1], rk[b + 2], rk[b + 3]);
    s0 := LastDecWord(t0, t3, t2, t1, rk[b]);
    s1 := LastDecWord(t1, t0, t3, t2, rk[b + 1]);
    s2 := LastDecWord(t2, t1, t0, t3, rk[b + 2]);
    s3 := LastDecWord(t3, t2, t1, t0, rk[b + 3]);
  }
}
