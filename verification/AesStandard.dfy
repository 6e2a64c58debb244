/** The cipher's parts against FIPS 197: the field, the S-boxes, the round steps on bytes, and its Appendix B. */
module AesStandard {
  import opened AesTables
  import opened AesModel
  import opened Aes
  import opened AesKeys

  // ----- the field and the S-boxes -----

  /** The product in the field of section 4.2: x times the powers of {02} that make up y. */
  function GfTimes(x: bv8, y: bv8): bv8 {
    var x1 := Double(x);
    var x2 := Double(x1);
    var x3 := Double(x2);
    var x4 := Double(x3);
    var x5 := Double(x4);
    var x6 := Double(x5);
    var x7 := Double(x6);
    (if y & 0x01 != 0 then x else 0) ^ (if y & 0x02 != 0 then x1 else 0)
    ^ (if y & 0x04 != 0 then x2 else 0) ^ (if y & 0x08 != 0 then x3 else 0)
    ^ (if y & 0x10 != 0 then x4 else 0) ^ (if y & 0x20 != 0 then x5 else 0)
    ^ (if y & 0x40 != 0 then x6 else 0) ^ (if y & 0x80 != 0 then x7 else 0)
  }

  /** Doubling is a shift, reduced by the field's polynomial when a bit leaves the byte. */
  lemma DoubleMeans(x: bv8)
    ensures Double(x) == if x < 0x80 then x << 1 else (x << 1) ^ 0x1b
  {
  }

  function RotateLeft(x: bv8, n: bv4): bv8
    requires n <= 8
  {
    (x << n) | (x >> (8 - n))
  }

  /** The affine transformation of section 5.1.1. */
  function Affine(x: bv8): bv8 {
    x ^ RotateLeft(x, 1) ^ RotateLeft(x, 2) ^ RotateLeft(x, 3) ^ RotateLeft(x, 4) ^ 0x63
  }

  /** The S-box is the inverse in the field, 0 for 0, behind the affine transformation. */
  lemma SBoxMeans(x: bv8) returns (y: bv8)
    ensures if x == 0 then y == 0 else GfTimes(x, y) == 1
    ensures S(x) == Affine(y) && Si(Affine(y)) == x
  {
    y := RotateLeft(S(x), 1) ^ RotateLeft(S(x), 3) ^ RotateLeft(S(x), 6) ^ 0x05;
    AffineUndone(S(x));
    InverseOf(x);
    SBoxesInverse(x);
  }

  lemma AffineUndone(z: bv8)
    ensures Affine(RotateLeft(z, 1) ^ RotateLeft(z, 3) ^ RotateLeft(z, 6) ^ 0x05) == z
  {
  }

  lemma InverseOf(x: bv8)
    ensures var y := RotateLeft(S(x), 1) ^ RotateLeft(S(x), 3) ^ RotateLeft(S(x), 6) ^ 0x05;
            if x == 0 then y == 0 else GfTimes(x, y) == 1
  {
  }

  // ----- the round steps on the sixteen bytes -----

  function ColumnOf(s: State, c: nat): Column
    requires c < 4
  {
    if c == 0 then s.c0 else if c == 1 then s.c1 else if c == 2 then s.c2 else s.c3
  }

  /** Bytes 4c to 4c + 3 are column c. */
  lemma BytesAt(s: State, c: nat)
    requires c < 4
    ensures ColumnAt(Bytes(s), 4 * c) == ColumnOf(s, c)
  {
    var b := Bytes(s);
    assert Block(b) == s;
    hide Bytes;
    if c == 0 {
    } else if c == 1 {
    } else if c == 2 {
    } else {
    }
  }

  lemma BlockAt(b: seq<bv8>, c: nat)
    requires |b| == 16 && c < 4
    ensures ColumnOf(Block(b), c) == ColumnAt(b, 4 * c)
  {
    if c == 0 {
    } else if c == 1 {
    } else if c == 2 {
    } else {
    }
  }

  /** SubBytes substitutes every byte. */
  lemma SubBytesMeans(b: seq<bv8>, c: nat)
    requires |b| == 16 && c < 4
    ensures var out := Bytes(SubBytes(Block(b)));
            && out[4 * c] == S(b[4 * c]) && out[4 * c + 1] == S(b[4 * c + 1])
            && out[4 * c + 2] == S(b[4 * c + 2]) && out[4 * c + 3] == S(b[4 * c + 3])
  {
    hide S, Bytes, Block;
    BlockAt(b, c);
    BytesAt(SubBytes(Block(b)), c);
  }

  /** ShiftRows moves row r, the bytes r, r + 4, r + 8 and r + 12, r columns to the left. */
  lemma ShiftRowsMeans(b: seq<bv8>, c: nat)
    requires |b| == 16 && c < 4
    ensures var out := Bytes(ShiftRows(Block(b)));
            && out[4 * c] == b[4 * c] && out[4 * c + 1] == b[4 * ((c + 1) % 4) + 1]
            && out[4 * c + 2] == b[4 * ((c + 2) % 4) + 2] && out[4 * c + 3] == b[4 * ((c + 3) % 4) + 3]
  {
    hide Bytes, Block;
    BlockAt(b, c);
    BlockAt(b, (c + 1) % 4);
    BlockAt(b, (c + 2) % 4);
    BlockAt(b, (c + 3) % 4);
    BytesAt(ShiftRows(Block(b)), c);
    ShiftedColumn(Block(b), c);
    hide ShiftRows, ColumnOf;
  }

  lemma ShiftedColumn(s: State, c: nat)
    requires c < 4
    ensures ColumnOf(ShiftRows(s), c) ==
              Column(ColumnOf(s, c).a, ColumnOf(s, (c + 1) % 4).b, ColumnOf(s, (c + 2) % 4).c, ColumnOf(s, (c + 3) % 4).d)
  {
    if c == 0 {
    } else if c == 1 {
    } else if c == 2 {
    } else {
    }
  }

  /** MixColumns multiplies every column by the matrix of section 5.1.3. */
  lemma MixColumnsMeans(b: seq<bv8>, c: nat)
    requires |b| == 16 && c < 4
    ensures var out, w, x, y, z := Bytes(MixColumns(Block(b))), b[4 * c], b[4 * c + 1], b[4 * c + 2], b[4 * c + 3];
            && out[4 * c] == Sum(GfTimes(w, 2), GfTimes(x, 3), y, z)
            && out[4 * c + 1] == Sum(GfTimes(x, 2), GfTimes(y, 3), z, w)
            && out[4 * c + 2] == Sum(GfTimes(y, 2), GfTimes(z, 3), w, x)
            && out[4 * c + 3] == Sum(GfTimes(z, 2), GfTimes(w, 3), x, y)
  {
    hide Bytes, Block, Mix, GfTimes, Sum;
    MixMeans(b[4 * c], b[4 * c + 1], b[4 * c + 2], b[4 * c + 3]);
    BlockAt(b, c);
    BytesAt(MixColumns(Block(b)), c);
  }

  lemma MixMeans(w: bv8, x: bv8, y: bv8, z: bv8)
    ensures Mix(Column(w, x, y, z)) ==
              Column(Sum(GfTimes(w, 2), GfTimes(x, 3), y, z), Sum(GfTimes(x, 2), GfTimes(y, 3), z, w),
                     Sum(GfTimes(y, 2), GfTimes(z, 3), w, x), Sum(GfTimes(z, 2), GfTimes(w, 3), x, y))
  {
    hide GfTimes, Sum, Double, Times3;
    TwoAndThree(w);
    TwoAndThree(x);
    TwoAndThree(y);
    TwoAndThree(z);
  }

  lemma TwoAndThree(x: bv8)
    ensures GfTimes(x, 2) == Double(x) && GfTimes(x, 3) == Times3(x)
  {
  }

  /** AddRoundKey adds word c of the key to column c, the highest byte first. */
  lemma AddRoundKeyMeans(b: seq<bv8>, ws: seq<bv32>, c: nat)
    requires |b| == 16 && |ws| == 4 && c < 4
    ensures var out := Bytes(AddRoundKey(Block(b), Columns(ws[0], ws[1], ws[2], ws[3])));
            && out[4 * c] == Xor(b[4 * c], (ws[c] >> 24) as bv8)
            && out[4 * c + 1] == Xor(b[4 * c + 1], ((ws[c] >> 16) & 0xff) as bv8)
            && out[4 * c + 2] == Xor(b[4 * c + 2], ((ws[c] >> 8) & 0xff) as bv8)
            && out[4 * c + 3] == Xor(b[4 * c + 3], (ws[c] & 0xff) as bv8)
  {
    hide Bytes, Block, Xor, Byte0, Byte1, Byte2, Byte3;
    BlockAt(b, c);
    BytesAt(AddRoundKey(Block(b), Columns(ws[0], ws[1], ws[2], ws[3])), c);
    AddedColumn(Block(b), ws, c);
    hide AddRoundKey, Columns, ColumnOf;
    WordParts(ws[c]);
  }

  lemma AddedColumn(s: State, ws: seq<bv32>, c: nat)
    requires |ws| == 4 && c < 4
    ensures ColumnOf(AddRoundKey(s, Columns(ws[0], ws[1], ws[2], ws[3])), c) == Add(ColumnOf(s, c), Unpack(ws[c]))
  {
    hide Add, Unpack;
    if c == 0 {
    } else if c == 1 {
    } else if c == 2 {
    } else {
    }
  }

  lemma WordParts(w: bv32)
    ensures Byte0(w) == (w >> 24) as bv8 && Byte1(w) == ((w >> 16) & 0xff) as bv8
    ensures Byte2(w) == ((w >> 8) & 0xff) as bv8 && Byte3(w) == (w & 0xff) as bv8
  {
  }

  // ----- Appendix B -----

  const CIPHER_KEY: seq<bv8> := [0x2b, 0x7e, 0x15, 0x16, 0x28, 0xae, 0xd2, 0xa6, 0xab, 0xf7, 0x15, 0x88, 0x09, 0xcf, 0x4f, 0x3c]
  const INPUT: seq<bv8> := [0x32, 0x43, 0xf6, 0xa8, 0x88, 0x5a, 0x30, 0x8d,
                            0x31, 0x31, 0x98, 0xa2, 0xe0, 0x37, 0x07, 0x34]
  const OUTPUT: seq<bv8> := [0x39, 0x25, 0x84, 0x1d, 0x02, 0xdc, 0x09, 0xfb,
                             0xdc, 0x11, 0x85, 0x97, 0x19, 0x6a, 0x0b, 0x32]

  /** The words of the example's key. */
  function KeyB(): seq<bv32> { [0x2b7e1516, 0x28aed2a6, 0xabf71588, 0x09cf4f3c] }

  lemma FirstWords()
    ensures Expanded(KeyB(), 0) == 0x2b7e1516 && Expanded(KeyB(), 1) == 0x28aed2a6
    ensures Expanded(KeyB(), 2) == 0xabf71588 && Expanded(KeyB(), 3) == 0x09cf4f3c
  {
  }

  /** One word of the schedule from the two it depends on. */
  lemma WordOf(i: nat, x: bv32, v: bv32, next: bv32)
    requires 4 <= i < 44 && Expanded(KeyB(), i - 4) == x && Expanded(KeyB(), i - 1) == v
    requires next == XorWord(x, if i % 4 == 0 then XorWord(Substituted(Rotated(v)), RCON[i / 4 - 1]) else v)
    ensures Expanded(KeyB(), i) == next
  {
    hide XorWord, Substituted, Rotated, Temp, Expanded;
    ExpandedStep(KeyB(), i);
    TempMeans(4, i, v);
  }

  lemma Words1()
    ensures Expanded(KeyB(), 4) == 0xa0fafe17
    ensures Expanded(KeyB(), 5) == 0x88542cb1
    ensures Expanded(KeyB(), 6) == 0x23a33939
    ensures Expanded(KeyB(), 7) == 0x2a6c7605
  {
    hide Expanded;
    FirstWords();
    WordOf(4, 0x2b7e1516, 0x09cf4f3c, 0xa0fafe17);
    WordOf(5, 0x28aed2a6, 0xa0fafe17, 0x88542cb1);
    WordOf(6, 0xabf71588, 0x88542cb1, 0x23a33939);
    WordOf(7, 0x09cf4f3c, 0x23a33939, 0x2a6c7605);
  }

  lemma Words2()
    ensures Expanded(KeyB(), 8) == 0xf2c295f2
    ensures Expanded(KeyB(), 9) == 0x7a96b943
    ensures Expanded(KeyB(), 10) == 0x5935807a
    ensures Expanded(KeyB(), 11) == 0x7359f67f
  {
    hide Expanded;
    Words1();
    WordOf(8, 0xa0fafe17, 0x2a6c7605, 0xf2c295f2);
    WordOf(9, 0x88542cb1, 0xf2c295f2, 0x7a96b943);
    WordOf(10, 0x23a33939, 0x7a96b943, 0x5935807a);
    WordOf(11, 0x2a6c7605, 0x5935807a, 0x7359f67f);
  }

  lemma Words3()
    ensures Expanded(KeyB(), 12) == 0x3d80477d
    ensures Expanded(KeyB(), 13) == 0x4716fe3e
    ensures Expanded(KeyB(), 14) == 0x1e237e44
    ensures Expanded(KeyB(), 15) == 0x6d7a883b
  {
    hide Expanded;
    Words2();
    WordOf(12, 0xf2c295f2, 0x7359f67f, 0x3d80477d);
    WordOf(13, 0x7a96b943, 0x3d80477d, 0x4716fe3e);
    WordOf(14, 0x5935807a, 0x4716fe3e, 0x1e237e44);
    WordOf(15, 0x7359f67f, 0x1e237e44, 0x6d7a883b);
  }

  lemma Words4()
    ensures Expanded(KeyB(), 16) == 0xef44a541
    ensures Expanded(KeyB(), 17) == 0xa8525b7f
    ensures Expanded(KeyB(), 18) == 0xb671253b
    ensures Expanded(KeyB(), 19) == 0xdb0bad00
  {
    hide Expanded;
    Words3();
    WordOf(16, 0x3d80477d, 0x6d7a883b, 0xef44a541);
    WordOf(17, 0x4716fe3e, 0xef44a541, 0xa8525b7f);
    WordOf(18, 0x1e237e44, 0xa8525b7f, 0xb671253b);
    WordOf(19, 0x6d7a883b, 0xb671253b, 0xdb0bad00);
  }

  lemma Words5()
    ensures Expanded(KeyB(), 20) == 0xd4d1c6f8
    ensures Expanded(KeyB(), 21) == 0x7c839d87
    ensures Expanded(KeyB(), 22) == 0xcaf2b8bc
    ensures Expanded(KeyB(), 23) == 0x11f915bc
  {
    hide Expanded;
    Words4();
    WordOf(20, 0xef44a541, 0xdb0bad00, 0xd4d1c6f8);
    WordOf(21, 0xa8525b7f, 0xd4d1c6f8, 0x7c839d87);
    WordOf(22, 0xb671253b, 0x7c839d87, 0xcaf2b8bc);
    WordOf(23, 0xdb0bad00, 0xcaf2b8bc, 0x11f915bc);
  }

  lemma Words6()
    ensures Expanded(KeyB(), 24) == 0x6d88a37a
    ensures Expanded(KeyB(), 25) == 0x110b3efd
    ensures Expanded(KeyB(), 26) == 0xdbf98641
    ensures Expanded(KeyB(), 27) == 0xca0093fd
  {
    hide Expanded;
    Words5();
    WordOf(24, 0xd4d1c6f8, 0x11f915bc, 0x6d88a37a);
    WordOf(25, 0x7c839d87, 0x6d88a37a, 0x110b3efd);
    WordOf(26, 0xcaf2b8bc, 0x110b3efd, 0xdbf98641);
    WordOf(27, 0x11f915bc, 0xdbf98641, 0xca0093fd);
  }

  lemma Words7()
    ensures Expanded(KeyB(), 28) == 0x4e54f70e
    ensures Expanded(KeyB(), 29) == 0x5f5fc9f3
    ensures Expanded(KeyB(), 30) == 0x84a64fb2
    ensures Expanded(KeyB(), 31) == 0x4ea6dc4f
  {
    hide Expanded;
    Words6();
    WordOf(28, 0x6d88a37a, 0xca0093fd, 0x4e54f70e);
    WordOf(29, 0x110b3efd, 0x4e54f70e, 0x5f5fc9f3);
    WordOf(30, 0xdbf98641, 0x5f5fc9f3, 0x84a64fb2);
    WordOf(31, 0xca0093fd, 0x84a64fb2, 0x4ea6dc4f);
  }

  lemma Words8()
    ensures Expanded(KeyB(), 32) == 0xead27321
    ensures Expanded(KeyB(), 33) == 0xb58dbad2
    ensures Expanded(KeyB(), 34) == 0x312bf560
    ensures Expanded(KeyB(), 35) == 0x7f8d292f
  {
    hide Expanded;
    Words7();
    WordOf(32, 0x4e54f70e, 0x4ea6dc4f, 0xead27321);
    WordOf(33, 0x5f5fc9f3, 0xead27321, 0xb58dbad2);
    WordOf(34, 0x84a64fb2, 0xb58dbad2, 0x312bf560);
    WordOf(35, 0x4ea6dc4f, 0x312bf560, 0x7f8d292f);
  }

  lemma Words9()
    ensures Expanded(KeyB(), 36) == 0xac7766f3
    ensures Expanded(KeyB(), 37) == 0x19fadc21
    ensures Expanded(KeyB(), 38) == 0x28d12941
    ensures Expanded(KeyB(), 39) == 0x575c006e
  {
    hide Expanded;
    Words8();
    WordOf(36, 0xead27321, 0x7f8d292f, 0xac7766f3);
    WordOf(37, 0xb58dbad2, 0xac7766f3, 0x19fadc21);
    WordOf(38, 0x312bf560, 0x19fadc21, 0x28d12941);
    WordOf(39, 0x7f8d292f, 0x28d12941, 0x575c006e);
  }

  lemma Words10()
    ensures Expanded(KeyB(), 40) == 0xd014f9a8
    ensures Expanded(KeyB(), 41) == 0xc9ee2589
    ensures Expanded(KeyB(), 42) == 0xe13f0cc8
    ensures Expanded(KeyB(), 43) == 0xb6630ca6
  {
    hide Expanded;
    Words9();
    WordOf(40, 0xac7766f3, 0x575c006e, 0xd014f9a8);
    WordOf(41, 0x19fadc21, 0xd014f9a8, 0xc9ee2589);
    WordOf(42, 0x28d12941, 0xc9ee2589, 0xe13f0cc8);
    WordOf(43, 0x575c006e, 0xe13f0cc8, 0xb6630ca6);
  }

  /** The round keys of the example. */
  ghost predicate KeysB(keys: seq<State>) {
    |keys| == 11 && forall r :: 0 <= r < 11 ==> keys[r] == RoundKey(KeyB(), r)
  }

  /** One round on known words: the next state. */
  lemma RoundOf(keys: seq<State>, block: State, r: nat, k: State, before: State, next: State)
    requires 0 < r < |keys| && keys[r] == k && Rounds(keys, block, r - 1) == before
    requires next == AddRoundKey(MixColumns(ShiftRows(SubBytes(before))), k)
    ensures Rounds(keys, block, r) == next
  {
    hide AddRoundKey, MixColumns, ShiftRows, SubBytes;
  }

  lemma Round0(keys: seq<State>, block: State)
    requires KeysB(keys)
    requires block == State(Column(0x32, 0x43, 0xf6, 0xa8), Column(0x88, 0x5a, 0x30, 0x8d),
                            Column(0x31, 0x31, 0x98, 0xa2), Column(0xe0, 0x37, 0x07, 0x34))
    ensures Rounds(keys, block, 0) == State(Column(0x19, 0x3d, 0xe3, 0xbe), Column(0xa0, 0xf4, 0xe2, 0x2b),
                                            Column(0x9a, 0xc6, 0x8d, 0x2a), Column(0xe9, 0xf8, 0x48, 0x08))
  {
    FirstWords();
    hide Expanded;
  }

  lemma Round1(keys: seq<State>, block: State)
    requires KeysB(keys)
    requires block == State(Column(0x32, 0x43, 0xf6, 0xa8), Column(0x88, 0x5a, 0x30, 0x8d),
                            Column(0x31, 0x31, 0x98, 0xa2), Column(0xe0, 0x37, 0x07, 0x34))
    ensures Rounds(keys, block, 1) == State(Column(0xa4, 0x9c, 0x7f, 0xf2), Column(0x68, 0x9f, 0x35, 0x2b),
                                            Column(0x6b, 0x5b, 0xea, 0x43), Column(0x02, 0x6a, 0x50, 0x49))
  {
    hide Expanded, Rounds;
    Round0(keys, block);
    Words1();
    RoundOf(keys, block, 1, State(Column(0xa0, 0xfa, 0xfe, 0x17), Column(0x88, 0x54, 0x2c, 0xb1),
                                       Column(0x23, 0xa3, 0x39, 0x39), Column(0x2a, 0x6c, 0x76, 0x05)),
            State(Column(0x19, 0x3d, 0xe3, 0xbe), Column(0xa0, 0xf4, 0xe2, 0x2b),
                  Column(0x9a, 0xc6, 0x8d, 0x2a), Column(0xe9, 0xf8, 0x48, 0x08)),
            State(Column(0xa4, 0x9c, 0x7f, 0xf2), Column(0x68, 0x9f, 0x35, 0x2b),
                  Column(0x6b, 0x5b, 0xea, 0x43), Column(0x02, 0x6a, 0x50, 0x49)));
  }

  lemma Round2(keys: seq<State>, block: State)
    requires KeysB(keys)
    requires block == State(Column(0x32, 0x43, 0xf6, 0xa8), Column(0x88, 0x5a, 0x30, 0x8d),
                            Column(0x31, 0x31, 0x98, 0xa2), Column(0xe0, 0x37, 0x07, 0x34))
    ensures Rounds(keys, block, 2) == State(Column(0xaa, 0x8f, 0x5f, 0x03), Column(0x61, 0xdd, 0xe3, 0xef),
                                            Column(0x82, 0xd2, 0x4a, 0xd2), Column(0x68, 0x32, 0x46, 0x9a))
  {
    hide Expanded, Rounds;
    Round1(keys, block);
    Words2();
    RoundOf(keys, block, 2, State(Column(0xf2, 0xc2, 0x95, 0xf2), Column(0x7a, 0x96, 0xb9, 0x43),
                                       Column(0x59, 0x35, 0x80, 0x7a), Column(0x73, 0x59, 0xf6, 0x7f)),
            State(Column(0xa4, 0x9c, 0x7f, 0xf2), Column(0x68, 0x9f, 0x35, 0x2b),
                  Column(0x6b, 0x5b, 0xea, 0x43), Column(0x02, 0x6a, 0x50, 0x49)),
            State(Column(0xaa, 0x8f, 0x5f, 0x03), Column(0x61, 0xdd, 0xe3, 0xef),
                  Column(0x82, 0xd2, 0x4a, 0xd2), Column(0x68, 0x32, 0x46, 0x9a)));
  }

  lemma Round3(keys: seq<State>, block: State)
    requires KeysB(keys)
    requires block == State(Column(0x32, 0x43, 0xf6, 0xa8), Column(0x88, 0x5a, 0x30, 0x8d),
                            Column(0x31, 0x31, 0x98, 0xa2), Column(0xe0, 0x37, 0x07, 0x34))
    ensures Rounds(keys, block, 3) == State(Column(0x48, 0x6c, 0x4e, 0xee), Column(0x67, 0x1d, 0x9d, 0x0d),
                                            Column(0x4d, 0xe3, 0xb1, 0x38), Column(0xd6, 0x5f, 0x58, 0xe7))
  {
    hide Expanded, Rounds;
    Round2(keys, block);
    Words3();
    RoundOf(keys, block, 3, State(Column(0x3d, 0x80, 0x47, 0x7d), Column(0x47, 0x16, 0xfe, 0x3e),
                                       Column(0x1e, 0x23, 0x7e, 0x44), Column(0x6d, 0x7a, 0x88, 0x3b)),
            State(Column(0xaa, 0x8f, 0x5f, 0x03), Column(0x61, 0xdd, 0xe3, 0xef),
                  Column(0x82, 0xd2, 0x4a, 0xd2), Column(0x68, 0x32, 0x46, 0x9a)),
            State(Column(0x48, 0x6c, 0x4e, 0xee), Column(0x67, 0x1d, 0x9d, 0x0d),
                  Column(0x4d, 0xe3, 0xb1, 0x38), Column(0xd6, 0x5f, 0x58, 0xe7)));
  }

  lemma Round4(keys: seq<State>, block: State)
    requires KeysB(keys)
    requires block == State(Column(0x32, 0x43, 0xf6, 0xa8), Column(0x88, 0x5a, 0x30, 0x8d),
                            Column(0x31, 0x31, 0x98, 0xa2), Column(0xe0, 0x37, 0x07, 0x34))
    ensures Rounds(keys, block, 4) == State(Column(0xe0, 0x92, 0x7f, 0xe8), Column(0xc8, 0x63, 0x63, 0xc0),
                                            Column(0xd9, 0xb1, 0x35, 0x50), Column(0x85, 0xb8, 0xbe, 0x01))
  {
    hide Expanded, Rounds;
    Round3(keys, block);
    Words4();
    RoundOf(keys, block, 4, State(Column(0xef, 0x44, 0xa5, 0x41), Column(0xa8, 0x52, 0x5b, 0x7f),
                                       Column(0xb6, 0x71, 0x25, 0x3b), Column(0xdb, 0x0b, 0xad, 0x00)),
            State(Column(0x48, 0x6c, 0x4e, 0xee), Column(0x67, 0x1d, 0x9d, 0x0d),
                  Column(0x4d, 0xe3, 0xb1, 0x38), Column(0xd6, 0x5f, 0x58, 0xe7)),
            State(Column(0xe0, 0x92, 0x7f, 0xe8), Column(0xc8, 0x63, 0x63, 0xc0),
                  Column(0xd9, 0xb1, 0x35, 0x50), Column(0x85, 0xb8, 0xbe, 0x01)));
  }

  lemma Round5(keys: seq<State>, block: State)
    requires KeysB(keys)
    requires block == State(Column(0x32, 0x43, 0xf6, 0xa8), Column(0x88, 0x5a, 0x30, 0x8d),
                            Column(0x31, 0x31, 0x98, 0xa2), Column(0xe0, 0x37, 0x07, 0x34))
    ensures Rounds(keys, block, 5) == State(Column(0xf1, 0x00, 0x6f, 0x55), Column(0xc1, 0x92, 0x4c, 0xef),
                                            Column(0x7c, 0xc8, 0x8b, 0x32), Column(0x5d, 0xb5, 0xd5, 0x0c))
  {
    hide Expanded, Rounds;
    Round4(keys, block);
    Words5();
    RoundOf(keys, block, 5, State(Column(0xd4, 0xd1, 0xc6, 0xf8), Column(0x7c, 0x83, 0x9d, 0x87),
                                       Column(0xca, 0xf2, 0xb8, 0xbc), Column(0x11, 0xf9, 0x15, 0xbc)),
            State(Column(0xe0, 0x92, 0x7f, 0xe8), Column(0xc8, 0x63, 0x63, 0xc0),
                  Column(0xd9, 0xb1, 0x35, 0x50), Column(0x85, 0xb8, 0xbe, 0x01)),
            State(Column(0xf1, 0x00, 0x6f, 0x55), Column(0xc1, 0x92, 0x4c, 0xef),
                  Column(0x7c, 0xc8, 0x8b, 0x32), Column(0x5d, 0xb5, 0xd5, 0x0c)));
  }

  lemma Round6(keys: seq<State>, block: State)
    requires KeysB(keys)
    requires block == State(Column(0x32, 0x43, 0xf6, 0xa8), Column(0x88, 0x5a, 0x30, 0x8d),
                            Column(0x31, 0x31, 0x98, 0xa2), Column(0xe0, 0x37, 0x07, 0x34))
    ensures Rounds(keys, block, 6) == State(Column(0x26, 0x0e, 0x2e, 0x17), Column(0x3d, 0x41, 0xb7, 0x7d),
                                            Column(0xe8, 0x64, 0x72, 0xa9), Column(0xfd, 0xd2, 0x8b, 0x25))
  {
    hide Expanded, Rounds;
    Round5(keys, block);
    Words6();
    RoundOf(keys, block, 6, State(Column(0x6d, 0x88, 0xa3, 0x7a), Column(0x11, 0x0b, 0x3e, 0xfd),
                                       Column(0xdb, 0xf9, 0x86, 0x41), Column(0xca, 0x00, 0x93, 0xfd)),
            State(Column(0xf1, 0x00, 0x6f, 0x55), Column(0xc1, 0x92, 0x4c, 0xef),
                  Column(0x7c, 0xc8, 0x8b, 0x32), Column(0x5d, 0xb5, 0xd5, 0x0c)),
            State(Column(0x26, 0x0e, 0x2e, 0x17), Column(0x3d, 0x41, 0xb7, 0x7d),
                  Column(0xe8, 0x64, 0x72, 0xa9), Column(0xfd, 0xd2, 0x8b, 0x25)));
  }

  lemma Round7(keys: seq<State>, block: State)
    requires KeysB(keys)
    requires block == State(Column(0x32, 0x43, 0xf6, 0xa8), Column(0x88, 0x5a, 0x30, 0x8d),
                            Column(0x31, 0x31, 0x98, 0xa2), Column(0xe0, 0x37, 0x07, 0x34))
    ensures Rounds(keys, block, 7) == State(Column(0x5a, 0x41, 0x42, 0xb1), Column(0x19, 0x49, 0xdc, 0x1f),
                                            Column(0xa3, 0xe0, 0x19, 0x65), Column(0x7a, 0x8c, 0x04, 0x0c))
  {
    hide Expanded, Rounds;
    Round6(keys, block);
    Words7();
    RoundOf(keys, block, 7, State(Column(0x4e, 0x54, 0xf7, 0x0e), Column(0x5f, 0x5f, 0xc9, 0xf3),
                                       Column(0x84, 0xa6, 0x4f, 0xb2), Column(0x4e, 0xa6, 0xdc, 0x4f)),
            State(Column(0x26, 0x0e, 0x2e, 0x17), Column(0x3d, 0x41, 0xb7, 0x7d),
                  Column(0xe8, 0x64, 0x72, 0xa9), Column(0xfd, 0xd2, 0x8b, 0x25)),
            State(Column(0x5a, 0x41, 0x42, 0xb1), Column(0x19, 0x49, 0xdc, 0x1f),
                  Column(0xa3, 0xe0, 0x19, 0x65), Column(0x7a, 0x8c, 0x04, 0x0c)));
  }

  lemma Round8(keys: seq<State>, block: State)
    requires KeysB(keys)
    requires block == State(Column(0x32, 0x43, 0xf6, 0xa8), Column(0x88, 0x5a, 0x30, 0x8d),
                            Column(0x31, 0x31, 0x98, 0xa2), Column(0xe0, 0x37, 0x07, 0x34))
    ensures Rounds(keys, block, 8) == State(Column(0xea, 0x83, 0x5c, 0xf0), Column(0x04, 0x45, 0x33, 0x2d),
                                            Column(0x65, 0x5d, 0x98, 0xad), Column(0x85, 0x96, 0xb0, 0xc5))
  {
    hide Expanded, Rounds;
    Round7(keys, block);
    Words8();
    RoundOf(keys, block, 8, State(Column(0xea, 0xd2, 0x73, 0x21), Column(0xb5, 0x8d, 0xba, 0xd2),
                                       Column(0x31, 0x2b, 0xf5, 0x60), Column(0x7f, 0x8d, 0x29, 0x2f)),
            State(Column(0x5a, 0x41, 0x42, 0xb1), Column(0x19, 0x49, 0xdc, 0x1f),
                  Column(0xa3, 0xe0, 0x19, 0x65), Column(0x7a, 0x8c, 0x04, 0x0c)),
            State(Column(0xea, 0x83, 0x5c, 0xf0), Column(0x04, 0x45, 0x33, 0x2d),
                  Column(0x65, 0x5d, 0x98, 0xad), Column(0x85, 0x96, 0xb0, 0xc5)));
  }

  lemma Round9(keys: seq<State>, block: State)
    requires KeysB(keys)
    requires block == State(Column(0x32, 0x43, 0xf6, 0xa8), Column(0x88, 0x5a, 0x30, 0x8d),
                            Column(0x31, 0x31, 0x98, 0xa2), Column(0xe0, 0x37, 0x07, 0x34))
    ensures Rounds(keys, block, 9) == State(Column(0xeb, 0x40, 0xf2, 0x1e), Column(0x59, 0x2e, 0x38, 0x84),
                                            Column(0x8b, 0xa1, 0x13, 0xe7), Column(0x1b, 0xc3, 0x42, 0xd2))
  {
    hide Expanded, Rounds;
    Round8(keys, block);
    Words9();
    RoundOf(keys, block, 9, State(Column(0xac, 0x77, 0x66, 0xf3), Column(0x19, 0xfa, 0xdc, 0x21),
                                       Column(0x28, 0xd1, 0x29, 0x41), Column(0x57, 0x5c, 0x00, 0x6e)),
            State(Column(0xea, 0x83, 0x5c, 0xf0), Column(0x04, 0x45, 0x33, 0x2d),
                  Column(0x65, 0x5d, 0x98, 0xad), Column(0x85, 0x96, 0xb0, 0xc5)),
            State(Column(0xeb, 0x40, 0xf2, 0x1e), Column(0x59, 0x2e, 0x38, 0x84),
                  Column(0x8b, 0xa1, 0x13, 0xe7), Column(0x1b, 0xc3, 0x42, 0xd2)));
  }

  /**
   * The example of Appendix B: with the round keys that the schedule computes for its key, the cipher
   * takes its input to its output.
   */
  lemma AppendixB(keys: seq<State>, block: State)
    requires keys == RoundKeys(KeyWords(CIPHER_KEY, 4), 11) && block == Block(INPUT)
    ensures Bytes(Cipher(keys, block)) == OUTPUT
  {
    hide Cipher, RoundKeys, RoundKey;
    KeyIsB();
    InputIsB();
    Round9(keys, block);
    Words10();
    LastRound(keys, block);
  }

  lemma KeyIsB()
    ensures KeyWords(CIPHER_KEY, 4) == KeyB()
  {
    var ws := KeyWords(CIPHER_KEY, 4);
    assert ws[0] == 0x2b7e1516 && ws[1] == 0x28aed2a6 && ws[2] == 0xabf71588 && ws[3] == 0x09cf4f3c;
  }

  lemma InputIsB()
    ensures Block(INPUT) == State(Column(0x32, 0x43, 0xf6, 0xa8), Column(0x88, 0x5a, 0x30, 0x8d),
                                  Column(0x31, 0x31, 0x98, 0xa2), Column(0xe0, 0x37, 0x07, 0x34))
  {
  }

  lemma LastRound(keys: seq<State>, block: State)
    requires KeysB(keys) && Rounds(keys, block, 9) == State(Column(0xeb, 0x40, 0xf2, 0x1e), Column(0x59, 0x2e, 0x38, 0x84),
                                                            Column(0x8b, 0xa1, 0x13, 0xe7), Column(0x1b, 0xc3, 0x42, 0xd2))
    requires Expanded(KeyB(), 40) == 0xd014f9a8 && Expanded(KeyB(), 41) == 0xc9ee2589
    requires Expanded(KeyB(), 42) == 0xe13f0cc8 && Expanded(KeyB(), 43) == 0xb6630ca6
    ensures Bytes(Cipher(keys, block)) == OUTPUT
  {
    hide Expanded, Rounds;
    var out := Cipher(keys, block);
    assert out == State(Column(0x39, 0x25, 0x84, 0x1d), Column(0x02, 0xdc, 0x09, 0xfb),
                        Column(0xdc, 0x11, 0x85, 0x97), Column(0x19, 0x6a, 0x0b, 0x32));
  }
}
