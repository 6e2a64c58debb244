/** Arithmetic in GF(2^8) and the lookup tables of the cipher. */
module AesTables {

  // ----- adding bytes and words -----

  function Xor(x: bv8, y: bv8): bv8 { x ^ y }

  function XorWord(x: bv32, y: bv32): bv32 { x ^ y }

  function Sum(w: bv8, x: bv8, y: bv8, z: bv8): bv8 {
    Xor(Xor(w, x), Xor(y, z))
  }

  lemma XorLaws(x: bv8, y: bv8, z: bv8)
    ensures Xor(x, y) == Xor(y, x) && Xor(Xor(x, y), z) == Xor(x, Xor(y, z))
    ensures Xor(x, 0) == x && Xor(Xor(x, y), y) == x
  {
  }

  lemma Swap(x: bv8, y: bv8, u: bv8, v: bv8)
    ensures Xor(Xor(x, y), Xor(u, v)) == Xor(Xor(x, u), Xor(y, v))
  {
    hide Xor;
    XorLaws(x, y, Xor(u, v));
    XorLaws(y, u, v);
    XorLaws(u, y, v);
    XorLaws(x, u, Xor(y, v));
  }

  /** A sum of four does not depend on where it starts. */
  lemma Turn(w: bv8, x: bv8, y: bv8, z: bv8)
    ensures Sum(w, x, y, z) == Sum(x, y, z, w)
  {
    hide Xor;
    XorLaws(w, x, 0);
    XorLaws(w, z, 0);
    Swap(x, w, y, z);
  }

  /** Sums of four are added term by term. */
  lemma Four(a: bv8, b: bv8, c: bv8, d: bv8, e: bv8, f: bv8, g: bv8, h: bv8)
    ensures Xor(Sum(a, b, c, d), Sum(e, f, g, h)) == Sum(Xor(a, e), Xor(b, f), Xor(c, g), Xor(d, h))
  {
    hide Xor;
    Swap(Xor(a, b), Xor(c, d), Xor(e, f), Xor(g, h));
    Swap(a, b, e, f);
    Swap(c, d, g, h);
  }

  /** Four sums of four are added by columns. */
  lemma Sixteen(a0: bv8, a1: bv8, a2: bv8, a3: bv8, b0: bv8, b1: bv8, b2: bv8, b3: bv8,
                c0: bv8, c1: bv8, c2: bv8, c3: bv8, d0: bv8, d1: bv8, d2: bv8, d3: bv8)
    ensures Sum(Sum(a0, a1, a2, a3), Sum(b0, b1, b2, b3), Sum(c0, c1, c2, c3), Sum(d0, d1, d2, d3))
         == Sum(Sum(a0, b0, c0, d0), Sum(a1, b1, c1, d1), Sum(a2, b2, c2, d2), Sum(a3, b3, c3, d3))
  {
    hide Xor;
    Four(a0, a1, a2, a3, b0, b1, b2, b3);
    Four(c0, c1, c2, c3, d0, d1, d2, d3);
    Four(Xor(a0, b0), Xor(a1, b1), Xor(a2, b2), Xor(a3, b3), Xor(c0, d0), Xor(c1, d1), Xor(c2, d2), Xor(c3, d3));
  }

  // ----- multiplication by the constants of the MixColumns matrices -----

  /** x times {02} modulo x^8 + x^4 + x^3 + x + 1. */
  function Double(x: bv8): bv8 {
    (x << 1) ^ ((x >> 7) * 0x1b)
  }

  function Times3(x: bv8): bv8 { Xor(Double(x), x) }
  function Times9(x: bv8): bv8 { Xor(Double(Double(Double(x))), x) }
  function TimesB(x: bv8): bv8 { Xor(Double(Double(Double(x))), Xor(Double(x), x)) }
  function TimesD(x: bv8): bv8 { Xor(Double(Double(Double(x))), Xor(Double(Double(x)), x)) }
  function TimesE(x: bv8): bv8 { Xor(Double(Double(Double(x))), Xor(Double(Double(x)), Double(x))) }

  lemma DoubleLinear(x: bv8, y: bv8)
    ensures Double(Xor(x, y)) == Xor(Double(x), Double(y))
  {
  }

  /** The products are linear. */
  lemma Linear(x: bv8, y: bv8)
    ensures Times3(Xor(x, y)) == Xor(Times3(x), Times3(y)) && Times9(Xor(x, y)) == Xor(Times9(x), Times9(y))
    ensures TimesB(Xor(x, y)) == Xor(TimesB(x), TimesB(y)) && TimesD(Xor(x, y)) == Xor(TimesD(x), TimesD(y))
    ensures TimesE(Xor(x, y)) == Xor(TimesE(x), TimesE(y))
  {
    hide Double, Xor;
    var x2, y2 := Double(x), Double(y);
    var x4, y4 := Double(x2), Double(y2);
    var x8, y8 := Double(x4), Double(y4);
    DoubleLinear(x, y);
    DoubleLinear(x2, y2);
    DoubleLinear(x4, y4);
    Swap(x2, y2, x, y);
    Swap(x8, y8, x, y);
    Swap(x8, y8, Xor(x2, x), Xor(y2, y));
    Swap(x4, y4, x, y);
    Swap(x8, y8, Xor(x4, x), Xor(y4, y));
    Swap(x4, y4, x2, y2);
    Swap(x8, y8, Xor(x4, x2), Xor(y4, y2));
  }

  lemma LinearSum(w: bv8, x: bv8, y: bv8, z: bv8)
    ensures Times9(Sum(w, x, y, z)) == Sum(Times9(w), Times9(x), Times9(y), Times9(z))
    ensures TimesB(Sum(w, x, y, z)) == Sum(TimesB(w), TimesB(x), TimesB(y), TimesB(z))
    ensures TimesD(Sum(w, x, y, z)) == Sum(TimesD(w), TimesD(x), TimesD(y), TimesD(z))
    ensures TimesE(Sum(w, x, y, z)) == Sum(TimesE(w), TimesE(x), TimesE(y), TimesE(z))
  {
    hide Times9, TimesB, TimesD, TimesE, Xor;
    Linear(Xor(w, x), Xor(y, z));
    Linear(w, x);
    Linear(y, z);
  }

  /** The MixColumns matrices multiply to the identity, coefficient by coefficient. */
  lemma Coefficients(x: bv8)
    ensures Sum(TimesE(Double(x)), TimesB(x), TimesD(x), Times9(Times3(x))) == x
    ensures Sum(TimesE(Times3(x)), TimesB(Double(x)), TimesD(x), Times9(x)) == 0
    ensures Sum(TimesE(x), TimesB(Times3(x)), TimesD(Double(x)), Times9(x)) == 0
    ensures Sum(TimesE(x), TimesB(x), TimesD(Times3(x)), Times9(Double(x))) == 0
  {
  }

  // ----- columns and words -----

  /** Four bytes of the state, top to bottom. */
  datatype Column = Column(a: bv8, b: bv8, c: bv8, d: bv8)

  /** The word that holds a column, its top byte in the high bits. */
  function Word(a: bv8, b: bv8, c: bv8, d: bv8): bv32 {
    ((a as bv32) << 24) | ((b as bv32) << 16) | ((c as bv32) << 8) | (d as bv32)
  }

  function Byte0(w: bv32): bv8 { (w >> 24) as bv8 }
  function Byte1(w: bv32): bv8 { ((w >> 16) & 0xff) as bv8 }
  function Byte2(w: bv32): bv8 { ((w >> 8) & 0xff) as bv8 }
  function Byte3(w: bv32): bv8 { (w & 0xff) as bv8 }

  function Pack(c: Column): bv32 { Word(c.a, c.b, c.c, c.d) }

  function Unpack(w: bv32): Column { Column(Byte0(w), Byte1(w), Byte2(w), Byte3(w)) }

  function Add(x: Column, y: Column): Column {
    Column(Xor(x.a, y.a), Xor(x.b, y.b), Xor(x.c, y.c), Xor(x.d, y.d))
  }

  lemma WordBytes(a: bv8, b: bv8, c: bv8, d: bv8)
    ensures Byte0(Word(a, b, c, d)) == a && Byte1(Word(a, b, c, d)) == b
    ensures Byte2(Word(a, b, c, d)) == c && Byte3(Word(a, b, c, d)) == d
  {
  }

  lemma BytesWord(w: bv32)
    ensures Word(Byte0(w), Byte1(w), Byte2(w), Byte3(w)) == w
  {
  }

  /** Words and columns are the same thing. */
  lemma PackUnpack(w: bv32, c: Column)
    ensures Pack(Unpack(w)) == w && Unpack(Pack(c)) == c
  {
    hide Word, Byte0, Byte1, Byte2, Byte3;
    WordBytes(c.a, c.b, c.c, c.d);
    BytesWord(w);
  }

  lemma UnpackAdd(x: bv32, y: bv32)
    ensures Unpack(XorWord(x, y)) == Add(Unpack(x), Unpack(y))
  {
  }

  // ----- MixColumns on one column -----

  function MixByte(a: bv8, b: bv8, c: bv8, d: bv8): bv8 {
    Sum(Double(a), Times3(b), c, d)
  }

  function Mix(c: Column): Column {
    Column(MixByte(c.a, c.b, c.c, c.d), MixByte(c.b, c.c, c.d, c.a),
           MixByte(c.c, c.d, c.a, c.b), MixByte(c.d, c.a, c.b, c.c))
  }

  function UnmixByte(a: bv8, b: bv8, c: bv8, d: bv8): bv8 {
    Sum(TimesE(a), TimesB(b), TimesD(c), Times9(d))
  }

  function Unmix(c: Column): Column {
    Column(UnmixByte(c.a, c.b, c.c, c.d), UnmixByte(c.b, c.c, c.d, c.a),
           UnmixByte(c.c, c.d, c.a, c.b), UnmixByte(c.d, c.a, c.b, c.c))
  }

  /** The bytes of a mixed column, with their terms in the order of the column. */
  lemma MixOrder(a: bv8, b: bv8, c: bv8, d: bv8)
    ensures MixByte(b, c, d, a) == Sum(a, Double(b), Times3(c), d)
    ensures MixByte(c, d, a, b) == Sum(a, b, Double(c), Times3(d))
    ensures MixByte(d, a, b, c) == Sum(Times3(a), b, c, Double(d))
  {
    hide Double, Times3, Sum;
    Turn(a, Double(b), Times3(c), d);
    Turn(a, b, Double(c), Times3(d));
    Turn(b, Double(c), Times3(d), a);
    Turn(Double(d), Times3(a), b, c);
  }

  lemma UnmixOrder(a: bv8, b: bv8, c: bv8, d: bv8)
    ensures UnmixByte(b, c, d, a) == Sum(Times9(a), TimesE(b), TimesB(c), TimesD(d))
    ensures UnmixByte(c, d, a, b) == Sum(TimesD(a), Times9(b), TimesE(c), TimesB(d))
    ensures UnmixByte(d, a, b, c) == Sum(TimesB(a), TimesD(b), Times9(c), TimesE(d))
  {
    hide Times9, TimesB, TimesD, TimesE, Sum;
    Turn(Times9(a), TimesE(b), TimesB(c), TimesD(d));
    Turn(TimesD(a), Times9(b), TimesE(c), TimesB(d));
    Turn(Times9(b), TimesE(c), TimesB(d), TimesD(a));
    Turn(TimesE(d), TimesB(a), TimesD(b), Times9(c));
  }

  lemma UnmixMixByte(a: bv8, b: bv8, c: bv8, d: bv8)
    ensures UnmixByte(MixByte(a, b, c, d), MixByte(b, c, d, a), MixByte(c, d, a, b), MixByte(d, a, b, c)) == a
  {
    hide Double, Times3, Times9, TimesB, TimesD, TimesE, Sum;
    MixOrder(a, b, c, d);
    LinearSum(Double(a), Times3(b), c, d);
    LinearSum(a, Double(b), Times3(c), d);
    LinearSum(a, b, Double(c), Times3(d));
    LinearSum(Times3(a), b, c, Double(d));
    Sixteen(TimesE(Double(a)), TimesE(Times3(b)), TimesE(c), TimesE(d),
            TimesB(a), TimesB(Double(b)), TimesB(Times3(c)), TimesB(d),
            TimesD(a), TimesD(b), TimesD(Double(c)), TimesD(Times3(d)),
            Times9(Times3(a)), Times9(b), Times9(c), Times9(Double(d)));
    Coefficients(a);
    Coefficients(b);
    Coefficients(c);
    Coefficients(d);
    SumZeros(a);
  }

  lemma SumZeros(a: bv8)
    ensures Sum(a, 0, 0, 0) == a
  {
  }

  /** InvMixColumns undoes MixColumns. */
  lemma UnmixMix(c: Column)
    ensures Unmix(Mix(c)) == c
  {
    hide MixByte, UnmixByte;
    UnmixMixByte(c.a, c.b, c.c, c.d);
    UnmixMixByte(c.b, c.c, c.d, c.a);
    UnmixMixByte(c.c, c.d, c.a, c.b);
    UnmixMixByte(c.d, c.a, c.b, c.c);
  }

  lemma UnmixByteAdd(a: bv8, b: bv8, c: bv8, d: bv8, e: bv8, f: bv8, g: bv8, h: bv8)
    ensures UnmixByte(Xor(a, e), Xor(b, f), Xor(c, g), Xor(d, h)) == Xor(UnmixByte(a, b, c, d), UnmixByte(e, f, g, h))
  {
    hide Times9, TimesB, TimesD, TimesE, Sum, Xor;
    Linear(a, e);
    Linear(b, f);
    Linear(c, g);
    Linear(d, h);
    Four(TimesE(a), TimesB(b), TimesD(c), Times9(d), TimesE(e), TimesB(f), TimesD(g), Times9(h));
  }

  /** InvMixColumns is linear. */
  lemma UnmixAdd(x: Column, y: Column)
    ensures Unmix(Add(x, y)) == Add(Unmix(x), Unmix(y))
  {
    hide UnmixByte, Xor;
    UnmixByteAdd(x.a, x.b, x.c, x.d, y.a, y.b, y.c, y.d);
    UnmixByteAdd(x.b, x.c, x.d, x.a, y.b, y.c, y.d, y.a);
    UnmixByteAdd(x.c, x.d, x.a, x.b, y.c, y.d, y.a, y.b);
    UnmixByteAdd(x.d, x.a, x.b, x.c, y.d, y.a, y.b, y.c);
  }

  function FourWords(w: bv32, x: bv32, y: bv32, z: bv32): bv32 {
    XorWord(XorWord(XorWord(w, x), y), z)
  }

  /** Four words and a round key word. */
  function SumWords(w: bv32, x: bv32, y: bv32, z: bv32, k: bv32): bv32 {
    XorWord(FourWords(w, x, y, z), k)
  }

  lemma NoKey(w: bv32, x: bv32, y: bv32, z: bv32)
    ensures SumWords(w, x, y, z, 0) == FourWords(w, x, y, z)
  {
    hide FourWords;
  }

  function SumColumns(w: Column, x: Column, y: Column, z: Column): Column {
    Column(Sum(w.a, x.a, y.a, z.a), Sum(w.b, x.b, y.b, z.b), Sum(w.c, x.c, y.c, z.c), Sum(w.d, x.d, y.d, z.d))
  }

  lemma UnpackSum(w: bv32, x: bv32, y: bv32, z: bv32, k: bv32)
    ensures Unpack(SumWords(w, x, y, z, k)) == Add(SumColumns(Unpack(w), Unpack(x), Unpack(y), Unpack(z)), Unpack(k))
  {
    hide Unpack, XorWord, Xor;
    UnpackAdd(w, x);
    UnpackAdd(XorWord(w, x), y);
    UnpackAdd(XorWord(XorWord(w, x), y), z);
    UnpackAdd(XorWord(XorWord(XorWord(w, x), y), z), k);
    var p, q, r, s := Unpack(w), Unpack(x), Unpack(y), Unpack(z);
    XorLaws(Xor(p.a, q.a), r.a, s.a);
    XorLaws(Xor(p.b, q.b), r.b, s.b);
    XorLaws(Xor(p.c, q.c), r.c, s.c);
    XorLaws(Xor(p.d, q.d), r.d, s.d);
  }

  // ----- the S-boxes -----

  function Row(x: bv8, v0: bv8, v1: bv8, v2: bv8, v3: bv8, v4: bv8, v5: bv8, v6: bv8, v7: bv8,
               v8: bv8, v9: bv8, va: bv8, vb: bv8, vc: bv8, vd: bv8, ve: bv8, vf: bv8): bv8 {
    if x & 8 == 0 then
      if x & 4 == 0 then
        if x & 2 == 0 then (if x & 1 == 0 then v0 else v1) else (if x & 1 == 0 then v2 else v3)
      else
        if x & 2 == 0 then (if x & 1 == 0 then v4 else v5) else (if x & 1 == 0 then v6 else v7)
    else
      if x & 4 == 0 then
        if x & 2 == 0 then (if x & 1 == 0 then v8 else v9) else (if x & 1 == 0 then va else vb)
      else
        if x & 2 == 0 then (if x & 1 == 0 then vc else vd) else (if x & 1 == 0 then ve else vf)
  }

  /** The S-box. */
  function S(x: bv8): bv8 {
    if x < 0x80 then
      if x < 0x10 then Row(x, 0x63, 0x7c, 0x77, 0x7b, 0xf2, 0x6b, 0x6f, 0xc5, 0x30, 0x01, 0x67, 0x2b, 0xfe, 0xd7, 0xab, 0x76) else
      if x < 0x20 then Row(x, 0xca, 0x82, 0xc9, 0x7d, 0xfa, 0x59, 0x47, 0xf0, 0xad, 0xd4, 0xa2, 0xaf, 0x9c, 0xa4, 0x72, 0xc0) else
      if x < 0x30 then Row(x, 0xb7, 0xfd, 0x93, 0x26, 0x36, 0x3f, 0xf7, 0xcc, 0x34, 0xa5, 0xe5, 0xf1, 0x71, 0xd8, 0x31, 0x15) else
      if x < 0x40 then Row(x, 0x04, 0xc7, 0x23, 0xc3, 0x18, 0x96, 0x05, 0x9a, 0x07, 0x12, 0x80, 0xe2, 0xeb, 0x27, 0xb2, 0x75) else
      if x < 0x50 then Row(x, 0x09, 0x83, 0x2c, 0x1a, 0x1b, 0x6e, 0x5a, 0xa0, 0x52, 0x3b, 0xd6, 0xb3, 0x29, 0xe3, 0x2f, 0x84) else
      if x < 0x60 then Row(x, 0x53, 0xd1, 0x00, 0xed, 0x20, 0xfc, 0xb1, 0x5b, 0x6a, 0xcb, 0xbe, 0x39, 0x4a, 0x4c, 0x58, 0xcf) else
      if x < 0x70 then Row(x, 0xd0, 0xef, 0xaa, 0xfb, 0x43, 0x4d, 0x33, 0x85, 0x45, 0xf9, 0x02, 0x7f, 0x50, 0x3c, 0x9f, 0xa8) else
      Row(x, 0x51, 0xa3, 0x40, 0x8f, 0x92, 0x9d, 0x38, 0xf5, 0xbc, 0xb6, 0xda, 0x21, 0x10, 0xff, 0xf3, 0xd2)
    else
      if x < 0x90 then Row(x, 0xcd, 0x0c, 0x13, 0xec, 0x5f, 0x97, 0x44, 0x17, 0xc4, 0xa7, 0x7e, 0x3d, 0x64, 0x5d, 0x19, 0x73) else
      if x < 0xa0 then Row(x, 0x60, 0x81, 0x4f, 0xdc, 0x22, 0x2a, 0x90, 0x88, 0x46, 0xee, 0xb8, 0x14, 0xde, 0x5e, 0x0b, 0xdb) else
      if x < 0xb0 then Row(x, 0xe0, 0x32, 0x3a, 0x0a, 0x49, 0x06, 0x24, 0x5c, 0xc2, 0xd3, 0xac, 0x62, 0x91, 0x95, 0xe4, 0x79) else
      if x < 0xc0 then Row(x, 0xe7, 0xc8, 0x37, 0x6d, 0x8d, 0xd5, 0x4e, 0xa9, 0x6c, 0x56, 0xf4, 0xea, 0x65, 0x7a, 0xae, 0x08) else
      if x < 0xd0 then Row(x, 0xba, 0x78, 0x25, 0x2e, 0x1c, 0xa6, 0xb4, 0xc6, 0xe8, 0xdd, 0x74, 0x1f, 0x4b, 0xbd, 0x8b, 0x8a) else
      if x < 0xe0 then Row(x, 0x70, 0x3e, 0xb5, 0x66, 0x48, 0x03, 0xf6, 0x0e, 0x61, 0x35, 0x57, 0xb9, 0x86, 0xc1, 0x1d, 0x9e) else
      if x < 0xf0 then Row(x, 0xe1, 0xf8, 0x98, 0x11, 0x69, 0xd9, 0x8e, 0x94, 0x9b, 0x1e, 0x87, 0xe9, 0xce, 0x55, 0x28, 0xdf) else
      Row(x, 0x8c, 0xa1, 0x89, 0x0d, 0xbf, 0xe6, 0x42, 0x68, 0x41, 0x99, 0x2d, 0x0f, 0xb0, 0x54, 0xbb, 0x16)
  }

  /** The inverse S-box. */
  function Si(x: bv8): bv8 {
    if x < 0x80 then
      if x < 0x10 then Row(x, 0x52, 0x09, 0x6a, 0xd5, 0x30, 0x36, 0xa5, 0x38, 0xbf, 0x40, 0xa3, 0x9e, 0x81, 0xf3, 0xd7, 0xfb) else
      if x < 0x20 then Row(x, 0x7c, 0xe3, 0x39, 0x82, 0x9b, 0x2f, 0xff, 0x87, 0x34, 0x8e, 0x43, 0x44, 0xc4, 0xde, 0xe9, 0xcb) else
      if x < 0x30 then Row(x, 0x54, 0x7b, 0x94, 0x32, 0xa6, 0xc2, 0x23, 0x3d, 0xee, 0x4c, 0x95, 0x0b, 0x42, 0xfa, 0xc3, 0x4e) else
      if x < 0x40 then Row(x, 0x08, 0x2e, 0xa1, 0x66, 0x28, 0xd9, 0x24, 0xb2, 0x76, 0x5b, 0xa2, 0x49, 0x6d, 0x8b, 0xd1, 0x25) else
      if x < 0x50 then Row(x, 0x72, 0xf8, 0xf6, 0x64, 0x86, 0x68, 0x98, 0x16, 0xd4, 0xa4, 0x5c, 0xcc, 0x5d, 0x65, 0xb6, 0x92) else
      if x < 0x60 then Row(x, 0x6c, 0x70, 0x48, 0x50, 0xfd, 0xed, 0xb9, 0xda, 0x5e, 0x15, 0x46, 0x57, 0xa7, 0x8d, 0x9d, 0x84) else
      if x < 0x70 then Row(x, 0x90, 0xd8, 0xab, 0x00, 0x8c, 0xbc, 0xd3, 0x0a, 0xf7, 0xe4, 0x58, 0x05, 0xb8, 0xb3, 0x45, 0x06) else
      Row(x, 0xd0, 0x2c, 0x1e, 0x8f, 0xca, 0x3f, 0x0f, 0x02, 0xc1, 0xaf, 0xbd, 0x03, 0x01, 0x13, 0x8a, 0x6b)
    else
      if x < 0x90 then Row(x, 0x3a, 0x91, 0x11, 0x41, 0x4f, 0x67, 0xdc, 0xea, 0x97, 0xf2, 0xcf, 0xce, 0xf0, 0xb4, 0xe6, 0x73) else
      if x < 0xa0 then Row(x, 0x96, 0xac, 0x74, 0x22, 0xe7, 0xad, 0x35, 0x85, 0xe2, 0xf9, 0x37, 0xe8, 0x1c, 0x75, 0xdf, 0x6e) else
      if x < 0xb0 then Row(x, 0x47, 0xf1, 0x1a, 0x71, 0x1d, 0x29, 0xc5, 0x89, 0x6f, 0xb7, 0x62, 0x0e, 0xaa, 0x18, 0xbe, 0x1b) else
      if x < 0xc0 then Row(x, 0xfc, 0x56, 0x3e, 0x4b, 0xc6, 0xd2, 0x79, 0x20, 0x9a, 0xdb, 0xc0, 0xfe, 0x78, 0xcd, 0x5a, 0xf4) else
      if x < 0xd0 then Row(x, 0x1f, 0xdd, 0xa8, 0x33, 0x88, 0x07, 0xc7, 0x31, 0xb1, 0x12, 0x10, 0x59, 0x27, 0x80, 0xec, 0x5f) else
      if x < 0xe0 then Row(x, 0x60, 0x51, 0x7f, 0xa9, 0x19, 0xb5, 0x4a, 0x0d, 0x2d, 0xe5, 0x7a, 0x9f, 0x93, 0xc9, 0x9c, 0xef) else
      if x < 0xf0 then Row(x, 0xa0, 0xe0, 0x3b, 0x4d, 0xae, 0x2a, 0xf5, 0xb0, 0xc8, 0xeb, 0xbb, 0x3c, 0x83, 0x53, 0x99, 0x61) else
      Row(x, 0x17, 0x2b, 0x04, 0x7e, 0xba, 0x77, 0xd6, 0x26, 0xe1, 0x69, 0x14, 0x63, 0x55, 0x21, 0x0c, 0x7d)
  }

  /** The two S-boxes undo each other, entry by entry. */
  lemma SBoxesInverse(x: bv8)
    ensures Si(S(x)) == x && S(Si(x)) == x
  {
    UndoS(x);
    UndoSi(x);
  }

  lemma UndoS(x: bv8)
    ensures Si(S(x)) == x
  {
  }

  lemma UndoSi(x: bv8)
    ensures S(Si(x)) == x
  {
  }

  // ----- the product tables, by the equations that define them -----

  function Te0(x: bv8): bv32 { Pack(Column(Double(S(x)), S(x), S(x), Times3(S(x)))) }
  function Te1(x: bv8): bv32 { Pack(Column(Times3(S(x)), Double(S(x)), S(x), S(x))) }
  function Te2(x: bv8): bv32 { Pack(Column(S(x), Times3(S(x)), Double(S(x)), S(x))) }
  function Te3(x: bv8): bv32 { Pack(Column(S(x), S(x), Times3(S(x)), Double(S(x)))) }
  function Te4(x: bv8): bv32 { Pack(Column(S(x), S(x), S(x), S(x))) }
  function Td0(x: bv8): bv32 { Pack(Column(TimesE(Si(x)), Times9(Si(x)), TimesD(Si(x)), TimesB(Si(x)))) }
  function Td1(x: bv8): bv32 { Pack(Column(TimesB(Si(x)), TimesE(Si(x)), Times9(Si(x)), TimesD(Si(x)))) }
  function Td2(x: bv8): bv32 { Pack(Column(TimesD(Si(x)), TimesB(Si(x)), TimesE(Si(x)), Times9(Si(x)))) }
  function Td3(x: bv8): bv32 { Pack(Column(Times9(Si(x)), TimesD(Si(x)), TimesB(Si(x)), TimesE(Si(x)))) }
  function Td4(x: bv8): bv32 { Pack(Column(Si(x), Si(x), Si(x), Si(x))) }

  /** Four lookups of a round add up to MixColumns of a substituted column. */
  lemma EncryptColumn(w: bv8, x: bv8, y: bv8, z: bv8, k: bv32)
    ensures Unpack(SumWords(Te0(w), Te1(x), Te2(y), Te3(z), k)) == Add(Mix(Column(S(w), S(x), S(y), S(z))), Unpack(k))
  {
    hide S, Double, Times3, Sum, Xor, Pack, Unpack, SumWords;
    var a, b, c, d := S(w), S(x), S(y), S(z);
    UnpackSum(Te0(w), Te1(x), Te2(y), Te3(z), k);
    PackUnpack(0, Column(Double(a), a, a, Times3(a)));
    PackUnpack(0, Column(Times3(b), Double(b), b, b));
    PackUnpack(0, Column(c, Times3(c), Double(c), c));
    PackUnpack(0, Column(d, d, Times3(d), Double(d)));
    MixOrder(a, b, c, d);
  }

  /** Four lookups of an inverse round add up to InvMixColumns of a substituted column. */
  lemma DecryptColumn(w: bv8, x: bv8, y: bv8, z: bv8, k: bv32)
    ensures Unpack(SumWords(Td0(w), Td1(x), Td2(y), Td3(z), k)) == Add(Unmix(Column(Si(w), Si(x), Si(y), Si(z))), Unpack(k))
  {
    hide Si, Times9, TimesB, TimesD, TimesE, Sum, Xor, Pack, Unpack, SumWords;
    var a, b, c, d := Si(w), Si(x), Si(y), Si(z);
    UnpackSum(Td0(w), Td1(x), Td2(y), Td3(z), k);
    PackUnpack(0, Column(TimesE(a), Times9(a), TimesD(a), TimesB(a)));
    PackUnpack(0, Column(TimesB(b), TimesE(b), Times9(b), TimesD(b)));
    PackUnpack(0, Column(TimesD(c), TimesB(c), TimesE(c), Times9(c)));
    PackUnpack(0, Column(Times9(d), TimesD(d), TimesB(d), TimesE(d)));
    UnmixOrder(a, b, c, d);
  }

  /** A word with only the bytes that the mask keeps. */
  function Mask(w: bv32, mask: bv32): bv32 { w & mask }

  lemma Masks(x: bv8)
    ensures Mask(Word(x, x, x, x), 0xff000000) == Word(x, 0, 0, 0)
    ensures Mask(Word(x, x, x, x), 0x00ff0000) == Word(0, x, 0, 0)
    ensures Mask(Word(x, x, x, x), 0x0000ff00) == Word(0, 0, x, 0)
    ensures Mask(Word(x, x, x, x), 0x000000ff) == Word(0, 0, 0, x)
  {
  }

  /** Four masked bytes add up to their column. */
  lemma MaskedColumn(w: bv8, x: bv8, y: bv8, z: bv8, k: bv32)
    ensures Unpack(SumWords(Mask(Word(w, w, w, w), 0xff000000), Mask(Word(x, x, x, x), 0x00ff0000),
                            Mask(Word(y, y, y, y), 0x0000ff00), Mask(Word(z, z, z, z), 0x000000ff), k))
         == Add(Column(w, x, y, z), Unpack(k))
  {
    hide Sum, Xor, Word, Unpack, SumWords, Mask;
    Masks(w);
    Masks(x);
    Masks(y);
    Masks(z);
    UnpackSum(Word(w, 0, 0, 0), Word(0, x, 0, 0), Word(0, 0, y, 0), Word(0, 0, 0, z), k);
    PackUnpack(0, Column(w, 0, 0, 0));
    PackUnpack(0, Column(0, x, 0, 0));
    PackUnpack(0, Column(0, 0, y, 0));
    PackUnpack(0, Column(0, 0, 0, z));
    SumZeros(w);
    SumZeros(x);
    SumZeros(y);
    SumZeros(z);
    Turn(0, x, 0, 0);
    Turn(0, 0, y, 0);
    Turn(0, y, 0, 0);
    Turn(z, 0, 0, 0);
  }

  /** Looking up Td through Te4 applies InvMixColumns to a word of a round key. */
  lemma KeyColumn(w: bv32)
    ensures FourWords(Td0(Byte3(Te4(Byte0(w)))), Td1(Byte3(Te4(Byte1(w)))),
                      Td2(Byte3(Te4(Byte2(w)))), Td3(Byte3(Te4(Byte3(w))))) == Pack(Unmix(Unpack(w)))
  {
    hide S, Si, Pack, Word, Byte0, Byte1, Byte2, Byte3, Td0, Td1, Td2, Td3, Te4, Add, Unmix, SumWords, FourWords;
    var a, b, c, d := Byte0(w), Byte1(w), Byte2(w), Byte3(w);
    LowByte(a);
    LowByte(b);
    LowByte(c);
    LowByte(d);
    SBoxesInverse(a);
    SBoxesInverse(b);
    SBoxesInverse(c);
    SBoxesInverse(d);
    DecryptColumn(S(a), S(b), S(c), S(d), 0);
    AddNothing(Unmix(Unpack(w)));
    NoKey(Td0(S(a)), Td1(S(b)), Td2(S(c)), Td3(S(d)));
    PackUnpack(FourWords(Td0(S(a)), Td1(S(b)), Td2(S(c)), Td3(S(d))), Unpack(w));
  }

  lemma LowByte(x: bv8)
    ensures Byte3(Te4(x)) == S(x)
  {
    hide S, Word, Byte0, Byte1, Byte2, Byte3;
    WordBytes(S(x), S(x), S(x), S(x));
  }

  lemma AddNothing(c: Column)
    ensures Add(c, Unpack(0)) == c
  {
  }
}
