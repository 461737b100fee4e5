/**
 AES-128 as coded in src/KernelHttpLib/crypto/Aead.cpp:71-112 and 168-294, against FIPS 197. Here a
 byte is a `bv8`, because every operation is an exclusive or, a shift or a table look-up.
 */
module AesTables {
  // ---- The S-box: sixteen rows of sixteen bytes, first byte leftmost ----

  function SBoxRow(row: bv8): bv128
  {
    if row == 0 then 0x637c777b_f26b6fc5_3001672b_fed7ab76
    else if row == 1 then 0xca82c97d_fa5947f0_add4a2af_9ca472c0
    else if row == 2 then 0xb7fd9326_363ff7cc_34a5e5f1_71d83115
    else if row == 3 then 0x04c723c3_1896059a_071280e2_eb27b275
    else if row == 4 then 0x09832c1a_1b6e5aa0_523bd6b3_29e32f84
    else if row == 5 then 0x53d100ed_20fcb15b_6acbbe39_4a4c58cf
    else if row == 6 then 0xd0efaafb_434d3385_45f9027f_503c9fa8
    else if row == 7 then 0x51a3408f_929d38f5_bcb6da21_10fff3d2
    else if row == 8 then 0xcd0c13ec_5f974417_c4a77e3d_645d1973
    else if row == 9 then 0x60814fdc_222a9088_46eeb814_de5e0bdb
    else if row == 10 then 0xe0323a0a_4906245c_c2d3ac62_9195e479
    else if row == 11 then 0xe7c8376d_8dd54ea9_6c56f4ea_657aae08
    else if row == 12 then 0xba78252e_1ca6b4c6_e8dd741f_4bbd8b8a
    else if row == 13 then 0x703eb566_4803f60e_613557b9_86c11d9e
    else if row == 14 then 0xe1f89811_69d98e94_9b1e87e9_ce5528df
    else 0x8ca1890d_bfe64268_41992d0f_b054bb16
  }

  /** The inverse table of FIPS 197, section 5.3.2. */
  function InverseSBoxRow(row: bv8): bv128
  {
    if row == 0 then 0x52096ad5_3036a538_bf40a39e_81f3d7fb
    else if row == 1 then 0x7ce33982_9b2fff87_348e4344_c4dee9cb
    else if row == 2 then 0x547b9432_a6c2233d_ee4c950b_42fac34e
    else if row == 3 then 0x082ea166_28d924b2_765ba249_6d8bd125
    else if row == 4 then 0x72f8f664_86689816_d4a45ccc_5d65b692
    else if row == 5 then 0x6c704850_fdedb9da_5e154657_a78d9d84
    else if row == 6 then 0x90d8ab00_8cbcd30a_f7e45805_b8b34506
    else if row == 7 then 0xd02c1e8f_ca3f0f02_c1afbd03_01138a6b
    else if row == 8 then 0x3a911141_4f67dcea_97f2cfce_f0b4e673
    else if row == 9 then 0x96ac7422_e7ad3585_e2f937e8_1c75df6e
    else if row == 10 then 0x47f11a71_1d29c589_6fb7620e_aa18be1b
    else if row == 11 then 0xfc563e4b_c6d27920_9adbc0fe_78cd5af4
    else if row == 12 then 0x1fdda833_8807c731_b1121059_2780ec5f
    else if row == 13 then 0x60517fa9_19b54a0d_2de57a9f_93c99cef
    else if row == 14 then 0xa0e03b4d_ae2af5b0_c8ebbb3c_83539961
    else 0x172b047e_ba77d626_e1691463_55210c7d
  }

  function ByteOfRow(row: bv128, column: bv8): bv8
  {
    ((row >> ((15 - (column & 0xf)) << 3)) & 0xff) as bv8
  }

  function SBox(x: bv8): bv8
  {
    ByteOfRow(SBoxRow(x >> 4), x & 0xf)
  }

  function InverseSBox(x: bv8): bv8
  {
    ByteOfRow(InverseSBoxRow(x >> 4), x & 0xf)
  }

  // ---- What the table has to be: FIPS 197, sections 4.2 and 5.1.1 ----

  /** AesGfMul2: multiplication by x in GF(2^8). */
  function XTime(v: bv8): bv8
  {
    (v << 1) ^ (if v & 0x80 != 0 then 0x1b else 0)
  }

  function WhenBit(b: bv8, x: bv8): bv8
  {
    if b & 1 != 0 then x else 0
  }

  /** Multiplication in GF(2^8): the multiples of a by powers of x that the bits of b select. */
  function GfMul(a: bv8, b: bv8): bv8
  {
    var a1 := XTime(a);
    var a2 := XTime(a1);
    var a3 := XTime(a2);
    var a4 := XTime(a3);
    var a5 := XTime(a4);
    var a6 := XTime(a5);
    var a7 := XTime(a6);
    WhenBit(b, a) ^ WhenBit(b >> 1, a1) ^ WhenBit(b >> 2, a2) ^ WhenBit(b >> 3, a3)
    ^ WhenBit(b >> 4, a4) ^ WhenBit(b >> 5, a5) ^ WhenBit(b >> 6, a6) ^ WhenBit(b >> 7, a7)
  }

  function Rotate(x: bv8, k: bv8): bv8
    requires k < 8
  {
    (x << k) | (x >> (8 - k))
  }

  /** The affine map of section 5.1.1 and its inverse. */
  function Affine(x: bv8): bv8
  {
    x ^ Rotate(x, 1) ^ Rotate(x, 2) ^ Rotate(x, 3) ^ Rotate(x, 4) ^ 0x63
  }

  function InverseAffine(x: bv8): bv8
  {
    Rotate(x, 1) ^ Rotate(x, 3) ^ Rotate(x, 6) ^ 5
  }

  lemma AffineIsInvertible(x: bv8)
    ensures Affine(InverseAffine(x)) == x && InverseAffine(Affine(x)) == x
  {
  }

  /**
   Every entry of the table is the affine image of the multiplicative inverse of its index
   (of zero for index zero).
   */
  lemma SBoxIsAffineOfInverse(x: bv8, y: bv8)
    requires y == InverseAffine(SBox(x))
    ensures SBox(x) == Affine(y)
    ensures if x == 0 then y == 0 else GfMul(y, x) == 1
  {
    hide GfMul, InverseAffine, Affine, SBox;
    AffineIsInvertible(SBox(x));
    RowsOfTable(x);
  }

  lemma RowsOfTable(x: bv8)
    ensures if x == 0 then InverseAffine(SBox(x)) == 0 else GfMul(InverseAffine(SBox(x)), x) == 1
  {
    hide GfMul, InverseAffine, SBox;
    if x >> 6 == 0 {
      Rows0(x);
    } else if x >> 6 == 1 {
      Rows1(x);
    } else if x >> 6 == 2 {
      Rows2(x);
    } else {
      Rows3(x);
    }
  }

  lemma Rows0(x: bv8)
    requires x >> 6 == 0
    ensures if x == 0 then InverseAffine(SBox(x)) == 0 else GfMul(InverseAffine(SBox(x)), x) == 1
  {
  }

  lemma Rows1(x: bv8)
    requires x >> 6 == 1
    ensures if x == 0 then InverseAffine(SBox(x)) == 0 else GfMul(InverseAffine(SBox(x)), x) == 1
  {
  }

  lemma Rows2(x: bv8)
    requires x >> 6 == 2
    ensures if x == 0 then InverseAffine(SBox(x)) == 0 else GfMul(InverseAffine(SBox(x)), x) == 1
  {
  }

  lemma Rows3(x: bv8)
    requires x >> 6 == 3
    ensures if x == 0 then InverseAffine(SBox(x)) == 0 else GfMul(InverseAffine(SBox(x)), x) == 1
  {
  }

  /** The two tables undo each other, so substitution is a permutation of bytes. */
  lemma SBoxIsInvertible(x: bv8)
    ensures InverseSBox(SBox(x)) == x && SBox(InverseSBox(x)) == x
  {
    hide SBox, InverseSBox;
    if x >> 6 == 0 {
      Quarter0(x);
      InverseQuarter0(x);
    } else if x >> 6 == 1 {
      Quarter1(x);
      InverseQuarter1(x);
    } else if x >> 6 == 2 {
      Quarter2(x);
      InverseQuarter2(x);
    } else {
      Quarter3(x);
      InverseQuarter3(x);
    }
  }

  lemma Quarter0(x: bv8)
    requires x >> 6 == 0
    ensures InverseSBox(SBox(x)) == x
  {
  }

  lemma Quarter1(x: bv8)
    requires x >> 6 == 1
    ensures InverseSBox(SBox(x)) == x
  {
  }

  lemma Quarter2(x: bv8)
    requires x >> 6 == 2
    ensures InverseSBox(SBox(x)) == x
  {
  }

  lemma Quarter3(x: bv8)
    requires x >> 6 == 3
    ensures InverseSBox(SBox(x)) == x
  {
  }

  lemma InverseQuarter0(x: bv8)
    requires x >> 6 == 0
    ensures SBox(InverseSBox(x)) == x
  {
  }

  lemma InverseQuarter1(x: bv8)
    requires x >> 6 == 1
    ensures SBox(InverseSBox(x)) == x
  {
  }

  lemma InverseQuarter2(x: bv8)
    requires x >> 6 == 2
    ensures SBox(InverseSBox(x)) == x
  {
  }

  lemma InverseQuarter3(x: bv8)
    requires x >> 6 == 3
    ensures SBox(InverseSBox(x)) == x
  {
  }
}
