/**
 The number-level side of Poly1305 (section 2.5 of RFC 8439): what a vector of five 26-bit
 limbs denotes, and why each word operation of Aead.cpp keeps the denoted residue.
 */
module Poly1305Words {
  import opened Bits
  import opened Bytes

  type u32 = x: nat | x < 0x1_0000_0000
  type u64 = x: nat | x < 0x1_0000_0000_0000_0000

  /** 2^130 - 5 */
  const P: nat := 0x3_ffff_ffff_ffff_ffff_ffff_ffff_ffff_fffb

  datatype Limbs = Limbs(l0: nat, l1: nat, l2: nat, l3: nat, l4: nat) {
    function Value(): (v: nat)
    {
      l0 + 0x400_0000 * l1 + 0x10_0000_0000_0000 * l2 + 0x4000_0000_0000_0000_0000 * l3
      + 0x100_0000_0000_0000_0000_0000_0000 * l4
    }

    predicate Canonical()
    {
      l0 < 0x400_0000 && l1 < 0x400_0000 && l2 < 0x400_0000 && l3 < 0x400_0000 && l4 < 0x400_0000
    }

    /** What holds between blocks: the last carry into l1 is left there. */
    predicate Reduced()
    {
      l0 < 0x400_0000 && l1 < 0x400_0000 + 64 && l2 < 0x400_0000 && l3 < 0x400_0000 && l4 < 0x400_0000
    }

    /** What holds once a block has been added. */
    predicate Loaded()
    {
      l0 < 0x800_0000 && l1 < 0x800_0000 + 64 && l2 < 0x800_0000 && l3 < 0x800_0000 && l4 < 0x800_0000
    }
  }

  /** `x & 0x3ffffff` */
  function Low26(x: nat): nat
  {
    x % 0x400_0000
  }

  /** `x >> 26` */
  function High26(x: nat): nat
  {
    x / 0x400_0000
  }

  function Low32(x: nat): u32
  {
    x % 0x1_0000_0000
  }

  function Low64(x: nat): u64
  {
    x % 0x1_0000_0000_0000_0000
  }

  lemma Fits32(x: nat)
    requires x < 0x1_0000_0000
    ensures Low32(x) == x
  {
  }

  function Word(b0: nat, b1: nat, b2: nat, b3: nat): nat
  {
    b0 + 0x100 * b1 + 0x1_0000 * b2 + 0x100_0000 * b3
  }

  function ReadLittleEndian32(s: seq<byte>, i: nat): (w: u32)
    requires i + 4 <= |s|
  {
    Word(s[i], s[i + 1], s[i + 2], s[i + 3])
  }

  /** The remainder, the quotient and the sum above are the mask, the shift and the OR of shifted bytes. */
  lemma WordOperations(x: nat, b0: byte, b1: byte, b2: byte, b3: byte)
    ensures Low26(x) == BitAnd(x, 0x3ff_ffff) && High26(x) == Shr(x, 26)
    ensures Word(b0, b1, b2, b3)
         == BitOr(BitOr(BitOr(b0, Shl(b1, 8, 32)), Shl(b2, 16, 32)), Shl(b3, 24, 32))
  {
    Pow2Values();
    AndLowMask(x, 26);
    ShrDivides(x, 26);
    var n0: nat, n1: nat, n2: nat, n3: nat := b0, b1, b2, b3;
    OrOfBytes(n0, n1, n2, n3);
  }

  lemma OrOfBytes(b0: nat, b1: nat, b2: nat, b3: nat)
    requires b0 < 256 && b1 < 256 && b2 < 256 && b3 < 256
    ensures BitOr(BitOr(BitOr(b0, Shl(b1, 8, 32)), Shl(b2, 16, 32)), Shl(b3, 24, 32))
         == Word(b0, b1, b2, b3)
  {
    Pow2Values();
    ShlFits(b1, 8, 32);
    ShlFits(b2, 16, 32);
    ShlFits(b3, 24, 32);
    OrDisjoint(b0, b1, 8);
    OrDisjoint(b0 + 0x100 * b1, b2, 16);
    OrDisjoint(b0 + 0x100 * b1 + 0x1_0000 * b2, b3, 24);
  }

  lemma LeValueOfWord(s: seq<byte>)
    requires |s| >= 4
    ensures LeValue(s) == ReadLittleEndian32(s, 0) + 0x1_0000_0000 * LeValue(s[4..])
  {
    assert s[1..][1..] == s[2..] && s[2..][1..] == s[3..] && s[3..][1..] == s[4..];
    assert LeValue(s[3..]) == s[3] + 256 * LeValue(s[4..]);
    assert LeValue(s[2..]) == s[2] + 256 * LeValue(s[3..]);
    assert LeValue(s[1..]) == s[1] + 256 * LeValue(s[2..]);
  }

  lemma LeValueOfFourWords(s: seq<byte>)
    requires |s| >= 16
    ensures LeValue(s) == ReadLittleEndian32(s, 0) + 0x1_0000_0000 * ReadLittleEndian32(s, 4)
                          + 0x1_0000_0000_0000_0000 * ReadLittleEndian32(s, 8)
                          + 0x1_0000_0000_0000_0000_0000_0000 * ReadLittleEndian32(s, 12)
                          + 0x1_0000_0000_0000_0000_0000_0000_0000_0000 * LeValue(s[16..])
  {
    LeValueOfWord(s);
    LeValueOfWord(s[4..]);
    assert s[4..][4..] == s[8..] && s[8..][4..] == s[12..] && s[12..][4..] == s[16..];
    LeValueOfWord(s[8..]);
    LeValueOfWord(s[12..]);
  }

  // ---- Reading a block into limbs (Aead.cpp:586-597) ----

  /** The five overlapping reads of the 17-byte padded block. */
  function BlockLimbs(padded: seq<byte>): Limbs
    requires |padded| == 17
  {
    Limbs(Low26(ReadLittleEndian32(padded, 0)),
          Low26(ReadLittleEndian32(padded, 3) / 4),
          Low26(ReadLittleEndian32(padded, 6) / 16),
          Low26(ReadLittleEndian32(padded, 9) / 64),
          Low26(ReadLittleEndian32(padded, 13)))
  }

  /** The reads with the shifts and masks of the code. */
  lemma BlockLimbsAsWritten(padded: seq<byte>)
    requires |padded| == 17
    ensures BlockLimbs(padded)
         == Limbs(BitAnd(ReadLittleEndian32(padded, 0), 0x3ff_ffff),
                  BitAnd(Shr(ReadLittleEndian32(padded, 3), 2), 0x3ff_ffff),
                  BitAnd(Shr(ReadLittleEndian32(padded, 6), 4), 0x3ff_ffff),
                  BitAnd(Shr(ReadLittleEndian32(padded, 9), 6), 0x3ff_ffff),
                  BitAnd(ReadLittleEndian32(padded, 13), 0x3ff_ffff))
  {
    hide ReadLittleEndian32;
    var w0, w1, w2 := ReadLittleEndian32(padded, 0), ReadLittleEndian32(padded, 3), ReadLittleEndian32(padded, 6);
    var w3, w4 := ReadLittleEndian32(padded, 9), ReadLittleEndian32(padded, 13);
    assert Pow2(2) == 4 && Pow2(4) == 16 && Pow2(6) == 64;
    ShrDivides(w1, 2);
    ShrDivides(w2, 4);
    ShrDivides(w3, 6);
    MaskIsLow26(w0);
    MaskIsLow26(w1 / 4);
    MaskIsLow26(w2 / 16);
    MaskIsLow26(w3 / 64);
    MaskIsLow26(w4);
  }

  lemma MaskIsLow26(x: nat)
    ensures BitAnd(x, 0x3ff_ffff) == Low26(x)
  {
    Pow2Values();
    AndLowMask(x, 26);
  }

  lemma BlockLimbsValue(p: seq<byte>)
    requires |p| == 17 && p[16] <= 1
    ensures BlockLimbs(p).Canonical() && BlockLimbs(p).Value() == LeValue(p)
  {
    LeValueOfFourWords(p);
    assert p[16..] == [p[16]] && LeValue([p[16]]) == p[16];
    var x := BlockLimbs(p);
    SplitWord(p[0], p[1], p[2], p[3]);
    MiddleLimb(p[3], p[4], p[5], p[6]);
    MiddleLimb16(p[6], p[7], p[8], p[9]);
    MiddleLimb64(p[9], p[10], p[11], p[12]);
    TopLimb(p[13], p[14], p[15], p[16]);
    LimbsOfBytes(x, p[0], p[1], p[2], p[3], p[4], p[5], p[6], p[7], p[8], p[9],
                 p[10], p[11], p[12], p[13], p[14], p[15], p[16]);
  }

  lemma LimbsOfBytes(x: Limbs, b0: nat, b1: nat, b2: nat, b3: nat, b4: nat, b5: nat, b6: nat, b7: nat, b8: nat,
                     b9: nat, b10: nat, b11: nat, b12: nat, b13: nat, b14: nat, b15: nat, b16: nat)
    requires x.l0 == b0 + 0x100 * b1 + 0x1_0000 * b2 + 0x100_0000 * (b3 % 4)
    requires x.l1 == b3 / 4 + 0x40 * b4 + 0x4000 * b5 + 0x40_0000 * (b6 % 16)
    requires x.l2 == b6 / 16 + 0x10 * b7 + 0x1000 * b8 + 0x10_0000 * (b9 % 64)
    requires x.l3 == b9 / 64 + 4 * b10 + 0x400 * b11 + 0x4_0000 * b12
    requires x.l4 == Word(b13, b14, b15, b16)
    ensures x.Value() == Word(b0, b1, b2, b3) + 0x1_0000_0000 * Word(b4, b5, b6, b7)
                         + 0x1_0000_0000_0000_0000 * Word(b8, b9, b10, b11)
                         + 0x1_0000_0000_0000_0000_0000_0000 * Word(b12, b13, b14, b15)
                         + 0x1_0000_0000_0000_0000_0000_0000_0000_0000 * b16
  {
    assert b3 == 4 * (b3 / 4) + b3 % 4 && b6 == 16 * (b6 / 16) + b6 % 16 && b9 == 64 * (b9 / 64) + b9 % 64;
  }

  lemma TopLimb(a: nat, b: nat, c: nat, d: nat)
    requires a < 256 && b < 256 && c < 256 && d <= 1
    ensures Word(a, b, c, d) % 0x400_0000 == Word(a, b, c, d)
  {
  }

  lemma SplitWord(a: nat, b: nat, c: nat, d: nat)
    requires a < 256 && b < 256 && c < 256 && d < 256
    ensures Word(a, b, c, d) % 0x400_0000
         == a + 0x100 * b + 0x1_0000 * c + 0x100_0000 * (d % 4)
  {
  }

  lemma MiddleLimb(a: nat, b: nat, c: nat, d: nat)
    requires a < 256 && b < 256 && c < 256 && d < 256
    ensures Word(a, b, c, d) / 4 % 0x400_0000
         == a / 4 + 0x40 * b + 0x4000 * c + 0x40_0000 * (d % 16)
  {
    var x := a / 4 + 0x40 * b + 0x4000 * c + 0x40_0000 * d;
    QuotientIsUnique(Word(a, b, c, d), 4, x, a % 4);
    QuotientIsUnique(x, 0x400_0000, d / 16, a / 4 + 0x40 * b + 0x4000 * c + 0x40_0000 * (d % 16));
  }

  lemma MiddleLimb16(a: nat, b: nat, c: nat, d: nat)
    requires a < 256 && b < 256 && c < 256 && d < 256
    ensures Word(a, b, c, d) / 16 % 0x400_0000
         == a / 16 + 0x10 * b + 0x1000 * c + 0x10_0000 * (d % 64)
  {
    var x := a / 16 + 0x10 * b + 0x1000 * c + 0x10_0000 * d;
    QuotientIsUnique(Word(a, b, c, d), 16, x, a % 16);
    QuotientIsUnique(x, 0x400_0000, d / 64, a / 16 + 0x10 * b + 0x1000 * c + 0x10_0000 * (d % 64));
  }

  lemma MiddleLimb64(a: nat, b: nat, c: nat, d: nat)
    requires a < 256 && b < 256 && c < 256 && d < 256
    ensures Word(a, b, c, d) / 64 % 0x400_0000
         == a / 64 + 4 * b + 0x400 * c + 0x4_0000 * d
  {
    var x := a / 64 + 4 * b + 0x400 * c + 0x4_0000 * d;
    QuotientIsUnique(Word(a, b, c, d), 64, x, a % 64);
    QuotientIsUnique(x, 0x400_0000, 0, a / 64 + 4 * b + 0x400 * c + 0x4_0000 * d);
  }

  /** `h[i] += values[i]` on 32-bit words. */
  function AddLimbs(h: Limbs, v: Limbs): Limbs
  {
    Limbs(Low32(h.l0 + v.l0), Low32(h.l1 + v.l1), Low32(h.l2 + v.l2), Low32(h.l3 + v.l3), Low32(h.l4 + v.l4))
  }

  lemma AddLimbsIsExact(h: Limbs, v: Limbs)
    requires h.Reduced() && v.Canonical()
    ensures AddLimbs(h, v).Loaded() && AddLimbs(h, v).Value() == h.Value() + v.Value()
  {
    Fits32(h.l0 + v.l0);
    Fits32(h.l1 + v.l1);
    Fits32(h.l2 + v.l2);
    Fits32(h.l3 + v.l3);
    Fits32(h.l4 + v.l4);
  }

  // ---- Multiplying by r and carrying (Aead.cpp:605-657) ----

  lemma ScaleLimbs(a: nat, x: Limbs)
    ensures a * x.Value() == Limbs(a * x.l0, a * x.l1, a * x.l2, a * x.l3, a * x.l4).Value()
  {
  }

  /** A row of the schoolbook product, before it is reduced to 64 bits. */
  function Row(h: Limbs, x0: nat, x1: nat, x2: nat, x3: nat, x4: nat): nat
  {
    h.l0 * x0 + h.l1 * x1 + h.l2 * x2 + h.l3 * x3 + h.l4 * x4
  }

  /** The five sums; the factors 5 stand for 2^130 modulo P. */
  function Rows(h: Limbs, r: Limbs): Limbs
  {
    Limbs(Row(h, r.l0, 5 * r.l4, 5 * r.l3, 5 * r.l2, 5 * r.l1),
          Row(h, r.l1, r.l0, 5 * r.l4, 5 * r.l3, 5 * r.l2),
          Row(h, r.l2, r.l1, r.l0, 5 * r.l4, 5 * r.l3),
          Row(h, r.l3, r.l2, r.l1, r.l0, 5 * r.l4),
          Row(h, r.l4, r.l3, r.l2, r.l1, r.l0))
  }

  /** Multiplying by 2^26 moves every limb up; the top one comes back times 5. */
  function Shift(x: Limbs): Limbs
  {
    Limbs(5 * x.l4, x.l0, x.l1, x.l2, x.l3)
  }

  lemma ShiftMultiplies(x: Limbs)
    ensures 0x400_0000 * x.Value() == Shift(x).Value() + P * x.l4
  {
  }

  /** If b * v is w modulo P, then (2^26 * b) * v is 2^26 * w modulo P. */
  lemma ShiftTerm(b: nat, v: nat, x: Limbs, q: nat)
    requires b * v == x.Value() + P * q
    ensures 0x400_0000 * b * v == Shift(x).Value() + P * (x.l4 + 0x400_0000 * q)
  {
    MulAssoc(0x400_0000, b, v);
    ShiftMultiplies(x);
  }

  lemma ScaleTerm(h: nat, b: nat, v: nat, w: nat, q: nat)
    requires b * v == w + P * q
    ensures b * h * v == h * w + P * (h * q)
  {
    assert b * h * v == h * (b * v);
    assert h * (w + P * q) == h * w + P * (h * q);
  }

  lemma DistributeLimbs(h: Limbs, v: nat)
    ensures h.Value() * v == 1 * h.l0 * v + 0x400_0000 * h.l1 * v + 0x10_0000_0000_0000 * h.l2 * v
                             + 0x4000_0000_0000_0000_0000 * h.l3 * v
                             + 0x100_0000_0000_0000_0000_0000_0000 * h.l4 * v
  {
  }

  lemma RowsAreScaledShifts(h: Limbs, r: Limbs, x1: Limbs, x2: Limbs, x3: Limbs, x4: Limbs)
    requires x1 == Shift(r) && x2 == Shift(x1) && x3 == Shift(x2) && x4 == Shift(x3)
    ensures Rows(h, r).Value()
         == h.l0 * r.Value() + h.l1 * x1.Value() + h.l2 * x2.Value() + h.l3 * x3.Value() + h.l4 * x4.Value()
  {
    ScaleLimbs(h.l0, r);
    ScaleLimbs(h.l1, x1);
    ScaleLimbs(h.l2, x2);
    ScaleLimbs(h.l3, x3);
    ScaleLimbs(h.l4, x4);
  }

  /** The limbs of h times 2^(26 * i) * v, each term replaced by an equal one modulo P. */
  lemma ScaledSum(h: Limbs, v: nat, w1: nat, w2: nat, w3: nat, w4: nat, q1: nat, q2: nat, q3: nat, q4: nat)
    returns (q: nat)
    requires 0x400_0000 * v == w1 + P * q1
    requires 0x10_0000_0000_0000 * v == w2 + P * q2
    requires 0x4000_0000_0000_0000_0000 * v == w3 + P * q3
    requires 0x100_0000_0000_0000_0000_0000_0000 * v == w4 + P * q4
    ensures h.Value() * v == h.l0 * v + h.l1 * w1 + h.l2 * w2 + h.l3 * w3 + h.l4 * w4 + P * q
  {
    DistributeLimbs(h, v);
    ScaleTerm(h.l1, 0x400_0000, v, w1, q1);
    ScaleTerm(h.l2, 0x10_0000_0000_0000, v, w2, q2);
    ScaleTerm(h.l3, 0x4000_0000_0000_0000_0000, v, w3, q3);
    ScaleTerm(h.l4, 0x100_0000_0000_0000_0000_0000_0000, v, w4, q4);
    q := h.l1 * q1 + h.l2 * q2 + h.l3 * q3 + h.l4 * q4;
  }

  lemma RowsAreProduct(h: Limbs, r: Limbs) returns (q: nat)
    ensures h.Value() * r.Value() == Rows(h, r).Value() + P * q
  {
    var v := r.Value();
    var x1 := Shift(r);
    var x2 := Shift(x1);
    var x3 := Shift(x2);
    var x4 := Shift(x3);
    var q1 := r.l4;
    var q2 := x1.l4 + 0x400_0000 * q1;
    var q3 := x2.l4 + 0x400_0000 * q2;
    var q4 := x3.l4 + 0x400_0000 * q3;
    ShiftTerm(1, v, r, 0);
    ShiftTerm(0x400_0000, v, x1, q1);
    ShiftTerm(0x10_0000_0000_0000, v, x2, q2);
    ShiftTerm(0x4000_0000_0000_0000_0000, v, x3, q3);
    q := ScaledSum(h, v, x1.Value(), x2.Value(), x3.Value(), x4.Value(), q1, q2, q3, q4);
    RowsAreScaledShifts(h, r, x1, x2, x3, x4);
  }

  lemma RowBound(h: Limbs, x0: nat, x1: nat, x2: nat, x3: nat, x4: nat)
    requires h.Loaded()
    ensures Row(h, x0, x1, x2, x3, x4) <= 0x800_003f * (x0 + x1 + x2 + x3 + x4)
  {
    ProductBound(h.l0, x0);
    ProductBound(h.l1, x1);
    ProductBound(h.l2, x2);
    ProductBound(h.l3, x3);
    ProductBound(h.l4, x4);
  }

  lemma ProductBound(a: nat, x: nat)
    requires a <= 0x800_003f
    ensures a * x <= 0x800_003f * x
  {
  }

  /** No 64-bit sum loses a bit, and each carry out of a row fits a ULONG, even times 5 for the last. */
  lemma RowsFit(h: Limbs, r: Limbs)
    requires h.Loaded() && r.Canonical()
    ensures var d := Rows(h, r);
            && d.l0 < 0x3ff_0000_0000_0000 && d.l1 < 0x3ff_0000_0000_0000 && d.l2 < 0x3ff_0000_0000_0000
            && d.l3 < 0x3ff_0000_0000_0000 && d.l4 < 0xb0_0000_0000_0000
  {
    RowBound(h, r.l0, 5 * r.l4, 5 * r.l3, 5 * r.l2, 5 * r.l1);
    RowBound(h, r.l1, r.l0, 5 * r.l4, 5 * r.l3, 5 * r.l2);
    RowBound(h, r.l2, r.l1, r.l0, 5 * r.l4, 5 * r.l3);
    RowBound(h, r.l3, r.l2, r.l1, r.l0, 5 * r.l4);
    RowBound(h, r.l4, r.l3, r.l2, r.l1, r.l0);
  }

  /** One carry: the truncations of the code lose nothing below 2^58. */
  lemma CarryStep(d: nat)
    requires d < 0x400_0000_0000_0000
    ensures Low64(d) == d && Low32(High26(d)) == High26(d) && Low26(Low32(d)) == Low26(d)
    ensures d == 0x400_0000 * High26(d) + Low26(d)
  {
  }

  /** The carry chain of one block: c are the carries, m the limbs that stay. */
  lemma CarriedValue(d: Limbs, m: Limbs, c0: nat, c1: nat, c2: nat, c3: nat, c4: nat, x: Limbs)
    requires m.Canonical() && c4 <= 0x3000_0000
    requires d.l0 == 0x400_0000 * c0 + m.l0
    requires d.l1 + c0 == 0x400_0000 * c1 + m.l1
    requires d.l2 + c1 == 0x400_0000 * c2 + m.l2
    requires d.l3 + c2 == 0x400_0000 * c3 + m.l3
    requires d.l4 + c3 == 0x400_0000 * c4 + m.l4
    requires x == m.(l0 := (m.l0 + 5 * c4) % 0x400_0000, l1 := m.l1 + (m.l0 + 5 * c4) / 0x400_0000)
    ensures d.Value() == x.Value() + P * c4 && x.Reduced()
  {
    assert m.l0 + 5 * c4 == 0x400_0000 * ((m.l0 + 5 * c4) / 0x400_0000) + (m.l0 + 5 * c4) % 0x400_0000;
  }

  lemma SameResidue(a: int, b: int, q: int)
    requires a == b + P * q
    ensures a % P == b % P
  {
    var d := a / P - b / P - q;
    assert P * d == b % P - a % P;
  }

  lemma ResidueOfFactor(v: nat, b: nat, r: nat)
    ensures (v % P + b) * r % P == (v + b) * r % P
  {
    assert v + b == v % P + b + P * (v / P);
    ScaleSum(v % P + b, P, v / P, r);
    SameResidue((v + b) * r, (v % P + b) * r, v / P * r);
  }

  lemma ScaleSum(a: int, p: int, k: int, r: int)
    ensures (a + p * k) * r == a * r + p * (k * r)
  {
  }

  // ---- The final reduction (Aead.cpp:697-731) ----

  /**
   The last carry pass. A carry can only start in l1, and if it does l1 keeps less than 64, so the
   carry coming back through l0 cannot overflow it again.
   */
  lemma FinalCarryValue(h: Limbs, c1: nat, m1: nat, c2: nat, m2: nat, c3: nat, m3: nat, c4: nat, m4: nat, x: Limbs)
    requires h.Reduced()
    requires h.l1 == 0x400_0000 * c1 + m1 && m1 < 0x400_0000
    requires h.l2 + c1 == 0x400_0000 * c2 + m2 && m2 < 0x400_0000
    requires h.l3 + c2 == 0x400_0000 * c3 + m3 && m3 < 0x400_0000
    requires h.l4 + c3 == 0x400_0000 * c4 + m4 && m4 < 0x400_0000
    requires x == Limbs((h.l0 + 5 * c4) % 0x400_0000, m1 + (h.l0 + 5 * c4) / 0x400_0000, m2, m3, m4)
    ensures x.Canonical() && h.Value() == x.Value() + P * c4
  {
    assert c1 <= 1 && (c1 == 1 ==> m1 < 64) && c4 <= c3 <= c2 <= c1;
    var n := h.l0 + 5 * c4;
    assert n == 0x400_0000 * (n / 0x400_0000) + n % 0x400_0000;
    assert c4 == 0 ==> n / 0x400_0000 == 0;
    assert n / 0x400_0000 <= 1;
  }

  /** Weight of limb k, and the part of a value below it. */
  function Weight(k: nat): nat
    requires k <= 4
  {
    if k == 0 then 1 else if k == 1 then 0x400_0000 else if k == 2 then 0x10_0000_0000_0000
    else if k == 3 then 0x4000_0000_0000_0000_0000 else 0x100_0000_0000_0000_0000_0000_0000
  }

  function Below(x: Limbs, k: nat): nat
    requires k <= 4
  {
    if k == 0 then 0 else if k == 1 then x.l0 else if k == 2 then x.l0 + 0x400_0000 * x.l1
    else if k == 3 then x.l0 + 0x400_0000 * x.l1 + 0x10_0000_0000_0000 * x.l2
    else x.l0 + 0x400_0000 * x.l1 + 0x10_0000_0000_0000 * x.l2 + 0x4000_0000_0000_0000_0000 * x.l3
  }

  /** `(g4 >> 31) - 1` is all ones when h + 5 reaches 2^130, else zero. */
  function SelectionMask(g4: nat): nat
  {
    Low32(g4 / 0x8000_0000 + 0xffff_ffff)
  }

  /** The mask is `(g4 >> 31) - 1` in 32 bits. */
  lemma SelectionMaskAsWritten(g4: nat)
    ensures SelectionMask(g4) == (Shr(g4, 31) - 1) % 0x1_0000_0000
  {
    Pow2Values();
    assert Pow2(31) == 2 * Pow2(30);
    ShrDivides(g4, 31);
  }

  function TopDifference(h4: nat, carry: nat): nat
  {
    Low32(h4 + carry + 0x1_0000_0000 - 0x400_0000)
  }

  lemma TopDifferenceSign(h4: nat, carry: nat)
    requires h4 < 0x400_0000 && carry <= 1
    ensures SelectionMask(TopDifference(h4, carry)) == (if h4 + carry < 0x400_0000 then 0 else 0xffff_ffff)
    ensures h4 + carry >= 0x400_0000 ==> TopDifference(h4, carry) == h4 + carry - 0x400_0000
  {
  }

  /** `(h & ~mask) | (g & mask)` */
  function Select(h: nat, g: nat, mask: nat): nat
    requires mask <= 0xffff_ffff
  {
    BitOr(BitAnd(h, 0xffff_ffff - mask), BitAnd(g, mask))
  }

  lemma SelectPicks(h: nat, g: nat, mask: nat)
    requires mask == 0 || mask == 0xffff_ffff
    requires h < 0x1_0000_0000 && g < 0x1_0000_0000
    ensures Select(h, g, mask) == if mask == 0 then h else g
  {
    Pow2Values();
    AndLowMask(h, 32);
    AndLowMask(g, 32);
    assert BitAnd(h, 0) == 0 && BitAnd(g, 0) == 0;
    OrZero(h);
    OrZero(g);
    Fits32(h);
    Fits32(g);
  }

  /** Subtracting P once, or not at all, leaves the residue. */
  lemma ResidueBySelection(h: Limbs, g: Limbs, carry: nat, x: Limbs)
    requires h.Canonical() && carry <= 1
    requires g.l0 < 0x400_0000 && g.l1 < 0x400_0000 && g.l2 < 0x400_0000 && g.l3 < 0x400_0000
    requires Below(g, 4) + carry * Weight(4) == Below(h, 4) + 5
    requires if h.l4 + carry < 0x400_0000 then x == h else x == g && g.l4 == h.l4 + carry - 0x400_0000
    ensures x.Canonical() && x.Value() == h.Value() % P
  {
    if h.l4 + carry < 0x400_0000 {
      assert h.Value() < P;
      SmallRemainder(h.Value(), P);
    } else {
      assert h.Value() == x.Value() + P;
      assert x.Value() < P;
      SameResidue(h.Value(), x.Value(), 1);
      SmallRemainder(x.Value(), P);
    }
  }

  // ---- The tag words (Aead.cpp:733-756) ----

  /** The low 32 bits of a limb without its last bits, with the next limb above it. */
  function Glued(low: nat, m: nat, high: nat, p: nat): nat
    requires m > 0
  {
    (low / m + high * p) % 0x1_0000_0000
  }

  /** `((low >> s) | (high << (26 - s))) & 0xffffffff` in 64 bits; no bits overlap. */
  lemma Recombine(low: nat, high: nat, s: nat, p: nat, m: nat)
    requires s <= 18 && p == Pow2(26 - s) && m == Pow2(s) && low < 0x400_0000 && high < 0x400_0000
    requires high * p < 0x1_0000_0000_0000_0000 && low / m < p
    ensures BitAnd(BitOr(Shr(low, s), Shl(high, 26 - s, 64)), 0xffff_ffff) == Glued(low, m, high, p)
  {
    Pow2Values();
    ShrDivides(low, s);
    ShlValue(high, 26 - s, 64, p, 0x1_0000_0000_0000_0000);
    OrDisjoint(low / m, high, 26 - s);
    AndLowMask(low / m + high * p, 32);
  }

  lemma TagWords(h: Limbs)
    requires h.Canonical()
    ensures Glued(h.l0, 1, h.l1, 0x400_0000)
            + 0x1_0000_0000 * Glued(h.l1, 0x40, h.l2, 0x10_0000)
            + 0x1_0000_0000_0000_0000 * Glued(h.l2, 0x1000, h.l3, 0x4000)
            + 0x1_0000_0000_0000_0000_0000_0000 * Glued(h.l3, 0x4_0000, h.l4, 0x100)
         == h.Value() % 0x1_0000_0000_0000_0000_0000_0000_0000_0000
  {
    hide Limbs.Value, Glued;
    GlueWord(h.l0, 1, h.l1, 0x400_0000, 0x40);
    GlueWord(h.l1, 0x40, h.l2, 0x10_0000, 0x1000);
    GlueWord(h.l2, 0x1000, h.l3, 0x4000, 0x4_0000);
    GlueWord(h.l3, 0x4_0000, h.l4, 0x100, 0x100_0000);
    SumOfWords(h, h.l1 / 0x40, h.l1 % 0x40, h.l2 / 0x1000, h.l2 % 0x1000, h.l3 / 0x4_0000, h.l3 % 0x4_0000,
               h.l4 / 0x100_0000, h.l4 % 0x100_0000);
  }

  /** A word glued from two limbs takes all of the lower part and as much of the upper one as fits. */
  lemma GlueWord(low: nat, m: nat, high: nat, p: nat, b: nat)
    requires m > 0 && b > 0 && low / m < p && p * b == 0x1_0000_0000
    ensures Glued(low, m, high, p) == low / m + high % b * p
  {
    GlueParts(high, low / m, p, b);
  }

  lemma SumOfWords(h: Limbs, a1: nat, b1: nat, a2: nat, b2: nat, a3: nat, b3: nat, a4: nat, b4: nat)
    requires h.l0 < 0x400_0000 && h.l1 == 0x40 * a1 + b1 && h.l2 == 0x1000 * a2 + b2
    requires h.l3 == 0x4_0000 * a3 + b3 && h.l4 == 0x100_0000 * a4 + b4
    requires b1 < 0x40 && a1 < 0x10_0000 && b2 < 0x1000 && a2 < 0x4000 && b3 < 0x4_0000 && a3 < 0x100
    requires b4 < 0x100_0000
    ensures h.l0 + b1 * 0x400_0000 + 0x1_0000_0000 * (a1 + b2 * 0x10_0000)
            + 0x1_0000_0000_0000_0000 * (a2 + b3 * 0x4000)
            + 0x1_0000_0000_0000_0000_0000_0000 * (a3 + b4 * 0x100)
         == h.Value() % 0x1_0000_0000_0000_0000_0000_0000_0000_0000
  {
    var sum := h.l0 + b1 * 0x400_0000 + 0x1_0000_0000 * (a1 + b2 * 0x10_0000)
               + 0x1_0000_0000_0000_0000 * (a2 + b3 * 0x4000)
               + 0x1_0000_0000_0000_0000_0000_0000 * (a3 + b4 * 0x100);
    assert h.Value() == sum + 0x1_0000_0000_0000_0000_0000_0000_0000_0000 * a4;
    QuotientIsUnique(h.Value(), 0x1_0000_0000_0000_0000_0000_0000_0000_0000, a4, sum);
  }

  /** Adding four-word numbers word by word, dropping the carry out of the top word. */
  lemma WordwiseSum(w0: nat, w1: nat, w2: nat, w3: nat, k0: nat, k1: nat, k2: nat, k3: nat,
                    f0: nat, f1: nat, f2: nat, f3: nat)
    requires f0 == w0 + k0
    requires f1 == w1 + k1 + f0 / 0x1_0000_0000
    requires f2 == w2 + k2 + f1 / 0x1_0000_0000
    requires f3 == w3 + k3 + f2 / 0x1_0000_0000
    ensures f0 % 0x1_0000_0000 + 0x1_0000_0000 * (f1 % 0x1_0000_0000)
            + 0x1_0000_0000_0000_0000 * (f2 % 0x1_0000_0000)
            + 0x1_0000_0000_0000_0000_0000_0000 * (f3 % 0x1_0000_0000)
         == (w0 + 0x1_0000_0000 * w1 + 0x1_0000_0000_0000_0000 * w2 + 0x1_0000_0000_0000_0000_0000_0000 * w3
             + k0 + 0x1_0000_0000 * k1 + 0x1_0000_0000_0000_0000 * k2 + 0x1_0000_0000_0000_0000_0000_0000 * k3)
            % 0x1_0000_0000_0000_0000_0000_0000_0000_0000
  {
    CarriedSum(w0 + k0, w1 + k1, w2 + k2, w3 + k3, f0 / 0x1_0000_0000, f0 % 0x1_0000_0000,
               f1 / 0x1_0000_0000, f1 % 0x1_0000_0000, f2 / 0x1_0000_0000, f2 % 0x1_0000_0000,
               f3 / 0x1_0000_0000, f3 % 0x1_0000_0000);
  }

  lemma CarriedSum(s0: nat, s1: nat, s2: nat, s3: nat, c0: nat, m0: nat, c1: nat, m1: nat, c2: nat, m2: nat,
                   c3: nat, m3: nat)
    requires s0 == 0x1_0000_0000 * c0 + m0 && m0 < 0x1_0000_0000
    requires s1 + c0 == 0x1_0000_0000 * c1 + m1 && m1 < 0x1_0000_0000
    requires s2 + c1 == 0x1_0000_0000 * c2 + m2 && m2 < 0x1_0000_0000
    requires s3 + c2 == 0x1_0000_0000 * c3 + m3 && m3 < 0x1_0000_0000
    ensures m0 + 0x1_0000_0000 * m1 + 0x1_0000_0000_0000_0000 * m2 + 0x1_0000_0000_0000_0000_0000_0000 * m3
         == (s0 + 0x1_0000_0000 * s1 + 0x1_0000_0000_0000_0000 * s2 + 0x1_0000_0000_0000_0000_0000_0000 * s3)
            % 0x1_0000_0000_0000_0000_0000_0000_0000_0000
  {
    var m := m0 + 0x1_0000_0000 * m1 + 0x1_0000_0000_0000_0000 * m2 + 0x1_0000_0000_0000_0000_0000_0000 * m3;
    var s := s0 + 0x1_0000_0000 * s1 + 0x1_0000_0000_0000_0000 * s2 + 0x1_0000_0000_0000_0000_0000_0000 * s3;
    assert s == 0x1_0000_0000_0000_0000_0000_0000_0000_0000 * c3 + m;
    QuotientIsUnique(s, 0x1_0000_0000_0000_0000_0000_0000_0000_0000, c3, m);
  }
}
