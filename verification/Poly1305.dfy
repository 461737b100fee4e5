/**
 The one-time authenticator of section 2.5 of RFC 8439 (src/KernelHttpLib/crypto/Aead.cpp:577-757).
 The specification is the polynomial of the RFC; the methods are the five-limb code, statement by
 statement. Its masks and shifts are remainders and quotients here, which `WordOperations`,
 `BlockLimbsAsWritten` and `SelectionMaskAsWritten` of Poly1305Words.dfy justify.
 */
module Poly1305 {
  import opened Bits
  import opened Bytes
  import opened Poly1305Clamp
  import opened Poly1305Words

  // ---- Specification ----

  /** The number a block stands for: its bytes and a one after them. */
  function BlockValue(block: seq<byte>): nat
  {
    LeValue(block + [1])
  }

  /** Where the last block of a non-empty message starts. */
  function LastBlock(n: nat): (start: nat)
    requires n > 0
    ensures start < n <= start + 16 && start % 16 == 0
  {
    n - 1 - (n - 1) % 16
  }

  /** One step of Horner's rule. */
  function HornerStep(acc: nat, block: nat, r: nat): nat
  {
    (acc + block) * r % P
  }

  /** The accumulator after the whole message, by Horner's rule modulo 2^130 - 5. */
  function Accumulate(message: seq<byte>, r: nat): nat
    decreases |message|
  {
    if message == [] then 0
    else
      var start := LastBlock(|message|);
      HornerStep(Accumulate(message[..start], r), BlockValue(message[start..]), r)
  }

  function ClampedR(key: seq<byte>): nat
    requires |key| == 32
  {
    BitAnd(LeValue(key[..16]), CLAMP)
  }

  function Tag(key: seq<byte>, message: seq<byte>): (tag: seq<byte>)
    requires |key| == 32
    ensures |tag| == 16
  {
    LeBytes(Accumulate(message, ClampedR(key)) + LeValue(key[16..]), 16)
  }

  lemma TagIs(key: seq<byte>, message: seq<byte>)
    requires |key| == 32
    ensures Tag(key, message) == LeBytes(Accumulate(message, ClampedR(key)) + LeValue(key[16..]), 16)
  {
  }

  // ---- The polynomial behind Horner's rule ----

  function Power(r: nat, n: nat): nat
  {
    if n == 0 then 1 else Power(r, n - 1) * r
  }

  /** c[0] * r^n + c[1] * r^(n-1) + ... + c[n-1] * r */
  function Polynomial(c: seq<nat>, r: nat): nat
  {
    if c == [] then 0 else c[0] * Power(r, |c|) + Polynomial(c[1..], r)
  }

  function Coefficients(message: seq<byte>): seq<nat>
    decreases |message|
  {
    if message == [] then []
    else
      var start := LastBlock(|message|);
      Coefficients(message[..start]) + [BlockValue(message[start..])]
  }

  lemma {:induction false} PolynomialSnoc(c: seq<nat>, x: nat, r: nat)
    ensures Polynomial(c + [x], r) == (Polynomial(c, r) + x) * r
  {
    if c == [] {
      assert ([x])[1..] == [];
      assert Power(r, 1) == Power(r, 0) * r == r;
      assert Polynomial([x], r) == x * Power(r, 1) + Polynomial([], r);
    } else {
      PolynomialSnoc(c[1..], x, r);
      assert (c + [x])[1..] == c[1..] + [x];
      MoveFactor(c[0], Power(r, |c|), Polynomial(c[1..], r), x, r);
    }
  }

  lemma MoveFactor(a: nat, p: nat, s: nat, x: nat, r: nat)
    ensures a * (p * r) + (s + x) * r == (a * p + s + x) * r
  {
    assert a * (p * r) == a * p * r;
  }

  /** The accumulator is the polynomial in r whose coefficients are the blocks, modulo 2^130 - 5. */
  lemma {:induction false} AccumulatorIsPolynomial(message: seq<byte>, r: nat)
    ensures Accumulate(message, r) == Polynomial(Coefficients(message), r) % P
    decreases |message|
  {
    if message != [] {
      var start := LastBlock(|message|);
      AccumulatorIsPolynomial(message[..start], r);
      var c, x := Coefficients(message[..start]), BlockValue(message[start..]);
      hide BlockValue;
      PolynomialSnoc(c, x, r);
      StepOnResidue(Polynomial(c, r), x, r);
    }
  }

  /** The tag as a number: the polynomial at the clamped first half of the key, plus the second half. */
  lemma TagSpelledOut(key: seq<byte>, message: seq<byte>)
    requires |key| == 32
    ensures LeValue(Tag(key, message))
         == (Polynomial(Coefficients(message), BitAnd(LeValue(key[..16]), 0x0fff_fffc_0fff_fffc_0fff_fffc_0fff_ffff))
               % 0x3_ffff_ffff_ffff_ffff_ffff_ffff_ffff_fffb
             + LeValue(key[16..])) % 0x1_0000_0000_0000_0000_0000_0000_0000_0000
  {
    Pow256Values();
    hide LeBytes, LeValue, BitAnd, Accumulate, Polynomial, Coefficients, Pow256;
    AccumulatorIsPolynomial(message, ClampedR(key));
    LeValueOfBytes(Accumulate(message, ClampedR(key)) + LeValue(key[16..]), 16);
  }

  // ---- The limb code: every store into a ULONG goes through Low32, into an ULONGLONG through Low64 ----

  function LimbsOf(a: array<nat>): Limbs
    requires a.Length == 5
    reads a
  {
    Limbs(a[0], a[1], a[2], a[3], a[4])
  }

  method PadBlock(block: seq<byte>) returns (padded: array<byte>)
    requires |block| <= 16
    ensures fresh(padded) && padded.Length == 17
    ensures padded[..] == block + [1] + Zeros(16 - |block|)
  {
    padded := new byte[17](_ => 0);
    for i := 0 to |block|
      invariant padded[..i] == block[..i]
      invariant forall j :: i <= j < 17 ==> padded[j] == 0
    {
      padded[i] := block[i];
    }
    padded[|block|] := 1;
    assert padded[..|block|] == block;
    assert padded[..] == padded[..|block|] + [padded[|block|]] + padded[|block| + 1..];
    assert padded[|block| + 1..] == Zeros(16 - |block|);
  }

  lemma PaddedValue(block: seq<byte>)
    requires |block| <= 16
    ensures var p := block + [1] + Zeros(16 - |block|);
            |p| == 17 && p[16] <= 1 && LeValue(p) == BlockValue(block)
  {
    LeValueConcat(block + [1], Zeros(16 - |block|));
    LeValueZeros(16 - |block|);
  }

  method Poly1305ProcessBlock(h: array<nat>, r: array<nat>, block: seq<byte>)
    requires h.Length == 5 && r.Length == 5 && h != r && |block| <= 16
    requires LimbsOf(h).Reduced() && LimbsOf(r).Canonical()
    modifies h
    ensures LimbsOf(h).Reduced()
    ensures LimbsOf(h).Value() % P == HornerStep(old(LimbsOf(h).Value()), BlockValue(block), LimbsOf(r).Value())
  {
    hide Limbs.Value, BlockValue, Row, Rows;
    AddBlock(h, block);
    ghost var loaded := LimbsOf(h);
    var d0, d1, d2, d3, d4 := MultiplyRows(h, r);
    RowsFit(loaded, LimbsOf(r));
    ghost var q := RowsAreProduct(loaded, LimbsOf(r));
    ghost var c := CarryRows(h, d0, d1, d2, d3, d4);
    Combine(loaded.Value() * LimbsOf(r).Value(), Rows(loaded, LimbsOf(r)).Value(), LimbsOf(h).Value(), q, c);
  }

  lemma Combine(product: nat, rows: nat, value: nat, q: nat, c: nat)
    requires product == rows + P * q && rows == value + P * c
    ensures value % P == product % P
  {
    assert product == value + P * (q + c);
    SameResidue(product, value, q + c);
  }

  method AddBlock(h: array<nat>, block: seq<byte>)
    requires h.Length == 5 && |block| <= 16 && LimbsOf(h).Reduced()
    modifies h
    ensures LimbsOf(h).Loaded()
    ensures LimbsOf(h).Value() == old(LimbsOf(h).Value()) + BlockValue(block)
  {
    var padded := PadBlock(block);
    PaddedValue(block);
    var v := BlockLimbs(padded[..]);
    BlockLimbsValue(padded[..]);
    AddLimbsIsExact(LimbsOf(h), v);
    Store(h, AddLimbs(LimbsOf(h), v));
  }

  method Store(a: array<nat>, x: Limbs)
    requires a.Length == 5
    modifies a
    ensures LimbsOf(a) == x
  {
    a[0], a[1], a[2], a[3], a[4] := x.l0, x.l1, x.l2, x.l3, x.l4;
  }

  method MultiplyRows(h: array<nat>, r: array<nat>) returns (d0: nat, d1: nat, d2: nat, d3: nat, d4: nat)
    requires h.Length == 5 && r.Length == 5
    requires LimbsOf(h).Loaded() && LimbsOf(r).Canonical()
    ensures Limbs(d0, d1, d2, d3, d4) == Rows(LimbsOf(h), LimbsOf(r))
  {
    hide Row, Limbs.Value;
    RowsFit(LimbsOf(h), LimbsOf(r));
    var s1, s2, s3, s4 := Low32(r[1] * 5), Low32(r[2] * 5), Low32(r[3] * 5), Low32(r[4] * 5);
    d0 := Low64(Row(LimbsOf(h), r[0], s4, s3, s2, s1));
    d1 := Low64(Row(LimbsOf(h), r[1], r[0], s4, s3, s2));
    d2 := Low64(Row(LimbsOf(h), r[2], r[1], r[0], s4, s3));
    d3 := Low64(Row(LimbsOf(h), r[3], r[2], r[1], r[0], s4));
    d4 := Low64(Row(LimbsOf(h), r[4], r[3], r[2], r[1], r[0]));
  }

  method CarryRows(h: array<nat>, d0: nat, e1: nat, e2: nat, e3: nat, e4: nat) returns (ghost c: nat)
    requires h.Length == 5
    requires d0 < 0x3ff_0000_0000_0000 && e1 < 0x3ff_0000_0000_0000 && e2 < 0x3ff_0000_0000_0000
    requires e3 < 0x3ff_0000_0000_0000 && e4 < 0xb0_0000_0000_0000
    modifies h
    ensures LimbsOf(h).Reduced()
    ensures Limbs(d0, e1, e2, e3, e4).Value() == LimbsOf(h).Value() + P * c
  {
    var carry0, m0 := TakeCarry(d0, 0);
    var carry1, m1 := TakeCarry(e1, carry0);
    var carry2, m2 := TakeCarry(e2, carry1);
    var carry3, m3 := TakeCarry(e3, carry2);
    var carry4, m4 := TakeCarry(e4, carry3);
    c := carry4;
    var n0 := Low32(m0 + Low32(carry4 * 5));
    Fits32(carry4 * 5);
    Fits32(m0 + carry4 * 5);
    var n1 := m1 + High26(n0);
    Fits32(n1);
    var x := Limbs(Low26(n0), Low32(n1), m2, m3, m4);
    CarriedValue(Limbs(d0, e1, e2, e3, e4), Limbs(m0, m1, m2, m3, m4), carry0, carry1, carry2, carry3, c, x);
    Store(h, x);
  }

  method TakeCarry(d: nat, carryIn: nat) returns (carry: nat, limb: nat)
    requires d + carryIn < 0x400_0000_0000_0000
    ensures d + carryIn == 0x400_0000 * carry + limb && limb < 0x400_0000
  {
    CarryStep(d + carryIn);
    var sum := Low64(d + carryIn);
    carry, limb := Low32(High26(sum)), Low26(Low32(sum));
  }

  /** The closing carry pass leaves the canonical limbs of the same residue. */
  method FinalCarry(h: array<nat>)
    requires h.Length == 5 && LimbsOf(h).Reduced()
    modifies h
    ensures LimbsOf(h).Canonical()
    ensures LimbsOf(h).Value() % P == old(LimbsOf(h).Value()) % P
  {
    ghost var before := LimbsOf(h);
    var carry1, m1 := TakeCarry(h[1], 0);
    var carry2, m2 := TakeCarry(h[2], carry1);
    var carry3, m3 := TakeCarry(h[3], carry2);
    var carry4, m4 := TakeCarry(h[4], carry3);
    Fits32(carry4 * 5);
    Fits32(h[0] + carry4 * 5);
    var n0 := Low32(h[0] + Low32(carry4 * 5));
    var n1 := m1 + High26(n0);
    Fits32(n1);
    var x := Limbs(Low26(n0), Low32(n1), m2, m3, m4);
    FinalCarryValue(before, carry1, m1, carry2, m2, carry3, m3, carry4, m4, x);
    Store(h, x);
    SameResidue(before.Value(), x.Value(), carry4);
  }

  lemma FirstLimb(g: Limbs, h: Limbs, carry: nat)
    requires g.l0 + 0x400_0000 * carry == h.l0 + 5
    ensures Below(g, 1) + carry * Weight(1) == Below(h, 1) + 5
  {
  }

  lemma TopIsNotBelow(g: Limbs, top: nat)
    ensures Below(g.(l4 := top), 4) == Below(g, 4)
  {
  }

  /** One more limb of the sum, and what is carried on. */
  lemma NextLimb(before: Limbs, after: Limbs, h: Limbs, k: nat, carryIn: nat, carry: nat)
    requires 1 <= k < 4
    requires after == if k == 1 then before.(l1 := after.l1) else if k == 2 then before.(l2 := after.l2)
                      else before.(l3 := after.l3)
    requires (if k == 1 then h.l1 else if k == 2 then h.l2 else h.l3) + carryIn
          == 0x400_0000 * carry + if k == 1 then after.l1 else if k == 2 then after.l2 else after.l3
    requires Below(before, k) + carryIn * Weight(k) == Below(h, k) + 5
    ensures Below(after, k + 1) + carry * Weight(k + 1) == Below(h, k + 1) + 5
  {
  }

  /** h + 5, limb by limb, with the top limb compared against 2^130 by a wrapping subtraction. */
  method AddFive(h: array<nat>, g: array<nat>) returns (ghost carryOut: nat)
    requires h.Length == 5 && g.Length == 5 && h != g && LimbsOf(h).Canonical()
    modifies g
    ensures LimbsOf(g).(l4 := 0).Canonical() && carryOut <= 1
    ensures Below(LimbsOf(g), 4) + carryOut * Weight(4) == Below(LimbsOf(h), 4) + 5
    ensures g[4] == TopDifference(h[4], carryOut)
  {
    hide Below, Weight;
    Fits32(h[0] + 5);
    g[0] := Low32(h[0] + 5);
    var carry: nat := High26(g[0]);
    g[0] := Low26(g[0]);
    FirstLimb(LimbsOf(g), LimbsOf(h), carry);
    for index := 1 to 4
      invariant carry <= 1
      invariant forall j :: 0 <= j < index ==> g[j] < 0x400_0000
      invariant Below(LimbsOf(g), index) + carry * Weight(index) == Below(LimbsOf(h), index) + 5
    {
      ghost var before, carryIn := LimbsOf(g), carry;
      var sum := h[index] + carry;
      Fits32(sum);
      g[index] := Low26(Low32(sum));
      carry := High26(Low32(sum));
      assert sum == 0x400_0000 * carry + g[index];
      NextLimb(before, LimbsOf(g), LimbsOf(h), index, carryIn, carry);
    }
    carryOut := carry;
    ghost var before := LimbsOf(g);
    g[4] := TopDifference(h[4], carry);
    TopIsNotBelow(before, g[4]);
  }

  method SelectResidue(h: array<nat>, g: array<nat>)
    requires h.Length == 5 && g.Length == 5 && h != g
    requires LimbsOf(h).Canonical() && LimbsOf(g).(l4 := 0).Canonical() && g[4] < 0x1_0000_0000
    requires SelectionMask(g[4]) == 0 || SelectionMask(g[4]) == 0xffff_ffff
    modifies h
    ensures LimbsOf(h) == if SelectionMask(g[4]) == 0 then old(LimbsOf(h)) else LimbsOf(g)
  {
    hide Select, Limbs.Value;
    var mask := SelectionMask(g[4]);
    for index := 0 to 5
      invariant forall j :: 0 <= j < index ==> h[j] == if mask == 0 then old(h[j]) else g[j]
      invariant forall j :: index <= j < 5 ==> h[j] == old(h[j])
      invariant forall j :: 0 <= j < 5 ==> old(h[j]) < 0x1_0000_0000 && g[j] < 0x1_0000_0000
    {
      SelectPicks(h[index], g[index], mask);
      h[index] := Select(h[index], g[index], mask);
    }
  }

  /** From the loop's accumulator to the canonical limbs of its residue below 2^130 - 5. */
  method FinalResidue(h: array<nat>)
    requires h.Length == 5 && LimbsOf(h).Reduced()
    modifies h
    ensures LimbsOf(h).Canonical()
    ensures LimbsOf(h).Value() == old(LimbsOf(h).Value()) % P
  {
    FinalCarry(h);
    var g := new nat[5](_ => 0);
    ghost var carried := LimbsOf(h);
    ghost var carry := AddFive(h, g);
    FinalSelection(carried, LimbsOf(g), carry);
    SelectResidue(h, g);
  }

  lemma FinalSelection(h: Limbs, g: Limbs, carry: nat)
    requires h.Canonical() && carry <= 1 && g.(l4 := 0).Canonical()
    requires Below(g, 4) + carry * Weight(4) == Below(h, 4) + 5
    requires g.l4 == TopDifference(h.l4, carry)
    ensures g.l4 < 0x1_0000_0000
    ensures SelectionMask(g.l4) == 0 || SelectionMask(g.l4) == 0xffff_ffff
    ensures var x := if SelectionMask(g.l4) == 0 then h else g;
            x.Canonical() && x.Value() == h.Value() % P
  {
    TopDifferenceSign(h.l4, carry);
    ResidueBySelection(h, g, carry, if SelectionMask(g.l4) == 0 then h else g);
  }

  method WriteLittleEndian32(value: nat, data: array<byte>, offset: nat)
    requires offset + 4 <= data.Length
    modifies data
    ensures data[offset..offset + 4] == LeBytes(value, 4)
    ensures forall j :: 0 <= j < offset || offset + 4 <= j < data.Length ==> data[j] == old(data[j])
  {
    data[offset] := ToByte(value);
    data[offset + 1] := ToByte(value / 0x100);
    data[offset + 2] := ToByte(value / 0x1_0000);
    data[offset + 3] := ToByte(value / 0x100_0000);
    LeBytesOfWord(value);
  }

  lemma LeBytesOfWord(value: nat)
    ensures LeBytes(value, 4)
         == [ToByte(value), ToByte(value / 0x100), ToByte(value / 0x1_0000), ToByte(value / 0x100_0000)]
  {
    var n1, n2, n3 := value / 0x100, value / 0x1_0000, value / 0x100_0000;
    assert n1 / 256 == n2 && n2 / 256 == n3;
    assert LeBytes(n3, 1) == [ToByte(n3)];
    assert LeBytes(n2, 2) == [ToByte(n2)] + LeBytes(n3, 1);
    assert LeBytes(n1, 3) == [ToByte(n1)] + LeBytes(n2, 2);
  }

  /** The residue plus s, modulo 2^128, least significant byte first. */
  method WriteTag(h: array<nat>, key: seq<byte>, tag: array<byte>)
    requires h.Length == 5 && LimbsOf(h).Canonical() && |key| == 32 && tag.Length >= 16
    modifies tag
    ensures tag[..16] == LeBytes(LimbsOf(h).Value() + LeValue(key[16..]), 16)
    ensures tag[16..] == old(tag[16..])
  {
    hide LeBytes, LeValue, Limbs.Value, Low32;
    var f0, f1, f2, f3 := TagSums(h, key);
    Low32IsWord(f0);
    Low32IsWord(f1);
    Low32IsWord(f2);
    Low32IsWord(f3);
    WriteWords(Low32(f0), Low32(f1), Low32(f2), Low32(f3), tag);
    ghost var total := LimbsOf(h).Value() + LeValue(key[16..]);
    FourWords(Low32(f0), Low32(f1), Low32(f2), Low32(f3), total % 0x1_0000_0000_0000_0000_0000_0000_0000_0000);
    SixteenBytes(total);
  }

  /** Four words, one behind the other. */
  method WriteWords(w0: nat, w1: nat, w2: nat, w3: nat, tag: array<byte>)
    requires tag.Length >= 16
    modifies tag
    ensures tag[..16] == LeBytes(w0, 4) + LeBytes(w1, 4) + LeBytes(w2, 4) + LeBytes(w3, 4)
    ensures tag[16..] == old(tag[16..])
  {
    hide LeBytes;
    WriteLittleEndian32(w0, tag, 0);
    WriteLittleEndian32(w1, tag, 4);
    assert tag[0..4] == LeBytes(w0, 4);
    WriteLittleEndian32(w2, tag, 8);
    assert tag[0..4] == LeBytes(w0, 4) && tag[4..8] == LeBytes(w1, 4);
    WriteLittleEndian32(w3, tag, 12);
    assert tag[0..4] == LeBytes(w0, 4) && tag[4..8] == LeBytes(w1, 4) && tag[8..12] == LeBytes(w2, 4);
    FourParts(tag[..]);
  }

  lemma FourParts(s: seq<byte>)
    requires |s| >= 16
    ensures s[..16] == s[0..4] + s[4..8] + s[8..12] + s[12..16]
  {
  }

  lemma Low32IsWord(x: nat)
    ensures Low32(x) < 0x1_0000_0000
  {
  }

  method TagSums(h: array<nat>, key: seq<byte>) returns (f0: nat, f1: nat, f2: nat, f3: nat)
    requires h.Length == 5 && LimbsOf(h).Canonical() && |key| == 32
    ensures Low32(f0) + 0x1_0000_0000 * Low32(f1) + 0x1_0000_0000_0000_0000 * Low32(f2)
            + 0x1_0000_0000_0000_0000_0000_0000 * Low32(f3)
         == (LimbsOf(h).Value() + LeValue(key[16..])) % 0x1_0000_0000_0000_0000_0000_0000_0000_0000
  {
    hide Limbs.Value, LeValue, Word, Low32;
    var w0, w1, w2, w3 := RecombineLimbs(h);
    UpperKey(key);
    RemainderOfSum(LimbsOf(h).Value(), LeValue(key[16..]));
    f0, f1, f2, f3 := AddWords(w0, w1, w2, w3, ReadLittleEndian32(key, 16), ReadLittleEndian32(key, 20),
                               ReadLittleEndian32(key, 24), ReadLittleEndian32(key, 28));
  }

  method AddWords(w0: nat, w1: nat, w2: nat, w3: nat, k0: nat, k1: nat, k2: nat, k3: nat)
    returns (f0: nat, f1: nat, f2: nat, f3: nat)
    ensures Low32(f0) + 0x1_0000_0000 * Low32(f1) + 0x1_0000_0000_0000_0000 * Low32(f2)
            + 0x1_0000_0000_0000_0000_0000_0000 * Low32(f3)
         == (w0 + 0x1_0000_0000 * w1 + 0x1_0000_0000_0000_0000 * w2 + 0x1_0000_0000_0000_0000_0000_0000 * w3
             + k0 + 0x1_0000_0000 * k1 + 0x1_0000_0000_0000_0000 * k2 + 0x1_0000_0000_0000_0000_0000_0000 * k3)
            % 0x1_0000_0000_0000_0000_0000_0000_0000_0000
  {
    f0 := w0 + k0;
    f1 := w1 + k1 + f0 / 0x1_0000_0000;
    f2 := w2 + k2 + f1 / 0x1_0000_0000;
    f3 := w3 + k3 + f2 / 0x1_0000_0000;
    WordwiseSum(w0, w1, w2, w3, k0, k1, k2, k3, f0, f1, f2, f3);
  }

  method RecombineLimbs(h: array<nat>) returns (w0: nat, w1: nat, w2: nat, w3: nat)
    requires h.Length == 5 && LimbsOf(h).Canonical()
    ensures w0 + 0x1_0000_0000 * w1 + 0x1_0000_0000_0000_0000 * w2 + 0x1_0000_0000_0000_0000_0000_0000 * w3
         == LimbsOf(h).Value() % 0x1_0000_0000_0000_0000_0000_0000_0000_0000
  {
    hide BitAnd, BitOr, Shl, Shr, Glued, Limbs.Value;
    w0 := BitAnd(BitOr(Shr(h[0], 0), Shl(h[1], 26, 64)), 0xffff_ffff);
    w1 := BitAnd(BitOr(Shr(h[1], 6), Shl(h[2], 20, 64)), 0xffff_ffff);
    w2 := BitAnd(BitOr(Shr(h[2], 12), Shl(h[3], 14, 64)), 0xffff_ffff);
    w3 := BitAnd(BitOr(Shr(h[3], 18), Shl(h[4], 8, 64)), 0xffff_ffff);
    Word0(h[0], h[1]);
    Word1(h[1], h[2]);
    Word2(h[2], h[3]);
    Word3(h[3], h[4]);
    TagWords(LimbsOf(h));
  }

  lemma Word0(low: nat, high: nat)
    requires low < 0x400_0000 && high < 0x400_0000
    ensures BitAnd(BitOr(Shr(low, 0), Shl(high, 26, 64)), 0xffff_ffff)
         == Glued(low, 1, high, 0x400_0000)
  {
    Pow2Values();
    hide BitAnd, BitOr, Shl, Shr;
    Recombine(low, high, 0, 0x400_0000, 1);
  }

  lemma Word1(low: nat, high: nat)
    requires low < 0x400_0000 && high < 0x400_0000
    ensures BitAnd(BitOr(Shr(low, 6), Shl(high, 20, 64)), 0xffff_ffff)
         == Glued(low, 0x40, high, 0x10_0000)
  {
    Pow2Values();
    hide BitAnd, BitOr, Shl, Shr, Pow2;
    Recombine(low, high, 6, 0x10_0000, 0x40);
  }

  lemma Word2(low: nat, high: nat)
    requires low < 0x400_0000 && high < 0x400_0000
    ensures BitAnd(BitOr(Shr(low, 12), Shl(high, 14, 64)), 0xffff_ffff)
         == Glued(low, 0x1000, high, 0x4000)
  {
    Pow2Values();
    hide BitAnd, BitOr, Shl, Shr, Pow2;
    Recombine(low, high, 12, 0x4000, 0x1000);
  }

  lemma Word3(low: nat, high: nat)
    requires low < 0x400_0000 && high < 0x400_0000
    ensures BitAnd(BitOr(Shr(low, 18), Shl(high, 8, 64)), 0xffff_ffff)
         == Glued(low, 0x4_0000, high, 0x100)
  {
    Pow2Values();
    hide BitAnd, BitOr, Shl, Shr, Pow2;
    Recombine(low, high, 18, 0x100, 0x4_0000);
  }

  lemma UpperKey(key: seq<byte>)
    requires |key| == 32
    ensures LeValue(key[16..])
         == ReadLittleEndian32(key, 16) + 0x1_0000_0000 * ReadLittleEndian32(key, 20)
            + 0x1_0000_0000_0000_0000 * ReadLittleEndian32(key, 24)
            + 0x1_0000_0000_0000_0000_0000_0000 * ReadLittleEndian32(key, 28)
  {
    hide Word;
    LeValueOfFourWords(key[16..]);
    assert key[16..][16..] == [];
  }

  lemma RemainderOfSum(a: nat, b: nat)
    ensures (a % 0x1_0000_0000_0000_0000_0000_0000_0000_0000 + b) % 0x1_0000_0000_0000_0000_0000_0000_0000_0000
         == (a + b) % 0x1_0000_0000_0000_0000_0000_0000_0000_0000
  {
  }

  lemma FourWords(t0: nat, t1: nat, t2: nat, t3: nat, m: nat)
    requires t0 < 0x1_0000_0000 && t1 < 0x1_0000_0000 && t2 < 0x1_0000_0000 && t3 < 0x1_0000_0000
    requires t0 + 0x1_0000_0000 * t1 + 0x1_0000_0000_0000_0000 * t2 + 0x1_0000_0000_0000_0000_0000_0000 * t3 == m
    ensures LeBytes(t0, 4) + LeBytes(t1, 4) + LeBytes(t2, 4) + LeBytes(t3, 4) == LeBytes(m, 16)
  {
    assert LeValue([]) == 0;
    hide *;
    var b3 := LeBytes(t3, 4);
    var b2 := LeBytes(t2, 4) + b3;
    var b1 := LeBytes(t1, 4) + b2;
    var b := LeBytes(t0, 4) + b1;
    assert b3 + [] == b3;
    PrependWord(t3, []);
    PrependWord(t2, b3);
    PrependWord(t1, b2);
    PrependWord(t0, b1);
    NestedWords(t0, t1, t2, t3, LeValue(b3), LeValue(b2), LeValue(b1));
    assert LeValue(b) == m;
    LeBytesOfValue(b);
    assert b == LeBytes(t0, 4) + LeBytes(t1, 4) + LeBytes(t2, 4) + LeBytes(t3, 4);
  }

  lemma NestedWords(t0: nat, t1: nat, t2: nat, t3: nat, v3: nat, v2: nat, v1: nat)
    requires v3 == t3 && v2 == t2 + 0x1_0000_0000 * v3 && v1 == t1 + 0x1_0000_0000 * v2
    ensures t0 + 0x1_0000_0000 * v1
         == t0 + 0x1_0000_0000 * t1 + 0x1_0000_0000_0000_0000 * t2 + 0x1_0000_0000_0000_0000_0000_0000 * t3
  {
  }

  lemma SixteenBytes(n: nat)
    ensures LeBytes(n % 0x1_0000_0000_0000_0000_0000_0000_0000_0000, 16) == LeBytes(n, 16)
  {
    Pow256Values();
    hide Pow256, LeBytes, LeValue;
    LeValueOfBytes(n, 16);
    LeBytesOfValue(LeBytes(n, 16));
  }

  lemma PrependWord(t: nat, rest: seq<byte>)
    requires t < 0x1_0000_0000
    ensures LeValue(LeBytes(t, 4) + rest) == t + 0x1_0000_0000 * LeValue(rest)
  {
    Pow256Values();
    LeValueOfBytes(t, 4);
    LeValueConcat(LeBytes(t, 4), rest);
  }

  /** `Poly1305`: the tag of section 2.5 of RFC 8439, for every key and every message. */
  method Poly1305(key: seq<byte>, message: seq<byte>, tag: array<byte>)
    requires |key| == 32 && tag.Length >= 16
    modifies tag
    ensures tag[..16] == Tag(key, message) && tag[16..] == old(tag[16..])
    ensures LeValue(tag[..16])
         == (Polynomial(Coefficients(message), BitAnd(LeValue(key[..16]), 0x0fff_fffc_0fff_fffc_0fff_fffc_0fff_ffff))
               % 0x3_ffff_ffff_ffff_ffff_ffff_ffff_ffff_fffb
             + LeValue(key[16..])) % 0x1_0000_0000_0000_0000_0000_0000_0000_0000
  {
    hide Tag, Polynomial, Coefficients, HornerStep, Accumulate, ClampedR, Limbs.Value, Limbs.Reduced, Limbs.Canonical,
         LeBytes, LeValue;
    var r, h := new nat[5](_ => 0), new nat[5](_ => 0);
    LoadR(key, r);
    AccumulateBlocks(h, r, message);
    FinalResidue(h);
    WriteTag(h, key, tag);
    TagIs(key, message);
    TagSpelledOut(key, message);
  }

  method LoadR(key: seq<byte>, r: array<nat>)
    requires |key| == 32 && r.Length == 5
    modifies r
    ensures LimbsOf(r).Canonical() && LimbsOf(r).Value() == ClampedR(key)
    ensures LimbsOf(r).Value() == BitAnd(LeValue(key[..16]), 0x0fff_fffc_0fff_fffc_0fff_fffc_0fff_ffff)
  {
    var t0, t1 := ReadLittleEndian32(key, 0), ReadLittleEndian32(key, 4);
    var t2, t3 := ReadLittleEndian32(key, 8), ReadLittleEndian32(key, 12);
    Store(r, ClampLimbs(t0, t1, t2, t3));
    LowerKey(key);
    ClampLimbsValue(t0, t1, t2, t3, LeValue(key[..16]));
  }

  lemma NoBlocks(r: nat)
    ensures Accumulate([], r) == 0
  {
  }

  method AccumulateBlocks(h: array<nat>, r: array<nat>, message: seq<byte>)
    requires h.Length == 5 && r.Length == 5 && h != r
    requires LimbsOf(r).Canonical() && LimbsOf(h) == Limbs(0, 0, 0, 0, 0)
    modifies h
    ensures LimbsOf(h).Reduced()
    ensures LimbsOf(h).Value() % P == Accumulate(message, LimbsOf(r).Value())
  {
    hide HornerStep, BlockValue, Limbs.Value, Limbs.Reduced, Limbs.Canonical, Accumulate;
    ghost var rValue := LimbsOf(r).Value();
    ZeroLimbs();
    NoBlocks(rValue);
    assert message[..0] == [];
    var offset := 0;
    while offset < |message|
      invariant 0 <= offset <= |message| && (offset == |message| || offset % 16 == 0)
      invariant LimbsOf(r).Canonical() && LimbsOf(r).Value() == rValue
      invariant LimbsOf(h).Reduced()
      invariant LimbsOf(h).Value() % P == Accumulate(message[..offset], rValue)
    {
      var remaining := |message| - offset;
      var chunk := if remaining < 16 then remaining else 16;
      StepOnResidue(LimbsOf(h).Value(), BlockValue(message[offset..offset + chunk]), rValue);
      AccumulateStep(message, offset, chunk, rValue);
      Poly1305ProcessBlock(h, r, message[offset..offset + chunk]);
      offset := offset + chunk;
    }
    assert message[..offset] == message;
  }

  lemma LowerKey(key: seq<byte>)
    requires |key| == 32
    ensures LeValue(key[..16])
         == ReadLittleEndian32(key, 0) + 0x1_0000_0000 * ReadLittleEndian32(key, 4)
            + 0x1_0000_0000_0000_0000 * ReadLittleEndian32(key, 8)
            + 0x1_0000_0000_0000_0000_0000_0000 * ReadLittleEndian32(key, 12)
  {
    hide Word;
    LeValueOfFourWords(key[..16]);
    assert key[..16][16..] == [];
  }

  lemma AccumulateStep(message: seq<byte>, offset: nat, chunk: nat, r: nat)
    requires offset % 16 == 0 && 0 < chunk <= 16 && offset + chunk <= |message|
    ensures Accumulate(message[..offset + chunk], r)
         == HornerStep(Accumulate(message[..offset], r), BlockValue(message[offset..offset + chunk]), r)
  {
    hide HornerStep, BlockValue;
    var m := message[..offset + chunk];
    assert LastBlock(|m|) == offset;
    assert m[..offset] == message[..offset] && m[offset..] == message[offset..offset + chunk];
  }

  lemma ZeroLimbs()
    ensures var z := Limbs(0, 0, 0, 0, 0); z.Reduced() && z.Value() == 0
  {
  }

  lemma StepOnResidue(v: nat, b: nat, r: nat)
    ensures HornerStep(v % P, b, r) == HornerStep(v, b, r)
  {
    ResidueOfFactor(v, b, r);
  }
}
