/**
 Loading r: the masks of Aead.cpp:683-687 on 26-bit limbs are the clamping of section 2.5.1 of
 RFC 8439 on the 16-byte number.
 */
module Poly1305Clamp {
  import opened Bits
  import opened Poly1305Words

  const CLAMP: nat := 0x0fff_fffc_0fff_fffc_0fff_fffc_0fff_ffff

  /** The five assignments to r, with t0..t3 the little-endian words of the key. */
  function ClampLimbs(t0: nat, t1: nat, t2: nat, t3: nat): Limbs
  {
    Limbs(BitAnd(t0, 0x3ff_ffff),
          BitAnd(BitOr(Shr(t0, 26), Shl(t1, 6, 32)), 0x3ff_ff03),
          BitAnd(BitOr(Shr(t1, 20), Shl(t2, 12, 32)), 0x3ff_c0ff),
          BitAnd(BitOr(Shr(t2, 14), Shl(t3, 18, 32)), 0x3f0_3fff),
          BitAnd(Shr(t3, 8), 0xf_ffff))
  }

  // The operators of Bits with the powers of two written out.

  lemma AndLow(x: nat, k: nat, p: nat)
    requires Pow2(k) == p
    ensures BitAnd(x, p - 1) == x % p
  {
    AndLowMask(x, k);
  }

  lemma AndParts(x: nat, y: nat, low: nat, high: nat, k: nat, p: nat)
    requires Pow2(k) == p && low < p && y == low + high * p
    ensures BitAnd(x, y) == BitAnd(x, low) + BitAnd(Shr(x, k), high) * p
  {
    AndSplit(x, y, low, high, k);
  }

  /** `(t >> (32 - k)) | (u << k)` in 32 bits, p and m being 2^k and 2^(32-k): no bits overlap. */
  lemma Funnel(t: nat, u: nat, k: nat, p: nat, m: nat)
    requires k <= 32 && p == Pow2(k) && m == Pow2(32 - k) && t / m < p
    ensures BitOr(Shr(t, 32 - k), Shl(u, k, 32)) == t / m + u % m * p
  {
    ShrDivides(t, 32 - k);
    Pow2Add(32 - k, k);
    ShlKeepsLow(u, m, p);
    OrDisjoint(t / m, u % m, k);
  }

  lemma ShlKeepsLow(u: nat, m: nat, p: nat)
    requires m > 0 && p > 0
    ensures m * p > 0 && u * p % (m * p) == u % m * p
  {
    var q, r := u / m, u % m;
    assert u == q * m + r;
    Distribute(q, m, r, p);
    MulBelow(r, m, p);
    QuotientIsUnique(u * p, m * p, q, r * p);
  }

  lemma MaskWord(t: nat)
    ensures BitAnd(t, 0x0fff_ffff) == t % 0x1000_0000
    ensures BitAnd(t, 0x0fff_fffc) == t / 4 % 0x400_0000 * 4
  {
    Pow2Values();
    AndLow(t, 28, 0x1000_0000);
    AndParts(t, 0x0fff_fffc, 0, 0x3ff_ffff, 2, 4);
    ShrDivides(t, 2);
    AndLow(t / 4, 26, 0x400_0000);
  }

  lemma Limb1(t: nat, u: nat)
    requires t < 0x1_0000_0000
    ensures BitAnd(BitOr(Shr(t, 26), Shl(u, 6, 32)), 0x3ff_ff03)
         == t / 0x400_0000 % 4 + u / 4 % 0x4_0000 * 0x100
  {
    Pow2Values();
    hide *;
    Funnel(t, u, 6, 0x40, 0x400_0000);
    var x := t / 0x400_0000 + u % 0x400_0000 * 0x40;
    Mask1(x);
    Fields1(t / 0x400_0000, u, x);
  }

  lemma Mask1(x: nat)
    ensures BitAnd(x, 0x3ff_ff03) == x % 4 + x / 0x100 % 0x4_0000 * 0x100
  {
    Pow2Values();
    hide *;
    AndParts(x, 0x3ff_ff03, 3, 0x3_ffff, 8, 0x100);
    AndLow(x, 2, 4);
    ShrDivides(x, 8);
    AndLow(x / 0x100, 18, 0x4_0000);
  }

  lemma Fields1(a: nat, u: nat, x: nat)
    requires a < 0x40 && x == a + u % 0x400_0000 * 0x40
    ensures x % 4 == a % 4 && x / 0x100 % 0x4_0000 == u / 4 % 0x4_0000
  {
    var w, q := u % 0x400_0000, u / 0x400_0000;
    assert x == a + w * 16 * 4;
    assert x / 0x100 == w / 4;
    SameRemainder(u / 4, w / 4, 64 * q, 0x4_0000);
  }

  lemma Limb2(t: nat, u: nat)
    requires t < 0x1_0000_0000
    ensures BitAnd(BitOr(Shr(t, 20), Shl(u, 12, 32)), 0x3ff_c0ff)
         == t / 0x10_0000 % 0x100 + u / 4 % 0x1000 * 0x4000
  {
    Pow2Values();
    hide *;
    Funnel(t, u, 12, 0x1000, 0x10_0000);
    var x := t / 0x10_0000 + u % 0x10_0000 * 0x1000;
    Mask2(x);
    Fields2(t / 0x10_0000, u, x);
  }

  lemma Mask2(x: nat)
    ensures BitAnd(x, 0x3ff_c0ff) == x % 0x100 + x / 0x4000 % 0x1000 * 0x4000
  {
    Pow2Values();
    hide *;
    AndParts(x, 0x3ff_c0ff, 0xff, 0xfff, 14, 0x4000);
    AndLow(x, 8, 0x100);
    ShrDivides(x, 14);
    AndLow(x / 0x4000, 12, 0x1000);
  }

  lemma Fields2(a: nat, u: nat, x: nat)
    requires a < 0x1000 && x == a + u % 0x10_0000 * 0x1000
    ensures x % 0x100 == a % 0x100 && x / 0x4000 % 0x1000 == u / 4 % 0x1000
  {
    var w, q := u % 0x10_0000, u / 0x10_0000;
    assert x == a + w * 16 * 0x100;
    assert x / 0x4000 == w / 4;
    SameRemainder(u / 4, w / 4, 64 * q, 0x1000);
  }

  lemma Limb3(t: nat, u: nat)
    requires t < 0x1_0000_0000
    ensures BitAnd(BitOr(Shr(t, 14), Shl(u, 18, 32)), 0x3f0_3fff)
         == t / 0x4000 % 0x4000 + u / 4 % 0x40 * 0x10_0000
  {
    Pow2Values();
    hide *;
    Funnel(t, u, 18, 0x4_0000, 0x4000);
    var x := t / 0x4000 + u % 0x4000 * 0x4_0000;
    Mask3(x);
    Fields3(t / 0x4000, u, x);
  }

  lemma Mask3(x: nat)
    ensures BitAnd(x, 0x3f0_3fff) == x % 0x4000 + x / 0x10_0000 % 0x40 * 0x10_0000
  {
    Pow2Values();
    hide *;
    AndParts(x, 0x3f0_3fff, 0x3fff, 0x3f, 20, 0x10_0000);
    AndLow(x, 14, 0x4000);
    ShrDivides(x, 20);
    AndLow(x / 0x10_0000, 6, 0x40);
  }

  lemma Fields3(a: nat, u: nat, x: nat)
    requires a < 0x4_0000 && x == a + u % 0x4000 * 0x4_0000
    ensures x % 0x4000 == a % 0x4000 && x / 0x10_0000 % 0x40 == u / 4 % 0x40
  {
    var w, q := u % 0x4000, u / 0x4000;
    assert x == a + w * 16 * 0x4000;
    assert x / 0x10_0000 == w / 4;
    SameRemainder(u / 4, w / 4, 64 * q, 0x40);
  }

  /** The limbs of r hold the clamped 16-byte number. */
  lemma ClampLimbsValue(t0: nat, t1: nat, t2: nat, t3: nat, n: nat)
    requires t0 < 0x1_0000_0000 && t1 < 0x1_0000_0000 && t2 < 0x1_0000_0000 && t3 < 0x1_0000_0000
    requires n == t0 + 0x1_0000_0000 * t1 + 0x1_0000_0000_0000_0000 * t2
                  + 0x1_0000_0000_0000_0000_0000_0000 * t3
    ensures ClampLimbs(t0, t1, t2, t3).Canonical()
    ensures ClampLimbs(t0, t1, t2, t3).Value() == BitAnd(n, CLAMP)
  {
    ClampByWords(t0, t1, t2, t3, n);
    Pow2Values();
    AndLow(t0, 26, 0x400_0000);
    Limb1(t0, t1);
    Limb2(t1, t2);
    Limb3(t2, t3);
    ShrDivides(t3, 8);
    AndLow(t3 / 0x100, 20, 0x10_0000);
    SumOfFields(t0, t1, t2, t3, ClampLimbs(t0, t1, t2, t3));
  }

  lemma SumOfFields(t0: nat, t1: nat, t2: nat, t3: nat, x: Limbs)
    requires t3 < 0x1_0000_0000
    requires x.l0 == t0 % 0x400_0000
    requires x.l1 == t0 / 0x400_0000 % 4 + t1 / 4 % 0x4_0000 * 0x100
    requires x.l2 == t1 / 0x10_0000 % 0x100 + t2 / 4 % 0x1000 * 0x4000
    requires x.l3 == t2 / 0x4000 % 0x4000 + t3 / 4 % 0x40 * 0x10_0000
    requires x.l4 == t3 / 0x100 % 0x10_0000
    ensures x.Canonical()
    ensures x.Value() == t0 % 0x1000_0000 + 0x1_0000_0000 * (t1 / 4 % 0x400_0000 * 4)
                         + 0x1_0000_0000_0000_0000 * (t2 / 4 % 0x400_0000 * 4)
                         + 0x1_0000_0000_0000_0000_0000_0000 * (t3 / 4 % 0x400_0000 * 4)
  {
    GlueParts(t0 / 0x400_0000, t0 % 0x400_0000, 0x400_0000, 4);
    SplitField(t1, 0x4_0000, 0x100, 0x10_0000);
    SplitField(t2, 0x1000, 0x4000, 0x4000);
    SplitField(t3, 0x40, 0x10_0000, 0x100);
  }

  /** Where a field that begins at bit 2 is cut in two. */
  lemma SplitField(t: nat, a: nat, b: nat, below: nat)
    requires a > 0 && b > 0 && a * b == 0x400_0000 && below == 4 * a
    ensures t / 4 % 0x400_0000 == t / 4 % a + t / below % b * a
  {
    QuotientTwice(t, a, below);
    CutInTwo(t / 4, a, b, t / below);
  }

  lemma CutInTwo(x: nat, a: nat, b: nat, q: nat)
    requires a > 0 && b > 0 && q == x / a
    ensures a * b > 0 && x % (a * b) == x % a + q % b * a
  {
    assert q * a + x % a == x;
    GlueParts(q, x % a, a, b);
  }

  lemma QuotientTwice(t: nat, a: nat, b: nat)
    requires a > 0 && b == 4 * a
    ensures t / 4 / a == t / b
  {
    var q, r := t / 4 / a, t / 4 % a;
    assert t / 4 == q * a + r;
    assert t == q * (4 * a) + (4 * r + t % 4);
    QuotientIsUnique(t, b, q, 4 * r + t % 4);
  }

  lemma ClampByWords(t0: nat, t1: nat, t2: nat, t3: nat, n: nat)
    requires t0 < 0x1_0000_0000 && t1 < 0x1_0000_0000 && t2 < 0x1_0000_0000
    requires n == t0 + 0x1_0000_0000 * t1 + 0x1_0000_0000_0000_0000 * t2
                  + 0x1_0000_0000_0000_0000_0000_0000 * t3
    ensures BitAnd(n, CLAMP) == t0 % 0x1000_0000 + 0x1_0000_0000 * (t1 / 4 % 0x400_0000 * 4)
                                + 0x1_0000_0000_0000_0000 * (t2 / 4 % 0x400_0000 * 4)
                                + 0x1_0000_0000_0000_0000_0000_0000 * (t3 / 4 % 0x400_0000 * 4)
  {
    var n1 := t1 + 0x1_0000_0000 * t2 + 0x1_0000_0000_0000_0000 * t3;
    var n2 := t2 + 0x1_0000_0000 * t3;
    MaskFirstWord(n, t0, n1, CLAMP, 0x0fff_ffff, 0x0fff_fffc_0fff_fffc_0fff_fffc);
    MaskFirstWord(n1, t1, n2, 0x0fff_fffc_0fff_fffc_0fff_fffc, 0x0fff_fffc, 0x0fff_fffc_0fff_fffc);
    MaskFirstWord(n2, t2, t3, 0x0fff_fffc_0fff_fffc, 0x0fff_fffc, 0x0fff_fffc);
    MaskWord(t0);
    MaskWord(t1);
    MaskWord(t2);
    MaskWord(t3);
  }

  lemma MaskFirstWord(n: nat, t: nat, rest: nat, mask: nat, low: nat, high: nat)
    requires t < 0x1_0000_0000 && low < 0x1_0000_0000
    requires n == t + 0x1_0000_0000 * rest && mask == low + high * 0x1_0000_0000
    ensures BitAnd(n, mask) == BitAnd(t, low) + BitAnd(rest, high) * 0x1_0000_0000
  {
    Pow2Values();
    AndParts(n, mask, low, high, 32, 0x1_0000_0000);
    ShrDivides(n, 32);
    assert n / 0x1_0000_0000 == rest;
    AndIgnoresHighBits(t, rest, low, 32, 0x1_0000_0000);
  }

  lemma {:induction false} AndIgnoresHighBits(t: nat, rest: nat, low: nat, k: nat, p: nat)
    requires p == Pow2(k) && t < p && low < p
    ensures BitAnd(t + p * rest, low) == BitAnd(t, low)
  {
    if k == 0 {
    } else {
      var m := Pow2(k - 1);
      Reassociate(rest, m);
      HalfOfSum(t + p * rest, t, m * rest);
      AndIgnoresHighBits(t / 2, rest, low / 2, k - 1, m);
      AndUnfold(t + p * rest, low);
      AndUnfold(t, low);
    }
  }

  lemma SameRemainder(a: nat, b: nat, q: nat, m: nat)
    requires m > 0 && a == b + q * m
    ensures a % m == b % m
  {
    QuotientIsUnique(a, m, b / m + q, b % m);
  }
}
