/**
 Bitwise operators on unsigned words, written on natural numbers. The limb code of
 src/KernelHttpLib/crypto/Aead.cpp mixes shifts, masks and ORs with multiplications;
 here the words are numbers, so that the mask and OR identities below are all
 that is needed to leave the bit level.
 */
module Bits {
  function Pow2(k: nat): (p: nat)
    ensures p > 0
  {
    if k == 0 then 1 else 2 * Pow2(k - 1)
  }

  /** `x & y` */
  function BitAnd(x: nat, y: nat): nat
  {
    if x == 0 || y == 0 then 0
    else 2 * BitAnd(x / 2, y / 2) + (if x % 2 == 1 && y % 2 == 1 then 1 else 0)
  }

  /** `x | y` */
  function BitOr(x: nat, y: nat): nat
    decreases x + y
  {
    if x == 0 && y == 0 then 0
    else 2 * BitOr(x / 2, y / 2) + (if x % 2 == 1 || y % 2 == 1 then 1 else 0)
  }

  /** `x ^ y` */
  function BitXor(x: nat, y: nat): nat
    decreases x + y
  {
    if x == 0 && y == 0 then 0
    else 2 * BitXor(x / 2, y / 2) + (if x % 2 != y % 2 then 1 else 0)
  }

  /** The operators work bit by bit: bit k of x is Shr(x, k) % 2. */
  lemma {:induction false} BitOfAnd(x: nat, y: nat, k: nat)
    ensures Shr(BitAnd(x, y), k) % 2 == if Shr(x, k) % 2 == 1 && Shr(y, k) % 2 == 1 then 1 else 0
    decreases k
  {
    hide BitAnd;
    AndUnfold(x, y);
    if k != 0 { BitOfAnd(x / 2, y / 2, k - 1); }
  }

  lemma {:induction false} BitOfOr(x: nat, y: nat, k: nat)
    ensures Shr(BitOr(x, y), k) % 2 == if Shr(x, k) % 2 == 1 || Shr(y, k) % 2 == 1 then 1 else 0
    decreases k
  {
    hide BitOr;
    OrUnfold(x, y);
    if k != 0 { BitOfOr(x / 2, y / 2, k - 1); }
  }

  lemma {:induction false} BitOfXor(x: nat, y: nat, k: nat)
    ensures Shr(BitXor(x, y), k) % 2 == if Shr(x, k) % 2 != Shr(y, k) % 2 then 1 else 0
    decreases k
  {
    hide BitXor;
    XorUnfold(x, y);
    if k != 0 { BitOfXor(x / 2, y / 2, k - 1); }
  }

  lemma OrUnfold(x: nat, y: nat)
    ensures BitOr(x, y) == 2 * BitOr(x / 2, y / 2) + (if x % 2 == 1 || y % 2 == 1 then 1 else 0)
  {
  }

  lemma XorUnfold(x: nat, y: nat)
    ensures BitXor(x, y) == 2 * BitXor(x / 2, y / 2) + (if x % 2 != y % 2 then 1 else 0)
  {
  }

  /** XORing the same word twice changes nothing. */
  lemma {:induction false} XorTwice(x: nat, y: nat)
    ensures BitXor(BitXor(x, y), y) == x
    decreases x + y
  {
    if x != 0 || y != 0 {
      XorTwice(x / 2, y / 2);
      var z := BitXor(x, y);
      assert z / 2 == BitXor(x / 2, y / 2);
    }
  }

  lemma {:induction false} XorBound(x: nat, y: nat, k: nat)
    requires x < Pow2(k) && y < Pow2(k)
    ensures BitXor(x, y) < Pow2(k)
  {
    if k != 0 { XorBound(x / 2, y / 2, k - 1); }
  }

  /** `x << k` in a word of `width` bits: the bits pushed past the top are lost. */
  function Shl(x: nat, k: nat, width: nat): nat
  {
    x * Pow2(k) % Pow2(width)
  }

  /** `x >> k` */
  function Shr(x: nat, k: nat): nat
    decreases k
  {
    if k == 0 then x else Shr(x / 2, k - 1)
  }

  lemma {:induction false} ShrDivides(x: nat, k: nat)
    ensures Shr(x, k) == x / Pow2(k)
  {
    if k != 0 {
      ShrDivides(x / 2, k - 1);
      HalvesOfQuotient(x, Pow2(k - 1));
    }
  }

  lemma {:induction false} ShlFits(x: nat, k: nat, width: nat)
    requires k <= width && x < Pow2(width - k)
    ensures Shl(x, k, width) == x * Pow2(k)
  {
    Pow2Add(width - k, k);
    MulBelow(x, Pow2(width - k), Pow2(k));
    SmallRemainder(x * Pow2(k), Pow2(width));
  }

  lemma SmallRemainder(a: nat, m: nat)
    requires a < m
    ensures a % m == a
  {
  }

  lemma MulBelow(x: nat, y: nat, m: nat)
    requires x < y && m > 0
    ensures x * m < y * m
  {
  }

  lemma {:induction false} HalvesOfQuotient(x: nat, m: nat)
    requires m > 0
    ensures x / (2 * m) == x / 2 / m
    ensures x % (2 * m) == 2 * (x / 2 % m) + x % 2
  {
    var q, r := x / 2 / m, x / 2 % m;
    assert x / 2 == q * m + r;
    assert x == q * (2 * m) + (2 * r + x % 2);
    QuotientIsUnique(x, 2 * m, q, 2 * r + x % 2);
  }

  lemma {:induction false} QuotientIsUnique(x: int, m: int, q: int, r: int)
    requires m > 0 && x == q * m + r && 0 <= r < m
    ensures x / m == q && x % m == r
  {
    var d := x / m - q;
    assert d * m == r - x % m;
    assert (d > 0 ==> d * m >= m) && (d < 0 ==> d * m <= -m);
  }

  /** A mask of k ones takes the remainder. */
  lemma {:induction false} AndLowMask(x: nat, k: nat)
    ensures BitAnd(x, Pow2(k) - 1) == x % Pow2(k)
  {
    if k == 0 {
      assert x % 1 == 0;
    } else {
      AndLowMask(x / 2, k - 1);
      HalvesOfQuotient(x, Pow2(k - 1));
      var m := Pow2(k) - 1;
      assert m / 2 == Pow2(k - 1) - 1 && m % 2 == 1;
    }
  }

  /** A mask may be applied to the low k bits and to the rest separately. */
  lemma {:induction false} AndSplit(x: nat, y: nat, low: nat, high: nat, k: nat)
    requires low < Pow2(k) && y == low + high * Pow2(k)
    ensures BitAnd(x, y) == BitAnd(x, low) + BitAnd(Shr(x, k), high) * Pow2(k)
  {
    if k == 0 {
      assert low == 0 && y == high;
    } else {
      var m := Pow2(k - 1);
      Reassociate(high, m);
      HalfOfSum(y, low, high * m);
      AndSplit(x / 2, y / 2, low / 2, high, k - 1);
      AndUnfold(x, y);
      AndUnfold(x, low);
      Reassociate(BitAnd(Shr(x, k), high), m);
    }
  }

  lemma Reassociate(a: nat, m: nat)
    ensures a * (2 * m) == 2 * (a * m) && a * m >= 0
  {
  }

  lemma HalfOfSum(y: nat, low: nat, t: nat)
    requires y == low + 2 * t
    ensures y / 2 == low / 2 + t && y % 2 == low % 2
  {
  }

  lemma {:induction false} AndUnfold(x: nat, y: nat)
    ensures BitAnd(x, y) == 2 * BitAnd(x / 2, y / 2) + (if x % 2 == 1 && y % 2 == 1 then 1 else 0)
  {
  }

  /** An OR of words whose bits do not overlap adds them. */
  lemma {:induction false} OrDisjoint(x: nat, y: nat, k: nat)
    requires x < Pow2(k)
    ensures BitOr(x, y * Pow2(k)) == x + y * Pow2(k)
  {
    if k == 0 {
      OrZero(y);
    } else {
      var m := Pow2(k - 1);
      OrDisjoint(x / 2, y, k - 1);
      Reassociate(y, m);
      HalfOfSum(y * Pow2(k), 0, y * m);
    }
  }

  lemma {:induction false} OrCommutes(x: nat, y: nat)
    ensures BitOr(x, y) == BitOr(y, x)
    decreases x + y
  {
    if x != 0 || y != 0 { OrCommutes(x / 2, y / 2); }
  }

  /** Two fields that do not overlap, in either order, with the power of two written out. */
  lemma OrFields(low: nat, high: nat, k: nat, p: nat)
    requires p == Pow2(k) && low < p
    ensures BitOr(low, high * p) == low + high * p && BitOr(high * p, low) == low + high * p
  {
    OrDisjoint(low, high, k);
    OrCommutes(low, high * p);
  }

  lemma {:induction false} OrZero(y: nat)
    ensures BitOr(0, y) == y && BitOr(y, 0) == y
  {
    if y != 0 { OrZero(y / 2); }
  }

  lemma {:induction false} Pow2Add(a: nat, b: nat)
    ensures Pow2(a + b) == Pow2(a) * Pow2(b)
  {
    if a != 0 {
      Pow2Add(a - 1, b);
      assert Pow2(a + b) == 2 * Pow2(a - 1 + b);
    }
  }

  lemma {:induction false} Pow2Values()
    ensures Pow2(2) == 4 && Pow2(6) == 64 && Pow2(8) == 0x100 && Pow2(12) == 0x1000
    ensures Pow2(14) == 0x4000 && Pow2(16) == 0x1_0000 && Pow2(18) == 0x4_0000 && Pow2(20) == 0x10_0000
    ensures Pow2(24) == 0x100_0000 && Pow2(26) == 0x400_0000 && Pow2(28) == 0x1000_0000
    ensures Pow2(32) == 0x1_0000_0000 && Pow2(64) == 0x1_0000_0000_0000_0000
  {
    Pow2Add(6, 6);
    Pow2Add(12, 4);
    Pow2Add(16, 8);
    Pow2Add(24, 4);
    Pow2Add(16, 16);
    Pow2Add(32, 32);
    assert Pow2(6) == 64;
  }

  lemma Distribute(q: nat, m: nat, r: nat, p: nat)
    ensures (q * m + r) * p == q * (m * p) + r * p
  {
  }

  /** Reducing a two-field number keeps the low field and reduces the high one. */
  lemma GlueParts(c: nat, s: nat, a: nat, b: nat)
    requires b > 0 && s < a
    ensures a * b > 0 && (c * a + s) % (a * b) == s + c % b * a
  {
    var q, r := c / b, c % b;
    Distribute(q, b, r, a);
    RowBelow(r, b, s, a);
    QuotientIsUnique(c * a + s, b * a, q, r * a + s);
  }

  lemma RowBelow(r: nat, b: nat, s: nat, a: nat)
    requires r < b && s < a
    ensures 0 <= r * a + s < b * a
  {
    MulAtMost(r + 1, b, a);
    assert (r + 1) * a == r * a + a;
  }

  lemma MulAtMost(x: nat, y: nat, m: nat)
    requires x <= y
    ensures x * m <= y * m
  {
  }

  lemma ShlValue(x: nat, k: nat, width: nat, p: nat, w: nat)
    requires p == Pow2(k) && w == Pow2(width) && x * p < w
    ensures Shl(x, k, width) == x * p
  {
    SmallRemainder(x * p, w);
  }
}
