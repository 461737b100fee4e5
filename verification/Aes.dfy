/**
 The AES-128 key schedule and cipher (src/KernelHttpLib/crypto/Aead.cpp:174-294) against FIPS 197.
 A state is the 16 bytes of a block, column after column, as the code and FIPS 197 lay it out.
 */
module Aes {
  import opened AesTables

  type State = s: seq<bv8> | |s| == 16 witness seq(16, _ => 0)

  // ---- The four layers: FIPS 197, section 5.1 ----

  function AddRoundKey(s: State, k: State): State
  {
    seq(16, i requires 0 <= i < 16 => s[i] ^ k[i])
  }

  function SubBytes(s: State): State
  {
    seq(16, i requires 0 <= i < 16 => SBox(s[i]))
  }

  /** Byte i lies in row i % 4 and column i / 4; row r moves r columns to the left. */
  function ShiftRows(s: State): State
  {
    seq(16, i requires 0 <= i < 16 => s[i % 4 + 4 * ((i / 4 + i % 4) % 4)])
  }

  datatype Column = Column(a: bv8, b: bv8, c: bv8, d: bv8)

  /** Addition in GF(2^8). */
  function Add(x: bv8, y: bv8): bv8 { x ^ y }

  /** One row of the matrix of section 5.1.3: 2, 3, 1, 1. */
  function MixByte(a: bv8, b: bv8, c: bv8, d: bv8): bv8
  {
    Add(Add(XTime(a), Add(XTime(b), b)), Add(c, d))
  }

  /** The matrix is circulant. */
  function MixColumn(x: Column): Column
  {
    Column(MixByte(x.a, x.b, x.c, x.d), MixByte(x.b, x.c, x.d, x.a),
           MixByte(x.c, x.d, x.a, x.b), MixByte(x.d, x.a, x.b, x.c))
  }

  function ColumnOf(s: State, j: nat): Column
    requires j < 4
  {
    Column(s[4 * j], s[4 * j + 1], s[4 * j + 2], s[4 * j + 3])
  }

  function FromColumns(x0: Column, x1: Column, x2: Column, x3: Column): State
  {
    [x0.a, x0.b, x0.c, x0.d] + [x1.a, x1.b, x1.c, x1.d] + [x2.a, x2.b, x2.c, x2.d] + [x3.a, x3.b, x3.c, x3.d]
  }

  function MixColumns(s: State): State
  {
    FromColumns(MixColumn(ColumnOf(s, 0)), MixColumn(ColumnOf(s, 1)), MixColumn(ColumnOf(s, 2)), MixColumn(ColumnOf(s, 3)))
  }

  // ---- Their inverses: section 5.3 ----

  function InverseSubBytes(s: State): State
  {
    seq(16, i requires 0 <= i < 16 => InverseSBox(s[i]))
  }

  function InverseShiftRows(s: State): State
  {
    seq(16, i requires 0 <= i < 16 => s[i % 4 + 4 * ((i / 4 + 4 - i % 4) % 4)])
  }

  /** The matrix has order four, so its cube undoes it. */
  function InverseMixColumns(s: State): State
  {
    MixColumns(MixColumns(MixColumns(s)))
  }

  lemma AddRoundKeyTwice(s: State, k: State)
    ensures AddRoundKey(AddRoundKey(s, k), k) == s
  {
  }

  lemma SubBytesIsInvertible(s: State)
    ensures InverseSubBytes(SubBytes(s)) == s && SubBytes(InverseSubBytes(s)) == s
  {
    hide SBox, InverseSBox;
    forall i | 0 <= i < 16
      ensures InverseSubBytes(SubBytes(s))[i] == s[i] && SubBytes(InverseSubBytes(s))[i] == s[i]
    {
      SBoxIsInvertible(s[i]);
    }
  }

  lemma ShiftRowsIsInvertible(s: State)
    ensures InverseShiftRows(ShiftRows(s)) == s && ShiftRows(InverseShiftRows(s)) == s
  {
    hide ShiftRows, InverseShiftRows;
    forall i | 0 <= i < 16
      ensures InverseShiftRows(ShiftRows(s))[i] == s[i] && ShiftRows(InverseShiftRows(s))[i] == s[i]
    {
      ShiftedBack(s, i % 4, i / 4);
      assert i == i % 4 + 4 * (i / 4);
    }
  }

  lemma ShiftedBack(s: State, row: nat, column: nat)
    requires row < 4 && column < 4
    ensures InverseShiftRows(ShiftRows(s))[row + 4 * column] == s[row + 4 * column]
    ensures ShiftRows(InverseShiftRows(s))[row + 4 * column] == s[row + 4 * column]
  {
    hide ShiftRows, InverseShiftRows;
    var left, right := (column + row) % 4, (column + 4 - row) % 4;
    Rotation(row, column);
    UnshiftedAt(ShiftRows(s), row, column, right);
    ShiftedAt(s, row, right, column);
    ShiftedAt(InverseShiftRows(s), row, column, left);
    UnshiftedAt(s, row, left, column);
  }

  lemma ShiftedAt(s: State, row: nat, column: nat, source: nat)
    requires row < 4 && column < 4 && source == (column + row) % 4
    ensures ShiftRows(s)[row + 4 * column] == s[row + 4 * source]
  {
    assert (row + 4 * column) % 4 == row && (row + 4 * column) / 4 == column;
  }

  lemma UnshiftedAt(s: State, row: nat, column: nat, source: nat)
    requires row < 4 && column < 4 && source == (column + 4 - row) % 4
    ensures InverseShiftRows(s)[row + 4 * column] == s[row + 4 * source]
  {
    assert (row + 4 * column) % 4 == row && (row + 4 * column) / 4 == column;
  }

  lemma Rotation(row: nat, column: nat)
    requires row < 4 && column < 4
    ensures ((column + row) % 4 + 4 - row) % 4 == column && ((column + 4 - row) % 4 + row) % 4 == column
  {
  }

  // ---- The laws of addition ----

  lemma Assoc(x: bv8, y: bv8, z: bv8)
    ensures Add(Add(x, y), z) == Add(x, Add(y, z))
  {
  }

  lemma Comm(x: bv8, y: bv8)
    ensures Add(x, y) == Add(y, x)
  {
  }

  lemma Cancel(x: bv8, y: bv8)
    ensures Add(Add(x, y), y) == x && Add(y, Add(y, x)) == x
  {
  }

  lemma Medial(a: bv8, b: bv8, c: bv8, d: bv8)
    ensures Add(Add(a, b), Add(c, d)) == Add(Add(a, c), Add(b, d))
  {
    hide Add;
    Assoc(a, b, Add(c, d));
    Assoc(b, c, d);
    Comm(b, c);
    Assoc(c, b, d);
    Assoc(a, c, Add(b, d));
  }

  lemma Bridge(x: bv8, y: bv8, z: bv8)
    ensures Add(Add(x, y), Add(y, z)) == Add(x, z)
  {
    hide Add;
    Assoc(x, y, Add(y, z));
    Cancel(z, y);
  }

  lemma Shared(x: bv8, y: bv8, z: bv8)
    ensures Add(Add(x, z), Add(y, z)) == Add(x, y)
  {
    hide Add;
    Comm(y, z);
    Bridge(x, z, y);
  }

  lemma XTimeOfXor(x: bv8, y: bv8)
    ensures XTime(x ^ y) == XTime(x) ^ XTime(y)
  {
    hide XTime;
    if x & 0x80 == 0 {
      NoReduction(x, y);
    } else if y & 0x80 == 0 {
      NoReduction(y, x);
      assert x ^ y == y ^ x;
    } else {
      TwoReductions(x, y);
    }
  }

  lemma NoReduction(x: bv8, y: bv8)
    requires x & 0x80 == 0
    ensures XTime(x ^ y) == XTime(x) ^ XTime(y) == XTime(y) ^ XTime(x)
  {
  }

  lemma TwoReductions(x: bv8, y: bv8)
    requires x & 0x80 != 0 && y & 0x80 != 0
    ensures XTime(x ^ y) == XTime(x) ^ XTime(y)
  {
  }

  lemma XTimeAdds(x: bv8, y: bv8)
    ensures XTime(Add(x, y)) == Add(XTime(x), XTime(y))
  {
    hide XTime;
    XTimeOfXor(x, y);
  }

  // ---- The matrix, as the code evaluates it, has order four ----

  /** `t`, the sum of a column. */
  function Total(a: bv8, b: bv8, c: bv8, d: bv8): bv8
  {
    Add(Add(Add(a, b), c), d)
  }

  /** `a0 ^ t ^ AesGfMul2(a0 ^ a1)` */
  function MixedByte(a: bv8, t: bv8, b: bv8): bv8
  {
    Add(Add(a, t), XTime(Add(a, b)))
  }

  /** Mixing twice adds 4 times the sum of the two bytes in opposite places. */
  function TwiceMixed(a: bv8, c: bv8): bv8
  {
    Add(a, XTime(XTime(Add(a, c))))
  }

  function MixTwice(x: Column): Column
  {
    Column(TwiceMixed(x.a, x.c), TwiceMixed(x.b, x.d), TwiceMixed(x.c, x.a), TwiceMixed(x.d, x.b))
  }

  lemma SumOfPairs(a: bv8, b: bv8, c: bv8, d: bv8)
    ensures Total(a, b, c, d) == Add(Add(a, b), Add(c, d))
  {
    hide Add;
    Assoc(Add(a, b), c, d);
  }

  lemma TotalRotates(a: bv8, b: bv8, c: bv8, d: bv8)
    ensures Total(a, b, c, d) == Total(b, c, d, a)
  {
    hide *;
    SumOfPairs(a, b, c, d);
    SumOfPairs(b, c, d, a);
    Comm(d, a);
    Medial(b, c, a, d);
    Comm(b, a);
  }

  /** One multiplication by 2 stands for the matrix row's 2 and 3. */
  lemma MixedByteIsMatrixRow(a: bv8, b: bv8, c: bv8, d: bv8)
    ensures MixedByte(a, Total(a, b, c, d), b) == MixByte(a, b, c, d)
  {
    hide Add, XTime, Total;
    var x, y := XTime(a), XTime(b);
    XTimeAdds(a, b);
    SumOfPairs(a, b, c, d);
    Assoc(a, Add(a, b), Add(c, d));
    Cancel(b, a);
    Comm(Add(b, Add(c, d)), Add(x, y));
    Assoc(Add(x, y), b, Add(c, d));
    Assoc(x, y, b);
  }

  lemma DifferenceOfMixed(a: bv8, t: bv8, b: bv8, c: bv8)
    ensures Add(MixedByte(a, t, b), MixedByte(b, t, c)) == Add(Add(a, b), XTime(Add(a, c)))
  {
    hide Add, XTime;
    Medial(Add(a, t), XTime(Add(a, b)), Add(b, t), XTime(Add(b, c)));
    Shared(a, b, t);
    XTimeAdds(Add(a, b), Add(b, c));
    Bridge(a, b, c);
  }

  /** Mixing keeps the sum of a column. */
  lemma TotalOfMixed(a: bv8, b: bv8, c: bv8, d: bv8, t: bv8)
    requires t == Total(a, b, c, d)
    ensures Total(MixedByte(a, t, b), MixedByte(b, t, c), MixedByte(c, t, d), MixedByte(d, t, a)) == t
  {
    hide *;
    DifferenceOfMixed(a, t, b, c);
    DifferenceOfMixed(c, t, d, a);
    Comm(a, c);
    SumOfPairs(MixedByte(a, t, b), MixedByte(b, t, c), MixedByte(c, t, d), MixedByte(d, t, a));
    Shared(Add(a, b), Add(c, d), XTime(Add(a, c)));
    SumOfPairs(a, b, c, d);
  }

  lemma TwiceMixedByte(a: bv8, b: bv8, c: bv8, t: bv8)
    ensures MixedByte(MixedByte(a, t, b), t, MixedByte(b, t, c)) == TwiceMixed(a, c)
  {
    hide Add, XTime;
    DifferenceOfMixed(a, t, b, c);
    var u, v := XTime(Add(a, b)), XTime(XTime(Add(a, c)));
    XTimeAdds(Add(a, b), XTime(Add(a, c)));
    Assoc(a, t, u);
    Comm(t, u);
    Assoc(a, u, t);
    Cancel(Add(a, u), t);
    Bridge(a, u, v);
  }

  lemma MatrixRowOfRows(a: bv8, b: bv8, c: bv8, d: bv8)
    ensures MixByte(MixByte(a, b, c, d), MixByte(b, c, d, a), MixByte(c, d, a, b), MixByte(d, a, b, c)) == TwiceMixed(a, c)
  {
    hide *;
    var t := Total(a, b, c, d);
    TotalRotates(a, b, c, d);
    TotalRotates(b, c, d, a);
    TotalRotates(c, d, a, b);
    MixedByteIsMatrixRow(a, b, c, d);
    MixedByteIsMatrixRow(b, c, d, a);
    MixedByteIsMatrixRow(c, d, a, b);
    MixedByteIsMatrixRow(d, a, b, c);
    TotalOfMixed(a, b, c, d, t);
    MixedByteIsMatrixRow(MixByte(a, b, c, d), MixByte(b, c, d, a), MixByte(c, d, a, b), MixByte(d, a, b, c));
    TwiceMixedByte(a, b, c, t);
  }

  lemma MixTwiceIsSquare(x: Column)
    ensures MixColumn(MixColumn(x)) == MixTwice(x)
  {
    hide MixByte, TwiceMixed;
    MatrixRowOfRows(x.a, x.b, x.c, x.d);
    MatrixRowOfRows(x.b, x.c, x.d, x.a);
    MatrixRowOfRows(x.c, x.d, x.a, x.b);
    MatrixRowOfRows(x.d, x.a, x.b, x.c);
  }

  lemma TwiceMixedTwice(a: bv8, c: bv8)
    ensures TwiceMixed(TwiceMixed(a, c), TwiceMixed(c, a)) == a
  {
    hide Add, XTime;
    var v := XTime(XTime(Add(a, c)));
    Comm(a, c);
    Shared(a, c, v);
    Cancel(a, v);
  }

  /** The matrix of section 5.1.3, applied four times, is the identity. */
  lemma MixColumnHasOrderFour(x: Column)
    ensures MixColumn(MixColumn(MixColumn(MixColumn(x)))) == x
  {
    hide MixColumn, TwiceMixed;
    MixTwiceIsSquare(x);
    MixTwiceIsSquare(MixColumn(MixColumn(x)));
    TwiceMixedTwice(x.a, x.c);
    TwiceMixedTwice(x.b, x.d);
    TwiceMixedTwice(x.c, x.a);
    TwiceMixedTwice(x.d, x.b);
  }

  lemma MixColumnsIsInvertible(s: State)
    ensures InverseMixColumns(MixColumns(s)) == s && MixColumns(InverseMixColumns(s)) == s
  {
    hide MixColumn, ColumnOf, FromColumns;
    MixedColumns(s);
    MixedColumns(MixColumns(s));
    MixedColumns(MixColumns(MixColumns(s)));
    MixColumnHasOrderFour(ColumnOf(s, 0));
    MixColumnHasOrderFour(ColumnOf(s, 1));
    MixColumnHasOrderFour(ColumnOf(s, 2));
    MixColumnHasOrderFour(ColumnOf(s, 3));
    StateOfColumns(s);
  }

  lemma MixedColumns(s: State)
    ensures forall j :: 0 <= j < 4 ==> ColumnOf(MixColumns(s), j) == MixColumn(ColumnOf(s, j))
  {
    hide MixColumn;
  }

  lemma StateOfColumns(s: State)
    ensures FromColumns(ColumnOf(s, 0), ColumnOf(s, 1), ColumnOf(s, 2), ColumnOf(s, 3)) == s
  {
  }

  // ---- The key schedule: section 5.2 ----

  function RotWord(w: Column): Column
  {
    Column(w.b, w.c, w.d, w.a)
  }

  function SubWord(w: Column): Column
  {
    Column(SBox(w.a), SBox(w.b), SBox(w.c), SBox(w.d))
  }

  function XorWord(v: Column, w: Column): Column
  {
    Column(v.a ^ w.a, v.b ^ w.b, v.c ^ w.c, v.d ^ w.d)
  }

  /** Powers of x in GF(2^8), counted from 1. */
  function Rcon(i: nat): bv8
    requires i >= 1
  {
    if i == 1 then 1 else XTime(Rcon(i - 1))
  }

  function Word(key: State, i: nat): Column
  {
    if i < 4 then ColumnOf(key, i)
    else if i % 4 == 0 then
      XorWord(Word(key, i - 4), XorWord(SubWord(RotWord(Word(key, i - 1))), Column(Rcon(i / 4), 0, 0, 0)))
    else XorWord(Word(key, i - 4), Word(key, i - 1))
  }

  function RoundKey(key: State, round: nat): State
  {
    FromColumns(Word(key, 4 * round), Word(key, 4 * round + 1), Word(key, 4 * round + 2), Word(key, 4 * round + 3))
  }

  // ---- The cipher: sections 5.1 and 5.3 ----

  function Round(s: State, k: State): State
  {
    AddRoundKey(MixColumns(ShiftRows(SubBytes(s))), k)
  }

  function FinalRound(s: State, k: State): State
  {
    AddRoundKey(ShiftRows(SubBytes(s)), k)
  }

  function InverseRound(s: State, k: State): State
  {
    InverseSubBytes(InverseShiftRows(InverseMixColumns(AddRoundKey(s, k))))
  }

  function InverseFinalRound(s: State, k: State): State
  {
    InverseSubBytes(InverseShiftRows(AddRoundKey(s, k)))
  }

  /** The state after the first `rounds` full rounds. */
  function Rounds(key: State, input: State, rounds: nat): State
  {
    if rounds == 0 then AddRoundKey(input, RoundKey(key, 0))
    else Round(Rounds(key, input, rounds - 1), RoundKey(key, rounds))
  }

  function InverseRounds(key: State, s: State, rounds: nat): State
    decreases rounds
  {
    if rounds == 0 then AddRoundKey(s, RoundKey(key, 0))
    else InverseRounds(key, InverseRound(s, RoundKey(key, rounds)), rounds - 1)
  }

  function Cipher(key: State, input: State): State
  {
    FinalRound(Rounds(key, input, 9), RoundKey(key, 10))
  }

  function InverseCipher(key: State, output: State): State
  {
    InverseRounds(key, InverseFinalRound(output, RoundKey(key, 10)), 9)
  }

  lemma RoundIsInvertible(s: State, k: State)
    ensures InverseRound(Round(s, k), k) == s && Round(InverseRound(s, k), k) == s
  {
    hide AddRoundKey, MixColumns, ShiftRows, SubBytes, InverseMixColumns, InverseShiftRows, InverseSubBytes;
    SubBytesIsInvertible(s);
    ShiftRowsIsInvertible(SubBytes(s));
    MixColumnsIsInvertible(ShiftRows(SubBytes(s)));
    AddRoundKeyTwice(MixColumns(ShiftRows(SubBytes(s))), k);
    AddRoundKeyTwice(s, k);
    MixColumnsIsInvertible(AddRoundKey(s, k));
    ShiftRowsIsInvertible(InverseMixColumns(AddRoundKey(s, k)));
    SubBytesIsInvertible(InverseShiftRows(InverseMixColumns(AddRoundKey(s, k))));
  }

  lemma FinalRoundIsInvertible(s: State, k: State)
    ensures InverseFinalRound(FinalRound(s, k), k) == s && FinalRound(InverseFinalRound(s, k), k) == s
  {
    hide AddRoundKey, ShiftRows, SubBytes, InverseShiftRows, InverseSubBytes;
    SubBytesIsInvertible(s);
    ShiftRowsIsInvertible(SubBytes(s));
    AddRoundKeyTwice(ShiftRows(SubBytes(s)), k);
    AddRoundKeyTwice(s, k);
    ShiftRowsIsInvertible(AddRoundKey(s, k));
    SubBytesIsInvertible(InverseShiftRows(AddRoundKey(s, k)));
  }

  lemma {:induction false} RoundsAreInvertible(key: State, s: State, rounds: nat)
    ensures InverseRounds(key, Rounds(key, s, rounds), rounds) == s
    ensures Rounds(key, InverseRounds(key, s, rounds), rounds) == s
    decreases rounds
  {
    hide Round, InverseRound, AddRoundKey, RoundKey;
    if rounds == 0 {
      AddRoundKeyTwice(s, RoundKey(key, 0));
    } else {
      var k := RoundKey(key, rounds);
      RoundIsInvertible(Rounds(key, s, rounds - 1), k);
      RoundsAreInvertible(key, s, rounds - 1);
      RoundIsInvertible(s, k);
      RoundsAreInvertible(key, InverseRound(s, k), rounds - 1);
    }
  }

  /** Under every key, encryption is a permutation of blocks. */
  lemma CipherIsPermutation(key: State, block: State)
    ensures InverseCipher(key, Cipher(key, block)) == block
    ensures Cipher(key, InverseCipher(key, block)) == block
  {
    hide Rounds, InverseRounds, FinalRound, InverseFinalRound, RoundKey;
    var k := RoundKey(key, 10);
    FinalRoundIsInvertible(Rounds(key, block, 9), k);
    FinalRoundIsInvertible(block, k);
    RoundsAreInvertible(key, block, 9);
    RoundsAreInvertible(key, InverseFinalRound(block, k), 9);
  }
}
