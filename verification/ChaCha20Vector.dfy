/** The ChaCha20 examples of sections 2.3.2 and 2.6.2 of RFC 8439, double round by double round. */
module ChaCha20Vector {
  import opened Bytes
  import opened ChaCha20
  import ChaChaPoly

  // ---- The state as four columns ----

  datatype Columns = Columns(c0: Quad, c1: Quad, c2: Quad, c3: Quad)

  function WordsOf(m: Columns): Words
  {
    [m.c0.a, m.c1.a, m.c2.a, m.c3.a] + [m.c0.b, m.c1.b, m.c2.b, m.c3.b]
    + [m.c0.c, m.c1.c, m.c2.c, m.c3.c] + [m.c0.d, m.c1.d, m.c2.d, m.c3.d]
  }

  function ColumnRound(m: Columns): Columns
  {
    Columns(Quarter(m.c0), Quarter(m.c1), Quarter(m.c2), Quarter(m.c3))
  }

  /** Row i moves i places to the left, so that the diagonals are columns. */
  function Slanted(m: Columns): Columns
  {
    Columns(Quad(m.c0.a, m.c1.b, m.c2.c, m.c3.d), Quad(m.c1.a, m.c2.b, m.c3.c, m.c0.d),
            Quad(m.c2.a, m.c3.b, m.c0.c, m.c1.d), Quad(m.c3.a, m.c0.b, m.c1.c, m.c2.d))
  }

  function Upright(m: Columns): Columns
  {
    Columns(Quad(m.c0.a, m.c3.b, m.c2.c, m.c1.d), Quad(m.c1.a, m.c0.b, m.c3.c, m.c2.d),
            Quad(m.c2.a, m.c1.b, m.c0.c, m.c3.d), Quad(m.c3.a, m.c2.b, m.c1.c, m.c0.d))
  }

  function ColumnsThenDiagonals(m: Columns): Columns
  {
    Upright(ColumnRound(Slanted(ColumnRound(m))))
  }

  lemma QuarterAtTouches(s: Words, x: nat, y: nat, z: nat, w: nat, q: Quad)
    requires FourIndices(x, y, z, w) && q == Quarter(Quad(s[x], s[y], s[z], s[w]))
    ensures Touched(s, QuarterAt(s, x, y, z, w), x, y, z, w, q)
  {
    hide Quarter;
  }

  predicate Holds(s: Words, m: Columns)
  {
    && s[0] == m.c0.a && s[1] == m.c1.a && s[2] == m.c2.a && s[3] == m.c3.a
    && s[4] == m.c0.b && s[5] == m.c1.b && s[6] == m.c2.b && s[7] == m.c3.b
    && s[8] == m.c0.c && s[9] == m.c1.c && s[10] == m.c2.c && s[11] == m.c3.c
    && s[12] == m.c0.d && s[13] == m.c1.d && s[14] == m.c2.d && s[15] == m.c3.d
  }

  lemma HoldsWords(m: Columns)
    ensures Holds(WordsOf(m), m)
  {
    RowsTogether([m.c0.a, m.c1.a, m.c2.a, m.c3.a], [m.c0.b, m.c1.b, m.c2.b, m.c3.b],
                 [m.c0.c, m.c1.c, m.c2.c, m.c3.c], [m.c0.d, m.c1.d, m.c2.d, m.c3.d], WordsOf(m));
  }

  lemma RowsTogether(r0: seq<word>, r1: seq<word>, r2: seq<word>, r3: seq<word>, s: Words)
    requires |r0| == |r1| == |r2| == |r3| == 4 && s == r0 + r1 + r2 + r3
    ensures s[0] == r0[0] && s[1] == r0[1] && s[2] == r0[2] && s[3] == r0[3]
    ensures s[4] == r1[0] && s[5] == r1[1] && s[6] == r1[2] && s[7] == r1[3]
    ensures s[8] == r2[0] && s[9] == r2[1] && s[10] == r2[2] && s[11] == r2[3]
    ensures s[12] == r3[0] && s[13] == r3[1] && s[14] == r3[2] && s[15] == r3[3]
  {
  }

  lemma SameWords(s: Words, m: Columns)
    requires Holds(s, m)
    ensures s == WordsOf(m)
  {
  }

  /** One quarter round touches four words; the other twelve stay. */
  predicate Touched(s: Words, t: Words, x: nat, y: nat, z: nat, w: nat, q: Quad)
    requires FourIndices(x, y, z, w)
  {
    && t[x] == q.a && t[y] == q.b && t[z] == q.c && t[w] == q.d
    && forall i :: 0 <= i < 16 && i != x && i != y && i != z && i != w ==> t[i] == s[i]
  }

  lemma Columnwise(m: Columns, s: Words, s1: Words, s2: Words, s3: Words, s4: Words)
    requires Holds(s, m)
    requires Touched(s, s1, 0, 4, 8, 12, Quarter(m.c0)) && Touched(s1, s2, 1, 5, 9, 13, Quarter(m.c1))
    requires Touched(s2, s3, 2, 6, 10, 14, Quarter(m.c2)) && Touched(s3, s4, 3, 7, 11, 15, Quarter(m.c3))
    ensures Holds(s4, ColumnRound(m))
  {
    hide Quarter;
  }

  lemma Diagonalwise(m: Columns, d: Columns, s: Words, s1: Words, s2: Words, s3: Words, s4: Words)
    requires Holds(s, m)
    requires Touched(s, s1, 0, 5, 10, 15, d.c0) && Touched(s1, s2, 1, 6, 11, 12, d.c1)
    requires Touched(s2, s3, 2, 7, 8, 13, d.c2) && Touched(s3, s4, 3, 4, 9, 14, d.c3)
    ensures Holds(s4, Upright(d))
  {
  }

  function ColumnHalf(s: Words): Words
  {
    var s1 := QuarterAt(s, 0, 4, 8, 12);
    var s2 := QuarterAt(s1, 1, 5, 9, 13);
    var s3 := QuarterAt(s2, 2, 6, 10, 14);
    QuarterAt(s3, 3, 7, 11, 15)
  }

  function DiagonalHalf(s: Words): Words
  {
    var s1 := QuarterAt(s, 0, 5, 10, 15);
    var s2 := QuarterAt(s1, 1, 6, 11, 12);
    var s3 := QuarterAt(s2, 2, 7, 8, 13);
    QuarterAt(s3, 3, 4, 9, 14)
  }

  lemma Halves(s: Words)
    ensures DoubleRound(s) == DiagonalHalf(ColumnHalf(s))
  {
    hide QuarterAt;
  }

  lemma ColumnsDone(m: Columns)
    ensures ColumnHalf(WordsOf(m)) == WordsOf(ColumnRound(m))
  {
    hide Quarter, QuarterAt, WordsOf;
    var s := WordsOf(m);
    HoldsWords(m);
    var s1 := QuarterAt(s, 0, 4, 8, 12);
    QuarterAtTouches(s, 0, 4, 8, 12, Quarter(m.c0));
    var s2 := QuarterAt(s1, 1, 5, 9, 13);
    QuarterAtTouches(s1, 1, 5, 9, 13, Quarter(m.c1));
    var s3 := QuarterAt(s2, 2, 6, 10, 14);
    QuarterAtTouches(s2, 2, 6, 10, 14, Quarter(m.c2));
    QuarterAtTouches(s3, 3, 7, 11, 15, Quarter(m.c3));
    Columnwise(m, s, s1, s2, s3, QuarterAt(s3, 3, 7, 11, 15));
    SameWords(QuarterAt(s3, 3, 7, 11, 15), ColumnRound(m));
  }

  lemma DiagonalsDone(m: Columns)
    ensures DiagonalHalf(WordsOf(m)) == WordsOf(Upright(ColumnRound(Slanted(m))))
  {
    hide Quarter, QuarterAt, WordsOf;
    var s, d := WordsOf(m), ColumnRound(Slanted(m));
    HoldsWords(m);
    var s1 := QuarterAt(s, 0, 5, 10, 15);
    QuarterAtTouches(s, 0, 5, 10, 15, d.c0);
    var s2 := QuarterAt(s1, 1, 6, 11, 12);
    QuarterAtTouches(s1, 1, 6, 11, 12, d.c1);
    var s3 := QuarterAt(s2, 2, 7, 8, 13);
    QuarterAtTouches(s2, 2, 7, 8, 13, d.c2);
    QuarterAtTouches(s3, 3, 4, 9, 14, d.c3);
    Diagonalwise(m, d, s, s1, s2, s3, QuarterAt(s3, 3, 4, 9, 14));
    SameWords(QuarterAt(s3, 3, 4, 9, 14), Upright(d));
  }

  /** A double round is four quarter rounds on the columns and four on the diagonals. */
  lemma DoubleRoundByColumns(m: Columns)
    ensures DoubleRound(WordsOf(m)) == WordsOf(ColumnsThenDiagonals(m))
  {
    hide ColumnHalf, DiagonalHalf, WordsOf, ColumnRound, Slanted, Upright;
    Halves(WordsOf(m));
    ColumnsDone(m);
    DiagonalsDone(ColumnRound(m));
  }

  lemma TenDoubleRounds(m0: Columns, m1: Columns, m2: Columns, m3: Columns, m4: Columns, m5: Columns, m6: Columns,
                        m7: Columns, m8: Columns, m9: Columns, m10: Columns)
    requires ColumnsThenDiagonals(m0) == m1 && ColumnsThenDiagonals(m1) == m2 && ColumnsThenDiagonals(m2) == m3
    requires ColumnsThenDiagonals(m3) == m4 && ColumnsThenDiagonals(m4) == m5 && ColumnsThenDiagonals(m5) == m6
    requires ColumnsThenDiagonals(m6) == m7 && ColumnsThenDiagonals(m7) == m8 && ColumnsThenDiagonals(m8) == m9
    requires ColumnsThenDiagonals(m9) == m10
    ensures Rounds(WordsOf(m0), 10) == WordsOf(m10)
  {
    hide ColumnsThenDiagonals, WordsOf, DoubleRound;
    var s := WordsOf(m0);
    assert Rounds(s, 0) == s;
    DoubleRoundByColumns(m0);
    assert Rounds(s, 1) == WordsOf(m1);
    DoubleRoundByColumns(m1);
    assert Rounds(s, 2) == WordsOf(m2);
    DoubleRoundByColumns(m2);
    assert Rounds(s, 3) == WordsOf(m3);
    DoubleRoundByColumns(m3);
    assert Rounds(s, 4) == WordsOf(m4);
    DoubleRoundByColumns(m4);
    assert Rounds(s, 5) == WordsOf(m5);
    DoubleRoundByColumns(m5);
    assert Rounds(s, 6) == WordsOf(m6);
    DoubleRoundByColumns(m6);
    assert Rounds(s, 7) == WordsOf(m7);
    DoubleRoundByColumns(m7);
    assert Rounds(s, 8) == WordsOf(m8);
    DoubleRoundByColumns(m8);
    assert Rounds(s, 9) == WordsOf(m9);
    DoubleRoundByColumns(m9);
  }

  lemma {:induction false} SerializedWord(s: seq<word>, i: nat)
    requires i < |s|
    ensures Serialize(s)[4 * i..4 * i + 4] == WordBytes(s[i])
  {
    hide WordBytes;
    if i < |s| - 1 {
      SerializedWord(s[..|s| - 1], i);
    }
  }

  /** Word i of a block is the sum of the words before and after the rounds. */
  lemma WordOfBlock(key: seq<byte>, counter: nat, nonce: seq<byte>, i: nat, before: word, after: word)
    requires |key| == KEY_LENGTH && |nonce| == NONCE_LENGTH && counter < 0x1_0000_0000 && i < 16
    requires before == InitialState(key, counter, nonce)[i] && after == Rounds(InitialState(key, counter, nonce), 10)[i]
    ensures Block(key, counter, nonce)[4 * i..4 * i + 4] == WordBytes(Plus(after, before))
  {
    hide InitialState, Rounds, WordBytes, Plus;
    var s := InitialState(key, counter, nonce);
    SerializedWord(AddStates(Rounds(s, 10), s), i);
  }

  // ---- Section 2.3.2 ----

  const Example0: Columns :=
    Columns(Quad(0x6170_7865, 0x0302_0100, 0x1312_1110, 0x0000_0001),
            Quad(0x3320_646e, 0x0706_0504, 0x1716_1514, 0x0900_0000),
            Quad(0x7962_2d32, 0x0b0a_0908, 0x1b1a_1918, 0x4a00_0000),
            Quad(0x6b20_6574, 0x0f0e_0d0c, 0x1f1e_1d1c, 0x0000_0000))

  const Example1: Columns :=
    Columns(Quad(0xcd52_e917, 0xc4b7_cd22, 0x7bf7_d740, 0x6b0d_58a3),
            Quad(0x85ab_03b4, 0x5c2e_187a, 0x7edd_d644, 0x6798_471a),
            Quad(0xb345_7395, 0xc95e_b461, 0xf1a1_bdf5, 0xd737_f167),
            Quad(0xf96d_e7dd, 0x316c_801a, 0x7612_46ca, 0xf173_888d))

  const Example2: Columns :=
    Columns(Quad(0xcf1a_7584, 0x901d_2f40, 0x2daf_b216, 0x10ae_f18d),
            Quad(0x0489_27ec, 0x7974_b81c, 0x27c8_9cd6, 0x1621_8765),
            Quad(0x5405_1fda, 0x378d_cfb4, 0xcd3c_9aa0, 0x68f7_6705),
            Quad(0xc244_ff28, 0xcd47_fd0e, 0x79fc_89c7, 0x04d6_ee22))

  const Example3: Columns :=
    Columns(Quad(0x03a1_4032, 0xa714_3ae0, 0xc90c_6b18, 0xba35_d777),
            Quad(0x66b1_5927, 0xa09b_33dd, 0x5a20_2413, 0xb360_f1bf),
            Quad(0x9d6b_6b42, 0xa5da_af88, 0xc20e_01b6, 0x8178_315b),
            Quad(0xb84c_4109, 0x2fd9_1a73, 0x72cd_6b74, 0x2cd1_1b1a))

  const Example4: Columns :=
    Columns(Quad(0x9a2d_3589, 0x0a1b_ffc6, 0xe46c_6354, 0x2687_d476),
            Quad(0x0b23_fc4e, 0x5e59_93f7, 0xc950_3229, 0x54e6_5231),
            Quad(0x40af_3b6b, 0x9904_c2e7, 0x04fe_f5aa, 0x3594_ffc5),
            Quad(0xceea_8144, 0x0d33_4718, 0xf893_3f72, 0x2b3b_b2ca))

  const Example5: Columns :=
    Columns(Quad(0xc533_18c5, 0x26d7_cf73, 0xae2c_a8db, 0x9e5e_c228),
            Quad(0xca32_5d96, 0x6088_d379, 0x42f6_7c72, 0x7d85_a9f3),
            Quad(0x7e7d_11cb, 0xc0f0_e9bd, 0x7166_9aca, 0x201d_0756),
            Quad(0x3404_e2ca, 0xe310_cdb9, 0x975c_171d, 0x63fa_6953))

  const Example6: Columns :=
    Columns(Quad(0x04a3_131a, 0x36cc_86c7, 0x07d1_3aca, 0x33b6_686d),
            Quad(0x6617_6309, 0xbf8a_4465, 0xeb0b_e9af, 0x795c_c671),
            Quad(0x0415_bab1, 0xf77d_d720, 0x6159_9491, 0xc004_9972),
            Quad(0x61b8_80a2, 0xfc0b_dc90, 0x9185_12dc, 0xa0a8_1bde))

  const Example7: Columns :=
    Columns(Quad(0x9b70_f51f, 0x93b0_8686, 0xd839_165e, 0xa609_f555),
            Quad(0x7ea8_ac11, 0x6a4c_50ae, 0x4c06_e28a, 0x2c24_6549),
            Quad(0x21e5_4da9, 0x1921_2a5a, 0xd3fd_e99e, 0x9515_1853),
            Quad(0xca39_3b2f, 0x9b03_2958, 0x26ac_c13d, 0x2c84_7a0d))

  const Example8: Columns :=
    Columns(Quad(0xca5c_85dd, 0x9825_63f8, 0x1c25_931a, 0xa9b7_51fb),
            Quad(0x93a4_f90e, 0x712a_a9ff, 0x5180_bb10, 0x382f_3ce2),
            Quad(0xd9f0_df58, 0x279a_61e8, 0x779c_27e7, 0x8db1_757d),
            Quad(0x26dd_82dd, 0x970f_72bd, 0x5407_7e08, 0xcc38_080b))

  const Example9: Columns :=
    Columns(Quad(0xb6b8_7de6, 0xdc33_c122, 0x28c1_fcb3, 0x2107_8b22),
            Quad(0x9a01_6148, 0x98e1_8fa3, 0xc4b3_8f9d, 0xb193_e7a3),
            Quad(0x9385_9815, 0x5ffb_e8fc, 0x83e2_f5d7, 0xb2f4_9389),
            Quad(0x4915_e6cc, 0xf715_4b8b, 0x7d24_b98b, 0x6cde_6026))

  const Example10: Columns :=
    Columns(Quad(0x8377_78ab, 0xc4f2_d0c7, 0x3352_71c2, 0xd19c_12b4),
            Quad(0xe238_d763, 0xfc62_bb2f, 0xf294_89f3, 0xb04e_16de),
            Quad(0xa67a_e21e, 0x8fa0_18fc, 0xeabd_a8fc, 0x9e83_d0cb),
            Quad(0x5950_bb2f, 0x3f5e_c7b7, 0x82e4_6ebd, 0x4e3c_50a2))

  lemma ExampleRound1()
    ensures ColumnsThenDiagonals(Example0) == Example1
  {
  }

  lemma ExampleRound2()
    ensures ColumnsThenDiagonals(Example1) == Example2
  {
  }

  lemma ExampleRound3()
    ensures ColumnsThenDiagonals(Example2) == Example3
  {
  }

  lemma ExampleRound4()
    ensures ColumnsThenDiagonals(Example3) == Example4
  {
  }

  lemma ExampleRound5()
    ensures ColumnsThenDiagonals(Example4) == Example5
  {
  }

  lemma ExampleRound6()
    ensures ColumnsThenDiagonals(Example5) == Example6
  {
  }

  lemma ExampleRound7()
    ensures ColumnsThenDiagonals(Example6) == Example7
  {
  }

  lemma ExampleRound8()
    ensures ColumnsThenDiagonals(Example7) == Example8
  {
  }

  lemma ExampleRound9()
    ensures ColumnsThenDiagonals(Example8) == Example9
  {
  }

  lemma ExampleRound10()
    ensures ColumnsThenDiagonals(Example9) == Example10
  {
  }

  lemma ExampleKeyWords0(key: seq<byte>)
    requires |key| == 32
    requires key[0..16]
          == [0x00, 0x01, 0x02, 0x03, 0x04, 0x05, 0x06, 0x07, 0x08, 0x09, 0x0a, 0x0b, 0x0c, 0x0d, 0x0e, 0x0f]
    ensures ReadLittleEndian32(key, 0) == 0x0302_0100 && ReadLittleEndian32(key, 4) == 0x0706_0504
    ensures ReadLittleEndian32(key, 8) == 0x0b0a_0908 && ReadLittleEndian32(key, 12) == 0x0f0e_0d0c
  {
    hide ReadLittleEndian32;
    var half := key[0..16];
    assert key[0] == half[0] && key[1] == half[1] && key[2] == half[2] && key[3] == half[3];
    assert key[4] == half[4] && key[5] == half[5] && key[6] == half[6] && key[7] == half[7];
    assert key[8] == half[8] && key[9] == half[9] && key[10] == half[10] && key[11] == half[11];
    assert key[12] == half[12] && key[13] == half[13] && key[14] == half[14] && key[15] == half[15];
    WordIs(key, 0, 0x00, 0x01, 0x02, 0x03);
    WordIs(key, 4, 0x04, 0x05, 0x06, 0x07);
    WordIs(key, 8, 0x08, 0x09, 0x0a, 0x0b);
    WordIs(key, 12, 0x0c, 0x0d, 0x0e, 0x0f);
  }

  lemma ExampleKeyWords1(key: seq<byte>)
    requires |key| == 32
    requires key[16..32]
          == [0x10, 0x11, 0x12, 0x13, 0x14, 0x15, 0x16, 0x17, 0x18, 0x19, 0x1a, 0x1b, 0x1c, 0x1d, 0x1e, 0x1f]
    ensures ReadLittleEndian32(key, 16) == 0x1312_1110 && ReadLittleEndian32(key, 20) == 0x1716_1514
    ensures ReadLittleEndian32(key, 24) == 0x1b1a_1918 && ReadLittleEndian32(key, 28) == 0x1f1e_1d1c
  {
    hide ReadLittleEndian32;
    var half := key[16..32];
    assert key[16] == half[0] && key[17] == half[1] && key[18] == half[2] && key[19] == half[3];
    assert key[20] == half[4] && key[21] == half[5] && key[22] == half[6] && key[23] == half[7];
    assert key[24] == half[8] && key[25] == half[9] && key[26] == half[10] && key[27] == half[11];
    assert key[28] == half[12] && key[29] == half[13] && key[30] == half[14] && key[31] == half[15];
    WordIs(key, 16, 0x10, 0x11, 0x12, 0x13);
    WordIs(key, 20, 0x14, 0x15, 0x16, 0x17);
    WordIs(key, 24, 0x18, 0x19, 0x1a, 0x1b);
    WordIs(key, 28, 0x1c, 0x1d, 0x1e, 0x1f);
  }

  lemma ExampleNonceWords(nonce: seq<byte>)
    requires nonce == [0x00, 0x00, 0x00, 0x09, 0x00, 0x00, 0x00, 0x4a, 0x00, 0x00, 0x00, 0x00]
    ensures ReadLittleEndian32(nonce, 0) == 0x0900_0000
    ensures ReadLittleEndian32(nonce, 4) == 0x4a00_0000 && ReadLittleEndian32(nonce, 8) == 0x0000_0000
  {
    hide ReadLittleEndian32;
    WordIs(nonce, 0, 0x00, 0x00, 0x00, 0x09);
    WordIs(nonce, 4, 0x00, 0x00, 0x00, 0x4a);
    WordIs(nonce, 8, 0x00, 0x00, 0x00, 0x00);
  }

  lemma ExampleState(key: seq<byte>, nonce: seq<byte>)
    requires key == [0x00, 0x01, 0x02, 0x03, 0x04, 0x05, 0x06, 0x07, 0x08, 0x09, 0x0a, 0x0b, 0x0c, 0x0d, 0x0e, 0x0f,
                      0x10, 0x11, 0x12, 0x13, 0x14, 0x15, 0x16, 0x17, 0x18, 0x19, 0x1a, 0x1b, 0x1c, 0x1d, 0x1e, 0x1f]
    requires nonce == [0x00, 0x00, 0x00, 0x09, 0x00, 0x00, 0x00, 0x4a, 0x00, 0x00, 0x00, 0x00]
    ensures InitialState(key, 1, nonce) == WordsOf(Example0)
  {
    hide ReadLittleEndian32, InitialState;
    ExampleKeyWords0(key);
    ExampleKeyWords1(key);
    ExampleNonceWords(nonce);
    StateWords(key, 1, nonce);
    var s := InitialState(key, 1, nonce);
    assert s[4 + 0] == ReadLittleEndian32(key, 4 * 0) && s[4 + 1] == ReadLittleEndian32(key, 4 * 1);
    assert s[4 + 2] == ReadLittleEndian32(key, 4 * 2) && s[4 + 3] == ReadLittleEndian32(key, 4 * 3);
    assert s[4 + 4] == ReadLittleEndian32(key, 4 * 4) && s[4 + 5] == ReadLittleEndian32(key, 4 * 5);
    assert s[4 + 6] == ReadLittleEndian32(key, 4 * 6) && s[4 + 7] == ReadLittleEndian32(key, 4 * 7);
    assert s[13 + 0] == ReadLittleEndian32(nonce, 4 * 0) && s[13 + 1] == ReadLittleEndian32(nonce, 4 * 1);
    assert s[13 + 2] == ReadLittleEndian32(nonce, 4 * 2);
    SameWords(s, Example0);
  }

  lemma ExampleSums0()
    ensures Plus(Example10.c0.a, Example0.c0.a) == 0xe4e7_f110
    ensures Plus(Example10.c1.a, Example0.c1.a) == 0x1559_3bd1
    ensures Plus(Example10.c2.a, Example0.c2.a) == 0x1fdd_0f50
    ensures Plus(Example10.c3.a, Example0.c3.a) == 0xc471_20a3
    ensures WordBytes(0xe4e7_f110) == [0x10, 0xf1, 0xe7, 0xe4]
    ensures WordBytes(0x1559_3bd1) == [0xd1, 0x3b, 0x59, 0x15]
    ensures WordBytes(0x1fdd_0f50) == [0x50, 0x0f, 0xdd, 0x1f]
    ensures WordBytes(0xc471_20a3) == [0xa3, 0x20, 0x71, 0xc4]
  {
  }

  lemma ExampleSums1()
    ensures Plus(Example10.c0.b, Example0.c0.b) == 0xc7f4_d1c7
    ensures Plus(Example10.c1.b, Example0.c1.b) == 0x0368_c033
    ensures Plus(Example10.c2.b, Example0.c2.b) == 0x9aaa_2204
    ensures Plus(Example10.c3.b, Example0.c3.b) == 0x4e6c_d4c3
    ensures WordBytes(0xc7f4_d1c7) == [0xc7, 0xd1, 0xf4, 0xc7]
    ensures WordBytes(0x0368_c033) == [0x33, 0xc0, 0x68, 0x03]
    ensures WordBytes(0x9aaa_2204) == [0x04, 0x22, 0xaa, 0x9a]
    ensures WordBytes(0x4e6c_d4c3) == [0xc3, 0xd4, 0x6c, 0x4e]
  {
  }

  lemma ExampleSums2()
    ensures Plus(Example10.c0.c, Example0.c0.c) == 0x4664_82d2
    ensures Plus(Example10.c1.c, Example0.c1.c) == 0x09aa_9f07
    ensures Plus(Example10.c2.c, Example0.c2.c) == 0x05d7_c214
    ensures Plus(Example10.c3.c, Example0.c3.c) == 0xa202_8bd9
    ensures WordBytes(0x4664_82d2) == [0xd2, 0x82, 0x64, 0x46]
    ensures WordBytes(0x09aa_9f07) == [0x07, 0x9f, 0xaa, 0x09]
    ensures WordBytes(0x05d7_c214) == [0x14, 0xc2, 0xd7, 0x05]
    ensures WordBytes(0xa202_8bd9) == [0xd9, 0x8b, 0x02, 0xa2]
  {
  }

  lemma ExampleSums3()
    ensures Plus(Example10.c0.d, Example0.c0.d) == 0xd19c_12b5
    ensures Plus(Example10.c1.d, Example0.c1.d) == 0xb94e_16de
    ensures Plus(Example10.c2.d, Example0.c2.d) == 0xe883_d0cb
    ensures Plus(Example10.c3.d, Example0.c3.d) == 0x4e3c_50a2
    ensures WordBytes(0xd19c_12b5) == [0xb5, 0x12, 0x9c, 0xd1]
    ensures WordBytes(0xb94e_16de) == [0xde, 0x16, 0x4e, 0xb9]
    ensures WordBytes(0xe883_d0cb) == [0xcb, 0xd0, 0x83, 0xe8]
    ensures WordBytes(0x4e3c_50a2) == [0xa2, 0x50, 0x3c, 0x4e]
  {
  }

  lemma ExampleRounds()
    ensures Rounds(WordsOf(Example0), 10) == WordsOf(Example10)
  {
    hide ColumnsThenDiagonals, Rounds, WordsOf;
    ExampleRound1();
    ExampleRound2();
    ExampleRound3();
    ExampleRound4();
    ExampleRound5();
    ExampleRound6();
    ExampleRound7();
    ExampleRound8();
    ExampleRound9();
    ExampleRound10();
    TenDoubleRounds(Example0, Example1, Example2, Example3, Example4, Example5,
                    Example6, Example7, Example8, Example9, Example10);
  }

  /** The block of the example: "10f1e7e4 d13b5915 ...". */
  lemma ExampleBlock(key: seq<byte>, nonce: seq<byte>)
    requires key == [0x00, 0x01, 0x02, 0x03, 0x04, 0x05, 0x06, 0x07, 0x08, 0x09, 0x0a, 0x0b, 0x0c, 0x0d, 0x0e, 0x0f,
                      0x10, 0x11, 0x12, 0x13, 0x14, 0x15, 0x16, 0x17, 0x18, 0x19, 0x1a, 0x1b, 0x1c, 0x1d, 0x1e, 0x1f]
    requires nonce == [0x00, 0x00, 0x00, 0x09, 0x00, 0x00, 0x00, 0x4a, 0x00, 0x00, 0x00, 0x00]
    ensures Block(key, 1, nonce)[0..4] == [0x10, 0xf1, 0xe7, 0xe4]
    ensures Block(key, 1, nonce)[4..8] == [0xd1, 0x3b, 0x59, 0x15]
    ensures Block(key, 1, nonce)[8..12] == [0x50, 0x0f, 0xdd, 0x1f]
    ensures Block(key, 1, nonce)[12..16] == [0xa3, 0x20, 0x71, 0xc4]
    ensures Block(key, 1, nonce)[16..20] == [0xc7, 0xd1, 0xf4, 0xc7]
    ensures Block(key, 1, nonce)[20..24] == [0x33, 0xc0, 0x68, 0x03]
    ensures Block(key, 1, nonce)[24..28] == [0x04, 0x22, 0xaa, 0x9a]
    ensures Block(key, 1, nonce)[28..32] == [0xc3, 0xd4, 0x6c, 0x4e]
    ensures Block(key, 1, nonce)[32..36] == [0xd2, 0x82, 0x64, 0x46]
    ensures Block(key, 1, nonce)[36..40] == [0x07, 0x9f, 0xaa, 0x09]
    ensures Block(key, 1, nonce)[40..44] == [0x14, 0xc2, 0xd7, 0x05]
    ensures Block(key, 1, nonce)[44..48] == [0xd9, 0x8b, 0x02, 0xa2]
    ensures Block(key, 1, nonce)[48..52] == [0xb5, 0x12, 0x9c, 0xd1]
    ensures Block(key, 1, nonce)[52..56] == [0xde, 0x16, 0x4e, 0xb9]
    ensures Block(key, 1, nonce)[56..60] == [0xcb, 0xd0, 0x83, 0xe8]
    ensures Block(key, 1, nonce)[60..64] == [0xa2, 0x50, 0x3c, 0x4e]
  {
    hide Rounds, InitialState, Plus, WordBytes, Block;
    ExampleState(key, nonce);
    ExampleRounds();
    ExampleSums0();
    ExampleSums1();
    ExampleSums2();
    ExampleSums3();
    WordOfBlock(key, 1, nonce, 0, Example0.c0.a, Example10.c0.a);
    WordOfBlock(key, 1, nonce, 1, Example0.c1.a, Example10.c1.a);
    WordOfBlock(key, 1, nonce, 2, Example0.c2.a, Example10.c2.a);
    WordOfBlock(key, 1, nonce, 3, Example0.c3.a, Example10.c3.a);
    WordOfBlock(key, 1, nonce, 4, Example0.c0.b, Example10.c0.b);
    WordOfBlock(key, 1, nonce, 5, Example0.c1.b, Example10.c1.b);
    WordOfBlock(key, 1, nonce, 6, Example0.c2.b, Example10.c2.b);
    WordOfBlock(key, 1, nonce, 7, Example0.c3.b, Example10.c3.b);
    WordOfBlock(key, 1, nonce, 8, Example0.c0.c, Example10.c0.c);
    WordOfBlock(key, 1, nonce, 9, Example0.c1.c, Example10.c1.c);
    WordOfBlock(key, 1, nonce, 10, Example0.c2.c, Example10.c2.c);
    WordOfBlock(key, 1, nonce, 11, Example0.c3.c, Example10.c3.c);
    WordOfBlock(key, 1, nonce, 12, Example0.c0.d, Example10.c0.d);
    WordOfBlock(key, 1, nonce, 13, Example0.c1.d, Example10.c1.d);
    WordOfBlock(key, 1, nonce, 14, Example0.c2.d, Example10.c2.d);
    WordOfBlock(key, 1, nonce, 15, Example0.c3.d, Example10.c3.d);
  }

  // ---- Section 2.6.2 ----

  const PolyKey0: Columns :=
    Columns(Quad(0x6170_7865, 0x8382_8180, 0x9392_9190, 0x0000_0000),
            Quad(0x3320_646e, 0x8786_8584, 0x9796_9594, 0x0000_0000),
            Quad(0x7962_2d32, 0x8b8a_8988, 0x9b9a_9998, 0x0302_0100),
            Quad(0x6b20_6574, 0x8f8e_8d8c, 0x9f9e_9d9c, 0x0706_0504))

  const PolyKey1: Columns :=
    Columns(Quad(0x983a_d9ee, 0xc8be_dd27, 0x00a7_65e0, 0xe9e9_9bf1),
            Quad(0xafb2_9b33, 0x5cef_6076, 0x3242_f175, 0x0607_d101),
            Quad(0xe72e_f021, 0x16cb_7523, 0x5fbc_9794, 0xe299_1410),
            Quad(0xcd4d_01ce, 0x84dc_246f, 0xfd71_b417, 0x9a23_5202))

  const PolyKey2: Columns :=
    Columns(Quad(0x3fbe_8211, 0x7438_77cc, 0x73d7_ad58, 0x3950_1a5f),
            Quad(0x8ccc_24d5, 0x8551_c6ed, 0x66fd_28bd, 0xa62f_44db),
            Quad(0x17c6_2fb1, 0xc66e_e57a, 0x8d13_3a8a, 0xa75a_1bc1),
            Quad(0x6050_5b8e, 0x2360_ee92, 0x10d4_a4a2, 0xe7fa_684f))

  const PolyKey3: Columns :=
    Columns(Quad(0xbdef_4a68, 0x5113_4b2f, 0x06db_ffdd, 0x1345_c53b),
            Quad(0xf2ae_9280, 0x1414_58c7, 0x0341_a04c, 0x380f_c02c),
            Quad(0xd2e3_5dbf, 0x3e0d_5562, 0x5419_3ede, 0x6eff_43ff),
            Quad(0x29e4_4471, 0xefee_8aed, 0x86a7_0f5d, 0xe6df_89e7))

  const PolyKey4: Columns :=
    Columns(Quad(0x808f_f9e0, 0x343a_8a6f, 0x6003_695a, 0xc2a8_f7b3),
            Quad(0x6cdd_cedb, 0x73e5_0971, 0x1a54_8d78, 0xdf70_4513),
            Quad(0x5a6f_b0ca, 0x4060_e6d1, 0xa979_e265, 0xcaae_e26a),
            Quad(0x9fc2_22b3, 0x79a9_f607, 0x11e7_f79d, 0xb26f_afda))

  const PolyKey5: Columns :=
    Columns(Quad(0x1b29_9895, 0xb08f_419c, 0xd3d9_f230, 0x8339_4b89),
            Quad(0xa40a_38f0, 0x265d_f09d, 0xf009_541a, 0xa9a4_7ec6),
            Quad(0xbc29_4e4b, 0xdc87_becc, 0xb917_cdf8, 0x12c2_21a1),
            Quad(0x6cfa_835e, 0xa983_6596, 0x5043_bb7d, 0xccd9_63f2))

  const PolyKey6: Columns :=
    Columns(Quad(0xc530_6e90, 0x5510_25e0, 0x686d_0bdb, 0xde75_e842),
            Quad(0x294f_1e96, 0xce26_03c1, 0x1204_728d, 0xc3b7_0b0a),
            Quad(0x61e7_75e5, 0xe0ed_f64a, 0x6df9_7b6d, 0xd466_fefb),
            Quad(0x9a58_0c5d, 0xfc18_31b1, 0xe50c_6e1f, 0x2807_e176))

  const PolyKey7: Columns :=
    Columns(Quad(0xfd06_ab8b, 0x5e04_d2ac, 0xe887_c2c0, 0x8dde_aac3),
            Quad(0x544e_8c2a, 0x4fbc_8b5b, 0x23fc_740f, 0x417b_6d4d),
            Quad(0x5851_bc93, 0x2235_8a38, 0xcdf8_6b47, 0x9b17_f15f),
            Quad(0x35c6_65f8, 0xf8c1_45ed, 0x2437_0a90, 0x8b10_1b84))

  const PolyKey8: Columns :=
    Columns(Quad(0xa91f_3b4d, 0x7349_126a, 0x2828_1386, 0x3bea_1825),
            Quad(0xc07e_c048, 0x9cf4_a2ec, 0x0f50_c092, 0x00cd_abca),
            Quad(0xd413_deb7, 0xaba8_f192, 0xcfe2_2116, 0x3e47_cfef),
            Quad(0xa3ff_ed26, 0xaeff_84fa, 0x7bb3_3019, 0x982c_e5e6))

  const PolyKey9: Columns :=
    Columns(Quad(0xf7dc_8f5e, 0x64e4_65df, 0x2387_36fc, 0xeb64_d0fb),
            Quad(0xc36c_04aa, 0xd524_44d2, 0x92df_688b, 0x1498_d768),
            Quad(0x4cff_98a6, 0x22df_c075, 0x0261_a32e, 0x4422_4185),
            Quad(0x31b7_64a4, 0x3a42_c854, 0x5d7d_578e, 0x46f9_597f))

  const PolyKey10: Columns :=
    Columns(Quad(0x2a30_5d25, 0xb433_b228, 0xea0d_a5f2, 0x3cc1_875a),
            Quad(0x9960_fb22, 0x1d87_785f, 0xf9ed_0c9f, 0x8607_def1),
            Quad(0xadde_234f, 0x572e_5180, 0x78f0_38d9, 0xc75a_2f86),
            Quad(0x0674_4cd6, 0xb718_4471, 0x14c8_d635, 0x697f_e683))

  lemma PolyKeyRound1()
    ensures ColumnsThenDiagonals(PolyKey0) == PolyKey1
  {
  }

  lemma PolyKeyRound2()
    ensures ColumnsThenDiagonals(PolyKey1) == PolyKey2
  {
  }

  lemma PolyKeyRound3()
    ensures ColumnsThenDiagonals(PolyKey2) == PolyKey3
  {
  }

  lemma PolyKeyRound4()
    ensures ColumnsThenDiagonals(PolyKey3) == PolyKey4
  {
  }

  lemma PolyKeyRound5()
    ensures ColumnsThenDiagonals(PolyKey4) == PolyKey5
  {
  }

  lemma PolyKeyRound6()
    ensures ColumnsThenDiagonals(PolyKey5) == PolyKey6
  {
  }

  lemma PolyKeyRound7()
    ensures ColumnsThenDiagonals(PolyKey6) == PolyKey7
  {
  }

  lemma PolyKeyRound8()
    ensures ColumnsThenDiagonals(PolyKey7) == PolyKey8
  {
  }

  lemma PolyKeyRound9()
    ensures ColumnsThenDiagonals(PolyKey8) == PolyKey9
  {
  }

  lemma PolyKeyRound10()
    ensures ColumnsThenDiagonals(PolyKey9) == PolyKey10
  {
  }

  lemma PolyKeyKeyWords0(key: seq<byte>)
    requires |key| == 32
    requires key[0..16]
          == [0x80, 0x81, 0x82, 0x83, 0x84, 0x85, 0x86, 0x87, 0x88, 0x89, 0x8a, 0x8b, 0x8c, 0x8d, 0x8e, 0x8f]
    ensures ReadLittleEndian32(key, 0) == 0x8382_8180 && ReadLittleEndian32(key, 4) == 0x8786_8584
    ensures ReadLittleEndian32(key, 8) == 0x8b8a_8988 && ReadLittleEndian32(key, 12) == 0x8f8e_8d8c
  {
    hide ReadLittleEndian32;
    var half := key[0..16];
    assert key[0] == half[0] && key[1] == half[1] && key[2] == half[2] && key[3] == half[3];
    assert key[4] == half[4] && key[5] == half[5] && key[6] == half[6] && key[7] == half[7];
    assert key[8] == half[8] && key[9] == half[9] && key[10] == half[10] && key[11] == half[11];
    assert key[12] == half[12] && key[13] == half[13] && key[14] == half[14] && key[15] == half[15];
    WordIs(key, 0, 0x80, 0x81, 0x82, 0x83);
    WordIs(key, 4, 0x84, 0x85, 0x86, 0x87);
    WordIs(key, 8, 0x88, 0x89, 0x8a, 0x8b);
    WordIs(key, 12, 0x8c, 0x8d, 0x8e, 0x8f);
  }

  lemma PolyKeyKeyWords1(key: seq<byte>)
    requires |key| == 32
    requires key[16..32]
          == [0x90, 0x91, 0x92, 0x93, 0x94, 0x95, 0x96, 0x97, 0x98, 0x99, 0x9a, 0x9b, 0x9c, 0x9d, 0x9e, 0x9f]
    ensures ReadLittleEndian32(key, 16) == 0x9392_9190 && ReadLittleEndian32(key, 20) == 0x9796_9594
    ensures ReadLittleEndian32(key, 24) == 0x9b9a_9998 && ReadLittleEndian32(key, 28) == 0x9f9e_9d9c
  {
    hide ReadLittleEndian32;
    var half := key[16..32];
    assert key[16] == half[0] && key[17] == half[1] && key[18] == half[2] && key[19] == half[3];
    assert key[20] == half[4] && key[21] == half[5] && key[22] == half[6] && key[23] == half[7];
    assert key[24] == half[8] && key[25] == half[9] && key[26] == half[10] && key[27] == half[11];
    assert key[28] == half[12] && key[29] == half[13] && key[30] == half[14] && key[31] == half[15];
    WordIs(key, 16, 0x90, 0x91, 0x92, 0x93);
    WordIs(key, 20, 0x94, 0x95, 0x96, 0x97);
    WordIs(key, 24, 0x98, 0x99, 0x9a, 0x9b);
    WordIs(key, 28, 0x9c, 0x9d, 0x9e, 0x9f);
  }

  lemma PolyKeyNonceWords(nonce: seq<byte>)
    requires nonce == [0x00, 0x00, 0x00, 0x00, 0x00, 0x01, 0x02, 0x03, 0x04, 0x05, 0x06, 0x07]
    ensures ReadLittleEndian32(nonce, 0) == 0x0000_0000
    ensures ReadLittleEndian32(nonce, 4) == 0x0302_0100 && ReadLittleEndian32(nonce, 8) == 0x0706_0504
  {
    hide ReadLittleEndian32;
    WordIs(nonce, 0, 0x00, 0x00, 0x00, 0x00);
    WordIs(nonce, 4, 0x00, 0x01, 0x02, 0x03);
    WordIs(nonce, 8, 0x04, 0x05, 0x06, 0x07);
  }

  lemma PolyKeyState(key: seq<byte>, nonce: seq<byte>)
    requires key == [0x80, 0x81, 0x82, 0x83, 0x84, 0x85, 0x86, 0x87, 0x88, 0x89, 0x8a, 0x8b, 0x8c, 0x8d, 0x8e, 0x8f,
                      0x90, 0x91, 0x92, 0x93, 0x94, 0x95, 0x96, 0x97, 0x98, 0x99, 0x9a, 0x9b, 0x9c, 0x9d, 0x9e, 0x9f]
    requires nonce == [0x00, 0x00, 0x00, 0x00, 0x00, 0x01, 0x02, 0x03, 0x04, 0x05, 0x06, 0x07]
    ensures InitialState(key, 0, nonce) == WordsOf(PolyKey0)
  {
    hide ReadLittleEndian32, InitialState;
    PolyKeyKeyWords0(key);
    PolyKeyKeyWords1(key);
    PolyKeyNonceWords(nonce);
    StateWords(key, 0, nonce);
    var s := InitialState(key, 0, nonce);
    assert s[4 + 0] == ReadLittleEndian32(key, 4 * 0) && s[4 + 1] == ReadLittleEndian32(key, 4 * 1);
    assert s[4 + 2] == ReadLittleEndian32(key, 4 * 2) && s[4 + 3] == ReadLittleEndian32(key, 4 * 3);
    assert s[4 + 4] == ReadLittleEndian32(key, 4 * 4) && s[4 + 5] == ReadLittleEndian32(key, 4 * 5);
    assert s[4 + 6] == ReadLittleEndian32(key, 4 * 6) && s[4 + 7] == ReadLittleEndian32(key, 4 * 7);
    assert s[13 + 0] == ReadLittleEndian32(nonce, 4 * 0) && s[13 + 1] == ReadLittleEndian32(nonce, 4 * 1);
    assert s[13 + 2] == ReadLittleEndian32(nonce, 4 * 2);
    SameWords(s, PolyKey0);
  }

  lemma PolyKeySums0()
    ensures Plus(PolyKey10.c0.a, PolyKey0.c0.a) == 0x8ba0_d58a
    ensures Plus(PolyKey10.c1.a, PolyKey0.c1.a) == 0xcc81_5f90
    ensures Plus(PolyKey10.c2.a, PolyKey0.c2.a) == 0x2740_5081
    ensures Plus(PolyKey10.c3.a, PolyKey0.c3.a) == 0x7194_b24a
    ensures WordBytes(0x8ba0_d58a) == [0x8a, 0xd5, 0xa0, 0x8b]
    ensures WordBytes(0xcc81_5f90) == [0x90, 0x5f, 0x81, 0xcc]
    ensures WordBytes(0x2740_5081) == [0x81, 0x50, 0x40, 0x27]
    ensures WordBytes(0x7194_b24a) == [0x4a, 0xb2, 0x94, 0x71]
  {
  }

  lemma PolyKeySums1()
    ensures Plus(PolyKey10.c0.b, PolyKey0.c0.b) == 0x37b6_33a8
    ensures Plus(PolyKey10.c1.b, PolyKey0.c1.b) == 0xa50d_fde3
    ensures Plus(PolyKey10.c2.b, PolyKey0.c2.b) == 0xe2b8_db08
    ensures Plus(PolyKey10.c3.b, PolyKey0.c3.b) == 0x46a6_d1fd
    ensures WordBytes(0x37b6_33a8) == [0xa8, 0x33, 0xb6, 0x37]
    ensures WordBytes(0xa50d_fde3) == [0xe3, 0xfd, 0x0d, 0xa5]
    ensures WordBytes(0xe2b8_db08) == [0x08, 0xdb, 0xb8, 0xe2]
    ensures WordBytes(0x46a6_d1fd) == [0xfd, 0xd1, 0xa6, 0x46]
  {
  }

  lemma PolyKeyRounds()
    ensures Rounds(WordsOf(PolyKey0), 10) == WordsOf(PolyKey10)
  {
    hide ColumnsThenDiagonals, Rounds, WordsOf;
    PolyKeyRound1();
    PolyKeyRound2();
    PolyKeyRound3();
    PolyKeyRound4();
    PolyKeyRound5();
    PolyKeyRound6();
    PolyKeyRound7();
    PolyKeyRound8();
    PolyKeyRound9();
    PolyKeyRound10();
    TenDoubleRounds(PolyKey0, PolyKey1, PolyKey2, PolyKey3, PolyKey4, PolyKey5,
                    PolyKey6, PolyKey7, PolyKey8, PolyKey9, PolyKey10);
  }

  /** The first half of the block is the Poly1305 key of the example. */
  lemma PolyKeyBlock(key: seq<byte>, nonce: seq<byte>)
    requires key == [0x80, 0x81, 0x82, 0x83, 0x84, 0x85, 0x86, 0x87, 0x88, 0x89, 0x8a, 0x8b, 0x8c, 0x8d, 0x8e, 0x8f,
                      0x90, 0x91, 0x92, 0x93, 0x94, 0x95, 0x96, 0x97, 0x98, 0x99, 0x9a, 0x9b, 0x9c, 0x9d, 0x9e, 0x9f]
    requires nonce == [0x00, 0x00, 0x00, 0x00, 0x00, 0x01, 0x02, 0x03, 0x04, 0x05, 0x06, 0x07]
    ensures Block(key, 0, nonce)[0..4] == [0x8a, 0xd5, 0xa0, 0x8b]
    ensures Block(key, 0, nonce)[4..8] == [0x90, 0x5f, 0x81, 0xcc]
    ensures Block(key, 0, nonce)[8..12] == [0x81, 0x50, 0x40, 0x27]
    ensures Block(key, 0, nonce)[12..16] == [0x4a, 0xb2, 0x94, 0x71]
    ensures Block(key, 0, nonce)[16..20] == [0xa8, 0x33, 0xb6, 0x37]
    ensures Block(key, 0, nonce)[20..24] == [0xe3, 0xfd, 0x0d, 0xa5]
    ensures Block(key, 0, nonce)[24..28] == [0x08, 0xdb, 0xb8, 0xe2]
    ensures Block(key, 0, nonce)[28..32] == [0xfd, 0xd1, 0xa6, 0x46]
  {
    hide Rounds, InitialState, Plus, WordBytes, Block;
    PolyKeyState(key, nonce);
    PolyKeyRounds();
    PolyKeySums0();
    PolyKeySums1();
    WordOfBlock(key, 0, nonce, 0, PolyKey0.c0.a, PolyKey10.c0.a);
    WordOfBlock(key, 0, nonce, 1, PolyKey0.c1.a, PolyKey10.c1.a);
    WordOfBlock(key, 0, nonce, 2, PolyKey0.c2.a, PolyKey10.c2.a);
    WordOfBlock(key, 0, nonce, 3, PolyKey0.c3.a, PolyKey10.c3.a);
    WordOfBlock(key, 0, nonce, 4, PolyKey0.c0.b, PolyKey10.c0.b);
    WordOfBlock(key, 0, nonce, 5, PolyKey0.c1.b, PolyKey10.c1.b);
    WordOfBlock(key, 0, nonce, 6, PolyKey0.c2.b, PolyKey10.c2.b);
    WordOfBlock(key, 0, nonce, 7, PolyKey0.c3.b, PolyKey10.c3.b);
  }

  lemma PolyKeyOfExample(key: seq<byte>, nonce: seq<byte>)
    requires key == [0x80, 0x81, 0x82, 0x83, 0x84, 0x85, 0x86, 0x87, 0x88, 0x89, 0x8a, 0x8b, 0x8c, 0x8d, 0x8e, 0x8f,
                      0x90, 0x91, 0x92, 0x93, 0x94, 0x95, 0x96, 0x97, 0x98, 0x99, 0x9a, 0x9b, 0x9c, 0x9d, 0x9e, 0x9f]
    requires nonce == [0x00, 0x00, 0x00, 0x00, 0x00, 0x01, 0x02, 0x03, 0x04, 0x05, 0x06, 0x07]
    ensures ChaChaPoly.PolyKey(key, nonce)[0..4] == [0x8a, 0xd5, 0xa0, 0x8b]
    ensures ChaChaPoly.PolyKey(key, nonce)[4..8] == [0x90, 0x5f, 0x81, 0xcc]
    ensures ChaChaPoly.PolyKey(key, nonce)[8..12] == [0x81, 0x50, 0x40, 0x27]
    ensures ChaChaPoly.PolyKey(key, nonce)[12..16] == [0x4a, 0xb2, 0x94, 0x71]
    ensures ChaChaPoly.PolyKey(key, nonce)[16..20] == [0xa8, 0x33, 0xb6, 0x37]
    ensures ChaChaPoly.PolyKey(key, nonce)[20..24] == [0xe3, 0xfd, 0x0d, 0xa5]
    ensures ChaChaPoly.PolyKey(key, nonce)[24..28] == [0x08, 0xdb, 0xb8, 0xe2]
    ensures ChaChaPoly.PolyKey(key, nonce)[28..32] == [0xfd, 0xd1, 0xa6, 0x46]
  {
    hide Block;
    PolyKeyBlock(key, nonce);
    var b := Block(key, 0, nonce);
    var k := ChaChaPoly.PolyKey(key, nonce);
    assert k[0..4] == b[0..4];
    assert k[4..8] == b[4..8];
    assert k[8..12] == b[8..12];
    assert k[12..16] == b[12..16];
    assert k[16..20] == b[16..20];
    assert k[20..24] == b[20..24];
    assert k[24..28] == b[24..28];
    assert k[28..32] == b[28..32];
  }
}
