/** The example of appendix C.1 of FIPS 197, round by round. */
module AesVector {
  import opened AesTables
  import opened Aes
  import AesCcm
  import opened AesCipher
  import Ccm

  // ---- The state as four columns ----

  datatype Grid = Grid(c0: Column, c1: Column, c2: Column, c3: Column)

  function StateOf(g: Grid): State
  {
    FromColumns(g.c0, g.c1, g.c2, g.c3)
  }

  /** Row i moves i columns to the left. */
  function Shifted(g: Grid): Grid
  {
    Grid(Column(g.c0.a, g.c1.b, g.c2.c, g.c3.d), Column(g.c1.a, g.c2.b, g.c3.c, g.c0.d),
         Column(g.c2.a, g.c3.b, g.c0.c, g.c1.d), Column(g.c3.a, g.c0.b, g.c1.c, g.c2.d))
  }

  function Substituted(g: Grid): Grid
  {
    Grid(SubWord(g.c0), SubWord(g.c1), SubWord(g.c2), SubWord(g.c3))
  }

  function Mixed(g: Grid): Grid
  {
    Grid(MixColumn(g.c0), MixColumn(g.c1), MixColumn(g.c2), MixColumn(g.c3))
  }

  function Added(g: Grid, k: Grid): Grid
  {
    Grid(XorWord(g.c0, k.c0), XorWord(g.c1, k.c1), XorWord(g.c2, k.c2), XorWord(g.c3, k.c3))
  }

  predicate Holds(s: State, g: Grid)
  {
    && s[0] == g.c0.a && s[1] == g.c0.b && s[2] == g.c0.c && s[3] == g.c0.d
    && s[4] == g.c1.a && s[5] == g.c1.b && s[6] == g.c1.c && s[7] == g.c1.d
    && s[8] == g.c2.a && s[9] == g.c2.b && s[10] == g.c2.c && s[11] == g.c2.d
    && s[12] == g.c3.a && s[13] == g.c3.b && s[14] == g.c3.c && s[15] == g.c3.d
  }

  lemma HoldsState(g: Grid)
    ensures Holds(StateOf(g), g)
  {
  }

  lemma SameGrid(s: State, g: Grid)
    requires Holds(s, g)
    ensures s == StateOf(g)
  {
  }

  lemma SubstitutedState(g: Grid)
    ensures SubBytes(StateOf(g)) == StateOf(Substituted(g))
  {
    hide SBox, StateOf;
    HoldsState(g);
    SameGrid(SubBytes(StateOf(g)), Substituted(g));
  }

  lemma ShiftedState(g: Grid)
    ensures ShiftRows(StateOf(g)) == StateOf(Shifted(g))
  {
    hide StateOf, ShiftRows;
    HoldsState(g);
    ShiftRowsListed(StateOf(g));
    SameGrid(ShiftRows(StateOf(g)), Shifted(g));
  }

  lemma MixedState(g: Grid)
    ensures MixColumns(StateOf(g)) == StateOf(Mixed(g))
  {
    hide MixColumn, StateOf;
    HoldsState(g);
    assert ColumnOf(StateOf(g), 0) == g.c0 && ColumnOf(StateOf(g), 1) == g.c1;
    assert ColumnOf(StateOf(g), 2) == g.c2 && ColumnOf(StateOf(g), 3) == g.c3;
    assert StateOf(Mixed(g)) == FromColumns(MixColumn(g.c0), MixColumn(g.c1), MixColumn(g.c2), MixColumn(g.c3)) by {
      StateOfGrid(Mixed(g));
    }
  }

  lemma StateOfGrid(g: Grid)
    ensures StateOf(g) == FromColumns(g.c0, g.c1, g.c2, g.c3)
  {
  }

  lemma AddedState(g: Grid, k: Grid)
    ensures AddRoundKey(StateOf(g), StateOf(k)) == StateOf(Added(g, k))
  {
    hide StateOf, AddRoundKey, XorWord, FromColumns, ColumnOf;
    var s, t := StateOf(g), StateOf(k);
    ColumnsOfState(g);
    ColumnsOfState(k);
    AddedColumn(s, t, 0);
    AddedColumn(s, t, 1);
    AddedColumn(s, t, 2);
    AddedColumn(s, t, 3);
    StateOfColumns(AddRoundKey(s, t));
    StateOfGrid(Added(g, k));
  }

  lemma ColumnsOfState(g: Grid)
    ensures ColumnOf(StateOf(g), 0) == g.c0 && ColumnOf(StateOf(g), 1) == g.c1
    ensures ColumnOf(StateOf(g), 2) == g.c2 && ColumnOf(StateOf(g), 3) == g.c3
  {
    hide StateOf;
    HoldsState(g);
  }

  lemma AddedColumn(s: State, k: State, j: nat)
    requires j < 4
    ensures ColumnOf(AddRoundKey(s, k), j) == XorWord(ColumnOf(s, j), ColumnOf(k, j))
  {
  }

  lemma RoundOfGrid(g: Grid, shifted: Grid, k: Grid, next: Grid)
    requires Shifted(Substituted(g)) == shifted && Added(Mixed(shifted), k) == next
    ensures Round(StateOf(g), StateOf(k)) == StateOf(next)
  {
    hide SubBytes, ShiftRows, MixColumns, AddRoundKey, StateOf, Substituted, Shifted, Mixed, Added;
    SubstitutedState(g);
    ShiftedState(Substituted(g));
    MixedState(shifted);
    AddedState(Mixed(shifted), k);
  }

  lemma FinalRoundOfGrid(g: Grid, k: Grid, next: Grid)
    requires Added(Shifted(Substituted(g)), k) == next
    ensures FinalRound(StateOf(g), StateOf(k)) == StateOf(next)
  {
    hide SubBytes, ShiftRows, AddRoundKey, StateOf, Substituted, Shifted, Added;
    SubstitutedState(g);
    ShiftedState(Substituted(g));
    AddedState(Shifted(Substituted(g)), k);
  }

  // ---- The key schedule ----

  /** The first word of the next round key: the last word is rotated and substituted, the constant added. */
  function FirstWord(k: Grid, rcon: bv8): Column
  {
    XorWord(k.c0, XorWord(SubWord(RotWord(k.c3)), Column(rcon, 0, 0, 0)))
  }

  /** Four words of the schedule make the next four. */
  function NextKey(k: Grid, rcon: bv8): Grid
  {
    var c0 := FirstWord(k, rcon);
    var c1 := XorWord(k.c1, c0);
    var c2 := XorWord(k.c2, c1);
    Grid(c0, c1, c2, XorWord(k.c3, c2))
  }

  /** The words that round key `round` is made of. */
  predicate Scheduled(key: State, round: nat, k: Grid)
  {
    && Word(key, 4 * round) == k.c0 && Word(key, 4 * round + 1) == k.c1
    && Word(key, 4 * round + 2) == k.c2 && Word(key, 4 * round + 3) == k.c3
  }

  lemma FirstScheduled(key: State, k: Grid)
    requires key == StateOf(k)
    ensures Scheduled(key, 0, k)
  {
    hide StateOf;
    HoldsState(k);
  }

  lemma NextScheduled(key: State, round: nat, k: Grid, rcon: bv8, next: Grid)
    requires Scheduled(key, round, k) && rcon == Rcon(round + 1) && NextKey(k, rcon) == next
    ensures Scheduled(key, round + 1, next)
  {
    hide Word, SBox, Rcon, XorWord, SubWord, RotWord;
    var n := 4 * round + 4;
    WordStep(key, n);
    WordStep(key, n + 1);
    WordStep(key, n + 2);
    WordStep(key, n + 3);
    assert n / 4 == round + 1;
  }

  lemma WordStep(key: State, n: nat)
    requires n >= 4
    ensures n % 4 == 0 ==>
              Word(key, n) == XorWord(Word(key, n - 4),
                                      XorWord(SubWord(RotWord(Word(key, n - 1))), Column(Rcon(n / 4), 0, 0, 0)))
    ensures n % 4 != 0 ==> Word(key, n) == XorWord(Word(key, n - 4), Word(key, n - 1))
  {
    hide SBox, XorWord, SubWord, RotWord, Rcon;
  }

  lemma RoundKeyOfGrid(key: State, round: nat, k: Grid)
    requires Scheduled(key, round, k)
    ensures RoundKey(key, round) == StateOf(k)
  {
    hide Word;
  }

  // ---- The example ----

  const Key0: Grid :=
    Grid(Column(0x00, 0x01, 0x02, 0x03), Column(0x04, 0x05, 0x06, 0x07),
         Column(0x08, 0x09, 0x0a, 0x0b), Column(0x0c, 0x0d, 0x0e, 0x0f))

  const Key1: Grid :=
    Grid(Column(0xd6, 0xaa, 0x74, 0xfd), Column(0xd2, 0xaf, 0x72, 0xfa),
         Column(0xda, 0xa6, 0x78, 0xf1), Column(0xd6, 0xab, 0x76, 0xfe))

  const Key2: Grid :=
    Grid(Column(0xb6, 0x92, 0xcf, 0x0b), Column(0x64, 0x3d, 0xbd, 0xf1),
         Column(0xbe, 0x9b, 0xc5, 0x00), Column(0x68, 0x30, 0xb3, 0xfe))

  const Key3: Grid :=
    Grid(Column(0xb6, 0xff, 0x74, 0x4e), Column(0xd2, 0xc2, 0xc9, 0xbf),
         Column(0x6c, 0x59, 0x0c, 0xbf), Column(0x04, 0x69, 0xbf, 0x41))

  const Key4: Grid :=
    Grid(Column(0x47, 0xf7, 0xf7, 0xbc), Column(0x95, 0x35, 0x3e, 0x03),
         Column(0xf9, 0x6c, 0x32, 0xbc), Column(0xfd, 0x05, 0x8d, 0xfd))

  const Key5: Grid :=
    Grid(Column(0x3c, 0xaa, 0xa3, 0xe8), Column(0xa9, 0x9f, 0x9d, 0xeb),
         Column(0x50, 0xf3, 0xaf, 0x57), Column(0xad, 0xf6, 0x22, 0xaa))

  const Key6: Grid :=
    Grid(Column(0x5e, 0x39, 0x0f, 0x7d), Column(0xf7, 0xa6, 0x92, 0x96),
         Column(0xa7, 0x55, 0x3d, 0xc1), Column(0x0a, 0xa3, 0x1f, 0x6b))

  const Key7: Grid :=
    Grid(Column(0x14, 0xf9, 0x70, 0x1a), Column(0xe3, 0x5f, 0xe2, 0x8c),
         Column(0x44, 0x0a, 0xdf, 0x4d), Column(0x4e, 0xa9, 0xc0, 0x26))

  const Key8: Grid :=
    Grid(Column(0x47, 0x43, 0x87, 0x35), Column(0xa4, 0x1c, 0x65, 0xb9),
         Column(0xe0, 0x16, 0xba, 0xf4), Column(0xae, 0xbf, 0x7a, 0xd2))

  const Key9: Grid :=
    Grid(Column(0x54, 0x99, 0x32, 0xd1), Column(0xf0, 0x85, 0x57, 0x68),
         Column(0x10, 0x93, 0xed, 0x9c), Column(0xbe, 0x2c, 0x97, 0x4e))

  const Key10: Grid :=
    Grid(Column(0x13, 0x11, 0x1d, 0x7f), Column(0xe3, 0x94, 0x4a, 0x17),
         Column(0xf3, 0x07, 0xa7, 0x8b), Column(0x4d, 0x2b, 0x30, 0xc5))

  const Input: Grid :=
    Grid(Column(0x00, 0x11, 0x22, 0x33), Column(0x44, 0x55, 0x66, 0x77),
         Column(0x88, 0x99, 0xaa, 0xbb), Column(0xcc, 0xdd, 0xee, 0xff))

  const State0: Grid :=
    Grid(Column(0x00, 0x10, 0x20, 0x30), Column(0x40, 0x50, 0x60, 0x70),
         Column(0x80, 0x90, 0xa0, 0xb0), Column(0xc0, 0xd0, 0xe0, 0xf0))

  const State1: Grid :=
    Grid(Column(0x89, 0xd8, 0x10, 0xe8), Column(0x85, 0x5a, 0xce, 0x68),
         Column(0x2d, 0x18, 0x43, 0xd8), Column(0xcb, 0x12, 0x8f, 0xe4))

  const State2: Grid :=
    Grid(Column(0x49, 0x15, 0x59, 0x8f), Column(0x55, 0xe5, 0xd7, 0xa0),
         Column(0xda, 0xca, 0x94, 0xfa), Column(0x1f, 0x0a, 0x63, 0xf7))

  const State3: Grid :=
    Grid(Column(0xfa, 0x63, 0x6a, 0x28), Column(0x25, 0xb3, 0x39, 0xc9),
         Column(0x40, 0x66, 0x8a, 0x31), Column(0x57, 0x24, 0x4d, 0x17))

  const State4: Grid :=
    Grid(Column(0x24, 0x72, 0x40, 0x23), Column(0x69, 0x66, 0xb3, 0xfa),
         Column(0x6e, 0xd2, 0x75, 0x32), Column(0x88, 0x42, 0x5b, 0x6c))

  const State5: Grid :=
    Grid(Column(0xc8, 0x16, 0x77, 0xbc), Column(0x9b, 0x7a, 0xc9, 0x3b),
         Column(0x25, 0x02, 0x79, 0x92), Column(0xb0, 0x26, 0x19, 0x96))

  const State6: Grid :=
    Grid(Column(0xc6, 0x2f, 0xe1, 0x09), Column(0xf7, 0x5e, 0xed, 0xc3),
         Column(0xcc, 0x79, 0x39, 0x5d), Column(0x84, 0xf9, 0xcf, 0x5d))

  const State7: Grid :=
    Grid(Column(0xd1, 0x87, 0x6c, 0x0f), Column(0x79, 0xc4, 0x30, 0x0a),
         Column(0xb4, 0x55, 0x94, 0xad), Column(0xd6, 0x6f, 0xf4, 0x1f))

  const State8: Grid :=
    Grid(Column(0xfd, 0xe3, 0xba, 0xd2), Column(0x05, 0xe5, 0xd0, 0xd7),
         Column(0x35, 0x47, 0x96, 0x4e), Column(0xf1, 0xfe, 0x37, 0xf1))

  const State9: Grid :=
    Grid(Column(0xbd, 0x6e, 0x7c, 0x3d), Column(0xf2, 0xb5, 0x77, 0x9e),
         Column(0x0b, 0x61, 0x21, 0x6e), Column(0x8b, 0x10, 0xb6, 0x89))

  const State10: Grid :=
    Grid(Column(0x69, 0xc4, 0xe0, 0xd8), Column(0x6a, 0x7b, 0x04, 0x30),
         Column(0xd8, 0xcd, 0xb7, 0x80), Column(0x70, 0xb4, 0xc5, 0x5a))

  const Shifted1: Grid :=
    Grid(Column(0x63, 0x53, 0xe0, 0x8c), Column(0x09, 0x60, 0xe1, 0x04),
         Column(0xcd, 0x70, 0xb7, 0x51), Column(0xba, 0xca, 0xd0, 0xe7))

  const Shifted2: Grid :=
    Grid(Column(0xa7, 0xbe, 0x1a, 0x69), Column(0x97, 0xad, 0x73, 0x9b),
         Column(0xd8, 0xc9, 0xca, 0x45), Column(0x1f, 0x61, 0x8b, 0x61))

  const Shifted3: Grid :=
    Grid(Column(0x3b, 0xd9, 0x22, 0x68), Column(0xfc, 0x74, 0xfb, 0x73),
         Column(0x57, 0x67, 0xcb, 0xe0), Column(0xc0, 0x59, 0x0e, 0x2d))

  const Shifted4: Grid :=
    Grid(Column(0x2d, 0x6d, 0x7e, 0xf0), Column(0x3f, 0x33, 0xe3, 0x34),
         Column(0x09, 0x36, 0x02, 0xdd), Column(0x5b, 0xfb, 0x12, 0xc7))

  const Shifted5: Grid :=
    Grid(Column(0x36, 0x33, 0x9d, 0x50), Column(0xf9, 0xb5, 0x39, 0x26),
         Column(0x9f, 0x2c, 0x09, 0x2d), Column(0xc4, 0x40, 0x6d, 0x23))

  const Shifted6: Grid :=
    Grid(Column(0xe8, 0xda, 0xb6, 0x90), Column(0x14, 0x77, 0xd4, 0x65),
         Column(0x3f, 0xf7, 0xf5, 0xe2), Column(0xe7, 0x47, 0xdd, 0x4f))

  const Shifted7: Grid :=
    Grid(Column(0xb4, 0x58, 0x12, 0x4c), Column(0x68, 0xb6, 0x8a, 0x01),
         Column(0x4b, 0x99, 0xf8, 0x2e), Column(0x5f, 0x15, 0x55, 0x4c))

  const Shifted8: Grid :=
    Grid(Column(0x3e, 0x1c, 0x22, 0xc0), Column(0xb6, 0xfc, 0xbf, 0x76),
         Column(0x8d, 0xa8, 0x50, 0x67), Column(0xf6, 0x17, 0x04, 0x95))

  const Shifted9: Grid :=
    Grid(Column(0x54, 0xd9, 0x90, 0xa1), Column(0x6b, 0xa0, 0x9a, 0xb5),
         Column(0x96, 0xbb, 0xf4, 0x0e), Column(0xa1, 0x11, 0x70, 0x2f))

  lemma Key1Is()
    ensures NextKey(Key0, 0x01) == Key1
  {
  }

  lemma Key2Is()
    ensures NextKey(Key1, 0x02) == Key2
  {
  }

  lemma Key3Is()
    ensures NextKey(Key2, 0x04) == Key3
  {
  }

  lemma Key4Is()
    ensures NextKey(Key3, 0x08) == Key4
  {
  }

  lemma Key5Is()
    ensures NextKey(Key4, 0x10) == Key5
  {
  }

  lemma Key6Is()
    ensures NextKey(Key5, 0x20) == Key6
  {
  }

  lemma Key7Is()
    ensures NextKey(Key6, 0x40) == Key7
  {
  }

  lemma Key8Is()
    ensures NextKey(Key7, 0x80) == Key8
  {
  }

  lemma Key9Is()
    ensures NextKey(Key8, 0x1b) == Key9
  {
  }

  lemma Key10Is()
    ensures NextKey(Key9, 0x36) == Key10
  {
  }

  lemma Round1()
    ensures Shifted(Substituted(State0)) == Shifted1 && Added(Mixed(Shifted1), Key1) == State1
  {
  }

  lemma Round2()
    ensures Shifted(Substituted(State1)) == Shifted2 && Added(Mixed(Shifted2), Key2) == State2
  {
  }

  lemma Round3()
    ensures Shifted(Substituted(State2)) == Shifted3 && Added(Mixed(Shifted3), Key3) == State3
  {
  }

  lemma Round4()
    ensures Shifted(Substituted(State3)) == Shifted4 && Added(Mixed(Shifted4), Key4) == State4
  {
  }

  lemma Round5()
    ensures Shifted(Substituted(State4)) == Shifted5 && Added(Mixed(Shifted5), Key5) == State5
  {
  }

  lemma Round6()
    ensures Shifted(Substituted(State5)) == Shifted6 && Added(Mixed(Shifted6), Key6) == State6
  {
  }

  lemma Round7()
    ensures Shifted(Substituted(State6)) == Shifted7 && Added(Mixed(Shifted7), Key7) == State7
  {
  }

  lemma Round8()
    ensures Shifted(Substituted(State7)) == Shifted8 && Added(Mixed(Shifted8), Key8) == State8
  {
  }

  lemma Round9()
    ensures Shifted(Substituted(State8)) == Shifted9 && Added(Mixed(Shifted9), Key9) == State9
  {
  }

  lemma LastRound()
    ensures Added(Shifted(Substituted(State9)), Key10) == State10
  {
  }

  lemma FirstAddition()
    ensures Added(Input, Key0) == State0
  {
  }

  lemma KeysOfExample(key: State)
    requires key == StateOf(Key0)
    ensures Scheduled(key, 0, Key0)
    ensures Scheduled(key, 1, Key1)
    ensures Scheduled(key, 2, Key2)
    ensures Scheduled(key, 3, Key3)
    ensures Scheduled(key, 4, Key4)
    ensures Scheduled(key, 5, Key5)
    ensures Scheduled(key, 6, Key6)
    ensures Scheduled(key, 7, Key7)
    ensures Scheduled(key, 8, Key8)
    ensures Scheduled(key, 9, Key9)
    ensures Scheduled(key, 10, Key10)
  {
    hide Word, NextKey, Rcon, StateOf;
    FirstScheduled(key, Key0);
    TableOfRcon(0);
    Key1Is();
    NextScheduled(key, 0, Key0, 0x01, Key1);
    TableOfRcon(1);
    Key2Is();
    NextScheduled(key, 1, Key1, 0x02, Key2);
    TableOfRcon(2);
    Key3Is();
    NextScheduled(key, 2, Key2, 0x04, Key3);
    TableOfRcon(3);
    Key4Is();
    NextScheduled(key, 3, Key3, 0x08, Key4);
    TableOfRcon(4);
    Key5Is();
    NextScheduled(key, 4, Key4, 0x10, Key5);
    TableOfRcon(5);
    Key6Is();
    NextScheduled(key, 5, Key5, 0x20, Key6);
    TableOfRcon(6);
    Key7Is();
    NextScheduled(key, 6, Key6, 0x40, Key7);
    TableOfRcon(7);
    Key8Is();
    NextScheduled(key, 7, Key7, 0x80, Key8);
    TableOfRcon(8);
    Key9Is();
    NextScheduled(key, 8, Key8, 0x1b, Key9);
    TableOfRcon(9);
    Key10Is();
    NextScheduled(key, 9, Key9, 0x36, Key10);
  }

  lemma RoundsOfExample(key: State, input: State)
    requires key == StateOf(Key0) && input == StateOf(Input)
    ensures Rounds(key, input, 9) == StateOf(State9)
  {
    hide Word, RoundKey, Scheduled, Round, AddRoundKey, StateOf, Shifted, Substituted, Mixed, Added;
    KeysOfExample(key);
    FirstAddition();
    RoundKeyOfGrid(key, 0, Key0);
    AddedState(Input, Key0);
    assert Rounds(key, input, 0) == StateOf(State0);
    Round1();
    RoundKeyOfGrid(key, 1, Key1);
    RoundOfGrid(State0, Shifted1, Key1, State1);
    assert Rounds(key, input, 1) == StateOf(State1);
    Round2();
    RoundKeyOfGrid(key, 2, Key2);
    RoundOfGrid(State1, Shifted2, Key2, State2);
    assert Rounds(key, input, 2) == StateOf(State2);
    Round3();
    RoundKeyOfGrid(key, 3, Key3);
    RoundOfGrid(State2, Shifted3, Key3, State3);
    assert Rounds(key, input, 3) == StateOf(State3);
    Round4();
    RoundKeyOfGrid(key, 4, Key4);
    RoundOfGrid(State3, Shifted4, Key4, State4);
    assert Rounds(key, input, 4) == StateOf(State4);
    Round5();
    RoundKeyOfGrid(key, 5, Key5);
    RoundOfGrid(State4, Shifted5, Key5, State5);
    assert Rounds(key, input, 5) == StateOf(State5);
    Round6();
    RoundKeyOfGrid(key, 6, Key6);
    RoundOfGrid(State5, Shifted6, Key6, State6);
    assert Rounds(key, input, 6) == StateOf(State6);
    Round7();
    RoundKeyOfGrid(key, 7, Key7);
    RoundOfGrid(State6, Shifted7, Key7, State7);
    assert Rounds(key, input, 7) == StateOf(State7);
    Round8();
    RoundKeyOfGrid(key, 8, Key8);
    RoundOfGrid(State7, Shifted8, Key8, State8);
    assert Rounds(key, input, 8) == StateOf(State8);
    Round9();
    RoundKeyOfGrid(key, 9, Key9);
    RoundOfGrid(State8, Shifted9, Key9, State9);
    assert Rounds(key, input, 9) == StateOf(State9);
  }

  lemma CipherOfExample(key: State, input: State)
    requires key == StateOf(Key0) && input == StateOf(Input)
    ensures Cipher(key, input) == StateOf(State10)
  {
    hide Word, RoundKey, Scheduled, Rounds, FinalRound, StateOf, Shifted, Substituted, Added;
    KeysOfExample(key);
    RoundsOfExample(key, input);
    LastRound();
    RoundKeyOfGrid(key, 10, Key10);
    FinalRoundOfGrid(State9, Key10, State10);
  }

  lemma ThereAndBack(b: bv8)
    ensures (b as int) as bv8 == b
  {
  }

  /** Bytes and their bit vectors. */
  predicate Spells(s: Ccm.Block, g: Grid)
  {
    && s[0] == g.c0.a as int && s[1] == g.c0.b as int && s[2] == g.c0.c as int && s[3] == g.c0.d as int
    && s[4] == g.c1.a as int && s[5] == g.c1.b as int && s[6] == g.c1.c as int && s[7] == g.c1.d as int
    && s[8] == g.c2.a as int && s[9] == g.c2.b as int && s[10] == g.c2.c as int && s[11] == g.c2.d as int
    && s[12] == g.c3.a as int && s[13] == g.c3.b as int && s[14] == g.c3.c as int && s[15] == g.c3.d as int
  }

  lemma ToStateOf(s: Ccm.Block, g: Grid)
    requires Spells(s, g)
    ensures AesCcm.ToState(s) == StateOf(g)
  {
    hide StateOf;
    ThereAndBack(g.c0.a);
    ThereAndBack(g.c0.b);
    ThereAndBack(g.c0.c);
    ThereAndBack(g.c0.d);
    ThereAndBack(g.c1.a);
    ThereAndBack(g.c1.b);
    ThereAndBack(g.c1.c);
    ThereAndBack(g.c1.d);
    ThereAndBack(g.c2.a);
    ThereAndBack(g.c2.b);
    ThereAndBack(g.c2.c);
    ThereAndBack(g.c2.d);
    ThereAndBack(g.c3.a);
    ThereAndBack(g.c3.b);
    ThereAndBack(g.c3.c);
    ThereAndBack(g.c3.d);
    SameGrid(AesCcm.ToState(s), g);
  }

  lemma FromStateOf(g: Grid)
    ensures Spells(AesCcm.FromState(StateOf(g)), g)
  {
    hide StateOf;
    HoldsState(g);
  }

  lemma SameSpelling(s: Ccm.Block, t: Ccm.Block, g: Grid)
    requires Spells(s, g) && Spells(t, g)
    ensures s == t
  {
  }

  lemma Spelled(key: Ccm.Block, block: Ccm.Block, output: Ccm.Block)
    requires key == [0x00, 0x01, 0x02, 0x03, 0x04, 0x05, 0x06, 0x07, 0x08, 0x09, 0x0a, 0x0b, 0x0c, 0x0d, 0x0e, 0x0f]
    requires block == [0x00, 0x11, 0x22, 0x33, 0x44, 0x55, 0x66, 0x77, 0x88, 0x99, 0xaa, 0xbb, 0xcc, 0xdd, 0xee, 0xff]
    requires output == [0x69, 0xc4, 0xe0, 0xd8, 0x6a, 0x7b, 0x04, 0x30, 0xd8, 0xcd, 0xb7, 0x80, 0x70, 0xb4, 0xc5, 0x5a]
    ensures Spells(key, Key0) && Spells(block, Input) && Spells(output, State10)
  {
  }

  /** The ciphertext of the example. */
  lemma BlockOfExample(key: Ccm.Block, block: Ccm.Block)
    requires key == [0x00, 0x01, 0x02, 0x03, 0x04, 0x05, 0x06, 0x07, 0x08, 0x09, 0x0a, 0x0b, 0x0c, 0x0d, 0x0e, 0x0f]
    requires block == [0x00, 0x11, 0x22, 0x33, 0x44, 0x55, 0x66, 0x77, 0x88, 0x99, 0xaa, 0xbb, 0xcc, 0xdd, 0xee, 0xff]
    ensures AesCcm.EncryptBlock(key, block)
         == [0x69, 0xc4, 0xe0, 0xd8, 0x6a, 0x7b, 0x04, 0x30, 0xd8, 0xcd, 0xb7, 0x80, 0x70, 0xb4, 0xc5, 0x5a]
  {
    hide Cipher, AesCcm.ToState, AesCcm.FromState, StateOf, Spells;
    var output: Ccm.Block :=
      [0x69, 0xc4, 0xe0, 0xd8, 0x6a, 0x7b, 0x04, 0x30, 0xd8, 0xcd, 0xb7, 0x80, 0x70, 0xb4, 0xc5, 0x5a];
    Spelled(key, block, output);
    ToStateOf(key, Key0);
    ToStateOf(block, Input);
    CipherOfExample(AesCcm.ToState(key), AesCcm.ToState(block));
    FromStateOf(State10);
    SameSpelling(AesCcm.FromState(StateOf(State10)), output, State10);
  }
}
