/**
 The in-place layers, the key expansion loop and the block encryption of
 src/KernelHttpLib/crypto/Aead.cpp:168-294, each against its definition in FIPS 197.
 */
module AesCipher {
  import opened Aes
  import opened AesTables
  import opened Bytes

  const KEY_LENGTH: nat := 16
  const ROUND_KEY_LENGTH: nat := 176

  // ---- The layers, in place ----

  method AesAddRoundKey(state: array<bv8>, roundKeys: array<bv8>, offset: nat)
    requires state != roundKeys && state.Length == 16 && offset + 16 <= roundKeys.Length
    modifies state
    ensures state[..] == AddRoundKey(old(state[..]), roundKeys[offset..offset + 16])
  {
    ghost var before, key := state[..], roundKeys[offset..offset + 16];
    for index := 0 to 16
      invariant forall j :: 0 <= j < index ==> state[j] == before[j] ^ key[j]
      invariant forall j :: index <= j < 16 ==> state[j] == before[j]
    {
      assert key[index] == roundKeys[offset + index];
      state[index] := state[index] ^ roundKeys[offset + index];
    }
  }

  method AesSubBytes(state: array<bv8>)
    requires state.Length == 16
    modifies state
    ensures state[..] == SubBytes(old(state[..]))
  {
    hide SBox;
    for index := 0 to 16
      invariant forall j :: 0 <= j < index ==> state[j] == SBox(old(state[j]))
      invariant forall j :: index <= j < 16 ==> state[j] == old(state[j])
    {
      state[index] := SBox(state[index]);
    }
  }

  /** Row 1 moves by one column, row 2 swaps pairs, row 3 moves back by one. */
  method AesShiftRows(state: array<bv8>)
    requires state.Length == 16
    modifies state
    ensures state[..] == ShiftRows(old(state[..]))
  {
    ghost var s := state[..];
    ShiftRowsListed(s);
    hide ShiftRows;
    ShiftRow1(state);
    ShiftRow2(state);
    ShiftRow3(state);
    SameState(state[..], ShiftRows(s));
  }

  method ShiftRow1(state: array<bv8>)
    requires state.Length == 16
    modifies state
    ensures state[1] == old(state[5]) && state[5] == old(state[9])
    ensures state[9] == old(state[13]) && state[13] == old(state[1])
    ensures forall i :: 0 <= i < 16 && i % 4 != 1 ==> state[i] == old(state[i])
  {
    var s1 := state[1];
    state[1] := state[5];
    state[5] := state[9];
    state[9] := state[13];
    state[13] := s1;
  }

  method ShiftRow2(state: array<bv8>)
    requires state.Length == 16
    modifies state
    ensures state[2] == old(state[10]) && state[6] == old(state[14])
    ensures state[10] == old(state[2]) && state[14] == old(state[6])
    ensures forall i :: 0 <= i < 16 && i % 4 != 2 ==> state[i] == old(state[i])
  {
    var s2 := state[2];
    var s6 := state[6];
    state[2] := state[10];
    state[6] := state[14];
    state[10] := s2;
    state[14] := s6;
  }

  method ShiftRow3(state: array<bv8>)
    requires state.Length == 16
    modifies state
    ensures state[3] == old(state[15]) && state[15] == old(state[11])
    ensures state[11] == old(state[7]) && state[7] == old(state[3])
    ensures forall i :: 0 <= i < 16 && i % 4 != 3 ==> state[i] == old(state[i])
  {
    var s3 := state[3];
    state[3] := state[15];
    state[15] := state[11];
    state[11] := state[7];
    state[7] := s3;
  }

  lemma ShiftRowsListed(s: State)
    ensures ShiftRows(s)[0] == s[0] && ShiftRows(s)[1] == s[5] && ShiftRows(s)[2] == s[10] && ShiftRows(s)[3] == s[15]
    ensures ShiftRows(s)[4] == s[4] && ShiftRows(s)[5] == s[9] && ShiftRows(s)[6] == s[14] && ShiftRows(s)[7] == s[3]
    ensures ShiftRows(s)[8] == s[8] && ShiftRows(s)[9] == s[13] && ShiftRows(s)[10] == s[2] && ShiftRows(s)[11] == s[7]
    ensures ShiftRows(s)[12] == s[12] && ShiftRows(s)[13] == s[1] && ShiftRows(s)[14] == s[6] && ShiftRows(s)[15] == s[11]
  {
  }

  lemma SameState(a: State, b: State)
    requires a[0] == b[0] && a[1] == b[1] && a[2] == b[2] && a[3] == b[3]
    requires a[4] == b[4] && a[5] == b[5] && a[6] == b[6] && a[7] == b[7]
    requires a[8] == b[8] && a[9] == b[9] && a[10] == b[10] && a[11] == b[11]
    requires a[12] == b[12] && a[13] == b[13] && a[14] == b[14] && a[15] == b[15]
    ensures a == b
  {
  }

  method MixOneColumn(state: array<bv8>, column: nat)
    requires state.Length == 16 && column < 4
    modifies state
    ensures ColumnOf(state[..], column) == MixColumn(ColumnOf(old(state[..]), column))
    ensures forall j :: 0 <= j < 4 && j != column ==> ColumnOf(state[..], j) == ColumnOf(old(state[..]), j)
  {
    var base := column * 4;
    var a0, a1, a2, a3 := state[base], state[base + 1], state[base + 2], state[base + 3];
    var t := Total(a0, a1, a2, a3);
    var u := a0;
    MixedColumn(a0, a1, a2, a3);
    hide Total, MixColumn, MixedByte;
    state[base] := MixedByte(a0, t, a1);
    state[base + 1] := MixedByte(a1, t, a2);
    state[base + 2] := MixedByte(a2, t, a3);
    state[base + 3] := MixedByte(a3, t, u);
  }

  lemma MixedColumn(a: bv8, b: bv8, c: bv8, d: bv8)
    ensures MixColumn(Column(a, b, c, d))
            == var t := Total(a, b, c, d);
               Column(MixedByte(a, t, b), MixedByte(b, t, c), MixedByte(c, t, d), MixedByte(d, t, a))
  {
    hide Total, MixedByte, MixByte;
    TotalRotates(a, b, c, d);
    TotalRotates(b, c, d, a);
    TotalRotates(c, d, a, b);
    MixedByteIsMatrixRow(a, b, c, d);
    MixedByteIsMatrixRow(b, c, d, a);
    MixedByteIsMatrixRow(c, d, a, b);
    MixedByteIsMatrixRow(d, a, b, c);
  }

  method AesMixColumns(state: array<bv8>)
    requires state.Length == 16
    modifies state
    ensures state[..] == MixColumns(old(state[..]))
  {
    hide MixColumn, ColumnOf, MixColumns;
    for column := 0 to 4
      invariant forall j :: 0 <= j < column ==> ColumnOf(state[..], j) == MixColumn(ColumnOf(old(state[..]), j))
      invariant forall j :: column <= j < 4 ==> ColumnOf(state[..], j) == ColumnOf(old(state[..]), j)
    {
      MixOneColumn(state, column);
    }
    MixedColumns(old(state[..]));
    StateOfColumns(state[..]);
    StateOfColumns(MixColumns(old(state[..])));
  }

  // ---- The key expansion ----

  function AesRcon(index: nat): bv8
    requires index < 10
  {
    [0x01, 0x02, 0x04, 0x08, 0x10, 0x20, 0x40, 0x80, 0x1b, 0x36][index]
  }

  /** The table holds the powers of x. */
  lemma TableOfRcon(index: nat)
    requires index < 10
    ensures AesRcon(index) == Rcon(index + 1)
  {
    assert Rcon(1) == 0x01 && Rcon(2) == 0x02 && Rcon(3) == 0x04 && Rcon(4) == 0x08 && Rcon(5) == 0x10;
    assert Rcon(6) == 0x20 && Rcon(7) == 0x40 && Rcon(8) == 0x80 && Rcon(9) == 0x1b && Rcon(10) == 0x36;
  }

  function WordAt(s: seq<bv8>, i: nat): Column
    requires 4 * i + 4 <= |s|
  {
    Column(s[4 * i], s[4 * i + 1], s[4 * i + 2], s[4 * i + 3])
  }

  /** The first n words of the schedule stand in the buffer. */
  ghost predicate Expanded(key: State, s: seq<bv8>, n: nat)
    requires 4 * n <= |s|
  {
    forall i :: 0 <= i < n ==> WordAt(s, i) == Word(key, i)
  }

  /** `temp` after the rotation, the substitution and the round constant. */
  method RotateAndSubstitute(temp: Column, rcon: bv8) returns (result: Column)
    ensures result == XorWord(SubWord(RotWord(temp)), Column(rcon, 0, 0, 0))
  {
    hide SBox;
    var rotate := temp.a;
    result := Column(SBox(temp.b), SBox(temp.c), SBox(temp.d), SBox(rotate));
    result := result.(a := result.a ^ rcon);
  }

  method WriteWord(roundKeys: array<bv8>, bytesGenerated: nat, temp: Column)
    requires 16 <= bytesGenerated && bytesGenerated + 4 <= roundKeys.Length && bytesGenerated % 4 == 0
    modifies roundKeys
    ensures roundKeys[..bytesGenerated] == old(roundKeys[..bytesGenerated])
    ensures WordAt(roundKeys[..], bytesGenerated / 4) == XorWord(WordAt(old(roundKeys[..]), bytesGenerated / 4 - 4), temp)
  {
    roundKeys[bytesGenerated] := roundKeys[bytesGenerated - 16] ^ temp.a;
    roundKeys[bytesGenerated + 1] := roundKeys[bytesGenerated - 15] ^ temp.b;
    roundKeys[bytesGenerated + 2] := roundKeys[bytesGenerated - 14] ^ temp.c;
    roundKeys[bytesGenerated + 3] := roundKeys[bytesGenerated - 13] ^ temp.d;
  }

  /** The loop ends with the buffer exactly full and every round constant used once. */
  method Aes128Initialize(key: seq<bv8>, roundKeys: array<bv8>) returns (status: Status)
    requires roundKeys.Length == ROUND_KEY_LENGTH
    modifies roundKeys
    ensures (status == Success) == (|key| == KEY_LENGTH)
    ensures status == Success ==> forall round :: 0 <= round <= 10 ==>
              roundKeys[16 * round..16 * round + 16] == RoundKey(key, round)
    ensures status == Success ==>
              && roundKeys[..16] == key
              && roundKeys[16] == key[0] ^ SBox(key[13]) ^ 1 && roundKeys[17] == key[1] ^ SBox(key[14])
              && roundKeys[18] == key[2] ^ SBox(key[15]) && roundKeys[19] == key[3] ^ SBox(key[12])
    ensures status != Success ==> status == InvalidParameter && roundKeys[..] == old(roundKeys[..])
  {
    if |key| != KEY_LENGTH {
      return InvalidParameter;
    }
    var bytesGenerated, rconIndex := ExpandKey(key, roundKeys);
    forall round | 0 <= round <= 10
      ensures roundKeys[16 * round..16 * round + 16] == RoundKey(key, round)
    {
      RoundKeyWords(key, roundKeys[..], round);
    }
    KeyComesFirst(key, roundKeys[..]);
    FirstByte(key, roundKeys[..]);
    FirstBytes(key, roundKeys[..]);
    return Success;
  }

  lemma RoundKeyWords(key: State, s: seq<bv8>, round: nat)
    requires |s| == ROUND_KEY_LENGTH && round <= 10 && Expanded(key, s, 44)
    ensures s[16 * round..16 * round + 16] == RoundKey(key, round)
  {
    hide Word, FromColumns;
    var k := s[16 * round..16 * round + 16];
    forall j | 0 <= j < 4 ensures ColumnOf(k, j) == Word(key, 4 * round + j) {
      assert WordAt(s, 4 * round + j) == Word(key, 4 * round + j);
    }
    StateOfColumns(k);
  }

  /** The schedule byte by byte: every fourth word is rotated, substituted and given a round constant. */
  lemma RotatedBytes(key: State, s: seq<bv8>, n: nat)
    requires |s| == 176 && Expanded(key, s, 44) && 4 <= n < 44 && n % 4 == 0
    ensures s[4 * n] == s[4 * n - 16] ^ SBox(s[4 * n - 3]) ^ Rcon(n / 4)
    ensures s[4 * n + 1] == s[4 * n - 15] ^ SBox(s[4 * n - 2])
    ensures s[4 * n + 2] == s[4 * n - 14] ^ SBox(s[4 * n - 1])
    ensures s[4 * n + 3] == s[4 * n - 13] ^ SBox(s[4 * n - 4])
  {
    hide SBox, Rcon, Word, XorWord, SubWord, RotWord;
    ScheduledWord(key, s, n);
    RotatedWord(WordAt(s, n - 4), WordAt(s, n - 1), Rcon(n / 4));
  }

  /** The other words are exclusive ors. */
  lemma PlainBytes(key: State, s: seq<bv8>, n: nat)
    requires |s| == 176 && Expanded(key, s, 44) && 4 <= n < 44 && n % 4 != 0
    ensures s[4 * n] == s[4 * n - 16] ^ s[4 * n - 4] && s[4 * n + 1] == s[4 * n - 15] ^ s[4 * n - 3]
    ensures s[4 * n + 2] == s[4 * n - 14] ^ s[4 * n - 2] && s[4 * n + 3] == s[4 * n - 13] ^ s[4 * n - 1]
  {
    hide SBox, Rcon, Word, SubWord, RotWord;
    ScheduledWord(key, s, n);
  }

  lemma ScheduledWord(key: State, s: seq<bv8>, n: nat)
    requires |s| == 176 && Expanded(key, s, 44) && 4 <= n < 44
    ensures WordAt(s, n)
         == XorWord(WordAt(s, n - 4),
                    if n % 4 == 0 then XorWord(SubWord(RotWord(WordAt(s, n - 1))), Column(Rcon(n / 4), 0, 0, 0))
                    else WordAt(s, n - 1))
  {
    hide SBox, Rcon, Word, XorWord, SubWord, RotWord;
    var front := s[..4 * n];
    forall i | 0 <= i < n ensures WordAt(front, i) == Word(key, i) {
      assert WordAt(front, i) == WordAt(s, i);
    }
    WordsBefore(key, front, n);
    assert WordAt(front, n - 1) == WordAt(s, n - 1) && WordAt(front, n - 4) == WordAt(s, n - 4);
    assert WordAt(s, n) == Word(key, n);
  }

  lemma RotatedWord(v: Column, last: Column, rcon: bv8)
    ensures XorWord(v, XorWord(SubWord(RotWord(last)), Column(rcon, 0, 0, 0)))
         == Column(v.a ^ SBox(last.b) ^ rcon, v.b ^ SBox(last.c), v.c ^ SBox(last.d), v.d ^ SBox(last.a))
  {
    hide SBox;
    XorThree(v.a, SBox(last.b), rcon);
    XorThree(v.b, SBox(last.c), 0);
    XorThree(v.c, SBox(last.d), 0);
    XorThree(v.d, SBox(last.a), 0);
  }

  lemma XorThree(x: bv8, y: bv8, z: bv8)
    ensures x ^ (y ^ z) == x ^ y ^ z && y ^ 0 == y
  {
  }

  lemma KeyComesFirst(key: State, s: seq<bv8>)
    requires |s| == 176 && Expanded(key, s, 44)
    ensures s[..16] == key
  {
    hide Word;
    forall j | 0 <= j < 4 ensures ColumnOf(s[..16], j) == ColumnOf(key, j) {
      assert WordAt(s, j) == Word(key, j);
      WordOfKey(key, j);
    }
    StateOfColumns(s[..16]);
    StateOfColumns(key);
  }

  lemma WordOfKey(key: State, j: nat)
    requires j < 4
    ensures Word(key, j) == ColumnOf(key, j)
  {
  }

  lemma RconOfOne()
    ensures Rcon(1) == 1
  {
  }

  lemma KeyBytes(key: State, s: seq<bv8>, i: nat)
    requires |s| == 176 && Expanded(key, s, 44) && i < 16
    ensures s[i] == key[i]
  {
    hide Expanded;
    KeyComesFirst(key, s);
    assert s[..16][i] == s[i];
  }

  lemma FirstByte(key: State, s: seq<bv8>)
    requires |s| == 176 && Expanded(key, s, 44)
    ensures s[16] == key[0] ^ SBox(key[13]) ^ 1
  {
    hide SBox, Expanded, Rcon;
    KeyBytes(key, s, 0);
    KeyBytes(key, s, 13);
    RotatedBytes(key, s, 4);
    RconOfOne();
  }

  lemma FirstBytes(key: State, s: seq<bv8>)
    requires |s| == 176 && Expanded(key, s, 44)
    ensures s[17] == key[1] ^ SBox(key[14])
    ensures s[18] == key[2] ^ SBox(key[15]) && s[19] == key[3] ^ SBox(key[12])
  {
    hide SBox, Expanded, Rcon;
    KeyBytes(key, s, 1);
    KeyBytes(key, s, 2);
    KeyBytes(key, s, 3);
    KeyBytes(key, s, 12);
    KeyBytes(key, s, 14);
    KeyBytes(key, s, 15);
    RotatedBytes(key, s, 4);
  }

  method ExpandKey(key: State, roundKeys: array<bv8>) returns (bytesGenerated: nat, rconIndex: nat)
    requires roundKeys.Length == ROUND_KEY_LENGTH
    modifies roundKeys
    ensures Expanded(key, roundKeys[..], 44)
    ensures bytesGenerated == ROUND_KEY_LENGTH && rconIndex == 10
  {
    hide Word;
    forall i | 0 <= i < 16 { roundKeys[i] := key[i]; }
    FirstWords(key, roundKeys[..]);
    bytesGenerated, rconIndex := 16, 0;
    ghost var n := 4;
    while bytesGenerated < 176
      invariant 4 <= n <= 44 && bytesGenerated == 4 * n && rconIndex == (n - 1) / 4
      invariant Expanded(key, roundKeys[..], n)
    {
      hide Expanded;
      rconIndex := ExpandWord(key, roundKeys, bytesGenerated, rconIndex, n);
      bytesGenerated := bytesGenerated + 4;
      n := n + 1;
    }
  }

  lemma FirstWords(key: State, s: seq<bv8>)
    requires |s| == ROUND_KEY_LENGTH && s[..16] == key
    ensures Expanded(key, s, 4)
  {
    forall i | 0 <= i < 4 ensures WordAt(s, i) == Word(key, i) {
      assert ColumnOf(s[..16], i) == WordAt(s, i);
    }
  }

  /** Every fourth word takes the next round constant. */
  method ExpandWord(key: State, roundKeys: array<bv8>, bytesGenerated: nat, rconIndex: nat, ghost n: nat)
    returns (nextRcon: nat)
    requires roundKeys.Length == ROUND_KEY_LENGTH && bytesGenerated == 4 * n
    requires 4 <= n < 44 && rconIndex == (n - 1) / 4 && Expanded(key, roundKeys[..], n)
    modifies roundKeys
    ensures nextRcon == n / 4 && Expanded(key, roundKeys[..], n + 1)
  {
    hide SBox, XorWord, SubWord, RotWord, AesRcon, Rcon, Expanded, Word;
    ghost var s := roundKeys[..];
    WordsBefore(key, s, n);
    var temp := Column(roundKeys[bytesGenerated - 4], roundKeys[bytesGenerated - 3],
                       roundKeys[bytesGenerated - 2], roundKeys[bytesGenerated - 1]);
    assert temp == WordAt(s, n - 1);
    nextRcon := rconIndex;
    if bytesGenerated % 16 == 0 {
      assert n % 4 == 0 && rconIndex + 1 == n / 4;
      TableOfRcon(rconIndex);
      temp := RotateAndSubstitute(temp, AesRcon(rconIndex));
      nextRcon := rconIndex + 1;
    }
    WriteWord(roundKeys, bytesGenerated, temp);
    Extend(key, s, roundKeys[..], n);
  }

  /** The two words that the next one is made of, and the recursion for it. */
  lemma WordsBefore(key: State, s: seq<bv8>, n: nat)
    requires 4 <= n && 4 * n <= |s| && Expanded(key, s, n)
    ensures WordAt(s, n - 1) == Word(key, n - 1) && WordAt(s, n - 4) == Word(key, n - 4)
    ensures var temp := if n % 4 == 0 then XorWord(SubWord(RotWord(Word(key, n - 1))), Column(Rcon(n / 4), 0, 0, 0))
                        else Word(key, n - 1);
            Word(key, n) == XorWord(Word(key, n - 4), temp)
  {
    hide SBox, XorWord, SubWord, RotWord, Rcon;
  }

  lemma Extend(key: State, s: seq<bv8>, t: seq<bv8>, n: nat)
    requires 4 * n + 4 <= |s| == |t| && t[..4 * n] == s[..4 * n] && Expanded(key, s, n)
    requires WordAt(t, n) == Word(key, n)
    ensures Expanded(key, t, n + 1)
  {
    hide Word;
    forall i | 0 <= i < n ensures WordAt(t, i) == Word(key, i) {
      assert WordAt(s, i) == Word(key, i);
      assert s[4 * i] == s[..4 * n][4 * i] && s[4 * i + 1] == s[..4 * n][4 * i + 1];
      assert s[4 * i + 2] == s[..4 * n][4 * i + 2] && s[4 * i + 3] == s[..4 * n][4 * i + 3];
    }
  }

  // ---- Encryption of one block ----

  /** `Aes128Context` after a successful initialization with this key. */
  ghost predicate KeyedBy(roundKeys: array<bv8>, key: State)
    reads roundKeys
  {
    roundKeys.Length == ROUND_KEY_LENGTH &&
    forall round :: 0 <= round <= 10 ==> roundKeys[16 * round..16 * round + 16] == RoundKey(key, round)
  }

  method AesRound(state: array<bv8>, roundKeys: array<bv8>, offset: nat)
    requires state != roundKeys && state.Length == 16 && offset + 16 <= roundKeys.Length
    modifies state
    ensures state[..] == Round(old(state[..]), roundKeys[offset..offset + 16])
  {
    hide AddRoundKey, MixColumns, ShiftRows, SubBytes;
    AesSubBytes(state);
    AesShiftRows(state);
    AesMixColumns(state);
    AesAddRoundKey(state, roundKeys, offset);
  }

  method Aes128EncryptBlock(roundKeys: array<bv8>, input: State, ghost key: State) returns (output: State)
    requires KeyedBy(roundKeys, key)
    ensures output == Cipher(key, input)
  {
    hide RoundKey, AddRoundKey, ShiftRows, SubBytes, Round;
    var state := new bv8[16](i requires 0 <= i < 16 => input[i]);
    assert state[..] == input;
    AesAddRoundKey(state, roundKeys, 0);
    assert roundKeys[16 * 0..16 * 0 + 16] == RoundKey(key, 0);
    for round := 1 to 10
      invariant state[..] == Rounds(key, input, round - 1)
    {
      AesRound(state, roundKeys, round * 16);
      assert roundKeys[16 * round..16 * round + 16] == RoundKey(key, round);
    }
    AesSubBytes(state);
    AesShiftRows(state);
    AesAddRoundKey(state, roundKeys, 160);
    assert roundKeys[16 * 10..16 * 10 + 16] == RoundKey(key, 10);
    output := state[..];
  }
}
