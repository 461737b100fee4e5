/**
 The ChaCha20 block function and its keystream (src/KernelHttpLib/crypto/Aead.cpp:467-575;
 sections 2.1 to 2.4 of RFC 8439). A ULONG is a `bv32`, whose operators wrap as the code's do.
 */
module ChaCha20 {
  import opened Bytes
  import opened Memory

  type word = bv32
  type Words = s: seq<word> | |s| == 16 witness seq(16, _ => 0)

  const KEY_LENGTH: nat := 32
  const NONCE_LENGTH: nat := 12
  const BLOCK_LENGTH: nat := 64

  // ---- Specification: sections 2.1 to 2.4 ----

  function RotateLeft32(value: word, bits: word): word
    requires 0 < bits < 32
  {
    (value << bits) | (value >> (32 - bits))
  }

  function RotateRight32(value: word, bits: word): word
    requires 0 < bits < 32
  {
    (value >> bits) | (value << (32 - bits))
  }

  function Plus(x: word, y: word): word { x + y }

  function Minus(x: word, y: word): word { x - y }

  function Xor(x: word, y: word): word { x ^ y }

  datatype Quad = Quad(a: word, b: word, c: word, d: word)

  /** `a += b; d ^= a; d = RotateLeft32(d, bits)` */
  function MixD(q: Quad, bits: word): Quad
    requires 0 < bits < 32
  {
    var a := Plus(q.a, q.b);
    q.(a := a, d := RotateLeft32(Xor(q.d, a), bits))
  }

  /** `c += d; b ^= c; b = RotateLeft32(b, bits)` */
  function MixB(q: Quad, bits: word): Quad
    requires 0 < bits < 32
  {
    var c := Plus(q.c, q.d);
    q.(c := c, b := RotateLeft32(Xor(q.b, c), bits))
  }

  function Quarter(q: Quad): Quad
  {
    MixB(MixD(MixB(MixD(q, 16), 12), 8), 7)
  }

  function UnmixD(q: Quad, bits: word): Quad
    requires 0 < bits < 32
  {
    q.(d := Xor(RotateRight32(q.d, bits), q.a), a := Minus(q.a, q.b))
  }

  function UnmixB(q: Quad, bits: word): Quad
    requires 0 < bits < 32
  {
    q.(b := Xor(RotateRight32(q.b, bits), q.c), c := Minus(q.c, q.d))
  }

  /** The quarter round run backwards. */
  function QuarterInverse(q: Quad): Quad
  {
    UnmixD(UnmixB(UnmixD(UnmixB(q, 7), 8), 12), 16)
  }

  lemma QuarterIsInvertible(q: Quad)
    ensures QuarterInverse(Quarter(q)) == q
  {
    hide MixD, MixB, UnmixD, UnmixB;
    UnmixDUndoes(q, 16);
    UnmixBUndoes(MixD(q, 16), 12);
    UnmixDUndoes(MixB(MixD(q, 16), 12), 8);
    UnmixBUndoes(MixD(MixB(MixD(q, 16), 12), 8), 7);
  }

  /** The test vector of section 2.1.1 of RFC 8439. */
  lemma QuarterRoundVector()
    ensures Quarter(Quad(0x11111111, 0x01020304, 0x9b8d6f43, 0x01234567))
         == Quad(0xea2a92f4, 0xcb1cf8ce, 0x4581472e, 0x5881c4bb)
  {
  }

  lemma UnmixDUndoes(q: Quad, bits: word)
    requires IsRotation(bits)
    ensures UnmixD(MixD(q, bits), bits) == q
  {
    hide RotateLeft32, RotateRight32, Plus, Minus, Xor;
    var sum := Plus(q.a, q.b);
    RotateBack(Xor(q.d, sum), bits);
    WordsBack(q.d, sum);
    WordsBack(q.a, q.b);
  }

  lemma UnmixBUndoes(q: Quad, bits: word)
    requires IsRotation(bits)
    ensures UnmixB(MixB(q, bits), bits) == q
  {
    hide RotateLeft32, RotateRight32, Plus, Minus, Xor;
    var sum := Plus(q.c, q.d);
    RotateBack(Xor(q.b, sum), bits);
    WordsBack(q.b, sum);
    WordsBack(q.c, q.d);
  }

  lemma WordsBack(v: word, w: word)
    ensures Xor(Xor(v, w), w) == v && Minus(Plus(v, w), w) == v
  {
    assert Minus(v + w, w) == v;
  }

  /** The four rotations of a quarter round. */
  predicate IsRotation(bits: word)
  {
    bits == 16 || bits == 12 || bits == 8 || bits == 7
  }

  lemma RotateBack(v: word, bits: word)
    requires IsRotation(bits)
    ensures RotateRight32(RotateLeft32(v, bits), bits) == v
  {
    hide RotateLeft32, RotateRight32;
    RotateBack16(v);
    RotateBack12(v);
    RotateBack8(v);
    RotateBack7(v);
  }

  lemma RotateBack16(v: word)
    ensures RotateRight32(RotateLeft32(v, 16), 16) == v
  {
  }

  lemma RotateBack12(v: word)
    ensures RotateRight32(RotateLeft32(v, 12), 12) == v
  {
  }

  lemma RotateBack8(v: word)
    ensures RotateRight32(RotateLeft32(v, 8), 8) == v
  {
  }

  lemma RotateBack7(v: word)
    ensures RotateRight32(RotateLeft32(v, 7), 7) == v
  {
  }

  ghost predicate FourIndices(x: nat, y: nat, z: nat, w: nat)
  {
    x < 16 && y < 16 && z < 16 && w < 16 && x != y && x != z && x != w && y != z && y != w && z != w
  }

  function At(s: Words, x: nat, y: nat, z: nat, w: nat): Quad
    requires FourIndices(x, y, z, w)
  {
    Quad(s[x], s[y], s[z], s[w])
  }

  function Put(s: Words, x: nat, y: nat, z: nat, w: nat, q: Quad): Words
    requires FourIndices(x, y, z, w)
  {
    s[x := q.a][y := q.b][z := q.c][w := q.d]
  }

  function QuarterAt(s: Words, x: nat, y: nat, z: nat, w: nat): Words
    requires FourIndices(x, y, z, w)
  {
    Put(s, x, y, z, w, Quarter(At(s, x, y, z, w)))
  }

  function QuarterInverseAt(s: Words, x: nat, y: nat, z: nat, w: nat): Words
    requires FourIndices(x, y, z, w)
  {
    Put(s, x, y, z, w, QuarterInverse(At(s, x, y, z, w)))
  }

  function DoubleRound(s: Words): Words
  {
    var s1 := QuarterAt(s, 0, 4, 8, 12);
    var s2 := QuarterAt(s1, 1, 5, 9, 13);
    var s3 := QuarterAt(s2, 2, 6, 10, 14);
    var s4 := QuarterAt(s3, 3, 7, 11, 15);
    var s5 := QuarterAt(s4, 0, 5, 10, 15);
    var s6 := QuarterAt(s5, 1, 6, 11, 12);
    var s7 := QuarterAt(s6, 2, 7, 8, 13);
    QuarterAt(s7, 3, 4, 9, 14)
  }

  function DoubleRoundInverse(s: Words): Words
  {
    var s7 := QuarterInverseAt(s, 3, 4, 9, 14);
    var s6 := QuarterInverseAt(s7, 2, 7, 8, 13);
    var s5 := QuarterInverseAt(s6, 1, 6, 11, 12);
    var s4 := QuarterInverseAt(s5, 0, 5, 10, 15);
    var s3 := QuarterInverseAt(s4, 3, 7, 11, 15);
    var s2 := QuarterInverseAt(s3, 2, 6, 10, 14);
    var s1 := QuarterInverseAt(s2, 1, 5, 9, 13);
    QuarterInverseAt(s1, 0, 4, 8, 12)
  }

  function Rounds(s: Words, n: nat): Words
    decreases n
  {
    if n == 0 then s else DoubleRound(Rounds(s, n - 1))
  }

  function RoundsInverse(s: Words, n: nat): Words
    decreases n
  {
    if n == 0 then s else RoundsInverse(DoubleRoundInverse(s), n - 1)
  }

  lemma QuarterAtIsInvertible(s: Words, x: nat, y: nat, z: nat, w: nat)
    requires FourIndices(x, y, z, w)
    ensures QuarterInverseAt(QuarterAt(s, x, y, z, w), x, y, z, w) == s
  {
    hide Quarter, QuarterInverse;
    var t := QuarterAt(s, x, y, z, w);
    assert At(t, x, y, z, w) == Quarter(At(s, x, y, z, w));
    QuarterIsInvertible(At(s, x, y, z, w));
  }

  lemma DoubleRoundIsInvertible(s: Words)
    ensures DoubleRoundInverse(DoubleRound(s)) == s
  {
    hide QuarterAt, QuarterInverseAt;
    var s1 := QuarterAt(s, 0, 4, 8, 12);
    var s2 := QuarterAt(s1, 1, 5, 9, 13);
    var s3 := QuarterAt(s2, 2, 6, 10, 14);
    var s4 := QuarterAt(s3, 3, 7, 11, 15);
    var s5 := QuarterAt(s4, 0, 5, 10, 15);
    var s6 := QuarterAt(s5, 1, 6, 11, 12);
    var s7 := QuarterAt(s6, 2, 7, 8, 13);
    QuarterAtIsInvertible(s, 0, 4, 8, 12);
    QuarterAtIsInvertible(s1, 1, 5, 9, 13);
    QuarterAtIsInvertible(s2, 2, 6, 10, 14);
    QuarterAtIsInvertible(s3, 3, 7, 11, 15);
    QuarterAtIsInvertible(s4, 0, 5, 10, 15);
    QuarterAtIsInvertible(s5, 1, 6, 11, 12);
    QuarterAtIsInvertible(s6, 2, 7, 8, 13);
    QuarterAtIsInvertible(s7, 3, 4, 9, 14);
  }

  /** The twenty rounds lose nothing: distinct inputs leave them distinct. */
  lemma {:induction false} RoundsAreInvertible(s: Words, n: nat)
    ensures RoundsInverse(Rounds(s, n), n) == s
    decreases n
  {
    hide DoubleRound, DoubleRoundInverse;
    if n != 0 {
      DoubleRoundIsInvertible(Rounds(s, n - 1));
      RoundsAreInvertible(s, n - 1);
    }
  }

  // ---- The block function and the keystream ----

  function ReadLittleEndian32(s: seq<byte>, i: nat): word
    requires i + 4 <= |s|
  {
    (s[i] as bv32) | ((s[i + 1] as bv32) << 8) | ((s[i + 2] as bv32) << 16) | ((s[i + 3] as bv32) << 24)
  }

  function WordBytes(w: word): (b: seq<byte>)
    ensures |b| == 4
  {
    [(w & 0xff) as int, ((w >> 8) & 0xff) as int, ((w >> 16) & 0xff) as int, ((w >> 24) & 0xff) as int]
  }

  function Serialize(s: seq<word>): (b: seq<byte>)
    ensures |b| == 4 * |s|
  {
    if s == [] then [] else Serialize(s[..|s| - 1]) + WordBytes(s[|s| - 1])
  }

  function InitialState(key: seq<byte>, counter: nat, nonce: seq<byte>): Words
    requires |key| == KEY_LENGTH && |nonce| == NONCE_LENGTH && counter < 0x1_0000_0000
  {
    [0x6170_7865, 0x3320_646e, 0x7962_2d32, 0x6b20_6574] + LittleEndianWords(key) + [counter as bv32]
    + LittleEndianWords(nonce)
  }

  /** Four constants, and then key, counter and nonce. */
  lemma StateWords(key: seq<byte>, counter: nat, nonce: seq<byte>)
    requires |key| == KEY_LENGTH && |nonce| == NONCE_LENGTH && counter < 0x1_0000_0000
    ensures var s := InitialState(key, counter, nonce);
            && s[0] == 0x6170_7865 && s[1] == 0x3320_646e && s[2] == 0x7962_2d32 && s[3] == 0x6b20_6574
            && (forall i :: 0 <= i < 8 ==> s[4 + i] == ReadLittleEndian32(key, 4 * i))
            && s[12] == counter as bv32
            && (forall i :: 0 <= i < 3 ==> s[13 + i] == ReadLittleEndian32(nonce, 4 * i))
  {
    hide ReadLittleEndian32;
  }

  /** The constants are the little-endian words of "expand 32-byte k". */
  lemma Constants(text: seq<byte>)
    requires text == [0x65, 0x78, 0x70, 0x61, 0x6e, 0x64, 0x20, 0x33, 0x32, 0x2d, 0x62, 0x79, 0x74, 0x65, 0x20, 0x6b]
    ensures ReadLittleEndian32(text, 0) == 0x6170_7865 && ReadLittleEndian32(text, 4) == 0x3320_646e
    ensures ReadLittleEndian32(text, 8) == 0x7962_2d32 && ReadLittleEndian32(text, 12) == 0x6b20_6574
  {
    hide ReadLittleEndian32;
    WordIs(text, 0, 0x65, 0x78, 0x70, 0x61);
    WordIs(text, 4, 0x6e, 0x64, 0x20, 0x33);
    WordIs(text, 8, 0x32, 0x2d, 0x62, 0x79);
    WordIs(text, 12, 0x74, 0x65, 0x20, 0x6b);
  }

  lemma WordIs(s: seq<byte>, i: nat, b0: word, b1: word, b2: word, b3: word)
    requires i + 4 <= |s|
    requires s[i] == b0 as int && s[i + 1] == b1 as int && s[i + 2] == b2 as int && s[i + 3] == b3 as int
    ensures ReadLittleEndian32(s, i) == b0 | (b1 << 8) | (b2 << 16) | (b3 << 24)
  {
    ThereAndBack(b0);
    ThereAndBack(b1);
    ThereAndBack(b2);
    ThereAndBack(b3);
  }

  lemma ThereAndBack(w: word)
    ensures (w as int) as bv32 == w
  {
  }

  function LittleEndianWords(s: seq<byte>): (w: seq<word>)
    requires |s| % 4 == 0
    ensures |w| == |s| / 4
  {
    seq(|s| / 4, i requires 0 <= i < |s| / 4 => ReadLittleEndian32(s, 4 * i))
  }

  function AddStates(s: Words, t: Words): Words
  {
    seq(16, i requires 0 <= i < 16 => Plus(s[i], t[i]))
  }

  function Block(key: seq<byte>, counter: nat, nonce: seq<byte>): (b: seq<byte>)
    requires |key| == KEY_LENGTH && |nonce| == NONCE_LENGTH && counter < 0x1_0000_0000
    ensures |b| == BLOCK_LENGTH
  {
    var s := InitialState(key, counter, nonce);
    Serialize(AddStates(Rounds(s, 10), s))
  }

  /** The counter of the block that covers byte i: a ULONG, so it wraps. */
  function BlockCounter(counter: nat, i: nat): (c: nat)
    ensures c < 0x1_0000_0000
  {
    (counter + i / 64) % 0x1_0000_0000
  }

  function KeystreamByte(key: seq<byte>, counter: nat, nonce: seq<byte>, i: nat): byte
    requires |key| == KEY_LENGTH && |nonce| == NONCE_LENGTH
  {
    Block(key, BlockCounter(counter, i), nonce)[i % 64]
  }

  function XorStream(key: seq<byte>, counter: nat, nonce: seq<byte>, data: seq<byte>): (out: seq<byte>)
    requires |key| == KEY_LENGTH && |nonce| == NONCE_LENGTH
    ensures |out| == |data|
    ensures forall i :: 0 <= i < |data| ==> out[i] == XorByte(data[i], KeystreamByte(key, counter, nonce, i))
  {
    seq(|data|, i requires 0 <= i < |data| => XorByte(data[i], KeystreamByte(key, counter, nonce, i)))
  }

  /** Byte i is XORed with byte i % 64 of the block whose counter is i / 64 behind the first. */
  lemma StreamSpelledOut(key: seq<byte>, counter: nat, nonce: seq<byte>, data: seq<byte>, out: seq<byte>)
    requires |key| == 32 && |nonce| == 12
    ensures out == XorStream(key, counter, nonce, data)
       <==> && |out| == |data|
            && forall i :: 0 <= i < |data| ==>
                 out[i] == XorByte(data[i], Block(key, (counter + i / 64) % 0x1_0000_0000, nonce)[i % 64])
  {
    hide Block, XorByte;
  }

  /** Applying the keystream twice gives the data back. */
  lemma XorStreamTwice(key: seq<byte>, counter: nat, nonce: seq<byte>, data: seq<byte>)
    requires |key| == KEY_LENGTH && |nonce| == NONCE_LENGTH
    ensures XorStream(key, counter, nonce, XorStream(key, counter, nonce, data)) == data
  {
    var once := XorStream(key, counter, nonce, data);
    var twice := XorStream(key, counter, nonce, once);
    forall i | 0 <= i < |data| ensures twice[i] == data[i] {
      XorOfBytes(data[i], KeystreamByte(key, counter, nonce, i));
    }
  }

  /**
   The keystream of data that starts at counter 1 comes back to block 0, whose first half is the
   Poly1305 key of the same nonce, exactly when the data is longer than 2^32 - 1 blocks.
   */
  lemma KeyBlockIsReused(n: nat)
    ensures (exists i :: 0 <= i < n && BlockCounter(1, i) == 0) <==> n > 64 * 0xffff_ffff
  {
    if n > 64 * 0xffff_ffff {
      assert BlockCounter(1, 64 * 0xffff_ffff) == 0;
    }
  }

  /** Up to 2^32 blocks, bytes of different blocks come from different counters. */
  lemma CountersAreDistinct(counter: nat, n: nat, i: nat, j: nat)
    requires i < n && j < n && n <= 64 * 0x1_0000_0000 && i / 64 != j / 64
    ensures BlockCounter(counter, i) != BlockCounter(counter, j)
  {
  }

  // ---- The code ----

  method QuarterRound(working: array<word>, x: nat, y: nat, z: nat, w: nat)
    requires working.Length == 16 && FourIndices(x, y, z, w)
    modifies working
    ensures working[..] == QuarterAt(old(working[..]), x, y, z, w)
  {
    var a, b, c, d := working[x], working[y], working[z], working[w];
    a := Plus(a, b);
    d := Xor(d, a);
    d := RotateLeft32(d, 16);
    c := Plus(c, d);
    b := Xor(b, c);
    b := RotateLeft32(b, 12);
    a := Plus(a, b);
    d := Xor(d, a);
    d := RotateLeft32(d, 8);
    c := Plus(c, d);
    b := Xor(b, c);
    b := RotateLeft32(b, 7);
    assert Quarter(At(working[..], x, y, z, w)) == Quad(a, b, c, d) by {
      hide RotateLeft32, Plus, Xor;
    }
    working[x] := a;
    working[y] := b;
    working[z] := c;
    working[w] := d;
  }

  method RunRounds(working: array<word>)
    requires working.Length == 16
    modifies working
    ensures working[..] == Rounds(old(working[..]), 10)
  {
    hide QuarterAt;
    for round := 0 to 10
      invariant working[..] == Rounds(old(working[..]), round)
    {
      QuarterRound(working, 0, 4, 8, 12);
      QuarterRound(working, 1, 5, 9, 13);
      QuarterRound(working, 2, 6, 10, 14);
      QuarterRound(working, 3, 7, 11, 15);
      QuarterRound(working, 0, 5, 10, 15);
      QuarterRound(working, 1, 6, 11, 12);
      QuarterRound(working, 2, 7, 8, 13);
      QuarterRound(working, 3, 4, 9, 14);
    }
  }

  method WriteLittleEndian32(value: word, data: array<byte>, offset: nat)
    requires offset + 4 <= data.Length
    modifies data
    ensures data[offset..offset + 4] == WordBytes(value)
    ensures forall j :: 0 <= j < offset || offset + 4 <= j < data.Length ==> data[j] == old(data[j])
  {
    var b := WordBytes(value);
    data[offset] := b[0];
    data[offset + 1] := b[1];
    data[offset + 2] := b[2];
    data[offset + 3] := b[3];
  }

  method ChaCha20Block(key: seq<byte>, counter: nat, nonce: seq<byte>, output: array<byte>)
    requires |key| == KEY_LENGTH && |nonce| == NONCE_LENGTH && counter < 0x1_0000_0000
    requires output.Length == BLOCK_LENGTH
    modifies output
    ensures output[..] == Block(key, counter, nonce)
  {
    hide Rounds, InitialState, AddStates;
    var state := InitialState(key, counter, nonce);
    var working := new word[16](i requires 0 <= i < 16 => state[i]);
    assert working[..] == state;
    RunRounds(working);
    WriteSum(working, state, output);
  }

  method WriteSum(working: array<word>, state: Words, output: array<byte>)
    requires working.Length == 16 && output.Length == BLOCK_LENGTH
    modifies output
    ensures output[..] == Serialize(AddStates(working[..], state))
  {
    hide Plus, WordBytes, Serialize;
    ghost var sum := AddStates(working[..], state);
    assert Serialize([]) == [] by { SerializeEmpty(); }
    for index := 0 to 16
      invariant output[..4 * index] == Serialize(sum[..index])
    {
      ghost var before := output[..4 * index];
      WriteLittleEndian32(Plus(working[index], state[index]), output, index * 4);
      SerializeSnoc(sum, index);
      assert output[..4 * index] == before;
      assert output[..4 * index + 4] == output[..4 * index] + output[4 * index..4 * index + 4];
    }
    assert sum[..16] == sum;
  }

  lemma SerializeEmpty()
    ensures Serialize([]) == []
  {
  }

  lemma SerializeSnoc(s: seq<word>, i: nat)
    requires i < |s|
    ensures Serialize(s[..i + 1]) == Serialize(s[..i]) + WordBytes(s[i])
  {
    hide WordBytes;
    assert s[..i + 1][..i] == s[..i];
  }

  /** The keystream is XORed onto the input, which may be the output array itself. */
  method ChaCha20Xor(key: seq<byte>, counter: nat, nonce: seq<byte>, input: array<byte>, inputLength: nat,
                     output: array<byte>) returns (status: Status)
    requires |key| == KEY_LENGTH && |nonce| == NONCE_LENGTH && counter < 0x1_0000_0000
    requires inputLength <= input.Length
    modifies output
    ensures status == if output.Length < inputLength then InvalidParameter else Success
    ensures status != Success ==> output[..] == old(output[..])
    ensures status == Success ==>
              && output[..inputLength] == XorStream(key, counter, nonce, old(input[..inputLength]))
              && output[inputLength..] == old(output[inputLength..])
  {
    if output.Length < inputLength {
      return InvalidParameter;
    }
    hide XorStream;
    XorBlocks(key, counter, nonce, input, inputLength, output);
    AllXored(key, counter, nonce, old(input[..inputLength]), output[..inputLength]);
    return Success;
  }

  method XorBlocks(key: seq<byte>, counter: nat, nonce: seq<byte>, input: array<byte>, n: nat, output: array<byte>)
    requires |key| == KEY_LENGTH && |nonce| == NONCE_LENGTH && counter < 0x1_0000_0000
    requires n <= input.Length && n <= output.Length
    modifies output
    ensures XoredUpTo(key, counter, nonce, old(input[..n]), output[..n], n)
    ensures forall j :: n <= j < output.Length ==> output[j] == old(output[j])
  {
    hide Block, XorByte, XorStream, BlockCounter, XoredUpTo;
    ghost var data := input[..n];
    var block := new byte[64](_ => 0);
    var offset, count := 0, counter;
    FirstCounter(counter);
    NothingXored(key, counter, nonce, data, output[..n]);
    while offset < n
      invariant offset <= n && (offset == n || offset % 64 == 0)
      invariant offset < n ==> count == BlockCounter(counter, offset)
      invariant XoredUpTo(key, counter, nonce, data, output[..n], offset)
      invariant forall j :: offset <= j < n ==> input[j] == data[j]
      invariant forall j :: n <= j < output.Length ==> output[j] == old(output[j])
    {
      var remaining := n - offset;
      var chunk := if remaining < 64 then remaining else 64;
      XorBlock(key, counter, nonce, input, output, block, count, offset, chunk, n, data);
      NextCounter(counter, offset);
      count := (count + 1) % 0x1_0000_0000;
      offset := offset + chunk;
    }
  }

  /** One turn of the loop: the block for `count` is made and XORed onto a chunk. */
  method XorBlock(key: seq<byte>, ghost counter: nat, nonce: seq<byte>, input: array<byte>, output: array<byte>,
                  block: array<byte>, count: nat, offset: nat, chunk: nat, ghost n: nat, ghost data: seq<byte>)
    requires |key| == KEY_LENGTH && |nonce| == NONCE_LENGTH && count == BlockCounter(counter, offset)
    requires block != input && block != output && block.Length == 64
    requires n <= input.Length && n <= output.Length && |data| == n
    requires offset % 64 == 0 && chunk <= 64 && offset + chunk <= n
    requires XoredUpTo(key, counter, nonce, data, output[..n], offset)
    requires forall j :: offset <= j < n ==> input[j] == data[j]
    modifies output, block
    ensures XoredUpTo(key, counter, nonce, data, output[..n], offset + chunk)
    ensures forall j :: offset + chunk <= j < n ==> input[j] == data[j]
    ensures forall j :: n <= j < output.Length ==> output[j] == old(output[j])
  {
    hide Block, XorByte, BlockCounter, XoredUpTo;
    ghost var before := output[..n];
    ChaCha20Block(key, count, nonce, block);
    XorChunk(input, output, block, offset, chunk);
    NextBlockXored(key, counter, nonce, data, before, output[..n], block[..], offset, chunk);
  }

  lemma FirstCounter(counter: nat)
    requires counter < 0x1_0000_0000
    ensures BlockCounter(counter, 0) == counter
  {
  }

  lemma NextCounter(counter: nat, offset: nat)
    ensures BlockCounter(counter, offset + 64) == (BlockCounter(counter, offset) + 1) % 0x1_0000_0000
  {
    assert (offset + 64) / 64 == offset / 64 + 1;
  }

  lemma NothingXored(key: seq<byte>, counter: nat, nonce: seq<byte>, data: seq<byte>, out: seq<byte>)
    requires |key| == KEY_LENGTH && |nonce| == NONCE_LENGTH && |out| == |data|
    ensures XoredUpTo(key, counter, nonce, data, out, 0)
  {
  }

  lemma AllXored(key: seq<byte>, counter: nat, nonce: seq<byte>, data: seq<byte>, out: seq<byte>)
    requires |key| == KEY_LENGTH && |nonce| == NONCE_LENGTH && |out| == |data|
    requires XoredUpTo(key, counter, nonce, data, out, |data|)
    ensures out == XorStream(key, counter, nonce, data)
  {
  }

  ghost predicate XoredUpTo(key: seq<byte>, counter: nat, nonce: seq<byte>, data: seq<byte>, out: seq<byte>, n: nat)
    requires |key| == KEY_LENGTH && |nonce| == NONCE_LENGTH && |out| == |data|
  {
    forall j :: 0 <= j < n && j < |data| ==> out[j] == XorByte(data[j], KeystreamByte(key, counter, nonce, j))
  }

  lemma NextBlockXored(key: seq<byte>, counter: nat, nonce: seq<byte>, data: seq<byte>, before: seq<byte>,
                       out: seq<byte>, block: seq<byte>, offset: nat, chunk: nat)
    requires |key| == KEY_LENGTH && |nonce| == NONCE_LENGTH && |before| == |out| == |data|
    requires offset % 64 == 0 && chunk <= 64 && offset + chunk <= |data|
    requires block == Block(key, BlockCounter(counter, offset), nonce)
    requires XoredUpTo(key, counter, nonce, data, before, offset)
    requires forall j :: 0 <= j < offset ==> out[j] == before[j]
    requires forall j :: 0 <= j < chunk ==> out[offset + j] == XorByte(data[offset + j], block[j])
    ensures XoredUpTo(key, counter, nonce, data, out, offset + chunk)
  {
    hide Block, XorByte;
    forall j | 0 <= j < offset + chunk
      ensures out[j] == XorByte(data[j], KeystreamByte(key, counter, nonce, j))
    {
      if j >= offset {
        assert j / 64 == offset / 64 && j % 64 == j - offset;
        assert out[offset + (j - offset)] == XorByte(data[offset + (j - offset)], block[j - offset]);
      }
    }
  }
}
