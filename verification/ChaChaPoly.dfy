/**
 The ChaCha20-Poly1305 construction of section 2.8 of RFC 8439
 (src/KernelHttpLib/crypto/Aead.cpp:760-970).
 */
module ChaChaPoly {
  import opened Bits
  import opened Bytes
  import opened Memory
  import C = ChaCha20
  import P = Poly1305

  const TAG_LENGTH: nat := 16

  // ---- The MAC input ----

  /** `(16 - (length % 16)) % 16` */
  function Padding(length: nat): (p: nat)
    ensures p < 16 && (length + p) % 16 == 0
  {
    (16 - length % 16) % 16
  }

  function MacInput(aad: seq<byte>, ciphertext: seq<byte>): seq<byte>
  {
    aad + Zeros(Padding(|aad|)) + ciphertext + Zeros(Padding(|ciphertext|))
    + LeBytes(|aad|, 8) + LeBytes(|ciphertext|, 8)
  }

  lemma MacInputIsWholeBlocks(aad: seq<byte>, ciphertext: seq<byte>)
    ensures |MacInput(aad, ciphertext)| % 16 == 0
  {
    var a, c := |aad| + Padding(|aad|), |ciphertext| + Padding(|ciphertext|);
    assert |MacInput(aad, ciphertext)| == a + c + 16;
    SumOfMultiples(a, c);
  }

  lemma SumOfMultiples(a: nat, c: nat)
    requires a % 16 == 0 && c % 16 == 0
    ensures (a + c + 16) % 16 == 0
  {
  }

  /** Reads the two lengths from the end, then the two strings. */
  function SplitMacInput(m: seq<byte>): (parts: (seq<byte>, seq<byte>))
  {
    if |m| < 16 then ([], [])
    else
      var n, k := LeValue(m[|m| - 16..|m| - 8]), LeValue(m[|m| - 8..]);
      var start := n + Padding(n);
      if start + k > |m| - 16 then ([], [])
      else (m[..n], m[start..start + k])
  }

  lemma MacInputCanBeSplit(aad: seq<byte>, ciphertext: seq<byte>)
    requires |aad| < SIZE_LIMIT && |ciphertext| < SIZE_LIMIT
    ensures SplitMacInput(MacInput(aad, ciphertext)) == (aad, ciphertext)
  {
    var m := MacInput(aad, ciphertext);
    hide LeBytes, LeValue;
    LengthField(|aad|);
    LengthField(|ciphertext|);
    assert m[|m| - 16..|m| - 8] == LeBytes(|aad|, 8);
    assert m[|m| - 8..] == LeBytes(|ciphertext|, 8);
    var start := |aad| + Padding(|aad|);
    assert m[..|aad|] == aad && m[start..start + |ciphertext|] == ciphertext;
  }

  lemma LengthField(n: nat)
    requires n < SIZE_LIMIT
    ensures LeValue(LeBytes(n, 8)) == n
  {
    Pow256Values();
    hide LeBytes, LeValue, Pow256;
    LeValueOfBytes(n, 8);
  }

  /** Different (AAD, ciphertext) pairs are never authenticated through the same bytes. */
  lemma MacInputIsInjective(aad: seq<byte>, ciphertext: seq<byte>, aad': seq<byte>, ciphertext': seq<byte>)
    requires |aad| < SIZE_LIMIT && |ciphertext| < SIZE_LIMIT && |aad'| < SIZE_LIMIT && |ciphertext'| < SIZE_LIMIT
    requires MacInput(aad, ciphertext) == MacInput(aad', ciphertext')
    ensures aad == aad' && ciphertext == ciphertext'
  {
    MacInputCanBeSplit(aad, ciphertext);
    MacInputCanBeSplit(aad', ciphertext');
  }

  lemma FirstLeByte(n: nat, width: nat)
    requires width > 0
    ensures LeBytes(n, width) == [ToByte(n)] + LeBytes(n / 256, width - 1)
  {
  }

  method WriteLittleEndian64(value: nat, data: array<byte>, offset: nat)
    requires offset + 8 <= data.Length
    modifies data
    ensures data[..] == old(data[..offset]) + LeBytes(value, 8) + old(data[offset + 8..])
  {
    hide LeBytes;
    ghost var bytes := LeBytes(value, 8);
    var rest := value;
    for index := 0 to 8
      invariant rest >= 0 && bytes[index..] == LeBytes(rest, 8 - index)
      invariant forall j :: 0 <= j < index ==> data[offset + j] == bytes[j]
      invariant forall j :: 0 <= j < data.Length && !(offset <= j < offset + index) ==> data[j] == old(data[j])
    {
      FirstLeByte(rest, 8 - index);
      data[offset + index] := ToByte(rest);
      assert bytes[index] == bytes[index..][0] && bytes[index + 1..] == bytes[index..][1..];
      rest := rest / 256;
    }
    assert data[offset..offset + 8] == bytes;
  }

  /** The buffer comes zeroed from the allocator, so the padding is what is skipped. */
  method BuildMacInput(aad: seq<byte>, ciphertext: seq<byte>) returns (macInput: array<byte>)
    ensures fresh(macInput) && macInput[..] == MacInput(aad, ciphertext)
  {
    hide LeBytes, Padding;
    var aadPadding, ciphertextPadding := Padding(|aad|), Padding(|ciphertext|);
    var required := |aad| + aadPadding + |ciphertext| + ciphertextPadding + 16;
    macInput := new byte[required](_ => 0);
    assert macInput[..] == Zeros(required);
    var offset := 0;
    CopyMemory(macInput, offset, aad);
    offset := offset + |aad| + aadPadding;
    assert macInput[..] == aad + Zeros(aadPadding) + Zeros(required - offset);
    CopyMemory(macInput, offset, ciphertext);
    offset := offset + |ciphertext| + ciphertextPadding;
    ghost var head := aad + Zeros(aadPadding) + ciphertext + Zeros(ciphertextPadding);
    assert macInput[..] == head + Zeros(16);
    WriteLittleEndian64(|aad|, macInput, offset);
    offset := offset + 8;
    assert macInput[..] == head + LeBytes(|aad|, 8) + Zeros(8);
    WriteLittleEndian64(|ciphertext|, macInput, offset);
  }

  // ---- Sealing and opening ----

  function PolyKey(key: seq<byte>, nonce: seq<byte>): (k: seq<byte>)
    requires |key| == C.KEY_LENGTH && |nonce| == C.NONCE_LENGTH
    ensures |k| == 32
  {
    C.Block(key, 0, nonce)[..32]
  }

  function Authenticator(key: seq<byte>, nonce: seq<byte>, aad: seq<byte>, ciphertext: seq<byte>): (tag: seq<byte>)
    requires |key| == C.KEY_LENGTH && |nonce| == C.NONCE_LENGTH
    ensures |tag| == TAG_LENGTH
  {
    P.Tag(PolyKey(key, nonce), MacInput(aad, ciphertext))
  }

  datatype Sealed = Sealed(ciphertext: seq<byte>, tag: seq<byte>)

  datatype Opened = Refused(status: Status) | Plain(plaintext: seq<byte>)

  /** What encryption produces. */
  function Seal(key: seq<byte>, nonce: seq<byte>, aad: seq<byte>, plaintext: seq<byte>): Sealed
    requires |key| == C.KEY_LENGTH && |nonce| == C.NONCE_LENGTH
  {
    var ciphertext := C.XorStream(key, 1, nonce, plaintext);
    Sealed(ciphertext, Authenticator(key, nonce, aad, ciphertext))
  }

  /** What decryption produces. */
  function Open(key: seq<byte>, nonce: seq<byte>, aad: seq<byte>, s: Sealed): Opened
    requires |key| == C.KEY_LENGTH && |nonce| == C.NONCE_LENGTH
  {
    if Authenticator(key, nonce, aad, s.ciphertext) != s.tag then Refused(InvalidSignature)
    else Plain(C.XorStream(key, 1, nonce, s.ciphertext))
  }

  /** Byte i is XORed with byte i % 64 of the block whose counter is 1 + i / 64; block 0 is the key of the tag. */
  lemma SealSpelledOut(key: seq<byte>, nonce: seq<byte>, aad: seq<byte>, plaintext: seq<byte>)
    requires |key| == 32 && |nonce| == 12
    ensures var s := Seal(key, nonce, aad, plaintext);
            && |s.ciphertext| == |plaintext|
            && forall i :: 0 <= i < |plaintext| ==>
                 s.ciphertext[i] == XorByte(plaintext[i], C.Block(key, (1 + i / 64) % 0x1_0000_0000, nonce)[i % 64])
    ensures var s, block := Seal(key, nonce, aad, plaintext), C.Block(key, 0, nonce);
            var input := aad + Zeros((16 - |aad| % 16) % 16) + s.ciphertext + Zeros((16 - |plaintext| % 16) % 16)
                         + LeBytes(|aad|, 8) + LeBytes(|plaintext|, 8);
            LeValue(s.tag)
            == (P.Polynomial(P.Coefficients(input),
                             BitAnd(LeValue(block[..16]), 0x0fff_fffc_0fff_fffc_0fff_fffc_0fff_ffff))
                  % 0x3_ffff_ffff_ffff_ffff_ffff_ffff_ffff_fffb
                + LeValue(block[16..32])) % 0x1_0000_0000_0000_0000_0000_0000_0000_0000
  {
    hide C.Block, LeBytes, LeValue, BitAnd, P.Polynomial, P.Coefficients, P.Tag, XorByte;
    var s, block := Seal(key, nonce, aad, plaintext), C.Block(key, 0, nonce);
    P.TagSpelledOut(PolyKey(key, nonce), MacInput(aad, s.ciphertext));
    assert block[..32][..16] == block[..16] && block[..32][16..] == block[16..32];
  }

  /** Decryption accepts exactly what encryption produced, and gives back what was encrypted. */
  lemma OpenInvertsSeal(key: seq<byte>, nonce: seq<byte>, aad: seq<byte>, plaintext: seq<byte>, s: Sealed)
    requires |key| == C.KEY_LENGTH && |nonce| == C.NONCE_LENGTH
    ensures Open(key, nonce, aad, s) == Plain(plaintext) <==> Seal(key, nonce, aad, plaintext) == s
  {
    hide Authenticator;
    C.XorStreamTwice(key, 1, nonce, plaintext);
    C.XorStreamTwice(key, 1, nonce, s.ciphertext);
  }

  method MakePolyKey(key: seq<byte>, nonce: seq<byte>) returns (polyKey: seq<byte>)
    requires |key| == C.KEY_LENGTH && |nonce| == C.NONCE_LENGTH
    ensures polyKey == PolyKey(key, nonce)
  {
    var block := new byte[64](_ => 0);
    C.ChaCha20Block(key, 0, nonce, block);
    polyKey := block[..32];
  }

  predicate ValidParameters(key: seq<byte>, nonce: seq<byte>)
  {
    |key| == C.KEY_LENGTH && |nonce| == C.NONCE_LENGTH
  }

  /** The plaintext may lie in the array that receives the ciphertext. */
  method ChaCha20Poly1305Encrypt(key: seq<byte>, nonce: seq<byte>, aad: seq<byte>, plaintext: array<byte>,
                                 plaintextLength: nat, ciphertext: array<byte>, tag: array<byte>)
    returns (status: Status, bytesWritten: nat)
    requires plaintextLength <= plaintext.Length && tag != ciphertext && tag != plaintext
    modifies ciphertext, tag
    ensures (status == Success) ==
            (ValidParameters(key, nonce) && ciphertext.Length >= plaintextLength && tag.Length == TAG_LENGTH)
    ensures status != Success ==> status == InvalidParameter && bytesWritten == 0
    ensures status != Success ==> ciphertext[..] == old(ciphertext[..]) && tag[..] == old(tag[..])
    ensures status == Success ==>
              && bytesWritten == plaintextLength
              && Sealed(ciphertext[..plaintextLength], tag[..])
                 == Seal(key, nonce, aad, old(plaintext[..plaintextLength]))
              && ciphertext[plaintextLength..] == old(ciphertext[plaintextLength..])
  {
    status, bytesWritten := InvalidParameter, 0;
    if !ValidParameters(key, nonce) {
      return;
    }
    if ciphertext.Length < plaintextLength || tag.Length != TAG_LENGTH {
      return;
    }
    hide Seal;
    EncryptThenMac(key, nonce, aad, plaintext, plaintextLength, ciphertext, tag);
    return Success, plaintextLength;
  }

  method EncryptThenMac(key: seq<byte>, nonce: seq<byte>, aad: seq<byte>, plaintext: array<byte>, n: nat,
                        ciphertext: array<byte>, tag: array<byte>)
    requires ValidParameters(key, nonce) && n <= plaintext.Length && n <= ciphertext.Length
    requires tag != ciphertext && tag != plaintext && tag.Length == TAG_LENGTH
    modifies ciphertext, tag
    ensures Sealed(ciphertext[..n], tag[..]) == Seal(key, nonce, aad, old(plaintext[..n]))
    ensures ciphertext[n..] == old(ciphertext[n..])
  {
    hide C.XorStream, MacInput, P.Tag, PolyKey;
    var polyKey := MakePolyKey(key, nonce);
    var status := C.ChaCha20Xor(key, 1, nonce, plaintext, n, ciphertext);
    ghost var sealed := ciphertext[..n];
    var macInput := BuildMacInput(aad, ciphertext[..n]);
    P.Poly1305(polyKey, macInput[..], tag);
    assert tag[..16] == tag[..];
    assert tag[..] == Authenticator(key, nonce, aad, sealed);
  }

  /** The tag is checked before a byte of plaintext is written. */
  method ChaCha20Poly1305Decrypt(key: seq<byte>, nonce: seq<byte>, aad: seq<byte>, tag: seq<byte>,
                                 ciphertext: array<byte>, ciphertextLength: nat, plaintext: array<byte>)
    returns (status: Status, bytesWritten: nat)
    requires ciphertextLength <= ciphertext.Length
    modifies plaintext
    ensures (status != InvalidParameter) ==
            (ValidParameters(key, nonce) && plaintext.Length >= ciphertextLength && |tag| == TAG_LENGTH)
    ensures status != InvalidParameter ==>
              Open(key, nonce, aad, Sealed(old(ciphertext[..ciphertextLength]), tag))
              == if status == Success then Plain(plaintext[..ciphertextLength]) else Refused(status)
    ensures status == Success ==>
              bytesWritten == ciphertextLength && plaintext[ciphertextLength..] == old(plaintext[ciphertextLength..])
    ensures status != Success ==> bytesWritten == 0 && plaintext[..] == old(plaintext[..])
  {
    status, bytesWritten := InvalidParameter, 0;
    if !ValidParameters(key, nonce) {
      return;
    }
    if plaintext.Length < ciphertextLength || |tag| != TAG_LENGTH {
      return;
    }
    hide C.XorStream, Authenticator;
    var expectedTag := ExpectedTag(key, nonce, aad, ciphertext[..ciphertextLength]);
    var equal := MemoryEquals(expectedTag, tag);
    if !equal {
      return InvalidSignature, 0;
    }
    status := C.ChaCha20Xor(key, 1, nonce, ciphertext, ciphertextLength, plaintext);
    bytesWritten := ciphertextLength;
  }

  method ExpectedTag(key: seq<byte>, nonce: seq<byte>, aad: seq<byte>, ciphertext: seq<byte>)
    returns (expectedTag: seq<byte>)
    requires ValidParameters(key, nonce)
    ensures expectedTag == Authenticator(key, nonce, aad, ciphertext)
  {
    hide MacInput, P.Tag, PolyKey;
    var polyKey := MakePolyKey(key, nonce);
    var macInput := BuildMacInput(aad, ciphertext);
    var tag := new byte[16](_ => 0);
    P.Poly1305(polyKey, macInput[..], tag);
    expectedTag := tag[..16];
  }

  /** Encrypting a buffer in place and decrypting it with the returned tag restores it. */
  method RoundTripInPlace(key: seq<byte>, nonce: seq<byte>, aad: seq<byte>, buffer: array<byte>)
    returns (status: Status)
    requires |key| == C.KEY_LENGTH && |nonce| == C.NONCE_LENGTH
    modifies buffer
    ensures status == Success && buffer[..] == old(buffer[..])
  {
    hide Seal, Open;
    var tag := new byte[16](_ => 0);
    var written;
    ghost var plaintext := buffer[..buffer.Length];
    status, written := ChaCha20Poly1305Encrypt(key, nonce, aad, buffer, buffer.Length, buffer, tag);
    ghost var s := Sealed(buffer[..buffer.Length], tag[..]);
    OpenInvertsSeal(key, nonce, aad, plaintext, s);
    status, written := ChaCha20Poly1305Decrypt(key, nonce, aad, tag[..], buffer, buffer.Length, buffer);
    assert buffer[..buffer.Length] == buffer[..];
  }
}
