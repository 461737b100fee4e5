/** AES-128-CCM encryption and decryption (src/KernelHttpLib/crypto/Aead.cpp:448-465 and 979-1156). */
module AesCcm {
  import opened Bytes
  import opened Ccm
  import opened CcmStream
  import opened Memory
  import A = Aes
  import C = AesCipher

  // ---- The block cipher on bytes ----

  function ToState(s: Block): A.State
  {
    seq(16, i requires 0 <= i < 16 => s[i] as bv8)
  }

  function FromState(s: A.State): Block
  {
    seq(16, i requires 0 <= i < 16 => s[i] as int)
  }

  /** Encryption of one block under an expanded key; the method below computes it. */
  function EncryptBlock(key: Block, block: Block): Block
  {
    FromState(A.Cipher(ToState(key), ToState(block)))
  }

  function BlockCipher(key: Block): Block -> Block
  {
    (block: Block) => EncryptBlock(key, block)
  }

  /** The key expansion and the block encryption, run one after the other on bytes. */
  method EncryptOneBlock(key: Block, block: Block) returns (output: Block)
    ensures output == EncryptBlock(key, block)
  {
    hide A.Cipher, A.RoundKey;
    var roundKeys := new bv8[C.ROUND_KEY_LENGTH](_ => 0);
    var status := C.Aes128Initialize(ToState(key), roundKeys);
    var state := C.Aes128EncryptBlock(roundKeys, ToState(block), ToState(key));
    output := FromState(state);
  }

  // ---- Encryption and decryption ----

  /** `ValidateAesCcm` */
  predicate ValidParameters(key: seq<byte>, nonce: seq<byte>, tagLength: nat)
  {
    |key| == 16 && ValidLengths(|nonce|, tagLength)
  }

  /** The checks made before anything is written. */
  predicate Usable(key: seq<byte>, nonce: seq<byte>, tagLength: nat, inputLength: nat, outputLength: nat)
  {
    ValidParameters(key, nonce, tagLength) && outputLength >= inputLength
  }

  /** The MAC, masked with the block for counter zero. */
  method MaskTag(e: Block -> Block, nonce: seq<byte>, mac: array<byte>, tagLength: nat) returns (tag: seq<byte>)
    requires 7 <= |nonce| <= 13 && mac.Length == 16 && tagLength <= 16
    ensures tag == XorBytes(mac[..tagLength], e(CounterBlock(nonce, 0)))
    ensures |tag| == tagLength && forall j, b: Block ::
              0 <= j < tagLength && b[0] == 14 - |nonce| && b[1..1 + |nonce|] == nonce && BeValue(b[1 + |nonce|..]) == 0 ==>
                tag[j] == XorByte(mac[j], e(b)[j])
  {
    hide XorByte, CounterBlock, BeValue, Pow256;
    var counter := new byte[16](_ => 0);
    BuildCcmCounterBlock(nonce, 0, counter);
    var stream := e(counter[..]);
    var result := new byte[16](_ => 0);
    for index := 0 to tagLength
      invariant forall j :: 0 <= j < index ==> result[j] == XorByte(mac[j], stream[j])
    {
      result[index] := XorByte(mac[index], stream[index]);
    }
    tag := result[..tagLength];
    forall b: Block | b[0] == 14 - |nonce| && b[1..1 + |nonce|] == nonce && BeValue(b[1 + |nonce|..]) == 0
      ensures b == CounterBlock(nonce, 0)
    {
      CounterBlockIs(nonce, 0, b);
    }
  }

  /** The plaintext may lie in the array that receives the ciphertext. */
  method AesCcmEncrypt(key: seq<byte>, nonce: seq<byte>, aad: seq<byte>, plaintext: array<byte>, plaintextLength: nat,
                       ciphertext: array<byte>, tag: array<byte>)
    returns (status: Status, bytesWritten: nat)
    requires plaintextLength <= plaintext.Length && plaintextLength < SIZE_LIMIT && tag != ciphertext
    modifies ciphertext, tag
    ensures (status == Success) ==
            (Usable(key, nonce, tag.Length, plaintextLength, ciphertext.Length) && Accepted(nonce, aad, plaintextLength))
    ensures status != Success ==> status == InvalidParameter && bytesWritten == 0
    ensures status != Success ==> ciphertext[..] == old(ciphertext[..]) && tag[..] == old(tag[..])
    ensures status == Success ==>
              && bytesWritten == plaintextLength
              && Sealed(ciphertext[..plaintextLength], tag[..])
                 == Seal(BlockCipher(key), nonce, aad, old(plaintext[..plaintextLength]), tag.Length)
              && ciphertext[plaintextLength..] == old(ciphertext[plaintextLength..])
  {
    hide BlockCipher, Crypt, CounterBlock, BlockString, CbcMac, Accepted;
    bytesWritten := 0;
    if !ValidParameters(key, nonce, tag.Length) {
      return InvalidParameter, 0;
    }
    if ciphertext.Length < plaintextLength {
      return InvalidParameter, 0;
    }
    var e := BlockCipher(key);
    ghost var payload := plaintext[..plaintextLength];
    var mac := new byte[16](_ => 0);
    assert mac[..] == Zeros(16);
    status := CcmComputeMac(e, nonce, aad, plaintext[..plaintextLength], tag.Length, mac);
    if status != Success {
      return;
    }
    status := CcmCrypt(e, nonce, plaintext, plaintextLength, ciphertext);
    var masked := MaskTag(e, nonce, mac, tag.Length);
    CopyMemory(tag, 0, masked);
    assert tag[..] == masked == TagOf(e, nonce, aad, payload, tag.Length);
    bytesWritten := plaintextLength;
  }

  /**
   The payload is decrypted before the tag is known to match. A wrong tag clears the output; AAD or
   a payload that is too long leaves the decrypted bytes in it.
   */
  method AesCcmDecrypt(key: seq<byte>, nonce: seq<byte>, aad: seq<byte>, tag: seq<byte>, ciphertext: array<byte>,
                       ciphertextLength: nat, plaintext: array<byte>)
    returns (status: Status, bytesWritten: nat)
    requires ciphertextLength <= ciphertext.Length && ciphertextLength < SIZE_LIMIT
    modifies plaintext
    ensures (status == Success) ==
            (&& Usable(key, nonce, |tag|, ciphertextLength, plaintext.Length) && Accepted(nonce, aad, ciphertextLength)
             && Authentic(BlockCipher(key), nonce, aad, Sealed(old(ciphertext[..ciphertextLength]), tag)))
    ensures (status == InvalidSignature) ==
            (&& Usable(key, nonce, |tag|, ciphertextLength, plaintext.Length) && Accepted(nonce, aad, ciphertextLength)
             && !Authentic(BlockCipher(key), nonce, aad, Sealed(old(ciphertext[..ciphertextLength]), tag)))
    ensures status in {Success, InvalidSignature, InvalidParameter}
    ensures bytesWritten == if status == Success then ciphertextLength else 0
    ensures status == InvalidSignature ==> plaintext[..] == Zeros(plaintext.Length)
    ensures !Usable(key, nonce, |tag|, ciphertextLength, plaintext.Length) ==> plaintext[..] == old(plaintext[..])
    ensures status != InvalidSignature && Usable(key, nonce, |tag|, ciphertextLength, plaintext.Length) ==>
              && plaintext[..ciphertextLength] == Crypt(BlockCipher(key), nonce, old(ciphertext[..ciphertextLength]))
              && plaintext[ciphertextLength..] == old(plaintext[ciphertextLength..])
  {
    hide BlockCipher, Crypt, CounterBlock, BlockString, CbcMac, Accepted;
    bytesWritten := 0;
    if !ValidParameters(key, nonce, |tag|) {
      return InvalidParameter, 0;
    }
    if plaintext.Length < ciphertextLength {
      return InvalidParameter, 0;
    }
    var e := BlockCipher(key);
    ghost var sealed := Sealed(ciphertext[..ciphertextLength], tag);
    status := CcmCrypt(e, nonce, ciphertext, ciphertextLength, plaintext);
    var mac := new byte[16](_ => 0);
    assert mac[..] == Zeros(16);
    status := CcmComputeMac(e, nonce, aad, plaintext[..ciphertextLength], |tag|, mac);
    if status != Success {
      return;
    }
    var expectedTag := MaskTag(e, nonce, mac, |tag|);
    assert expectedTag == TagOf(e, nonce, aad, Crypt(e, nonce, sealed.ciphertext), |tag|);
    var equal := MemoryEquals(expectedTag, tag);
    if !equal {
      ZeroMemory(plaintext);
      status := InvalidSignature;
    } else {
      bytesWritten := ciphertextLength;
    }
  }

  /** At one input: with 0xff00 bytes of AAD the call fails, and the decrypted payload stays in the output. */
  method LongAadLeavesPlaintext(key: seq<byte>, nonce: seq<byte>, tag: seq<byte>, ciphertext: array<byte>,
                                plaintext: array<byte>)
    returns (status: Status)
    requires Usable(key, nonce, |tag|, ciphertext.Length, plaintext.Length) && ciphertext.Length < SIZE_LIMIT
    modifies plaintext
    ensures status == InvalidParameter
    ensures plaintext[..ciphertext.Length] == Crypt(BlockCipher(key), nonce, old(ciphertext[..]))
  {
    hide Crypt, BlockCipher, Authentic;
    var written;
    assert ciphertext[..ciphertext.Length] == ciphertext[..];
    status, written := AesCcmDecrypt(key, nonce, Zeros(0xff00), tag, ciphertext, ciphertext.Length, plaintext);
  }

  /** Decrypting, in place, what encryption left in place restores the plaintext. */
  method RoundTripInPlace(key: seq<byte>, nonce: seq<byte>, aad: seq<byte>, buffer: array<byte>, tagLength: nat)
    returns (status: Status)
    requires ValidParameters(key, nonce, tagLength) && buffer.Length < SIZE_LIMIT && Accepted(nonce, aad, buffer.Length)
    modifies buffer
    ensures status == Success && buffer[..] == old(buffer[..])
  {
    hide Seal, Authentic, Crypt, BlockCipher, Accepted;
    ghost var e := BlockCipher(key);
    var tag := new byte[tagLength](_ => 0);
    var written;
    ghost var plaintext := buffer[..buffer.Length];
    status, written := AesCcmEncrypt(key, nonce, aad, buffer, buffer.Length, buffer, tag);
    AuthenticIffSealed(e, nonce, aad, plaintext, Sealed(buffer[..buffer.Length], tag[..]));
    status, written := AesCcmDecrypt(key, nonce, aad, tag[..], buffer, buffer.Length, buffer);
    assert buffer[..buffer.Length] == buffer[..];
  }
}
