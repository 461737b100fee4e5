# Verified model of the KernelHttp protocol cores

A Dafny model of the parts of KernelHttp whose results have an exact meaning, with proofs that the code
computes it. Check everything with `dafny verify dfyconfig.toml`.

* **Software AEAD** (`Poly1305*.dfy`, `ChaCha20.dfy`, `ChaChaPoly.dfy`, `Ccm*.dfy`, `Aes*.dfy`). Poly1305 in
  five 26-bit limbs with wrapping 32- and 64-bit arithmetic refines the polynomial of RFC 8439; ChaCha20 and
  the AEAD construction around it; the streaming CCM code over any block cipher; table-driven AES-128
  against FIPS 197.
* **WebSocket client** (`Utf8.dfy`, `WebSocket*.dfy`, `Transport.dfy`). The frame codec against RFC 6455, the
  two UTF-8 validators against RFC 3629, and the client class: receive buffer, reassembly, send splitter,
  close handshake; whole sessions of sends and receives on top of it. The transport is a byte stream cut into
  reads of any size, writes that may fail or take only a part, and a timer that may expire; all of them are
  arbitrary field values, so every result holds for every environment.
* **Byte algorithms** (`Der.dfy`, `Hkdf.dfy`), the **growing response buffer** (`Workspace.dfy`) and the
  **replay after an upgrade** (`Upgrade.dfy`).

`Bytes.dfy`, `Bits.dfy` and `Memory.dfy` hold byte strings as numbers, bit operations on naturals and the C
runtime's block operations. Bytes are integers below 256; AES works on `bv8` and ChaCha20 on `bv32`.

Each operation is a method in the form of the code (same branches, same statuses, arrays changed in place)
proved against a function, and the promises are proved about that function. The definitions are tied down from
outside as well: by statements that write constants, opcodes and layouts out in numbers, and by the published
examples of RFC 8439, FIPS 197, SP 800-38C, RFC 6455 and RFC 3629 (`*Vector.dfy`, `WebSocketExamples.dfy`).

Two results differ from what one would expect of the code:

* With automatic answers to pings, the answers of `ReceiveMessage` do not depend, for any stream, on how reads cut
  it if and only if the frame buffer has 0 bytes, where every call is refused before it reads, or at least 131, room
  for the largest pong (six header bytes and 125 of payload). In between, a pong that does not fit makes the call
  return without recording the bytes it has read, so they are lost. `WebSocketRuns.WithoutFrameBuffer` and
  `WebSocketRuns.ReceiveMany` are the if; `WebSocketRuns.CutsDecide` is the only-if, for every frame buffer of 1 to
  130 bytes and every output size: one byte stream, cut in two ways, and two clients that answer differently.
* `AesCcmDecrypt` decrypts before it checks AAD and payload lengths: for AAD of 0xff00 bytes or more, or a payload
  that does not fit its length field, it returns an invalid-parameter status and leaves the decrypted bytes in
  the output, which a wrong tag would have cleared (`AesCcm.AesCcmDecrypt` has the exact condition,
  `AesCcm.LongAadLeavesPlaintext` an input).

## Model

| member | source | states |
|---|---|---|
| `Poly1305.Poly1305` | src/KernelHttpLib/crypto/Aead.cpp:664-757 | for every 32-byte key and every message the tag written is the polynomial of the message in r = key[..16] AND 0x0ffffffc0ffffffc0ffffffc0fffffff, modulo 2^130-5, plus key[16..] modulo 2^128, little-endian, all of it in numbers; nothing else in the buffer changes |
| `Poly1305.TagSpelledOut` | src/KernelHttpLib/crypto/Aead.cpp:664-757 | a 16-byte string is the tag of the definition if and only if its value is that number |
| `Poly1305Vector.TagOfExample` | src/KernelHttpLib/crypto/Aead.cpp:664-757 | the tag of section 2.5.2 of RFC 8439 |
| `Poly1305.Poly1305ProcessBlock` | src/KernelHttpLib/crypto/Aead.cpp:577-662 | from h0, h2, h3, h4 < 2^26 and h1 < 2^26+64 one block gives (h + block) * r modulo 2^130-5, and the limbs satisfy the same bounds again |
| `Poly1305.AccumulatorIsPolynomial` | src/KernelHttpLib/crypto/Aead.cpp:688-695 | the accumulator over all blocks is the polynomial in r whose coefficients are the blocks, modulo 2^130-5, for a short last block as well |
| `Poly1305.AccumulateBlocks` | src/KernelHttpLib/crypto/Aead.cpp:688-695 | the loop over the message keeps the limb bounds and ends at the accumulator of the definition |
| `Poly1305Words.BlockLimbsValue` | src/KernelHttpLib/crypto/Aead.cpp:588-598 | the five overlapping, shifted and masked 32-bit reads are the 26-bit limbs of the 17-byte little-endian number |
| `Poly1305Words.WordOperations` | src/KernelHttpLib/crypto/Aead.cpp:133-139 | remainder, quotient and sum, as the definitions have them, are the masks, the shifts and the OR of shifted bytes of the code |
| `Poly1305Words.BlockLimbsAsWritten` | src/KernelHttpLib/crypto/Aead.cpp:588-598 | the five reads, as the definition has them, are the reads with the shifts and the mask of the code |
| `Poly1305Words.AddLimbsIsExact` | src/KernelHttpLib/crypto/Aead.cpp:599-603 | adding the block to h loses no bit of the 32-bit limbs |
| `Poly1305Words.RowsFit` | src/KernelHttpLib/crypto/Aead.cpp:605-634 | every 64-bit row sum stays below 2^64 with room for the carry, and every carry fits 32 bits, so no static_cast drops a bit |
| `Poly1305Words.RowsAreProduct` | src/KernelHttpLib/crypto/Aead.cpp:605-634 | the five rows with the factors 5*r[i] are the product h * r, up to a multiple of 2^130-5 |
| `Poly1305.MultiplyRows` | src/KernelHttpLib/crypto/Aead.cpp:605-634 | the wrapping 32- and 64-bit code computes exactly those rows |
| `Poly1305Words.CarriedValue` | src/KernelHttpLib/crypto/Aead.cpp:636-657 | the carry chain keeps the value modulo 2^130-5 and restores the limb bounds |
| `Poly1305.CarryRows` | src/KernelHttpLib/crypto/Aead.cpp:636-657 | the carry chain in place: same residue, bounds restored |
| `Poly1305Words.FinalCarryValue` | src/KernelHttpLib/crypto/Aead.cpp:697-711 | the closing carry pass makes all five limbs canonical; the carry that comes round through h0 cannot overflow it again |
| `Poly1305.FinalCarry` | src/KernelHttpLib/crypto/Aead.cpp:697-711 | canonical limbs of the same residue |
| `Poly1305.AddFive` | src/KernelHttpLib/crypto/Aead.cpp:713-721 | g is h + 5 limb by limb, its top limb compared with 2^26 by a wrapping subtraction |
| `Poly1305Words.SelectionMaskAsWritten` | src/KernelHttpLib/crypto/Aead.cpp:723-724 | the mask of the definition is the wrapping (g4 >> 31) - 1 of the code |
| `Poly1305Words.SelectPicks` | src/KernelHttpLib/crypto/Aead.cpp:723-727 | masking and OR-ing under an all-ones or all-zeros mask picks one of two words |
| `Poly1305Words.ResidueBySelection` | src/KernelHttpLib/crypto/Aead.cpp:713-727 | subtracting the modulus once or not at all, as the mask decides, leaves the residue below 2^130-5 |
| `Poly1305.SelectResidue` | src/KernelHttpLib/crypto/Aead.cpp:723-727 | the masked loop replaces h by g as a whole or not at all |
| `Poly1305.FinalResidue` | src/KernelHttpLib/crypto/Aead.cpp:697-727 | canonical limbs whose value is the residue of the accumulator below 2^130-5 |
| `Poly1305Words.Recombine` | src/KernelHttpLib/crypto/Aead.cpp:729-745 | the OR of the two shifted limbs never overlaps bits: it is their sum modulo 2^32 |
| `Poly1305Words.TagWords` | src/KernelHttpLib/crypto/Aead.cpp:729-745 | the four recombined words are the residue modulo 2^128 |
| `Poly1305.WriteTag` | src/KernelHttpLib/crypto/Aead.cpp:729-752 | residue plus s modulo 2^128, 16 bytes little-endian |
| `Poly1305Clamp.ClampLimbsValue` | src/KernelHttpLib/crypto/Aead.cpp:677-686 | the five masked limbs of r hold the 128-bit AND of the key half with 0x0ffffffc0ffffffc0ffffffc0fffffff |
| `Poly1305.LoadR` | src/KernelHttpLib/crypto/Aead.cpp:677-686 | r is loaded as the canonical limbs of the AND of the first half of the key with the constant of section 2.5 |
| `ChaCha20.QuarterRound` | src/KernelHttpLib/crypto/Aead.cpp:473-491 | the in-place quarter round on four indices equals the definition |
| `ChaCha20.QuarterIsInvertible` | src/KernelHttpLib/crypto/Aead.cpp:473-491 | the quarter round has an explicit inverse |
| `ChaCha20.QuarterRoundVector` | src/KernelHttpLib/crypto/Aead.cpp:473-491 | the definition gives the test vector of section 2.1.1 of RFC 8439 |
| `ChaCha20.RoundsAreInvertible` | src/KernelHttpLib/crypto/Aead.cpp:526-535 | any number of double rounds has an explicit inverse, so the rounds are injective |
| `ChaCha20.ChaCha20Block` | src/KernelHttpLib/crypto/Aead.cpp:493-541 | 64 bytes: initial state plus the state after ten double rounds, little-endian, sections 2.3 of RFC 8439 |
| `ChaCha20.StateWords` | src/KernelHttpLib/crypto/Aead.cpp:502-517 | word by word: words 0..3 of the initial state are constants, 4..11 the little-endian words of the key, 12 the counter, 13..15 the nonce |
| `ChaCha20.Constants` | src/KernelHttpLib/crypto/Aead.cpp:502-505 | the four constants are the little-endian words of the text expand 32-byte k |
| `ChaCha20Vector.DoubleRoundByColumns` | src/KernelHttpLib/crypto/Aead.cpp:526-535 | for every state a double round is four quarter rounds on the columns and then four on the diagonals |
| `ChaCha20Vector.ExampleBlock` | src/KernelHttpLib/crypto/Aead.cpp:493-541 | the block of section 2.3.2 of RFC 8439, round by round |
| `ChaCha20Vector.PolyKeyOfExample` | src/KernelHttpLib/crypto/Aead.cpp:859-862 | the Poly1305 key of section 2.6.2 of RFC 8439, round by round |
| `ChaCha20.ChaCha20Xor` | src/KernelHttpLib/crypto/Aead.cpp:544-575 | XOR with the keystream from the given counter, also when input and output are one array; the only failure is an output that is too short |
| `ChaCha20.StreamSpelledOut` | src/KernelHttpLib/crypto/Aead.cpp:556-571 | byte i is XORed with byte i % 64 of the block whose counter is i / 64 behind the first, modulo 2^32, and there is no other such output |
| `ChaCha20.XorStreamTwice` | src/KernelHttpLib/crypto/Aead.cpp:556-571 | applying the keystream twice gives the data back |
| `ChaCha20.KeyBlockIsReused` | src/KernelHttpLib/crypto/Aead.cpp:556-571 | the 32-bit counter that starts at 1 comes back to 0, the block of the Poly1305 key, exactly when the data is longer than 64 * (2^32 - 1) bytes |
| `ChaCha20.CountersAreDistinct` | src/KernelHttpLib/crypto/Aead.cpp:556-571 | up to 2^32 blocks, different blocks use different counters |
| `ChaChaPoly.BuildMacInput` | src/KernelHttpLib/crypto/Aead.cpp:760-809 | the buffer is AAD, zero pad, ciphertext, zero pad, two 64-bit little-endian lengths, section 2.8 of RFC 8439 |
| `ChaChaPoly.MacInputIsWholeBlocks` | src/KernelHttpLib/crypto/Aead.cpp:776-783 | its length is a multiple of 16 |
| `ChaChaPoly.MacInputCanBeSplit` | src/KernelHttpLib/crypto/Aead.cpp:760-809 | an explicit decoder recovers AAD and ciphertext from the MAC input |
| `ChaChaPoly.MacInputIsInjective` | src/KernelHttpLib/crypto/Aead.cpp:760-809 | different (AAD, ciphertext) pairs never give the same MAC input |
| `ChaChaPoly.OpenInvertsSeal` | src/KernelHttpLib/crypto/Aead.cpp:827-976 | decryption yields a plaintext if and only if encryption of that plaintext yields this ciphertext and tag |
| `ChaChaPoly.ChaCha20Poly1305Encrypt` | src/KernelHttpLib/crypto/Aead.cpp:827-900 | succeeds exactly for 32-byte keys, 12-byte nonces, 16-byte tags and enough room; then ciphertext and tag are those of section 2.8; otherwise nothing is written |
| `ChaChaPoly.SealSpelledOut` | src/KernelHttpLib/crypto/Aead.cpp:827-900 | for every input, byte i of the ciphertext is XORed with the block of counter 1 + i / 64, and the tag is the number of section 2.5 for the padded AAD, the padded ciphertext and the two lengths, under the first 32 bytes of block 0 |
| `ChaChaPoly.ChaCha20Poly1305Decrypt` | src/KernelHttpLib/crypto/Aead.cpp:902-976 | success exactly when the tag matches; a wrong tag writes no byte of plaintext |
| `ChaChaPoly.RoundTripInPlace` | src/KernelHttpLib/crypto/Aead.cpp:827-976 | encrypting and decrypting one buffer in place restores it |
| `CcmStream.CcmComputeMac` | src/KernelHttpLib/crypto/Aead.cpp:333-398 | the buffered loop computes the CBC-MAC of the block string of SP 800-38C, Appendix A, exactly when AAD is below 0xff00 bytes and the payload length fits its field; otherwise it is refused |
| `CcmStream.MacAad` | src/KernelHttpLib/crypto/Aead.cpp:358-381 | the AAD behind its two length bytes, packed at a moving block offset, is chained as its zero-padded blocks |
| `CcmStream.MacPayload` | src/KernelHttpLib/crypto/Aead.cpp:383-394 | the payload is chained as its zero-padded blocks |
| `CcmStream.FillFirstBlock` | src/KernelHttpLib/crypto/Aead.cpp:348-357 | B0: flags, nonce, payload length |
| `CcmStream.FlagsAreOred` | src/KernelHttpLib/crypto/Aead.cpp:350-353 | the three OR-ed fields of the flags byte do not overlap |
| `CcmStream.CcmPayloadLengthFits` | src/KernelHttpLib/crypto/Aead.cpp:297-305 | the shift and the comparison of the code let exactly the lengths below 256^q pass, for every 64-bit length |
| `CcmStream.FittingLengthsComeBack` | src/KernelHttpLib/crypto/Aead.cpp:297-305 | those are exactly the lengths that their q big-endian bytes give back |
| `CcmStream.BuildCcmCounterBlock` | src/KernelHttpLib/crypto/Aead.cpp:307-318 | the first byte is 14 - |nonce|, then the nonce, then a counter whose big-endian value is the given one if it fits |
| `Ccm.CounterBlockIs` | src/KernelHttpLib/crypto/Aead.cpp:307-318 | a block is the counter block i if and only if its three fields have these values |
| `Ccm.CryptSpelledOut` | src/KernelHttpLib/crypto/Aead.cpp:420-440 | byte i is XORed with byte i % 16 of the encryption of the block that reads 14 - |nonce|, nonce, 1 + i / 16 |
| `Ccm.TagSpelledOut` | src/KernelHttpLib/crypto/Aead.cpp:1042-1050 | the tag is the front of the CBC-MAC, XORed with the encryption of the block that reads 14 - |nonce|, nonce, 0 |
| `Ccm.BlockStringSpelledOut` | src/KernelHttpLib/crypto/Aead.cpp:333-398 | the MAC input: B0 with its flags in numbers, AAD behind its length, payload, each padded with the zeros that fill the block |
| `Ccm.CbcMacSpelledOut` | src/KernelHttpLib/crypto/Aead.cpp:358-394 | the chaining: each block is XORed with the MAC so far and encrypted, starting from zeros |
| `Ccm.BlockStringOfExample` | src/KernelHttpLib/crypto/Aead.cpp:333-398 | the block string of example 3 of SP 800-38C |
| `Ccm.CounterBlockOfExample` | src/KernelHttpLib/crypto/Aead.cpp:307-318 | its first counter block |
| `CcmStream.CcmCrypt` | src/KernelHttpLib/crypto/Aead.cpp:401-446 | XOR with the keystream of counters 1, 2, ..., also in place; the counter overflow exit is never taken; byte i comes from the block that reads 14 - |nonce|, nonce, 1 + i / 16 |
| `Ccm.BlockStringIsInjective` | src/KernelHttpLib/crypto/Aead.cpp:333-398 | for one nonce length and one tag length the block string determines nonce, AAD and payload |
| `Ccm.CounterBlocksAreFresh` | src/KernelHttpLib/crypto/Aead.cpp:297-318 | the counter blocks 0..ceil(n/16) are pairwise distinct and none is B0, for nonce lengths 7..13 and tags of 8 or 16 bytes |
| `Ccm.CryptTwice` | src/KernelHttpLib/crypto/Aead.cpp:420-440 | counter mode is its own inverse |
| `Ccm.AuthenticIffSealed` | src/KernelHttpLib/crypto/Aead.cpp:979-1156 | a ciphertext and tag are accepted as a given payload if and only if encryption makes them of it |
| `AesCcm.AesCcmEncrypt` | src/KernelHttpLib/crypto/Aead.cpp:979-1061 | exact success condition; then ciphertext and tag are those of CCM with AES-128; otherwise nothing is written |
| `AesCcm.MaskTag` | src/KernelHttpLib/crypto/Aead.cpp:1042-1050 | the tag is the MAC XORed with the encryption of the block that reads 14 - |nonce|, nonce, 0 |
| `AesCcm.AesCcmDecrypt` | src/KernelHttpLib/crypto/Aead.cpp:1064-1156 | exact conditions for success and for a wrong tag; a wrong tag zeroes the whole output; AAD or payload that is too long leaves the decrypted bytes in it |
| `AesCcm.LongAadLeavesPlaintext` | src/KernelHttpLib/crypto/Aead.cpp:1106-1129 | at an actual input: with 0xff00 bytes of AAD the call answers invalid parameter and the decrypted payload is in the output |
| `AesCcm.RoundTripInPlace` | src/KernelHttpLib/crypto/Aead.cpp:979-1156 | encrypting and decrypting one buffer in place restores it, for both tag lengths |
| `AesCcm.EncryptOneBlock` | src/KernelHttpLib/crypto/Aead.cpp:229-294 | key expansion and block encryption on bytes compute the block cipher that CCM is instantiated with |
| `AesTables.SBoxIsAffineOfInverse` | src/KernelHttpLib/crypto/Aead.cpp:71-104 | every S-box entry is the affine map of the inverse in GF(2^8), section 5.1.1 of FIPS 197 |
| `AesTables.SBoxIsInvertible` | src/KernelHttpLib/crypto/Aead.cpp:71-104 | the S-box and the inverse table undo each other, both ways |
| `AesCipher.AesAddRoundKey` | src/KernelHttpLib/crypto/Aead.cpp:173-180 | in place, the round key is added byte by byte |
| `AesCipher.AesSubBytes` | src/KernelHttpLib/crypto/Aead.cpp:182-187 | in place, every byte goes through the S-box |
| `AesCipher.AesShiftRows` | src/KernelHttpLib/crypto/Aead.cpp:189-209 | the moves through saved bytes rotate row r by r columns |
| `AesCipher.AesMixColumns` | src/KernelHttpLib/crypto/Aead.cpp:211-226 | the shared-sum code multiplies every column by the matrix 2 3 1 1 |
| `Aes.MixedByteIsMatrixRow` | src/KernelHttpLib/crypto/Aead.cpp:217-224 | one multiplication by 2 and the sum of the column give the row 2 3 1 1 of the matrix |
| `Aes.MixColumnHasOrderFour` | src/KernelHttpLib/crypto/Aead.cpp:211-226 | the matrix applied four times is the identity, so its cube is its inverse |
| `AesCipher.TableOfRcon` | src/KernelHttpLib/crypto/Aead.cpp:106-109 | the ten round constants are the powers of x in GF(2^8) |
| `AesCipher.ExpandKey` | src/KernelHttpLib/crypto/Aead.cpp:238-264 | the loop ends at exactly 176 bytes with rconIndex equal to 10, and word i of the buffer is word i of the recursion of section 5.2 |
| `AesCipher.Aes128Initialize` | src/KernelHttpLib/crypto/Aead.cpp:229-267 | succeeds exactly for 16-byte keys; then the eleven round keys are those of section 5.2; the first one is the key, and bytes 16 to 19 are written out in terms of the last word of the key, the S-box and 1 |
| `AesCipher.RotatedBytes` | src/KernelHttpLib/crypto/Aead.cpp:249-264 | byte by byte, every fourth word of a key schedule is the word four before it, XORed with the S-box values of the last word rotated to the left and the round constant |
| `AesCipher.PlainBytes` | src/KernelHttpLib/crypto/Aead.cpp:245-264 | byte by byte, the other words are XORs of the last word and the one four before it |
| `AesVector.KeysOfExample` | src/KernelHttpLib/crypto/Aead.cpp:229-267 | the eleven round keys of appendix C.1 of FIPS 197 |
| `AesVector.CipherOfExample` | src/KernelHttpLib/crypto/Aead.cpp:270-294 | the states of appendix C.1 of FIPS 197, round by round, to its output |
| `AesVector.BlockOfExample` | src/KernelHttpLib/crypto/Aead.cpp:229-294 | the cipher that CCM is instantiated with encrypts the block of appendix C.1 of FIPS 197 to 69c4e0d86a7b0430d8cdb78070b4c55a |
| `AesCipher.Aes128EncryptBlock` | src/KernelHttpLib/crypto/Aead.cpp:270-294 | the in-place rounds compute the cipher of section 5.1 |
| `Aes.CipherIsPermutation` | src/KernelHttpLib/crypto/Aead.cpp:270-294 | under every key, encryption is a permutation of blocks with an explicit inverse |
| `Utf8.IsValidUtf8` | src/KernelHttpLib/client/WebSocketClient.cpp:304-356 | accepts exactly the concatenations of RFC 3629 encodings of Unicode scalar values |
| `Utf8.Examples` | src/KernelHttpLib/client/WebSocketClient.cpp:304-356 | scalar values of section 7 of RFC 3629 with one to four bytes; overlong forms, surrogates, values beyond U+10FFFF and stray or missing continuations are refused |
| `Utf8.AdvanceUtf8State` | src/KernelHttpLib/client/WebSocketClient.cpp:368-430 | runs the automaton over a fragment; succeeds exactly when the automaton does, and a final fragment may not end inside a code point |
| `Utf8.AcceptsExactlyUtf8` | src/KernelHttpLib/client/WebSocketClient.cpp:358-430 | the automaton accepts a string if and only if it is a concatenation of encodings of scalar values, section 4 of RFC 3629 |
| `Utf8.SplitsAgree` | src/KernelHttpLib/client/WebSocketClient.cpp:368-430 | feeding fragments is feeding their concatenation, wherever they are cut |
| `Utf8.StreamingAgrees` | src/KernelHttpLib/client/WebSocketClient.cpp:304-430 | any split, last piece final, is accepted exactly when the one-shot validator accepts the whole |
| `WebSocketFrame.DecodeFrameHeader` | src/KernelHttpLib/websocket/WebSocketFrame.cpp:435-482 | the imperative decoder, length bytes accumulated in a loop, agrees with the specification on every input, and a header that decodes has the opcode numbers 0, 1, 2, 8, 9, 10, the FIN bit and the length in its bytes |
| `WebSocketFrame.HeaderInNumbers` | include/KernelHttp/websocket/WebSocketFrame.h:17-25 | in numbers: data decodes to a header if and only if its first byte is the opcode number plus 128 for FIN, its length stands in 1, 3 or 9 bytes in shortest form, and a control frame is short and final |
| `WebSocketExamples.Headers` | include/KernelHttp/websocket/WebSocketFrame.h:17-25 | the headers of section 5.7 of RFC 6455, one for each opcode |
| `WebSocketExamples.LongHeaders` | src/KernelHttpLib/websocket/WebSocketFrame.cpp:435-482 | the two long headers of section 5.7 |
| `WebSocketExamples.Refusals` | src/KernelHttpLib/websocket/WebSocketFrame.cpp:675-731 | reserved bits and opcodes, fragmented and long control frames, masked frames and lengths that are not minimal are malformed |
| `WebSocketFrame.DecodesExactlyServerHeaders` | src/KernelHttpLib/websocket/WebSocketFrame.cpp:675-731 | a header is decoded if and only if the data begins with an allowed, unmasked header in the shortest length form, section 5.2 of RFC 6455 |
| `WebSocketFrame.DecodeIsStable` | src/KernelHttpLib/websocket/WebSocketFrame.cpp:675-731 | bytes behind a decided header do not change the decision |
| `WebSocketFrame.TenBytesDecide` | src/KernelHttpLib/websocket/WebSocketFrame.cpp:675-731 | ten bytes always decide; a decoded header has 2 to 10 bytes and keeps the limits on control frames |
| `WebSocketFrame.ShortPrefixAsksForMore` | src/KernelHttpLib/websocket/WebSocketFrame.cpp:675-731 | every proper prefix of a header asks for more |
| `WebSocketFrame.EncodeClientFrame` | src/KernelHttpLib/websocket/WebSocketFrame.cpp:352-432 | exact status for every frame and buffer; on success the bytes are the masked frame of section 5.2, opcode numbers, length bytes, key and masked payload in numbers |
| `WebSocketFrame.FrameInNumbers` | src/KernelHttpLib/websocket/WebSocketFrame.cpp:352-432 | in numbers: exactly one byte string represents a frame under a key, and it is the frame sent |
| `WebSocketExamples.ClientFrames` | include/KernelHttp/websocket/WebSocketFrame.h:17-25 | the masked frame 81 85 37fa213d 7f9f4d5158 of section 5.7, and one with the same key for each other opcode |
| `WebSocketExamples.ServerReads` | src/KernelHttpLib/websocket/WebSocketFrame.cpp:310-432 | a server reads that frame as the text Hello |
| `Bits.BitOfXor` | src/KernelHttpLib/websocket/WebSocketFrame.cpp:420-424 | the exclusive or of the mask works bit by bit |
| `WebSocketFrame.ClientFrameRoundTrip` | src/KernelHttpLib/websocket/WebSocketFrame.cpp:310-432 | a server reads the frame back from its bytes, whatever the key and whatever follows |
| `WebSocketFrame.ServerReadsTheFrames` | src/KernelHttpLib/websocket/WebSocketFrame.cpp:310-432 | the frames sent are the frames a server reads off the concatenated bytes, and then it reads what follows them |
| `WebSocketMessages.FullBufferDecides` | src/KernelHttpLib/client/WebSocketClient.cpp:1550-1560 | a buffer of 14 bytes and the larger of the output and 125 always decides the next frame: the buffer-full exit of the receive loop is unreachable |
| `WebSocketMessages.LookIsStable` | src/KernelHttpLib/client/WebSocketClient.cpp:1587-1624 | what is refused or accepted on some bytes is refused or accepted on more of them |
| `WebSocketMessages.ExtendTwice` | src/KernelHttpLib/client/WebSocketClient.cpp:1466-1490 | two pieces of a message, the first without FIN, are one piece |
| `WebSocketReassembly.DeliversExactlyMessages` | src/KernelHttpLib/client/WebSocketClient.cpp:1574-1882 | a call delivers a message if and only if the stream begins with frames that the fragmentation grammar of section 5.4 of RFC 6455 assembles to that message, pings and pongs between them; each ping is answered with its own payload, in order |
| `WebSocketReassembly.MessageComesBack` | src/KernelHttpLib/client/WebSocketClient.cpp:1574-1882 | a message cut into frames in any way comes back whole under its first opcode |
| `WebSocketExamples.WholeText` | src/KernelHttpLib/client/WebSocketClient.cpp:1574-1882 | 81, a length and that many bytes: the text is delivered, or refused with 1007 if it is not UTF-8 |
| `WebSocketExamples.WholeBinary` | src/KernelHttpLib/client/WebSocketClient.cpp:1574-1882 | 82, a length and that many bytes: binary data is delivered |
| `WebSocketExamples.TwoFrames` | src/KernelHttpLib/client/WebSocketClient.cpp:1574-1882 | the fragmented message of section 5.7 with its ping in between: Hello is delivered and the ping answered |
| `WebSocketExamples.WholePing` | src/KernelHttpLib/client/WebSocketClient.cpp:1666-1708 | 89, a length and that many bytes: answered with the same bytes if six more fit the frame buffer, handed to the caller without automatic answers, without payload inside a message, and refused if it does not fit the output |
| `WebSocketExamples.WholePong` | src/KernelHttpLib/client/WebSocketClient.cpp:1716-1751 | 8a, a length and that many bytes: read past, or handed to the caller in the same way |
| `WebSocketExamples.ProtocolErrors` | src/KernelHttpLib/client/WebSocketClient.cpp:143-143 | 1002 for a malformed frame and for one that does not continue what is in progress |
| `WebSocketExamples.InvalidText` | src/KernelHttpLib/client/WebSocketClient.cpp:146-146 | 1007 for a text that is not UTF-8 |
| `WebSocketExamples.TooManyControls` | src/KernelHttpLib/client/WebSocketClient.cpp:1666-1722 | 1008 for a control frame exactly if a hundred or more came before it |
| `WebSocketExamples.MessageTooBig` | src/KernelHttpLib/client/WebSocketClient.cpp:145-145 | 1009 for a message longer than the output, with its length |
| `WebSocketExamples.ClosingFrame` | src/KernelHttpLib/client/WebSocketClient.cpp:1753-1803 | 88 and a status in two bytes, whatever came before: handed over if it is valid and the echo fits 8 bytes, 1002 if it is not |
| `WebSocketExamples.CloseStatuses` | src/KernelHttpLib/client/WebSocketClient.cpp:433-446 | the valid statuses are 1000-1003, 1007-1014 and 3000-4999 |
| `WebSocketExamples.OtherStatuses` | src/KernelHttpLib/client/WebSocketClient.cpp:757-766 | which statuses do not end a connection |
| `WebSocketReassembly.DeliveryIsAMessage` | src/KernelHttpLib/client/WebSocketClient.cpp:1574-1882 | whatever a call delivers is a message of the stream, at most the output's size and, if text, valid UTF-8 |
| `WebSocketClient.Client.EncodeAndSendFrame` | src/KernelHttpLib/client/WebSocketClient.cpp:2245-2311 | on success one whole frame goes out, never behind a Close frame; otherwise at most a front part of it, and then, short write or terminal failure, the connection is lost; any other failure leaves wire and connection as they were; the bytes added to the wire are the frame in numbers |
| `WebSocketClient.Client.SendControlFrame` | src/KernelHttpLib/client/WebSocketClient.cpp:1373-1402 | one ping or pong frame on success, none otherwise, and the exact status when no write fails |
| `WebSocketClient.Client.SendFrame` | src/KernelHttpLib/client/WebSocketClient.cpp:1404-1505 | exact status when no write fails; on success the wire has grown by max(1, ceil(n / maxPayload)) frames that extend the message in progress by exactly the caller's bytes, sendFragmentOpen says whether it was left open, and no control frame was added; a refused call adds nothing |
| `WebSocketClient.Client.SendChunks` | src/KernelHttpLib/client/WebSocketClient.cpp:1466-1490 | the splitter: the number of frames, and the message they add up to |
| `WebSocketClient.StepAfterSend` | src/KernelHttpLib/client/WebSocketClient.cpp:1441-1504 | every completed text message is UTF-8 as a whole, and the validator's state is its run over the open message |
| `WebSocketClient.ServerView` | src/KernelHttpLib/client/WebSocketClient.cpp:1404-2374 | between calls, however many frames a server reads off the wire: the frames sent and at most one more that a lost write left there, no frame behind a Close frame on this or an earlier connection; exactly the frames sent while connected, behind a Close frame, and when no write was lost; well-formed messages and valid texts unless a send failed inside a message, and sendFragmentOpen if and only if a message is open |
| `WebSocketClient.FramesOnWire` | src/KernelHttpLib/client/WebSocketClient.cpp:2245-2311 | the same for any wire, record and number of frames read |
| `WebSocketFrame.PartOfFrame` | src/KernelHttpLib/websocket/WebSocketFrame.cpp:310-432 | a server reads no frame off a front part of a frame |
| `WebSocketClient.Client.SendCloseFrame` | src/KernelHttpLib/client/WebSocketClient.cpp:2349-2374 | one Close frame at most per connection |
| `WebSocketClient.Client.FailConnectionWithClose` | src/KernelHttpLib/client/WebSocketClient.cpp:2331-2347 | the connection is over, with a Close frame of this code if it can be encoded and none was sent |
| `WebSocketClient.Client.CloseTransport` | src/KernelHttpLib/client/WebSocketClient.cpp:2215-2243 | the transport is closed once; terminal errors count as success |
| `WebSocketClient.Client.CloseConnection` | src/KernelHttpLib/client/WebSocketClient.cpp:2064-2103 | whatever the state, everything is cleared and the transport closed; a Close frame went out exactly if one was due and six bytes were there for it; the status follows from the closing of the transport and, if that succeeds, from the first Close frame of the stream, its end, or a malformed frame, unless the wait ran out of time |
| `WebSocketClient.Client.CloseWithStatus` | src/KernelHttpLib/client/WebSocketClient.cpp:2105-2142 | exactly the valid codes and UTF-8 reasons up to 123 bytes are sent; then the connection is cleared, with the exact status when no write fails |
| `WebSocketClient.Client.EnsureBufferedFrameCapacity` | src/KernelHttpLib/client/WebSocketClient.cpp:2376-2402 | the buffer grows and keeps its contents |
| `WebSocketClient.Client.ReadUntilDecided` | src/KernelHttpLib/client/WebSocketClient.cpp:1579-1650 | for any reads, the frame found is the one at the front of buffered plus unread bytes, and the buffer never fills up first |
| `WebSocketClient.Client.HandleData` | src/KernelHttpLib/client/WebSocketClient.cpp:1814-1881 | one data frame: appended to the caller's buffer; FIN delivers the message or, for invalid text, fails with 1007 |
| `WebSocketClient.Client.HandleClose` | src/KernelHttpLib/client/WebSocketClient.cpp:1753-1803 | one Close frame: checked, echoed once, handed over, connection closed |
| `WebSocketClient.Client.AnswerPing` | src/KernelHttpLib/client/WebSocketClient.cpp:1690-1708 | one ping: a pong with the same payload, or BUFFER_TOO_SMALL with nothing consumed |
| `WebSocketClient.Client.HandOverControl` | src/KernelHttpLib/client/WebSocketClient.cpp:1673-1688 | without automatic answers a ping or pong goes to the caller, without payload inside a message |
| `WebSocketClient.Client.ReceiveMessage` | src/KernelHttpLib/client/WebSocketClient.cpp:1507-1882 | when no write fails, answers, frames sent and bytes left are those of a function of the pending bytes alone, for every way of cutting them into reads |
| `WebSocketExamples.TextArrives` | src/KernelHttpLib/client/WebSocketClient.cpp:1507-1882 | a client with 81, a length and a payload pending answers success, Text and the payload, or, if it is no UTF-8, sends the Close frame 03ef and disconnects |
| `WebSocketRuns.ReceiveMany` | src/KernelHttpLib/client/WebSocketClient.cpp:1507-1882 | with a frame buffer of at least 131 bytes, the answers of any number of calls and all frames sent depend only on the peer's bytes and on the status at their end, whatever that status is |
| `WebSocketRuns.DeliversOrEnds` | src/KernelHttpLib/client/WebSocketClient.cpp:1690-1708 | with at least 131 bytes every call delivers, ends the connection or comes to the end of the stream |
| `WebSocketDeliveries.RunDeliversExactly` | src/KernelHttpLib/client/WebSocketClient.cpp:1507-1882 | n calls deliver n messages if and only if the stream begins with the frames of these messages, one after the other, pings and pongs between them |
| `WebSocketDeliveries.MessagesAreDelivered` | src/KernelHttpLib/client/WebSocketClient.cpp:1507-1882 | the messages of the stream are delivered, each once and in order, every ping is answered with its own payload, and the calls after them start right behind |
| `WebSocketDeliveries.MessagesAssemble` | src/KernelHttpLib/client/WebSocketClient.cpp:1507-1882 | the messages delivered are what the fragmentation grammar of section 5.4 of RFC 6455 makes of the frames of the stream |
| `WebSocketDeliveries.ReceiveMessages` | src/KernelHttpLib/client/WebSocketClient.cpp:1507-1882 | a client whose peer sends the frames of these messages has them delivered, however the reads cut the bytes |
| `WebSocketRuns.TrimmedStarves` | src/KernelHttpLib/client/WebSocketClient.cpp:1579-1650 | where the stream holds no further whole frame, a call answers the same whatever part of a frame is pending |
| `WebSocketRuns.WithoutFrameBuffer` | src/KernelHttpLib/client/WebSocketClient.cpp:1533-1545 | with a frame buffer of 0 bytes every call is refused and the pending bytes stay, so the cuts do not matter |
| `WebSocketRuns.PingOverflows` | src/KernelHttpLib/client/WebSocketClient.cpp:1690-1700 | below 131 bytes the largest ping cannot be answered |
| `WebSocketRuns.SecondCall` | src/KernelHttpLib/client/WebSocketClient.cpp:1690-1708 | with 1 to 130 bytes, for every output size, the call after such a ping answers as if the bytes read together with the ping had never been sent |
| `WebSocketRuns.CutsMatter` | src/KernelHttpLib/client/WebSocketClient.cpp:1690-1708 | the two cuts of one stream leave different streams, and those have different answers |
| `WebSocketRuns.CutsDecide` | src/KernelHttpLib/client/WebSocketClient.cpp:1562-1708 | the only-if half: for every frame buffer of 1 to 130 bytes and every output size, two clients whose peers send the same bytes answer differently, because the reads cut them differently: one loses the message and disconnects, the other delivers it |
| `WebSocketSessions.Converse` | src/KernelHttpLib/client/WebSocketClient.cpp:1290-1882 | any sends and receives in any order, when no write fails and the frame buffer has 131 bytes: every answer is a function of the calls and the peer's bytes, and a server that reads any number of frames off the wire puts together exactly the accepted pieces, as texts in UTF-8, with exactly the control frames due, in order |
| `WebSocketSessions.TurnsSpeak` | src/KernelHttpLib/client/WebSocketClient.cpp:1404-1505 | the messages on the wire are the accepted pieces put together, whatever control frames and receives come between |
| `WebSocketSessions.NothingIsLost` | src/KernelHttpLib/client/WebSocketClient.cpp:1404-1505 | the bytes of all messages, in order, are the bytes of all accepted pieces, and each accepted final piece completes one message |
| `WebSocketSessions.PieceStatusHolds` | src/KernelHttpLib/client/WebSocketClient.cpp:1404-1464 | the answer of a send follows from what the server has so far: a piece of a text is accepted exactly if the whole message may go on, or end, with it |
| `WebSocketClient.Client.WaitForPeerClose` | src/KernelHttpLib/client/WebSocketClient.cpp:1885-2062 | for any reads the wait parses whole frames and ends at the first Close frame of the stream, unless the stream runs out, a malformed frame comes first, or time runs out; time runs out only if the clock was read once for each turn and each further read, every one of which took bytes, and then the search stands where it was, perhaps inside a frame that is being read past; no other exit is reachable |
| `WebSocketReassembly.FindsFirstClose` | src/KernelHttpLib/client/WebSocketClient.cpp:1885-2062 | what the wait searches for is found if and only if the stream is any number of other allowed frames and then a Close frame with this payload, which is valid |
| `WebSocketExamples.CloseAnswers` | src/KernelHttpLib/client/WebSocketClient.cpp:2064-2103 | behind a valid Close frame closing succeeds, unless the transport fails to close in a way that is not terminal |
| `WebSocketClient.Client.Drain` | src/KernelHttpLib/client/WebSocketClient.cpp:2031-2060 | a data frame larger than the buffer is read past, and not one byte more; the clock is read once for each read |
| `WebSocketClient.Client.PassControl` | src/KernelHttpLib/client/WebSocketClient.cpp:1963-2021 | a control frame is filled up to its end, the clock read once for each read, and a valid Close frame ends the wait |
| `WebSocketClient.Client.ReadHandshakeResponse` | src/KernelHttpLib/client/WebSocketClient.cpp:2489-2585 | frame buffer plus unread transport is the stream behind the parsed 101 response |
| `WebSocketClient.Client.StartConnection` | src/KernelHttpLib/client/WebSocketClient.cpp:1028-1043 | a new connection starts with cleared flags, fragments and buffer and with an empty record; the old record is kept |
| `WebSocketClient.Client.Connect` | src/KernelHttpLib/client/WebSocketClient.cpp:1251-1288 | success means that the whole request went out; for a prefix-stable parser the pending bytes do not depend on the reads, an acceptable response that fits the response buffer connects if what may be read there behind it fits the frame buffer, and every failure leaves the client cleared |
| `WebSocketClient.CheckClosePayload` | src/KernelHttpLib/client/WebSocketClient.cpp:1754-1770 | a Close payload is accepted exactly if it is empty or a code 3000-4999 or 1000-1014 without 1004, 1005 and 1006, followed by a reason in UTF-8 |
| `Der.ReadsExactlySignatures` | src/KernelHttpLib/crypto/CngProvider.cpp:17-136 | what is accepted is exactly a SEQUENCE of two non-empty INTEGERs with nothing behind it, lengths in short or long form, and the contents are returned |
| `Der.LongForm` | src/KernelHttpLib/crypto/CngProvider.cpp:86-131 | a signature with tags 30 and 02 and a length in long form |
| `Der.WrongTags` | src/KernelHttpLib/crypto/CngProvider.cpp:86-131 | any other outer tag is refused, and so is a wrong inner one |
| `Der.ReadDerLength` | src/KernelHttpLib/crypto/CngProvider.cpp:17-52 | short form, or one to eight length bytes accumulated in a loop; the exact error for every other input |
| `Der.CopyDerIntegerToFixed` | src/KernelHttpLib/crypto/CngProvider.cpp:54-76 | succeeds exactly when the value is below 256^width, and then writes the big-endian value in that width |
| `Der.ConvertDerEcdsaSignature` | src/KernelHttpLib/crypto/CngProvider.cpp:78-136 | succeeds exactly for signatures whose two values fit; the output is the two values side by side |
| `Der.ConvertsEveryEncoding` | src/KernelHttpLib/crypto/CngProvider.cpp:78-136 | any DER encoding of any r and s below 256^width converts, and the halves have the values of r and s |
| `Hkdf.HkdfExpand` | src/KernelHttpLib/crypto/CngProvider.cpp:1148-1235 | exact parameter checks; then the first L bytes of T(1) T(2) ... of section 2.3 of RFC 5869 for every L up to 255 digests; the one-byte counter is 1..255 at every HMAC call; up to one digest that is the front of HMAC(prk, info 01) |
| `Hkdf.OkmSpelledOut` | src/KernelHttpLib/crypto/CngProvider.cpp:1183-1232 | octet k of the output is octet k modulo the digest length of block k / digest, in any chain of blocks HMAC(prk, info 01), HMAC(prk, block info 02), and so on |
| `Hkdf.BuildHmacInput` | src/KernelHttpLib/crypto/CngProvider.cpp:1187-1202 | the HMAC input always fits its buffer of digest + 257 bytes |
| `Hkdf.ShorterIsPrefix` | src/KernelHttpLib/crypto/CngProvider.cpp:1148-1235 | a shorter request is a prefix of a longer one |
| `Workspace.GrownLength` | src/KernelHttpLib/engine/Workspace.cpp:315-334 | the doubling loop ends, respects the limit, never takes its too-small exit, and at least doubles a length below 2^63 short of the limit; an empty buffer starts with 4096 bytes |
| `Workspace.Workspace.GrowBuffer` | src/KernelHttpLib/engine/Workspace.cpp:132-159 | contents kept; a buffer that is long enough stays, and a refused allocation changes nothing |
| `Workspace.Workspace.EnsureResponseCapacity` | src/KernelHttpLib/engine/Workspace.cpp:300-337 | exact status; capacity stays within a non-zero limit |
| `Workspace.Workspace.AppendResponse` | src/KernelHttpLib/engine/Workspace.cpp:339-362 | the data is appended or nothing changes, with the exact status, and up to 2^63 bytes the bytes copied by growth stay below twice the response length |
| `Workspace.AppendAll` | src/KernelHttpLib/engine/Workspace.cpp:300-362 | any appends, refused ones among them: the contents are the concatenation of the chunks whose answer was success, each answer is the exact one for the length reached before it, and memory is refused only when none is left |
| `Workspace.AllAccepted` | src/KernelHttpLib/engine/Workspace.cpp:300-362 | without a limit, with memory and below 2^64 bytes in all, every append succeeds |
| `Workspace.Workspace.Reset` | src/KernelHttpLib/engine/Workspace.cpp:233-273 | every buffer is zeroed, the response is empty, the capacities stay |
| `Upgrade.FindHeaderEnd` | src/KernelHttpLib/client/Http2Client.cpp:252-261 | the position behind the first CRLFCRLF, or none, as the bytes 13 10 13 10 |
| `Upgrade.PerformH2cUpgrade` | src/KernelHttpLib/client/Http2Client.cpp:367-416 | on success the replay bytes and the unread transport are together the stream behind the first CRLFCRLF; a request that goes out only in part fails; it succeeds whenever no write fails, the header fits 2048 bytes and is accepted, and the replay buffer has room |
| `Upgrade.UpgradableInNumbers` | src/KernelHttpLib/client/Http2Client.cpp:367-416 | the success condition in numbers: the header ends within 2048 bytes, is accepted, and the replay buffer has room for the rest of them |
| `Upgrade.ReplayTransport.Receive` | src/KernelHttpLib/client/Http2Client.cpp:179-199 | what a read delivers and what remains is what was there before: nothing lost, nothing twice |
| `Upgrade.ReadInPieces` | src/KernelHttpLib/client/Http2Client.cpp:159-234 | reads of any sizes deliver the stream in order, all of it after enough of them |
| `Upgrade.UpgradeAndRead` | src/KernelHttpLib/client/Http2Client.cpp:159-416 | for every cutting of the server's bytes and every sequence of read sizes, the bytes delivered after an upgrade are the stream behind the header, and the upgrade succeeds as stated for it |

## Left out

- Null pointers, IRQL checks and user-mode test branches have no counterpart here.
- Secure zeroing of scratch memory and constant-time behaviour are not functional properties.
- Allocation failures: only the response buffer models them; elsewhere allocations succeed.
- Buffers that overlap partially: the in-place results are for one and the same array.
- Sums of lengths of buffers that exist at the same time are taken not to overflow 64 bits.
- AesCcm.AesCcmEncrypt: uses the block cipher as a function that `AesCcm.EncryptOneBlock` is proved to compute; the round keys are not carried through the CCM methods. The same holds for `AesCcm.AesCcmDecrypt`.
- WebSocketClient.Client.SendFrame: after a send that fails between two frames of one message with a status that does not end the connection, nothing is said about sendFragmentOpen; a ghost flag marks those runs.
- WebSocketClient.Client.ReceiveMessage: the answers are fixed for runs in which no write fails; after a failed write only the invariant is proved. A read error after which the connection delivers again is not modelled: whatever ends the stream answers every later read alike.
- WebSocketClient.Client.WaitForPeerClose: wall-clock deadlines are a counter of clock readings with an arbitrary start.
- WebSocketClient.Client.Connect: option checks, client key, address resolution, TLS, ALPN and the HTTP parser are not part of this model; the parser with the check of the 101 response is a parameter.
- Transport.Connection.Send: a write that fails with a status that does not end the connection is taken to have put nothing on the wire, and one that breaks the connection to be followed by no other outcome.
- WebSocketSessions.Converse: sessions are those with automatic answers and one pair of buffers; closing calls are stated one by one (`WebSocketClient.Client.CloseConnection`, `WebSocketClient.Client.CloseWithStatus`), because their answers depend on the clock.
- WebSocketClient.Client.ReadUntilDecided: the second copies of the header checks behind the read loop of the client, and its check of the mask bit, cannot fail there and are not repeated.
- DecodeFramePayload of the frame codec is a plain copy here, since no decoded frame is masked.
- WebSocket over HTTP/2, subprotocols and the echo helper.
- Upgrade.PerformH2cUpgrade: the request builder and the validation of the response header are parameters.
- Hkdf.HkdfExpand: HMAC is any function of fixed output length that does not fail.
- AES-GCM, AES-CBC, RSA, ECDH and other calls into CNG; HTTP/2 connections, HPACK, TLS records, certificates, the connection pool and URL parsing.
- Workspace: growth of buffers other than the response buffer; the decoded-body buffer repeats the same growth loop.
