/** The streaming CCM code of src/KernelHttpLib/crypto/Aead.cpp:297-446 and 975-1156. */
module CcmStream {
  import opened Bits
  import opened Bytes
  import opened Ccm
  import opened Memory

  method WriteBigEndianLength(value: nat, data: array<byte>, offset: nat, length: nat)
    requires offset + length <= data.Length
    modifies data
    ensures data[..] == old(data[..offset]) + BeBytes(value, length) + old(data[offset + length..])
  {
    hide BeBytes, Pow256;
    for index := 0 to length
      invariant data[offset..offset + index] == BeBytes(value, length)[..index]
      invariant data[..offset] == old(data[..offset])
      invariant data[offset + index..] == old(data[offset + index..])
    {
      BeBytesAt(value, length, index);
      data[offset + index] := ToByte(value / Pow256(length - 1 - index));
    }
    assert BeBytes(value, length)[..length] == BeBytes(value, length);
    assert data[..] == data[..offset] + data[offset..offset + length] + data[offset + length..];
  }

  method BuildCcmCounterBlock(nonce: seq<byte>, counterValue: nat, counterBlock: array<byte>)
    requires 7 <= |nonce| <= 13 && counterBlock.Length == 16
    modifies counterBlock
    ensures counterBlock[..] == CounterBlock(nonce, counterValue)
    ensures counterBlock[0] == 14 - |nonce| && counterBlock[1..1 + |nonce|] == nonce
    ensures BeValue(counterBlock[1 + |nonce|..]) == counterValue % Pow256(15 - |nonce|)
  {
    hide BeBytes, BeValue, Pow256;
    var q := 15 - |nonce|;
    ZeroMemory(counterBlock);
    counterBlock[0] := q - 1;
    CopyMemory(counterBlock, 1, nonce);
    WriteBigEndianLength(counterValue, counterBlock, 1 + |nonce|, q);
    CounterBlockIs(nonce, counterValue, counterBlock[..]);
    assert counterBlock[..][1..1 + |nonce|] == counterBlock[1..1 + |nonce|];
    assert counterBlock[..][1 + |nonce|..] == counterBlock[1 + |nonce|..];
  }

  /** `mac ^= block`, then the block cipher in place. */
  method CcmMacBlock(e: Block -> Block, block: array<byte>, mac: array<byte>)
    requires block.Length == 16 && mac.Length == 16 && block != mac
    modifies mac
    ensures mac[..] == e(XorBytes(old(mac[..]), block[..]))
  {
    hide XorByte;
    for index := 0 to 16
      invariant forall j :: 0 <= j < index ==> mac[j] == XorByte(old(mac[j]), block[j])
      invariant forall j :: index <= j < 16 ==> mac[j] == old(mac[j])
    {
      mac[index] := XorByte(mac[index], block[index]);
    }
    assert mac[..] == XorBytes(old(mac[..]), block[..]);
    CopyMemory(mac, 0, e(mac[..]));
  }

  lemma CbcMacAppend(e: Block -> Block, s: seq<byte>, block: Block)
    requires |s| % 16 == 0
    ensures |s + block| % 16 == 0 && CbcMac(e, s + block) == e(XorBytes(CbcMac(e, s), block))
  {
    var t := s + block;
    assert t[..|t| - 16] == s && t[|t| - 16..] == block;
  }

  /** Padding only touches the last block. */
  lemma PadLastBlock(whole: seq<byte>, last: seq<byte>)
    requires |whole| % 16 == 0 && |last| <= 16
    ensures last == [] ==> PadToBlock(whole + last) == whole
    ensures last != [] ==> PadToBlock(whole + last) == whole + (last + Zeros(16 - |last|))
  {
    var n := |whole + last|;
    assert n % 16 == |last| % 16;
  }

  /** The MAC state after the blocks of `done`. */
  ghost predicate Chained(e: Block -> Block, mac: array<byte>, done: seq<byte>)
    reads mac
  {
    mac.Length == 16 && |done| % 16 == 0 && mac[..] == CbcMac(e, done)
  }

  method ChainBlock(e: Block -> Block, block: array<byte>, mac: array<byte>, ghost done: seq<byte>)
    requires block.Length == 16 && block != mac && Chained(e, mac, done)
    modifies mac
    ensures Chained(e, mac, done + block[..])
  {
    hide CbcMac;
    CbcMacAppend(e, done, block[..]);
    CcmMacBlock(e, block, mac);
  }

  /** Associated data: its length and bytes are packed into blocks at a moving offset. */
  method MacAad(e: Block -> Block, aad: seq<byte>, block: array<byte>, mac: array<byte>, ghost done: seq<byte>)
    requires block.Length == 16 && block != mac && Chained(e, mac, done) && 0 < |aad| < 0xff00
    modifies block, mac
    ensures Chained(e, mac, done + AadBlocks(aad))
  {
    hide CbcMac, Chained, BeBytes, PadToBlock;
    ZeroMemory(block);
    block[0] := ToByte(|aad| / 256);
    block[1] := ToByte(|aad|);
    LengthPrefix(|aad|);
    var blockOffset;
    ghost var whole;
    assert block[..2] == BeBytes(|aad|, 2);
    blockOffset, whole := PackAad(e, aad, block, mac, done, BeBytes(|aad|, 2) + aad);
    PadLastBlock(whole, block[..blockOffset]);
    if blockOffset != 0 {
      assert block[..] == block[..blockOffset] + block[blockOffset..];
      ChainBlock(e, block, mac, done + whole);
      assert done + whole + block[..] == done + (whole + block[..]);
    }
  }

  method PackAad(e: Block -> Block, aad: seq<byte>, block: array<byte>, mac: array<byte>, ghost done: seq<byte>,
                 ghost text: seq<byte>)
    returns (blockOffset: nat, ghost whole: seq<byte>)
    requires block.Length == 16 && block != mac && Chained(e, mac, done)
    requires |text| == 2 + |aad| && text[2..] == aad
    requires block[..2] == text[..2] && block[2..] == Zeros(14)
    modifies block, mac
    ensures blockOffset < 16 && |whole| % 16 == 0 && Chained(e, mac, done + whole)
    ensures whole + block[..blockOffset] == text && block[blockOffset..] == Zeros(16 - blockOffset)
  {
    hide CbcMac, Chained;
    var aadOffset := 0;
    blockOffset, whole := 2, [];
    assert done + [] == done;
    while aadOffset < |aad|
      invariant 0 <= aadOffset <= |aad| && 0 <= blockOffset < 16 && |whole| % 16 == 0
      invariant Chained(e, mac, done + whole)
      invariant whole + block[..blockOffset] == text[..2 + aadOffset]
      invariant block[blockOffset..] == Zeros(16 - blockOffset)
    {
      var chunk := if |aad| - aadOffset < 16 - blockOffset then |aad| - aadOffset else 16 - blockOffset;
      var piece := aad[aadOffset..aadOffset + chunk];
      NextPiece(text, aad, aadOffset, chunk);
      blockOffset, whole := AppendPiece(e, piece, blockOffset, block, mac, done, whole);
      aadOffset := aadOffset + chunk;
    }
  }

  lemma NextPiece(text: seq<byte>, aad: seq<byte>, offset: nat, chunk: nat)
    requires |text| == 2 + |aad| && text[2..] == aad && offset + chunk <= |aad|
    ensures text[..2 + offset + chunk] == text[..2 + offset] + aad[offset..offset + chunk]
  {
    assert aad[offset..offset + chunk] == text[2 + offset..2 + offset + chunk];
  }

  /** One turn of the loop: a full block is chained and the offset starts over. */
  method AppendPiece(e: Block -> Block, piece: seq<byte>, blockOffset: nat, block: array<byte>, mac: array<byte>,
                     ghost done: seq<byte>, ghost whole: seq<byte>)
    returns (newOffset: nat, ghost newWhole: seq<byte>)
    requires block.Length == 16 && block != mac && blockOffset + |piece| <= 16
    requires |whole| % 16 == 0 && Chained(e, mac, done + whole)
    requires block[blockOffset..] == Zeros(16 - blockOffset)
    modifies block, mac
    ensures newOffset < 16 && |newWhole| % 16 == 0 && Chained(e, mac, done + newWhole)
    ensures newWhole + block[..newOffset] == whole + old(block[..blockOffset]) + piece
    ensures block[newOffset..] == Zeros(16 - newOffset)
  {
    hide CbcMac, Chained;
    CopyMemory(block, blockOffset, piece);
    newOffset, newWhole := blockOffset + |piece|, whole;
    assert block[..newOffset] == old(block[..blockOffset]) + piece;
    assert block[newOffset..] == Zeros(16 - newOffset);
    if newOffset == 16 {
      ChainBlock(e, block, mac, done + whole);
      assert done + whole + block[..] == done + (whole + block[..]);
      assert block[..16] == block[..];
      newWhole := whole + block[..];
      ZeroMemory(block);
      newOffset := 0;
      assert newWhole + block[..0] == newWhole;
    }
  }

  lemma LengthPrefix(n: nat)
    requires n < 0x1_0000
    ensures BeBytes(n, 2) == [ToByte(n / 256), ToByte(n)]
  {
    assert BeBytes(n / 256, 1) == BeBytes(n / 256 / 256, 0) + [ToByte(n / 256)];
  }

  lemma PadNextPiece(payload: seq<byte>, offset: nat, chunk: nat)
    requires offset % 16 == 0 && 0 < chunk <= 16 && offset + chunk <= |payload|
    ensures PadToBlock(payload[..offset + chunk])
         == PadToBlock(payload[..offset]) + (payload[offset..offset + chunk] + Zeros(16 - chunk))
  {
    hide PadToBlock;
    var before, piece := payload[..offset], payload[offset..offset + chunk];
    PadLastBlock(before, []);
    PadLastBlock(before, piece);
    assert before + [] == before && before + piece == payload[..offset + chunk];
  }

  /** A piece of the payload, zero-padded to a block. */
  method ChainPiece(e: Block -> Block, piece: seq<byte>, block: array<byte>, mac: array<byte>, ghost done: seq<byte>,
                    ghost whole: seq<byte>) returns (ghost newWhole: seq<byte>)
    requires block.Length == 16 && block != mac && |piece| <= 16 && Chained(e, mac, done + whole)
    modifies block, mac
    ensures newWhole == whole + (piece + Zeros(16 - |piece|)) && Chained(e, mac, done + newWhole)
  {
    hide CbcMac, Chained;
    ZeroMemory(block);
    CopyMemory(block, 0, piece);
    assert block[..] == piece + Zeros(16 - |piece|);
    ChainBlock(e, block, mac, done + whole);
    assert done + whole + block[..] == done + (whole + block[..]);
    newWhole := whole + block[..];
  }

  /** One turn of the loop. */
  method ChainNext(e: Block -> Block, payload: seq<byte>, offset: nat, block: array<byte>, mac: array<byte>,
                   ghost done: seq<byte>, ghost whole: seq<byte>)
    returns (newOffset: nat, ghost newWhole: seq<byte>)
    requires block.Length == 16 && block != mac && offset < |payload| && offset % 16 == 0
    requires whole == PadToBlock(payload[..offset]) && Chained(e, mac, done + whole)
    modifies block, mac
    ensures offset < newOffset <= |payload| && (newOffset == |payload| || newOffset % 16 == 0)
    ensures newWhole == PadToBlock(payload[..newOffset]) && Chained(e, mac, done + newWhole)
  {
    hide CbcMac, Chained, PadToBlock, Zeros;
    var chunk := if |payload| - offset < 16 then |payload| - offset else 16;
    var piece := payload[offset..offset + chunk];
    PadNextPiece(payload, offset, chunk);
    newWhole := ChainPiece(e, piece, block, mac, done, whole);
    newOffset := offset + chunk;
  }

  method MacPayload(e: Block -> Block, payload: seq<byte>, block: array<byte>, mac: array<byte>, ghost done: seq<byte>)
    requires block.Length == 16 && block != mac && Chained(e, mac, done)
    modifies block, mac
    ensures Chained(e, mac, done + PadToBlock(payload))
  {
    PadLastBlock([], []);
    hide CbcMac, Chained, PadToBlock, Zeros;
    var offset := 0;
    ghost var whole: seq<byte> := [];
    assert done + [] == done;
    assert payload[..0] == [] + [];
    while offset < |payload|
      invariant offset <= |payload| && (offset == |payload| || offset % 16 == 0)
      invariant whole == PadToBlock(payload[..offset])
      invariant Chained(e, mac, done + whole)
    {
      offset, whole := ChainNext(e, payload, offset, block, mac, done, whole);
    }
    assert payload[..offset] == payload;
  }

  /** `(aad ? 0x40 : 0) | (((t - 2) / 2) << 3) | (q - 1)`: the three fields do not overlap. */
  lemma FlagsAreOred(hasAad: bool, tagLength: nat, q: nat)
    requires tagLength == 8 || tagLength == 16
    requires 2 <= q <= 8
    ensures BitOr(BitOr(if hasAad then 0x40 else 0, Shl((tagLength - 2) / 2, 3, 64)), q - 1)
         == Flags(hasAad, tagLength, q)
  {
    FlagPowers();
    hide BitOr, Shl, Pow2;
    var t, a := (tagLength - 2) / 2, if hasAad then 1 else 0;
    ShlValue(t, 3, 64, 8, 0x1_0000_0000_0000_0000);
    OrFields(t * 8, a, 6, 64);
    OrFields(q - 1, a * 8 + t, 3, 8);
  }

  lemma FlagPowers()
    ensures Pow2(3) == 8 && Pow2(6) == 64 && Pow2(64) == 0x1_0000_0000_0000_0000
  {
    Pow2Values();
    assert Pow2(3) == 8;
  }

  /** `1 << (q * 8)` in a word of 64 bits is 256 to the power of q, as long as q stays below 8. */
  lemma {:induction false} ShiftIsPow256(q: nat)
    requires q < 8
    ensures Shl(1, q * 8, 64) == Pow256(q) && Pow256(q) < SIZE_LIMIT
  {
    BytePowers(q);
    Pow2Values();
    assert SIZE_LIMIT == Pow256(8 - q) * Pow256(q) by {
      Pow256Splits(8 - q, q);
      Pow256Values();
    }
    hide Pow2;
    Pow256AtLeast256(8 - q);
    MulAtLeastTwice(Pow256(8 - q), Pow256(q));
    ShlValue(1, q * 8, 64, Pow256(q), SIZE_LIMIT);
  }

  lemma {:induction false} BytePowers(q: nat)
    ensures Pow2(q * 8) == Pow256(q)
  {
    if q != 0 {
      BytePowers(q - 1);
      Pow2Values();
      Pow2Add(8, (q - 1) * 8);
    }
  }

  lemma {:induction false} Pow256Splits(a: nat, b: nat)
    ensures Pow256(a + b) == Pow256(a) * Pow256(b)
  {
    if a != 0 {
      Pow256Splits(a - 1, b);
      assert Pow256(a + b) == 256 * Pow256(a - 1 + b);
    }
  }

  lemma Pow256AtLeast256(k: nat)
    requires k > 0
    ensures Pow256(k) >= 256
  {
  }

  lemma MulAtLeastTwice(a: nat, b: nat)
    requires a >= 2 && b > 0
    ensures b < a * b
  {
  }

  /** The lengths below that bound are the ones that their big-endian form gives back. */
  lemma FittingLengthsComeBack(n: nat, q: nat)
    ensures n < Pow256(q) <==> BeValue(BeBytes(n, q)) == n
  {
    hide BeBytes, BeValue, Pow256;
    BeValueOfBytes(n, q);
    if n < Pow256(q) {
      SmallRemainder(n, Pow256(q));
    }
  }

  /** Exactly the lengths that have a form of that many bytes fit; the shift is taken only where it is defined. */
  method CcmPayloadLengthFits(payloadLength: nat, lengthFieldLength: nat) returns (fits: bool)
    requires payloadLength < SIZE_LIMIT && 2 <= lengthFieldLength <= 8
    ensures fits <==> payloadLength < Pow256(lengthFieldLength)
  {
    Pow256Values();
    hide Pow256, Shl;
    if lengthFieldLength >= 8 {
      return true;
    }
    ShiftIsPow256(lengthFieldLength);
    var maxLength := Shl(1, lengthFieldLength * 8, 64) - 1;
    return payloadLength <= maxLength;
  }

  method CcmComputeMac(e: Block -> Block, nonce: seq<byte>, aad: seq<byte>, payload: seq<byte>, tagLength: nat,
                       mac: array<byte>) returns (status: Status)
    requires ValidLengths(|nonce|, tagLength) && |payload| < SIZE_LIMIT && mac.Length == 16 && mac[..] == Zeros(16)
    modifies mac
    ensures status == if Accepted(nonce, aad, |payload|) then Success else InvalidParameter
    ensures status == Success ==> mac[..] == CbcMac(e, BlockString(nonce, aad, payload, tagLength))
  {
    hide BeBytes, Pow256, PadToBlock, AadBlocks, CbcMac, FirstBlock, Chained, BlockString, Zeros;
    var q := 15 - |nonce|;
    var fits := CcmPayloadLengthFits(|payload|, q);
    if !fits || |aad| >= 0xff00 {
      return InvalidParameter;
    }
    var block := new byte[16](_ => 0);
    FillFirstBlock(nonce, aad != [], |payload|, tagLength, block);
    ghost var b0 := FirstBlock(nonce, aad != [], |payload|, tagLength);
    assert [] + b0 == b0;
    EmptyChain(e, mac);
    ChainBlock(e, block, mac, []);
    NoAad();
    if |aad| != 0 {
      MacAad(e, aad, block, mac, b0);
    }
    assert b0 + [] == b0;
    MacPayload(e, payload, block, mac, b0 + AadBlocks(aad));
    BlockStringParts(nonce, aad, payload, tagLength);
    ChainedIs(e, mac, BlockString(nonce, aad, payload, tagLength));
    return Success;
  }

  method FillFirstBlock(nonce: seq<byte>, hasAad: bool, n: nat, tagLength: nat, block: array<byte>)
    requires ValidLengths(|nonce|, tagLength) && block.Length == 16
    modifies block
    ensures block[..] == FirstBlock(nonce, hasAad, n, tagLength)
  {
    hide BeBytes, BitOr, Shl;
    var q := 15 - |nonce|;
    FlagsAreOred(hasAad, tagLength, q);
    ZeroMemory(block);
    block[0] := BitOr(BitOr(if hasAad then 0x40 else 0, Shl((tagLength - 2) / 2, 3, 64)), q - 1);
    CopyMemory(block, 1, nonce);
    WriteBigEndianLength(n, block, 1 + |nonce|, q);
  }

  lemma EmptyChain(e: Block -> Block, mac: array<byte>)
    requires mac.Length == 16 && mac[..] == Zeros(16)
    ensures Chained(e, mac, [])
  {
  }

  lemma NoAad()
    ensures AadBlocks([]) == []
  {
  }

  lemma ChainedIs(e: Block -> Block, mac: array<byte>, done: seq<byte>)
    requires Chained(e, mac, done)
    ensures mac.Length == 16 && |done| % 16 == 0 && mac[..] == CbcMac(e, done)
  {
  }

  // ---- The counter mode ----

  ghost predicate CryptedUpTo(e: Block -> Block, nonce: seq<byte>, data: seq<byte>, out: seq<byte>, n: nat)
    requires 7 <= |nonce| <= 13 && |out| == |data|
  {
    forall j :: 0 <= j < n && j < |data| ==> out[j] == XorByte(data[j], KeystreamByte(e, nonce, j))
  }

  /** One turn of the loop at a block boundary. */
  method CryptBlock(e: Block -> Block, nonce: seq<byte>, input: array<byte>, output: array<byte>, counter: array<byte>,
                    counterValue: nat, offset: nat, chunk: nat, ghost n: nat, ghost data: seq<byte>)
    requires 7 <= |nonce| <= 13 && counter.Length == 16 && counter != input && counter != output
    requires n <= input.Length && n <= output.Length && |data| == n
    requires offset % 16 == 0 && counterValue == 1 + offset / 16 && chunk <= 16 && offset + chunk <= n
    requires CryptedUpTo(e, nonce, data, output[..n], offset)
    requires forall j :: offset <= j < n ==> input[j] == data[j]
    modifies output, counter
    ensures CryptedUpTo(e, nonce, data, output[..n], offset + chunk)
    ensures forall j :: offset + chunk <= j < n ==> input[j] == data[j]
    ensures forall j :: n <= j < output.Length ==> output[j] == old(output[j])
  {
    hide XorByte, CounterBlock, CryptedUpTo;
    ghost var before := output[..n];
    BuildCcmCounterBlock(nonce, counterValue, counter);
    var stream := new byte[16](_ => 0);
    CopyMemory(stream, 0, e(counter[..]));
    assert stream[..] == e(CounterBlock(nonce, counterValue));
    XorChunk(input, output, stream, offset, chunk);
    NextBlockCrypted(e, nonce, data, before, output[..n], stream[..], offset, chunk);
  }

  lemma NextBlockCrypted(e: Block -> Block, nonce: seq<byte>, data: seq<byte>, before: seq<byte>, out: seq<byte>,
                         stream: seq<byte>, offset: nat, chunk: nat)
    requires 7 <= |nonce| <= 13 && |before| == |out| == |data|
    requires offset % 16 == 0 && chunk <= 16 && offset + chunk <= |data|
    requires stream == e(CounterBlock(nonce, 1 + offset / 16))
    requires CryptedUpTo(e, nonce, data, before, offset)
    requires forall j :: 0 <= j < offset ==> out[j] == before[j]
    requires forall j :: 0 <= j < chunk ==> out[offset + j] == XorByte(data[offset + j], stream[j])
    ensures CryptedUpTo(e, nonce, data, out, offset + chunk)
  {
    hide XorByte, CounterBlock;
    forall j | 0 <= j < offset + chunk
      ensures out[j] == XorByte(data[j], KeystreamByte(e, nonce, j))
    {
      if j >= offset {
        assert j / 16 == offset / 16 && j % 16 == j - offset;
        assert out[offset + (j - offset)] == XorByte(data[offset + (j - offset)], stream[j - offset]);
      }
    }
  }

  /** `CcmCrypt`: input and output may be one array; the counter overflow exit is never taken. */
  method CcmCrypt(e: Block -> Block, nonce: seq<byte>, input: array<byte>, inputLength: nat, output: array<byte>)
    returns (status: Status)
    requires 7 <= |nonce| <= 13 && inputLength <= input.Length && inputLength < SIZE_LIMIT
    modifies output
    ensures status == if output.Length < inputLength then InvalidParameter else Success
    ensures status != Success ==> output[..] == old(output[..])
    ensures status == Success ==>
              && output[..inputLength] == Crypt(e, nonce, old(input[..inputLength]))
              && output[inputLength..] == old(output[inputLength..])
    ensures status == Success ==> forall i, b: Block ::
              && 0 <= i < inputLength && b[0] == 14 - |nonce| && b[1..1 + |nonce|] == nonce
              && BeValue(b[1 + |nonce|..]) == (1 + i / 16) % Pow256(15 - |nonce|) ==>
                output[i] == XorByte(old(input[i]), e(b)[i % 16])
  {
    if output.Length < inputLength {
      return InvalidParameter;
    }
    hide XorByte, KeystreamByte, BeValue, Pow256;
    ghost var data := input[..inputLength];
    var counter := new byte[16](_ => 0);
    var offset, counterValue := 0, 1;
    while offset < inputLength
      invariant 0 <= offset <= inputLength && (offset == inputLength || offset % 16 == 0)
      invariant offset < inputLength ==> counterValue == 1 + offset / 16
      invariant CryptedUpTo(e, nonce, data, output[..inputLength], offset)
      invariant forall j :: offset <= j < inputLength ==> input[j] == data[j]
      invariant forall j :: inputLength <= j < output.Length ==> output[j] == old(output[j])
    {
      var chunk := if inputLength - offset < 16 then inputLength - offset else 16;
      CryptBlock(e, nonce, input, output, counter, counterValue, offset, chunk, inputLength, data);
      offset := offset + chunk;
      if counterValue == SIZE_LIMIT - 1 {
        return IntegerOverflow;
      }
      counterValue := counterValue + 1;
    }
    BytesCrypted(e, nonce, data, output[..inputLength]);
    return Success;
  }

  lemma BytesCrypted(e: Block -> Block, nonce: seq<byte>, data: seq<byte>, out: seq<byte>)
    requires 7 <= |nonce| <= 13 && |out| == |data| && CryptedUpTo(e, nonce, data, out, |data|)
    ensures out == Crypt(e, nonce, data)
    ensures forall i, b: Block ::
              && 0 <= i < |data| && b[0] == 14 - |nonce| && b[1..1 + |nonce|] == nonce
              && BeValue(b[1 + |nonce|..]) == (1 + i / 16) % Pow256(15 - |nonce|) ==>
                out[i] == XorByte(data[i], e(b)[i % 16])
  {
    hide XorByte, KeystreamByte, BeValue, Pow256;
    forall i, b: Block |
      && 0 <= i < |data| && b[0] == 14 - |nonce| && b[1..1 + |nonce|] == nonce
      && BeValue(b[1 + |nonce|..]) == (1 + i / 16) % Pow256(15 - |nonce|)
      ensures out[i] == XorByte(data[i], e(b)[i % 16])
    {
      CryptSpelledOut(e, nonce, data, i, b);
    }
  }
}
