/** The C runtime's block operations on byte arrays, and the constant-time comparison of Aead.cpp:119-127. */
module Memory {
  import opened Bits
  import opened Bytes

  function XorByte(a: byte, b: byte): byte
  {
    XorOfBytes(a, b);
    BitXor(a, b)
  }

  lemma XorOfBytes(a: byte, b: byte)
    ensures 0 <= BitXor(a, b) < 256 && BitXor(BitXor(a, b), b) == a
  {
    Pow2Values();
    XorBound(a, b, 8);
    XorTwice(a, b);
  }

  function XorBytes(a: seq<byte>, b: seq<byte>): (c: seq<byte>)
    requires |a| <= |b|
    ensures |c| == |a|
  {
    seq(|a|, i requires 0 <= i < |a| => XorByte(a[i], b[i]))
  }

  /** `RtlCopyMemory(data + offset, source, length)` */
  method CopyMemory(data: array<byte>, offset: nat, source: seq<byte>)
    requires offset + |source| <= data.Length
    modifies data
    ensures data[..] == old(data[..offset]) + source + old(data[offset + |source|..])
  {
    for i := 0 to |source|
      invariant data[offset..offset + i] == source[..i]
      invariant data[..offset] == old(data[..offset])
      invariant data[offset + i..] == old(data[offset + i..])
    {
      data[offset + i] := source[i];
    }
    assert source[..|source|] == source;
    assert data[..] == data[..offset] + data[offset..offset + |source|] + data[offset + |source|..];
  }

  /** `RtlZeroMemory(data, length)` on a whole buffer. */
  method ZeroMemory(data: array<byte>)
    modifies data
    ensures data[..] == Zeros(data.Length)
  {
    for i := 0 to data.Length
      invariant forall j :: 0 <= j < i ==> data[j] == 0
    {
      data[i] := 0;
    }
  }

  /** `RtlMoveMemory(data, data + start, length)`: the tail of a buffer comes to its front. */
  method MoveToFront(data: array<byte>, start: nat, length: nat)
    requires start + length <= data.Length
    modifies data
    ensures data[..length] == old(data[start..start + length])
  {
    for i := 0 to length
      invariant data[..i] == old(data[start..start + i])
      invariant forall j :: i <= j < data.Length ==> data[j] == old(data[j])
    {
      data[i] := data[start + i];
    }
  }

  lemma {:induction false} OrIsZero(x: nat, y: nat)
    ensures BitOr(x, y) == 0 <==> x == 0 && y == 0
    decreases x + y
  {
    if x != 0 || y != 0 { OrIsZero(x / 2, y / 2); }
  }

  lemma {:induction false} XorIsZero(x: nat, y: nat)
    ensures BitXor(x, y) == 0 <==> x == y
    decreases x + y
  {
    if x != 0 || y != 0 { XorIsZero(x / 2, y / 2); }
  }

  /** Every byte is compared, whatever the earlier ones gave. */
  method MemoryEquals(left: seq<byte>, right: seq<byte>) returns (equal: bool)
    requires |left| == |right|
    ensures equal <==> left == right
  {
    var diff := 0;
    for index := 0 to |left|
      invariant diff >= 0
      invariant diff == 0 <==> left[..index] == right[..index]
    {
      XorIsZero(left[index], right[index]);
      OrIsZero(diff, BitXor(left[index], right[index]));
      assert left[..index + 1] == left[..index] + [left[index]];
      assert right[..index + 1] == right[..index] + [right[index]];
      diff := BitOr(diff, BitXor(left[index], right[index]));
    }
    assert left[..|left|] == left && right[..|left|] == right;
    return diff == 0;
  }

  /** A block of keystream is XORed onto a chunk; input and output may be one array. */
  method XorChunk(input: array<byte>, output: array<byte>, block: array<byte>, offset: nat, chunk: nat)
    requires block != input && block != output && chunk <= block.Length
    requires offset + chunk <= input.Length && offset + chunk <= output.Length
    modifies output
    ensures forall j :: 0 <= j < chunk ==> output[offset + j] == XorByte(old(input[offset + j]), block[j])
    ensures forall j :: 0 <= j < offset || offset + chunk <= j < output.Length ==> output[j] == old(output[j])
    ensures forall j :: 0 <= j < offset || offset + chunk <= j < input.Length ==> input[j] == old(input[j])
  {
    hide XorByte;
    for index := 0 to chunk
      invariant forall j :: 0 <= j < index ==> output[offset + j] == XorByte(old(input[offset + j]), block[j])
      invariant forall j :: offset + index <= j < input.Length ==> input[j] == old(input[j])
      invariant forall j :: 0 <= j < offset || offset + index <= j < output.Length ==> output[j] == old(output[j])
      invariant forall j :: 0 <= j < offset ==> input[j] == old(input[j])
    {
      output[offset + index] := XorByte(input[offset + index], block[index]);
    }
  }
}
