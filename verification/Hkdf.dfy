/**
 HKDF-Expand as coded in src/KernelHttpLib/crypto/CngProvider.cpp:1148-1235, against section 2.3 of
 RFC 5869. HMAC is any function whose output has the length of the digest.
 */
module Hkdf {
  import opened Bits
  import opened Bytes
  import opened Memory

  datatype HashAlgorithm = Sha1 | Sha256 | Sha384 | Sha512 | Unsupported

  /** `HashDigestLength` */
  function DigestLength(algorithm: HashAlgorithm): nat
  {
    match algorithm
    case Sha1 => 20
    case Sha256 => 32
    case Sha384 => 48
    case Sha512 => 64
    case Unsupported => 0
  }

  type Hmac = (seq<byte>, seq<byte>) -> seq<byte>

  ghost predicate FixedLength(hmac: Hmac, digest: nat)
  {
    forall key, message :: |hmac(key, message)| == digest
  }

  // ---- The definition ----

  /** T(i), with T(0) empty. The counter is one octet. */
  function T(hmac: Hmac, prk: seq<byte>, info: seq<byte>, i: nat): seq<byte>
    requires i <= 255
  {
    if i == 0 then [] else hmac(prk, T(hmac, prk, info, i - 1) + info + [i])
  }

  /** T(1) T(2) ... T(n) */
  function Stream(hmac: Hmac, prk: seq<byte>, info: seq<byte>, n: nat): seq<byte>
    requires n <= 255
  {
    if n == 0 then [] else Stream(hmac, prk, info, n - 1) + T(hmac, prk, info, n)
  }

  /** N, the number of blocks that L octets need. */
  function Blocks(length: nat, digest: nat): nat
    requires digest > 0
  {
    (length + digest - 1) / digest
  }

  lemma {:induction false} StreamLength(hmac: Hmac, digest: nat, prk: seq<byte>, info: seq<byte>, n: nat)
    requires FixedLength(hmac, digest) && n <= 255
    ensures |Stream(hmac, prk, info, n)| == n * digest
  {
    if n > 0 {
      StreamLength(hmac, digest, prk, info, n - 1);
    }
  }

  lemma BlocksCover(length: nat, digest: nat, n: nat)
    requires digest > 0 && n == Blocks(length, digest)
    ensures length <= n * digest && (length > 0 ==> n > 0 && (n - 1) * digest < length)
    ensures length <= digest * 255 ==> n <= 255
  {
    assert n * digest <= length + digest - 1 < n * digest + digest;
    if length <= digest * 255 && n >= 256 {
      MulAtLeast(n, 256, digest);
    }
  }

  lemma MulAtLeast(a: nat, b: nat, c: nat)
    requires a >= b
    ensures a * c >= b * c
  {
  }

  /** The output keying material: the first L octets. */
  function Okm(hmac: Hmac, digest: nat, prk: seq<byte>, info: seq<byte>, length: nat): (okm: seq<byte>)
    requires digest > 0 && length <= digest * 255 && FixedLength(hmac, digest)
    ensures |okm| == length
  {
    var n := Blocks(length, digest);
    BlocksCover(length, digest, n);
    StreamLength(hmac, digest, prk, info, n);
    Stream(hmac, prk, info, n)[..length]
  }

  lemma {:induction false} StreamPrefix(hmac: Hmac, prk: seq<byte>, info: seq<byte>, m: nat, n: nat)
    requires m <= n <= 255
    ensures Stream(hmac, prk, info, m) <= Stream(hmac, prk, info, n)
  {
    if m < n {
      StreamPrefix(hmac, prk, info, m, n - 1);
    }
  }

  /** A shorter request is a prefix of a longer one. */
  lemma ShorterIsPrefix(hmac: Hmac, digest: nat, prk: seq<byte>, info: seq<byte>, k: nat, length: nat)
    requires digest > 0 && k <= length <= digest * 255 && FixedLength(hmac, digest)
    ensures Okm(hmac, digest, prk, info, k) == Okm(hmac, digest, prk, info, length)[..k]
  {
    var m, n := Blocks(k, digest), Blocks(length, digest);
    BlocksCover(k, digest, m);
    BlocksCover(length, digest, n);
    BlocksMonotone(k, length, digest);
    StreamLength(hmac, digest, prk, info, m);
    StreamLength(hmac, digest, prk, info, n);
    StreamPrefix(hmac, prk, info, m, n);
    hide Stream, Blocks;
  }

  lemma BlocksMonotone(k: nat, length: nat, digest: nat)
    requires digest > 0 && k <= length
    ensures Blocks(k, digest) <= Blocks(length, digest)
  {
    var m, n := Blocks(k, digest), Blocks(length, digest);
    BlocksCover(k, digest, m);
    BlocksCover(length, digest, n);
    hide Blocks;
    if m > n {
      MulAtLeast(m - 1, n, digest);
    }
  }

  // ---- The definition spelled out ----

  /** The chain of section 2.3: each block is the HMAC of the one before it, the info and its number. */
  ghost predicate Chained(hmac: Hmac, prk: seq<byte>, info: seq<byte>, blocks: seq<seq<byte>>)
  {
    && |blocks| <= 255
    && (blocks != [] ==> blocks[0] == hmac(prk, info + [1]))
    && forall i :: 1 <= i < |blocks| ==> blocks[i] == hmac(prk, blocks[i - 1] + info + [i + 1])
  }

  /** Octet k of the output stands in block k / digest of the chain. */
  lemma OkmSpelledOut(hmac: Hmac, digest: nat, prk: seq<byte>, info: seq<byte>, length: nat, blocks: seq<seq<byte>>,
                      k: nat)
    requires digest > 0 && k < length <= digest * 255 && FixedLength(hmac, digest)
    requires Chained(hmac, prk, info, blocks) && k / digest < |blocks|
    ensures |blocks[k / digest]| == digest
    ensures Okm(hmac, digest, prk, info, length)[k] == blocks[k / digest][k % digest]
  {
    hide Stream, T, Blocks, Chained;
    var n, i := Blocks(length, digest), k / digest;
    BlocksCover(length, digest, n);
    BlockNumber(k, digest, n, length);
    StreamLength(hmac, digest, prk, info, n);
    StreamLength(hmac, digest, prk, info, i);
    StreamLength(hmac, digest, prk, info, i + 1);
    StreamPrefix(hmac, prk, info, i + 1, n);
    NextBlock(hmac, prk, info, i);
    ChainedBlock(hmac, prk, info, blocks, i);
    assert Stream(hmac, prk, info, i + 1)[k] == T(hmac, prk, info, i + 1)[k - i * digest];
  }

  lemma BlockNumber(k: nat, digest: nat, n: nat, length: nat)
    requires digest > 0 && k < length <= n * digest
    ensures k / digest < n && k == k / digest * digest + k % digest && (k / digest + 1) * digest > k
  {
    var i := k / digest;
    assert (i + 1) * digest == i * digest + digest;
    if i >= n {
      MulAtLeast(i, n, digest);
    }
  }

  lemma {:induction false} ChainedBlock(hmac: Hmac, prk: seq<byte>, info: seq<byte>, blocks: seq<seq<byte>>, i: nat)
    requires Chained(hmac, prk, info, blocks) && i < |blocks|
    ensures blocks[i] == T(hmac, prk, info, i + 1)
  {
    if i == 0 {
      NoBlocks(hmac, prk, info);
      assert [] + info + [1] == info + [1];
    } else {
      ChainedBlock(hmac, prk, info, blocks, i - 1);
    }
  }

  lemma OneChained(hmac: Hmac, prk: seq<byte>, info: seq<byte>)
    ensures Chained(hmac, prk, info, [hmac(prk, info + [1])])
  {
  }

  /** An output of at most one block is the front of the first HMAC. */
  lemma OneBlock(hmac: Hmac, digest: nat, prk: seq<byte>, info: seq<byte>, length: nat)
    requires digest > 0 && length <= digest && FixedLength(hmac, digest)
    ensures Okm(hmac, digest, prk, info, length) == hmac(prk, info + [1])[..length]
  {
    hide Okm, Chained;
    var okm, first := Okm(hmac, digest, prk, info, length), hmac(prk, info + [1]);
    OneChained(hmac, prk, info);
    forall k | 0 <= k < length ensures okm[k] == first[k] {
      QuotientIsUnique(k, digest, 0, k);
      OkmSpelledOut(hmac, digest, prk, info, length, [first], k);
    }
  }

  // ---- The code ----

  /** The message for one HMAC call, laid out in a buffer of digest + 256 + 1 bytes: it always fits. */
  method BuildHmacInput(hmacInput: array<byte>, digest: nat, previous: seq<byte>, info: seq<byte>, counter: byte)
    returns (inputLength: nat)
    requires hmacInput.Length == digest + 256 + 1 && |previous| <= digest && |info| <= 256
    modifies hmacInput
    ensures inputLength == |previous| + |info| + 1
    ensures hmacInput[..inputLength] == previous + info + [counter]
  {
    ZeroMemory(hmacInput);
    inputLength := 0;
    CopyMemory(hmacInput, 0, previous);
    inputLength := inputLength + |previous|;
    CopyMemory(hmacInput, inputLength, info);
    inputLength := inputLength + |info|;
    assert hmacInput[..inputLength] == previous + info;
    hmacInput[inputLength] := counter;
    assert hmacInput[..inputLength + 1] == hmacInput[..inputLength] + [counter];
    inputLength := inputLength + 1;
  }

  /** The `UCHAR` counter runs from 1 and reaches every HMAC call without having wrapped. */
  method HkdfExpand(algorithm: HashAlgorithm, hmac: Hmac, prk: seq<byte>, info: seq<byte>, output: array<byte>,
                    outputLength: nat) returns (status: Status)
    requires FixedLength(hmac, DigestLength(algorithm)) && outputLength <= output.Length
    modifies output
    ensures status ==
            if algorithm.Unsupported? then NotSupported
            else if |prk| < DigestLength(algorithm) || outputLength == 0 || outputLength > DigestLength(algorithm) * 255
                 || |info| > 256 then InvalidParameter
            else Success
    ensures status == Success ==>
              && output[..outputLength] == Okm(hmac, DigestLength(algorithm), prk, info, outputLength)
              && output[outputLength..] == old(output[outputLength..])
    ensures status == Success && outputLength <= DigestLength(algorithm) ==>
              output[..outputLength] == hmac(prk, info + [1])[..outputLength]
    ensures status != Success ==> output[..] == old(output[..])
  {
    hide T, Stream, Blocks;
    var digest := DigestLength(algorithm);
    if digest == 0 {
      return NotSupported;
    }
    if |prk| < digest || outputLength == 0 || outputLength > digest * 255 || |info| > 256 {
      return InvalidParameter;
    }
    var previous: seq<byte> := [];
    var produced := 0;
    var counter: byte := 1;
    ghost var calls: nat := 0;
    NoBlocks(hmac, prk, info);
    while produced < outputLength
      invariant 0 <= produced <= outputLength && |previous| <= digest
      invariant calls <= 255 && counter == (calls + 1) % 256
      invariant previous == T(hmac, prk, info, calls)
      invariant produced == if calls * digest < outputLength then calls * digest else outputLength
      invariant produced <= |Stream(hmac, prk, info, calls)|
      invariant output[..produced] == Stream(hmac, prk, info, calls)[..produced]
      invariant produced == outputLength ==> calls == Blocks(outputLength, digest)
      invariant output[outputLength..] == old(output[outputLength..])
      decreases outputLength - produced
    {
      CallsLeft(calls, digest, produced, outputLength);
      var block;
      block := ExpandBlock(hmac, prk, info, digest, previous, counter, calls);
      StreamLength(hmac, digest, prk, info, calls);
      StreamLength(hmac, digest, prk, info, calls + 1);
      NextBlock(hmac, prk, info, calls);
      produced := CopyBlock(output, produced, outputLength, block);
      previous := block;
      calls := calls + 1;
      counter := (counter + 1) % 256;
    }
    if outputLength <= digest {
      OneBlock(hmac, digest, prk, info, outputLength);
    }
    return Success;
  }

  /** As much of a block as the output still needs. */
  method CopyBlock(output: array<byte>, produced: nat, outputLength: nat, block: seq<byte>) returns (newProduced: nat)
    requires produced <= outputLength <= output.Length
    modifies output
    ensures newProduced == if |block| < outputLength - produced then produced + |block| else outputLength
    ensures output[..newProduced] == old(output[..produced]) + block[..newProduced - produced]
    ensures output[outputLength..] == old(output[outputLength..])
  {
    var copyLength := if |block| < outputLength - produced then |block| else outputLength - produced;
    CopyMemory(output, produced, block[..copyLength]);
    newProduced := produced + copyLength;
  }

  /** One HMAC call. */
  method ExpandBlock(hmac: Hmac, prk: seq<byte>, info: seq<byte>, digest: nat, previous: seq<byte>, counter: byte,
                     ghost calls: nat) returns (block: seq<byte>)
    requires FixedLength(hmac, digest) && |info| <= 256 && |previous| <= digest
    requires calls < 255 && counter == calls + 1 && previous == T(hmac, prk, info, calls)
    ensures block == T(hmac, prk, info, calls + 1) && |block| == digest
  {
    var hmacInput := new byte[digest + 256 + 1](_ => 0);
    var inputLength := BuildHmacInput(hmacInput, digest, previous, info, counter);
    block := hmac(prk, hmacInput[..inputLength]);
  }

  lemma NoBlocks(hmac: Hmac, prk: seq<byte>, info: seq<byte>)
    ensures T(hmac, prk, info, 0) == [] && Stream(hmac, prk, info, 0) == []
  {
  }

  lemma NextBlock(hmac: Hmac, prk: seq<byte>, info: seq<byte>, n: nat)
    requires n < 255
    ensures Stream(hmac, prk, info, n + 1) == Stream(hmac, prk, info, n) + T(hmac, prk, info, n + 1)
  {
  }

  /** Whenever output is missing, the counter has not reached its end; the last block ends the count. */
  lemma CallsLeft(calls: nat, digest: nat, produced: nat, outputLength: nat)
    requires digest > 0 && produced < outputLength <= digest * 255
    requires produced == calls * digest
    ensures calls < 255 && (calls + 1) * digest == produced + digest
    ensures outputLength <= produced + digest ==> Blocks(outputLength, digest) == calls + 1
  {
    assert (calls + 1) * digest == calls * digest + digest;
    if calls >= 255 {
      MulAtLeast(calls, 255, digest);
    }
    if outputLength <= produced + digest {
      QuotientIsUnique(outputLength + digest - 1, digest, calls + 1, outputLength - 1 - produced);
    }
  }
}
