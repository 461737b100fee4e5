/**
 AES-CCM as the streaming code of src/KernelHttpLib/crypto/Aead.cpp:297-465 and 975-1156 computes it,
 against the block string of NIST SP 800-38C (Appendix A) and RFC 3610. The block cipher is any
 function from 16 bytes to 16 bytes.
 */
module Ccm {
  import opened Bits
  import opened Bytes
  import opened Memory

  type Block = s: seq<byte> | |s| == 16 witness Zeros(16)

  // ---- Specification ----

  /** Zero bytes up to the next block boundary. */
  function PadToBlock(s: seq<byte>): (p: seq<byte>)
    ensures |p| % 16 == 0 && s <= p
  {
    s + Zeros((16 - |s| % 16) % 16)
  }

  /** The first octet of B0: `(aad ? 0x40 : 0) | (((t - 2) / 2) << 3) | (q - 1)`. */
  function Flags(hasAad: bool, tagLength: nat, q: nat): nat
    requires tagLength == 8 || tagLength == 16
    requires 2 <= q <= 8
  {
    (if hasAad then 0x40 else 0) + (tagLength - 2) / 2 * 8 + (q - 1)
  }

  predicate ValidLengths(nonceLength: nat, tagLength: nat)
  {
    7 <= nonceLength <= 13 && (tagLength == 8 || tagLength == 16)
  }

  function LengthFieldLength(nonceLength: nat): nat
    requires nonceLength <= 13
  {
    15 - nonceLength
  }

  function FirstBlock(nonce: seq<byte>, hasAad: bool, payloadLength: nat, tagLength: nat): Block
    requires ValidLengths(|nonce|, tagLength)
  {
    var q := LengthFieldLength(|nonce|);
    [Flags(hasAad, tagLength, q)] + nonce + BeBytes(payloadLength, q)
  }

  /** The associated data behind its two-byte length, padded; nothing at all if there is none. */
  function AadBlocks(aad: seq<byte>): (s: seq<byte>)
    ensures |s| % 16 == 0
  {
    if aad == [] then [] else PadToBlock(BeBytes(|aad|, 2) + aad)
  }

  /** B0 B1 ... of SP 800-38C, section A.2. */
  function BlockString(nonce: seq<byte>, aad: seq<byte>, payload: seq<byte>, tagLength: nat): (s: seq<byte>)
    requires ValidLengths(|nonce|, tagLength)
    ensures |s| % 16 == 0
  {
    var a, p := AadBlocks(aad), PadToBlock(payload);
    SumOfBlocks(|a|, |p|);
    FirstBlock(nonce, aad != [], |payload|, tagLength) + a + p
  }

  lemma SumOfBlocks(a: nat, b: nat)
    requires a % 16 == 0 && b % 16 == 0
    ensures (16 + a + b) % 16 == 0
  {
  }

  /** Cipher block chaining from the zero block. */
  function CbcMac(e: Block -> Block, s: seq<byte>): Block
    requires |s| % 16 == 0
  {
    if s == [] then Zeros(16)
    else e(XorBytes(CbcMac(e, s[..|s| - 16]), s[|s| - 16..]))
  }

  /** The payload length has a q-byte form. */
  predicate PayloadLengthFits(payloadLength: nat, q: nat)
  {
    payloadLength < Pow256(q)
  }

  predicate Accepted(nonce: seq<byte>, aad: seq<byte>, payloadLength: nat)
    requires |nonce| <= 13
  {
    PayloadLengthFits(payloadLength, LengthFieldLength(|nonce|)) && |aad| < 0xff00
  }

  function CounterBlock(nonce: seq<byte>, i: nat): Block
    requires 7 <= |nonce| <= 13
  {
    var q := LengthFieldLength(|nonce|);
    [q - 1] + nonce + BeBytes(i, q)
  }

  function KeystreamByte(e: Block -> Block, nonce: seq<byte>, i: nat): byte
    requires 7 <= |nonce| <= 13
  {
    e(CounterBlock(nonce, 1 + i / 16))[i % 16]
  }

  function Crypt(e: Block -> Block, nonce: seq<byte>, data: seq<byte>): (out: seq<byte>)
    requires 7 <= |nonce| <= 13
    ensures |out| == |data|
    ensures forall i :: 0 <= i < |data| ==> out[i] == XorByte(data[i], KeystreamByte(e, nonce, i))
  {
    seq(|data|, i requires 0 <= i < |data| => XorByte(data[i], KeystreamByte(e, nonce, i)))
  }

  function TagOf(e: Block -> Block, nonce: seq<byte>, aad: seq<byte>, payload: seq<byte>, tagLength: nat): seq<byte>
    requires ValidLengths(|nonce|, tagLength)
  {
    XorBytes(CbcMac(e, BlockString(nonce, aad, payload, tagLength))[..tagLength], e(CounterBlock(nonce, 0)))
  }

  datatype Sealed = Sealed(ciphertext: seq<byte>, tag: seq<byte>)

  function Seal(e: Block -> Block, nonce: seq<byte>, aad: seq<byte>, payload: seq<byte>, tagLength: nat): Sealed
    requires ValidLengths(|nonce|, tagLength)
  {
    Sealed(Crypt(e, nonce, payload), TagOf(e, nonce, aad, payload, tagLength))
  }

  predicate Authentic(e: Block -> Block, nonce: seq<byte>, aad: seq<byte>, s: Sealed)
    requires ValidLengths(|nonce|, |s.tag|)
  {
    TagOf(e, nonce, aad, Crypt(e, nonce, s.ciphertext), |s.tag|) == s.tag
  }

  // ---- The formatting in numbers: SP 800-38C, sections A.2 and A.3 ----

  /** A counter block is 14 - |nonce|, the nonce and the counter; it is the only block that reads like this. */
  lemma CounterBlockIs(nonce: seq<byte>, i: nat, b: Block)
    requires 7 <= |nonce| <= 13
    ensures b == CounterBlock(nonce, i)
       <==> && b[0] == 14 - |nonce| && b[1..1 + |nonce|] == nonce
            && BeValue(b[1 + |nonce|..]) == i % Pow256(15 - |nonce|)
  {
    hide BeBytes, BeValue, Pow256, CounterBlock;
    CounterBlockParts(nonce, i);
    CounterField(b[1 + |nonce|..], i);
    if b[0] == 14 - |nonce| && b[1..1 + |nonce|] == nonce && b[1 + |nonce|..] == BeBytes(i, 15 - |nonce|) {
      SameParts(b, CounterBlock(nonce, i), |nonce|);
    }
  }

  lemma CounterField(s: seq<byte>, i: nat)
    ensures s == BeBytes(i, |s|) <==> BeValue(s) == i % Pow256(|s|)
  {
    hide BeBytes, BeValue, Pow256;
    BeValueOfBytes(i, |s|);
    BeBytesOfValue(BeBytes(i, |s|));
    BeBytesOfValue(s);
  }

  lemma CounterBlockParts(nonce: seq<byte>, i: nat)
    requires 7 <= |nonce| <= 13
    ensures var c := CounterBlock(nonce, i);
            c[0] == 14 - |nonce| && c[1..1 + |nonce|] == nonce && c[1 + |nonce|..] == BeBytes(i, 15 - |nonce|)
  {
    hide BeBytes;
  }

  lemma SameParts(b: Block, c: Block, n: nat)
    requires n < 16 && b[0] == c[0] && b[1..1 + n] == c[1..1 + n] && b[1 + n..] == c[1 + n..]
    ensures b == c
  {
    assert b == [b[0]] + b[1..1 + n] + b[1 + n..];
    assert c == [c[0]] + c[1..1 + n] + c[1 + n..];
  }

  /** Byte i of the output is XORed with byte i % 16 of the block whose counter is 1 + i / 16. */
  lemma CryptSpelledOut(e: Block -> Block, nonce: seq<byte>, data: seq<byte>, i: nat, b: Block)
    requires 7 <= |nonce| <= 13 && i < |data|
    requires b[0] == 14 - |nonce| && b[1..1 + |nonce|] == nonce
    requires BeValue(b[1 + |nonce|..]) == (1 + i / 16) % Pow256(15 - |nonce|)
    ensures Crypt(e, nonce, data)[i] == XorByte(data[i], e(b)[i % 16])
  {
    hide CounterBlock, BeValue, Pow256, Crypt, XorByte;
    CounterBlockIs(nonce, 1 + i / 16, b);
    CryptedByte(e, nonce, data, i, b);
  }

  lemma CryptedByte(e: Block -> Block, nonce: seq<byte>, data: seq<byte>, i: nat, b: Block)
    requires 7 <= |nonce| <= 13 && i < |data| && b == CounterBlock(nonce, 1 + i / 16)
    ensures Crypt(e, nonce, data)[i] == XorByte(data[i], e(b)[i % 16])
  {
    hide CounterBlock, XorByte;
  }

  /** The tag is the front of the MAC, masked with the block whose counter is 0. */
  lemma TagSpelledOut(e: Block -> Block, nonce: seq<byte>, aad: seq<byte>, payload: seq<byte>, tagLength: nat, b: Block)
    requires ValidLengths(|nonce|, tagLength)
    requires b[0] == 14 - |nonce| && b[1..1 + |nonce|] == nonce && BeValue(b[1 + |nonce|..]) == 0
    ensures var tag := TagOf(e, nonce, aad, payload, tagLength);
            var mac := CbcMac(e, BlockString(nonce, aad, payload, tagLength));
            |tag| == tagLength && forall j :: 0 <= j < tagLength ==> tag[j] == XorByte(mac[j], e(b)[j])
  {
    hide CounterBlock, BeValue, Pow256, CbcMac, BlockString;
    CounterBlockIs(nonce, 0, b);
  }

  /** B0 with its flags, the length and bytes of the associated data, and the payload, each padded with zeros. */
  lemma BlockStringSpelledOut(nonce: seq<byte>, aad: seq<byte>, payload: seq<byte>, tagLength: nat,
                              flags: byte, p: nat, r: nat)
    requires ValidLengths(|nonce|, tagLength)
    requires flags == (if aad != [] then 64 else 0) + 8 * ((tagLength - 2) / 2) + (14 - |nonce|)
    requires p < 16 && (2 + |aad| + p) % 16 == 0 && r < 16 && (|payload| + r) % 16 == 0
    ensures var first: seq<byte> := [flags] + nonce + BeBytes(|payload|, 15 - |nonce|);
            var middle: seq<byte> := if aad == [] then [] else BeBytes(|aad|, 2) + aad + Zeros(p);
            BlockString(nonce, aad, payload, tagLength) == first + middle + (payload + Zeros(r))
  {
    hide BeBytes, PadToBlock, Zeros, FirstBlock, AadBlocks, BlockString;
    var first: seq<byte> := [flags] + nonce + BeBytes(|payload|, 15 - |nonce|);
    var middle: seq<byte> := if aad == [] then [] else BeBytes(|aad|, 2) + aad + Zeros(p);
    var last := payload + Zeros(r);
    assert FirstBlock(nonce, aad != [], |payload|, tagLength) == first by {
      FirstBlockSpelledOut(nonce, aad != [], |payload|, tagLength);
    }
    assert AadBlocks(aad) == middle by { AadSpelledOut(aad, p); }
    assert PadToBlock(payload) == last by { Padded(payload, r); }
    PutTogether(nonce, aad, payload, tagLength, first, middle, last);
  }

  lemma PutTogether(nonce: seq<byte>, aad: seq<byte>, payload: seq<byte>, tagLength: nat,
                    first: seq<byte>, middle: seq<byte>, last: seq<byte>)
    requires ValidLengths(|nonce|, tagLength) && FirstBlock(nonce, aad != [], |payload|, tagLength) == first
    requires AadBlocks(aad) == middle && PadToBlock(payload) == last
    ensures BlockString(nonce, aad, payload, tagLength) == first + middle + last
  {
    hide BeBytes, PadToBlock, Zeros, FirstBlock, AadBlocks, BlockString;
    BlockStringParts(nonce, aad, payload, tagLength);
  }

  lemma BlockStringParts(nonce: seq<byte>, aad: seq<byte>, payload: seq<byte>, tagLength: nat)
    requires ValidLengths(|nonce|, tagLength)
    ensures BlockString(nonce, aad, payload, tagLength)
         == FirstBlock(nonce, aad != [], |payload|, tagLength) + AadBlocks(aad) + PadToBlock(payload)
  {
  }

  lemma AadSpelledOut(aad: seq<byte>, p: nat)
    requires p < 16 && (2 + |aad| + p) % 16 == 0
    ensures AadBlocks(aad) == if aad == [] then [] else BeBytes(|aad|, 2) + aad + Zeros(p)
  {
    hide BeBytes, PadToBlock, Zeros;
    Padded(BeBytes(|aad|, 2) + aad, p);
  }

  lemma FirstBlockSpelledOut(nonce: seq<byte>, hasAad: bool, n: nat, tagLength: nat)
    requires ValidLengths(|nonce|, tagLength)
    ensures FirstBlock(nonce, hasAad, n, tagLength)
         == [(if hasAad then 64 else 0) + 8 * ((tagLength - 2) / 2) + (14 - |nonce|)] + nonce + BeBytes(n, 15 - |nonce|)
  {
    hide BeBytes;
  }

  lemma Padded(s: seq<byte>, p: nat)
    requires p < 16 && (|s| + p) % 16 == 0
    ensures PadToBlock(s) == s + Zeros(p)
  {
    assert p == (16 - |s| % 16) % 16;
  }

  const NONCE_OF_EXAMPLE: seq<byte> := [16, 17, 18, 19, 20, 21, 22, 23, 24, 25, 26, 27]

  /** The first counter block of example 3 of SP 800-38C. */
  lemma CounterBlockOfExample()
    ensures CounterBlock(NONCE_OF_EXAMPLE, 1) == [0x02, 16, 17, 18, 19, 20, 21, 22, 23, 24, 25, 26, 27, 0, 0, 1]
  {
    hide BeBytes;
    ThreeBytes(1);
  }

  /** The block string of example 3 of SP 800-38C: 20 bytes of associated data, 24 of payload, a tag of 8. */
  lemma BlockStringOfExample(aad: seq<byte>, payload: seq<byte>)
    requires |aad| == 20 && |payload| == 24
    ensures BlockString(NONCE_OF_EXAMPLE, aad, payload, 8)
         == [0x5a, 16, 17, 18, 19, 20, 21, 22, 23, 24, 25, 26, 27, 0, 0, 24]
            + ([0, 20] + aad + Zeros(10)) + (payload + Zeros(8))
  {
    hide BeBytes, PadToBlock, Zeros, FirstBlock, AadBlocks, BlockString;
    assert BeBytes(20, 2) == [0, 20] by { TwoBytes(20); }
    assert [0x5a] + NONCE_OF_EXAMPLE + BeBytes(24, 3)
        == [0x5a, 16, 17, 18, 19, 20, 21, 22, 23, 24, 25, 26, 27, 0, 0, 24] by { ThreeBytes(24); }
    BlockStringSpelledOut(NONCE_OF_EXAMPLE, aad, payload, 8, 0x5a, 10, 8);
  }

  lemma TwoBytes(n: byte)
    ensures BeBytes(n, 2) == [0, n]
  {
    assert BeBytes(0, 1) == BeBytes(0, 0) + [0];
  }

  lemma ThreeBytes(n: byte)
    ensures BeBytes(n, 3) == [0, 0, n]
  {
    TwoBytes(0);
    assert BeBytes(0, 2) == [0, 0];
  }

  lemma CbcMacSpelledOut(e: Block -> Block, s: seq<byte>, b: Block)
    requires |s| % 16 == 0
    ensures CbcMac(e, []) == Zeros(16)
    ensures |s + b| % 16 == 0 && CbcMac(e, s + b) == e(XorBytes(CbcMac(e, s), b))
  {
    assert (s + b)[..|s|] == s && (s + b)[|s|..] == b;
  }

  // ---- Properties of the specification ----

  lemma CryptTwice(e: Block -> Block, nonce: seq<byte>, data: seq<byte>)
    requires 7 <= |nonce| <= 13
    ensures Crypt(e, nonce, Crypt(e, nonce, data)) == data
  {
    var once := Crypt(e, nonce, data);
    var twice := Crypt(e, nonce, once);
    forall i | 0 <= i < |data| ensures twice[i] == data[i] {
      XorOfBytes(data[i], KeystreamByte(e, nonce, i));
    }
  }

  /** A ciphertext and tag pass decryption, as a given payload, exactly when encryption makes them of it. */
  lemma AuthenticIffSealed(e: Block -> Block, nonce: seq<byte>, aad: seq<byte>, payload: seq<byte>, s: Sealed)
    requires ValidLengths(|nonce|, |s.tag|)
    ensures Seal(e, nonce, aad, payload, |s.tag|) == s
       <==> Authentic(e, nonce, aad, s) && Crypt(e, nonce, s.ciphertext) == payload
  {
    hide TagOf;
    CryptTwice(e, nonce, payload);
    CryptTwice(e, nonce, s.ciphertext);
  }

  lemma BeBytesInjective(m: nat, n: nat, k: nat)
    requires m < Pow256(k) && n < Pow256(k) && BeBytes(m, k) == BeBytes(n, k)
    ensures m == n
  {
    hide Pow256, BeBytes, BeValue;
    BeValueOfBytes(m, k);
    BeValueOfBytes(n, k);
    SmallRemainder(m, Pow256(k));
    SmallRemainder(n, Pow256(k));
  }

  /** A payload that fits has fewer blocks than its length field has values. */
  lemma BlockCountFits(n: nat, q: nat)
    requires 2 <= q <= 8 && n < SIZE_LIMIT && PayloadLengthFits(n, q)
    ensures n < Pow256(q) && (n + 15) / 16 < Pow256(q)
  {
    Pow256Values();
    assert q >= 8 ==> Pow256(q) == SIZE_LIMIT;
  }

  /**
   No counter value repeats within one message, the one that masks the tag included, and none of
   the counter blocks is the first MAC block.
   */
  lemma CounterBlocksAreFresh(nonce: seq<byte>, hasAad: bool, n: nat, tagLength: nat, i: nat, j: nat)
    requires ValidLengths(|nonce|, tagLength) && n < SIZE_LIMIT
    requires PayloadLengthFits(n, LengthFieldLength(|nonce|))
    requires i <= (n + 15) / 16 && j <= (n + 15) / 16
    ensures i != j ==> CounterBlock(nonce, i) != CounterBlock(nonce, j)
    ensures CounterBlock(nonce, i) != FirstBlock(nonce, hasAad, n, tagLength)
  {
    var q := LengthFieldLength(|nonce|);
    BlockCountFits(n, q);
    hide Pow256, BeBytes;
    if CounterBlock(nonce, i) == CounterBlock(nonce, j) {
      assert CounterBlock(nonce, i)[16 - q..] == BeBytes(i, q);
      assert CounterBlock(nonce, j)[16 - q..] == BeBytes(j, q);
      BeBytesInjective(i, j, q);
    }
    assert CounterBlock(nonce, i)[0] == q - 1;
    assert FirstBlock(nonce, hasAad, n, tagLength)[0] == Flags(hasAad, tagLength, q);
  }

  /** For one nonce length and one tag length, the block string determines nonce, AAD and payload. */
  lemma BlockStringIsInjective(nonce: seq<byte>, aad: seq<byte>, payload: seq<byte>,
                               nonce': seq<byte>, aad': seq<byte>, payload': seq<byte>, tagLength: nat)
    requires ValidLengths(|nonce|, tagLength) && |nonce| == |nonce'|
    requires |payload| < SIZE_LIMIT && |payload'| < SIZE_LIMIT
    requires Accepted(nonce, aad, |payload|) && Accepted(nonce', aad', |payload'|)
    requires BlockString(nonce, aad, payload, tagLength) == BlockString(nonce', aad', payload', tagLength)
    ensures nonce == nonce' && aad == aad' && payload == payload'
  {
    hide Pow256, BeBytes, PayloadLengthFits, FirstBlock, AadBlocks, PadToBlock, BlockString;
    BlockCountFits(|payload|, LengthFieldLength(|nonce|));
    BlockCountFits(|payload'|, LengthFieldLength(|nonce|));
    SplitBlockStrings(nonce, aad, payload, nonce', aad', payload', tagLength);
    FirstBlockIsInjective(nonce, aad != [], |payload|, nonce', aad' != [], |payload'|, tagLength);
    AadIsInjective(aad, PadToBlock(payload), aad', PadToBlock(payload'));
    assert payload == PadToBlock(payload)[..|payload|] && payload' == PadToBlock(payload')[..|payload|];
  }

  lemma SplitBlockStrings(nonce: seq<byte>, aad: seq<byte>, payload: seq<byte>,
                          nonce': seq<byte>, aad': seq<byte>, payload': seq<byte>, tagLength: nat)
    requires ValidLengths(|nonce|, tagLength) && ValidLengths(|nonce'|, tagLength)
    requires BlockString(nonce, aad, payload, tagLength) == BlockString(nonce', aad', payload', tagLength)
    ensures FirstBlock(nonce, aad != [], |payload|, tagLength) == FirstBlock(nonce', aad' != [], |payload'|, tagLength)
    ensures AadBlocks(aad) + PadToBlock(payload) == AadBlocks(aad') + PadToBlock(payload')
  {
    hide FirstBlock, AadBlocks, PadToBlock;
    var b, a, p := FirstBlock(nonce, aad != [], |payload|, tagLength), AadBlocks(aad), PadToBlock(payload);
    var b', a', p' := FirstBlock(nonce', aad' != [], |payload'|, tagLength), AadBlocks(aad'), PadToBlock(payload');
    assert b + a + p == b + (a + p) && b' + a' + p' == b' + (a' + p');
    SplitEqual(b, a + p, b', a' + p');
  }

  lemma SplitEqual(b: seq<byte>, r: seq<byte>, b': seq<byte>, r': seq<byte>)
    requires |b| == |b'| && b + r == b' + r'
    ensures b == b' && r == r'
  {
    assert b == (b + r)[..|b|] && b' == (b' + r')[..|b|];
    assert r == (b + r)[|b|..] && r' == (b' + r')[|b|..];
  }

  lemma FirstBlockIsInjective(nonce: seq<byte>, hasAad: bool, n: nat, nonce': seq<byte>, hasAad': bool, n': nat,
                              tagLength: nat)
    requires ValidLengths(|nonce|, tagLength) && |nonce| == |nonce'|
    requires n < Pow256(LengthFieldLength(|nonce|)) && n' < Pow256(LengthFieldLength(|nonce|))
    requires FirstBlock(nonce, hasAad, n, tagLength) == FirstBlock(nonce', hasAad', n', tagLength)
    ensures nonce == nonce' && hasAad == hasAad' && n == n'
  {
    hide Pow256, BeBytes;
    var q := LengthFieldLength(|nonce|);
    var b, b' := FirstBlock(nonce, hasAad, n, tagLength), FirstBlock(nonce', hasAad', n', tagLength);
    assert b[0] == Flags(hasAad, tagLength, q) && b'[0] == Flags(hasAad', tagLength, q);
    assert b[1..1 + |nonce|] == nonce && b'[1..1 + |nonce|] == nonce';
    assert b[1 + |nonce|..] == BeBytes(n, q) && b'[1 + |nonce|..] == BeBytes(n', q);
    BeBytesInjective(n, n', q);
  }

  lemma AadIsInjective(aad: seq<byte>, rest: seq<byte>, aad': seq<byte>, rest': seq<byte>)
    requires |aad| < 0xff00 && |aad'| < 0xff00 && (aad == []) == (aad' == [])
    requires AadBlocks(aad) + rest == AadBlocks(aad') + rest'
    ensures aad == aad' && rest == rest'
  {
    if aad == [] {
      assert AadBlocks(aad) + rest == rest && AadBlocks(aad') + rest' == rest';
    } else {
      hide BeBytes, Pow256, PadToBlock;
      var h, h' := BeBytes(|aad|, 2) + aad, BeBytes(|aad'|, 2) + aad';
      var s, s' := PadToBlock(h) + rest, PadToBlock(h') + rest';
      assert BeBytes(|aad|, 2) == s[..2] && BeBytes(|aad'|, 2) == s'[..2];
      Pow256Values();
      BeBytesInjective(|aad|, |aad'|, 2);
      assert h == s[..|h|] && h' == s'[..|h|];
      assert aad == h[2..] && aad' == h'[2..];
      assert rest == s[|PadToBlock(h)|..] && rest' == s'[|PadToBlock(h)|..];
    }
  }
}
