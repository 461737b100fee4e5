/** ECDSA signatures from DER to fixed width: src/KernelHttpLib/crypto/CngProvider.cpp:17-136. */
module Der {
  import opened Bits
  import opened Bytes
  import opened Memory

  const SEQUENCE: byte := 0x30
  const INTEGER: byte := 0x02

  // ---- The encoding ----

  /** A length in short form, or in long form with up to eight bytes. */
  predicate LengthForm(f: seq<byte>, n: nat)
  {
    || (n < 0x80 && f == [n])
    || (2 <= |f| <= 9 && f[0] == 0x80 + (|f| - 1) && BeValue(f[1..]) == n)
  }

  ghost predicate Tlv(s: seq<byte>, tag: byte, content: seq<byte>)
  {
    exists f :: LengthForm(f, |content|) && s == [tag] + f + content
  }

  /** A SEQUENCE of two non-empty INTEGERs and nothing else. */
  ghost predicate IsSignature(der: seq<byte>, r: seq<byte>, s: seq<byte>)
  {
    && r != [] && s != []
    && exists first, second :: Tlv(first, INTEGER, r) && Tlv(second, INTEGER, s) && Tlv(der, SEQUENCE, first + second)
  }

  // ---- The parser ----

  datatype Length = NoLength(status: Status) | Length(value: nat, next: nat)

  function ReadLength(d: seq<byte>, offset: nat): (l: Length)
    requires offset <= |d|
    ensures l.Length? ==> offset < l.next <= |d|
    ensures l.NoLength? ==> l.status != Success
  {
    if offset == |d| then NoLength(InvalidParameter)
    else
      var b: nat := d[offset];
      if b < 0x80 then Length(b, offset + 1)
      else
        var k := b - 0x80;
        if k == 0 || k > 8 || k > |d| - (offset + 1) then NoLength(InvalidSignature)
        else Length(BeValue(d[offset + 1..offset + 1 + k]), offset + 1 + k)
  }

  datatype Integer = NoInteger(status: Status) | Integer(content: seq<byte>, next: nat)

  function ReadInteger(d: seq<byte>, offset: nat): (i: Integer)
    requires offset <= |d|
    ensures i.Integer? ==> i.next <= |d| && i.content != []
    ensures i.NoInteger? ==> i.status != Success
  {
    if offset == |d| || d[offset] != INTEGER then NoInteger(InvalidSignature)
    else match ReadLength(d, offset + 1)
      case NoLength(status) => NoInteger(status)
      case Length(n, next) =>
        if n == 0 || n > |d| - next then NoInteger(InvalidSignature) else Integer(d[next..next + n], next + n)
  }

  datatype Signature = NoSignature(status: Status) | Signature(r: seq<byte>, s: seq<byte>)

  function ReadSignature(der: seq<byte>): (g: Signature)
    ensures g.NoSignature? ==> g.status != Success
  {
    if der == [] then NoSignature(InvalidParameter)
    else if der[0] != SEQUENCE then NoSignature(InvalidSignature)
    else match ReadLength(der, 1)
      case NoLength(status) => NoSignature(status)
      case Length(n, start) =>
        if n != |der| - start then NoSignature(InvalidSignature)
        else match ReadInteger(der, start)
          case NoInteger(status) => NoSignature(status)
          case Integer(r, middle) =>
            match ReadInteger(der, middle)
            case NoInteger(status) => NoSignature(status)
            case Integer(s, end) => if end != |der| then NoSignature(InvalidSignature) else Signature(r, s)
  }

  // ---- The parser reads exactly the encoding ----

  lemma LengthIsRead(before: seq<byte>, f: seq<byte>, n: nat, rest: seq<byte>)
    requires LengthForm(f, n)
    ensures ReadLength(before + f + rest, |before|) == Length(n, |before + f|)
  {
    hide BeValue;
    var d := before + f + rest;
    assert d[|before|] == f[0];
    if |f| > 1 {
      assert d[|before| + 1..|before| + 1 + (|f| - 1)] == f[1..];
    }
  }

  lemma ReadLengthIsForm(d: seq<byte>, offset: nat)
    requires offset <= |d| && ReadLength(d, offset).Length?
    ensures LengthForm(d[offset..ReadLength(d, offset).next], ReadLength(d, offset).value)
  {
    hide BeValue;
    var next := ReadLength(d, offset).next;
    assert next > offset + 1 ==> d[offset..next][1..] == d[offset + 1..next];
  }

  lemma IntegerIsRead(before: seq<byte>, t: seq<byte>, content: seq<byte>, rest: seq<byte>)
    requires Tlv(t, INTEGER, content) && content != []
    ensures ReadInteger(before + t + rest, |before|) == Integer(content, |before + t|)
  {
    hide LengthForm, ReadLength;
    var f :| LengthForm(f, |content|) && t == [INTEGER] + f + content;
    var d := before + t + rest;
    LengthIsRead(before + [INTEGER], f, |content|, content + rest);
    assert d == before + [INTEGER] + f + (content + rest);
    assert d[|before|] == INTEGER;
    var next := |before| + 1 + |f|;
    assert d[next..next + |content|] == content;
  }

  lemma ReadIntegerIsTlv(d: seq<byte>, offset: nat)
    requires offset <= |d| && ReadInteger(d, offset).Integer?
    ensures offset <= ReadInteger(d, offset).next
    ensures Tlv(d[offset..ReadInteger(d, offset).next], INTEGER, ReadInteger(d, offset).content)
  {
    hide LengthForm, ReadLength;
    ReadLengthIsForm(d, offset + 1);
    var l := ReadLength(d, offset + 1);
    var f, i := d[offset + 1..l.next], ReadInteger(d, offset);
    assert d[offset..i.next] == [INTEGER] + f + i.content;
  }

  /** The bytes accepted are the DER encodings, short or long lengths, and the contents come back. */
  lemma ReadsExactlySignatures(der: seq<byte>, r: seq<byte>, s: seq<byte>)
    ensures ReadSignature(der) == Signature(r, s) <==> IsSignature(der, r, s)
  {
    if IsSignature(der, r, s) {
      EncodedIsRead(der, r, s);
    }
    if ReadSignature(der) == Signature(r, s) {
      ReadIsEncoded(der);
    }
  }

  /** A SEQUENCE is 30 and an INTEGER is 02; this one has its length in long form. */
  lemma LongForm()
    ensures ReadSignature([0x30, 0x81, 0x08, 0x02, 0x02, 0x00, 0xff, 0x02, 0x02, 0x01, 0x02])
         == Signature([0x00, 0xff], [0x01, 0x02])
  {
    var der: seq<byte> := [0x30, 0x81, 0x08, 0x02, 0x02, 0x00, 0xff, 0x02, 0x02, 0x01, 0x02];
    assert BeValue([0x08]) == 8 && der[2..3] == [0x08];
    assert ReadLength(der, 1) == Length(8, 3);
    assert ReadLength(der, 4) == Length(2, 5) && der[5..7] == [0x00, 0xff];
    assert ReadInteger(der, 3) == Integer([0x00, 0xff], 7);
    assert ReadLength(der, 8) == Length(2, 9) && der[9..11] == [0x01, 0x02];
    assert ReadInteger(der, 7) == Integer([0x01, 0x02], 11);
  }

  lemma ShortForm()
    ensures ReadSignature([0x30, 0x06, 0x02, 0x01, 0x07, 0x02, 0x01, 0x09]) == Signature([0x07], [0x09])
  {
    hide BeValue;
    var der: seq<byte> := [0x30, 0x06, 0x02, 0x01, 0x07, 0x02, 0x01, 0x09];
    assert ReadLength(der, 1) == Length(6, 2);
    assert ReadLength(der, 3) == Length(1, 4) && der[4..5] == [0x07];
    assert ReadInteger(der, 2) == Integer([0x07], 5);
    assert ReadLength(der, 6) == Length(1, 7) && der[7..8] == [0x09];
    assert ReadInteger(der, 5) == Integer([0x09], 8);
  }

  lemma WrongTags(rest: seq<byte>)
    ensures ReadSignature([0x31] + rest) == NoSignature(InvalidSignature)
    ensures ReadSignature([0x30, 0x06, 0x02, 0x01, 0x07, 0x03, 0x01, 0x09]) == NoSignature(InvalidSignature)
  {
    hide BeValue;
    var der: seq<byte> := [0x30, 0x06, 0x02, 0x01, 0x07, 0x03, 0x01, 0x09];
    assert ReadLength(der, 1) == Length(6, 2);
    assert ReadLength(der, 3) == Length(1, 4) && der[4..5] == [0x07];
    assert ReadInteger(der, 2) == Integer([0x07], 5);
    assert ReadInteger(der, 5) == NoInteger(InvalidSignature);
  }

  lemma EncodedIsRead(der: seq<byte>, r: seq<byte>, s: seq<byte>)
    requires IsSignature(der, r, s)
    ensures ReadSignature(der) == Signature(r, s)
  {
    hide LengthForm, ReadLength, ReadInteger;
    var first, second :| Tlv(first, INTEGER, r) && Tlv(second, INTEGER, s) && Tlv(der, SEQUENCE, first + second);
    var f :| LengthForm(f, |first + second|) && der == [SEQUENCE] + f + (first + second);
    LengthIsRead([SEQUENCE], f, |first + second|, first + second);
    var head := [SEQUENCE] + f;
    IntegerIsRead(head, first, r, second);
    assert der == head + first + second;
    IntegerIsRead(head + first, second, s, []);
    assert der == head + first + second + [];
  }

  lemma ReadIsEncoded(der: seq<byte>)
    requires ReadSignature(der).Signature?
    ensures IsSignature(der, ReadSignature(der).r, ReadSignature(der).s)
  {
    hide LengthForm, ReadLength, ReadInteger, Tlv;
    var l := ReadLength(der, 1);
    ReadLengthIsForm(der, 1);
    var i := ReadInteger(der, l.next);
    ReadIntegerIsTlv(der, l.next);
    var j := ReadInteger(der, i.next);
    ReadIntegerIsTlv(der, i.next);
    var first, second := der[l.next..i.next], der[i.next..j.next];
    assert ReadSignature(der) == Signature(i.content, j.content) && j.next == |der|;
    assert l.next + |first + second| == |der|;
    assert der == [SEQUENCE] + der[1..l.next] + (first + second);
    MakesTlv(der, SEQUENCE, der[1..l.next], first + second);
  }

  lemma MakesTlv(s: seq<byte>, tag: byte, f: seq<byte>, content: seq<byte>)
    requires LengthForm(f, |content|) && s == [tag] + f + content
    ensures Tlv(s, tag, content)
  {
  }

  // ---- Fixed width ----

  lemma {:induction false} Pow256Grows(a: nat, b: nat)
    requires a <= b
    ensures Pow256(a) <= Pow256(b)
    decreases b
  {
    if a < b { Pow256Grows(a, b - 1); }
  }

  lemma {:induction false} LeadingByteCounts(s: seq<byte>)
    requires s != [] && s[0] != 0
    ensures BeValue(s) >= Pow256(|s| - 1)
  {
    if |s| > 1 {
      LeadingByteCounts(s[..|s| - 1]);
    }
  }

  lemma DropZero(s: seq<byte>)
    requires s != [] && s[0] == 0
    ensures BeValue(s[1..]) == BeValue(s)
  {
    BeValueLeadingZeros(1, s[1..]);
    assert s == Zeros(1) + s[1..];
  }

  /** The significant bytes, right-aligned in the component, are the fixed-width form of the value. */
  lemma AlignedValue(s: seq<byte>, width: nat)
    requires |s| <= width
    ensures BeBytes(BeValue(s), width) == Zeros(width - |s|) + s && BeValue(s) < Pow256(width)
  {
    hide BeBytes, BeValue;
    BeValueLeadingZeros(width - |s|, s);
    BeBytesOfValue(Zeros(width - |s|) + s);
    BeValueBound(s);
    Pow256Grows(|s|, width);
  }

  /** The value stays, and what is left either fits or begins with a byte that counts. */
  method StripZeros(integer: seq<byte>, componentLength: nat) returns (significant: seq<byte>)
    requires integer != [] && componentLength > 0
    ensures significant != [] && BeValue(significant) == BeValue(integer)
    ensures |significant| > componentLength ==> significant[0] != 0
  {
    hide BeValue;
    var start := 0;
    assert integer[0..] == integer;
    while |integer| - start > componentLength && integer[start] == 0
      invariant 0 <= start < |integer|
      invariant BeValue(integer[start..]) == BeValue(integer)
    {
      DropZero(integer[start..]);
      assert integer[start..][1..] == integer[start + 1..];
      start := start + 1;
    }
    significant := integer[start..];
  }

  /** Zeros over the whole width, and then the bytes at its end. */
  lemma RightAligned(before: seq<byte>, offset: nat, width: nat, s: seq<byte>)
    requires offset + width <= |before| && |s| <= width
    ensures var zeroed := before[..offset] + Zeros(width) + before[offset + width..];
            zeroed[..offset + (width - |s|)] + s + zeroed[offset + width..]
            == before[..offset] + (Zeros(width - |s|) + s) + before[offset + width..]
  {
  }

  /** Leading zeros are dropped only as far as needed, and the value fits exactly when that is enough. */
  method CopyDerIntegerToFixed(integer: seq<byte>, component: array<byte>, offset: nat, componentLength: nat)
    returns (status: Status)
    requires offset + componentLength <= component.Length
    modifies component
    ensures integer == [] || componentLength == 0 ==> status == InvalidParameter
    ensures integer != [] && componentLength > 0 ==>
              status == if BeValue(integer) < Pow256(componentLength) then Success else InvalidSignature
    ensures status == Success ==>
              component[..] == old(component[..offset]) + BeBytes(BeValue(integer), componentLength)
                               + old(component[offset + componentLength..])
    ensures status != Success ==> component[..] == old(component[..])
  {
    hide BeValue, BeBytes, Pow256, Zeros;
    if integer == [] || componentLength == 0 {
      return InvalidParameter;
    }
    var significant := StripZeros(integer, componentLength);
    if |significant| > componentLength {
      LeadingByteCounts(significant);
      Pow256Grows(componentLength, |significant| - 1);
      return InvalidSignature;
    }
    AlignedValue(significant, componentLength);
    RightAligned(component[..], offset, componentLength, significant);
    CopyMemory(component, offset, Zeros(componentLength));
    CopyMemory(component, offset + (componentLength - |significant|), significant);
    return Success;
  }

  // ---- The code ----

  method ReadDerLength(data: seq<byte>, offset: nat) returns (status: Status, next: nat, length: nat)
    requires offset <= |data|
    ensures match ReadLength(data, offset)
            case NoLength(s) => status == s
            case Length(n, m) => status == Success && length == n && next == m
  {
    hide BeValue;
    next, length := offset, 0;
    if offset >= |data| {
      return InvalidParameter, next, length;
    }
    var lengthByte: nat := data[offset];
    next := offset + 1;
    if lengthByte < 0x80 {
      return Success, next, lengthByte;
    }
    var lengthBytes := lengthByte - 0x80;
    if lengthBytes == 0 || lengthBytes > 8 || lengthBytes > |data| - next {
      return InvalidSignature, next, length;
    }
    var value := AccumulateLength(data, next, lengthBytes);
    return Success, next + lengthBytes, value;
  }

  method AccumulateLength(data: seq<byte>, start: nat, count: nat) returns (value: nat)
    requires start + count <= |data|
    ensures value == BeValue(data[start..start + count])
  {
    value := 0;
    assert data[start..start] == [];
    for index := 0 to count
      invariant value == BeValue(data[start..start + index])
    {
      var b: nat := data[start + index];
      assert data[start..start + index + 1][..index] == data[start..start + index];
      value := value * 256 + b;
    }
  }

  /** One INTEGER: its tag, its length and its content, as the code reads each of the two. */
  method ReadDerInteger(der: seq<byte>, offset: nat) returns (status: Status, content: seq<byte>, next: nat)
    requires offset <= |der|
    ensures match ReadInteger(der, offset)
            case NoInteger(s) => status == s
            case Integer(c, m) => status == Success && content == c && next == m
  {
    hide ReadLength;
    content, next := [], offset;
    if offset >= |der| || der[offset] != INTEGER {
      return InvalidSignature, content, next;
    }
    var length;
    status, next, length := ReadDerLength(der, offset + 1);
    if status != Success || length == 0 || length > |der| - next {
      return if status == Success then InvalidSignature else status, content, next;
    }
    return Success, der[next..next + length], next + length;
  }

  method ParseSignature(der: seq<byte>) returns (status: Status, r: seq<byte>, s: seq<byte>)
    requires der != []
    ensures match ReadSignature(der)
            case NoSignature(e) => status == e
            case Signature(a, b) => status == Success && r == a && s == b
  {
    hide ReadLength, ReadInteger;
    r, s := [], [];
    if der[0] != SEQUENCE {
      return InvalidSignature, r, s;
    }
    var offset, sequenceLength;
    status, offset, sequenceLength := ReadDerLength(der, 1);
    if status != Success || sequenceLength != |der| - offset {
      return if status == Success then InvalidSignature else status, r, s;
    }
    status, r, offset := ReadDerInteger(der, offset);
    if status != Success {
      return;
    }
    status, s, offset := ReadDerInteger(der, offset);
    if status != Success {
      return;
    }
    if offset != |der| {
      status := InvalidSignature;
    }
  }

  predicate Fits(g: Signature, width: nat)
  {
    g.Signature? && BeValue(g.r) < Pow256(width) && BeValue(g.s) < Pow256(width)
  }

  lemma HalvesFilled(before: seq<byte>, first: seq<byte>, half: seq<byte>)
    requires 2 * |first| <= |before| && half == before[..0] + first + before[|first|..]
    ensures half[..|first|] == first && half[2 * |first|..] == before[2 * |first|..]
  {
  }

  /** The two halves of the output are the two values, in fixed width; a value that is too large is refused. */
  method ConvertDerEcdsaSignature(der: seq<byte>, raw: array<byte>, rawLength: nat) returns (status: Status)
    modifies raw
    ensures der == [] || rawLength == 0 || rawLength > raw.Length || rawLength % 2 != 0 ==>
              status == InvalidParameter && raw[..] == old(raw[..])
    ensures der != [] && 0 < rawLength <= raw.Length && rawLength % 2 == 0 ==>
              (status == Success <==> Fits(ReadSignature(der), rawLength / 2))
    ensures status == Success ==>
              && ReadSignature(der).Signature? && rawLength <= raw.Length
              && raw[..] == BeBytes(BeValue(ReadSignature(der).r), rawLength / 2)
                            + BeBytes(BeValue(ReadSignature(der).s), rawLength / 2) + old(raw[rawLength..])
  {
    hide BeValue, BeBytes, Pow256, ReadSignature;
    if der == [] || rawLength == 0 || rawLength > raw.Length || rawLength % 2 != 0 {
      return InvalidParameter;
    }
    var r, s;
    status, r, s := ParseSignature(der);
    if status != Success {
      return;
    }
    var componentLength := rawLength / 2;
    SignatureParts(der);
    status := CopyDerIntegerToFixed(r, raw, 0, componentLength);
    if status == Success {
      ghost var half := raw[..];
      status := CopyDerIntegerToFixed(s, raw, componentLength, componentLength);
      HalvesFilled(old(raw[..]), BeBytes(BeValue(r), componentLength), half);
    }
  }

  lemma SignatureParts(der: seq<byte>)
    ensures var g := ReadSignature(der); g.Signature? ==> g.r != [] && g.s != []
  {
    hide ReadLength;
  }

  /** Any pair of values below 256^width, encoded in DER in any way, converts to the values side by side. */
  method ConvertsEveryEncoding(der: seq<byte>, r: seq<byte>, s: seq<byte>, raw: array<byte>) returns (status: Status)
    requires IsSignature(der, r, s) && raw.Length > 0 && raw.Length % 2 == 0
    requires BeValue(r) < Pow256(raw.Length / 2) && BeValue(s) < Pow256(raw.Length / 2)
    modifies raw
    ensures status == Success
    ensures raw[..] == BeBytes(BeValue(r), raw.Length / 2) + BeBytes(BeValue(s), raw.Length / 2)
    ensures BeValue(raw[..raw.Length / 2]) == BeValue(r) && BeValue(raw[raw.Length / 2..]) == BeValue(s)
  {
    hide BeValue, BeBytes, Pow256, ReadSignature, IsSignature;
    ReadsExactlySignatures(der, r, s);
    EmptyHasNoSignature();
    var width := raw.Length / 2;
    status := ConvertDerEcdsaSignature(der, raw, raw.Length);
    FixedWidthValue(BeValue(r), width);
    FixedWidthValue(BeValue(s), width);
    assert raw[..width] == BeBytes(BeValue(r), width) && raw[width..] == BeBytes(BeValue(s), width);
  }

  lemma EmptyHasNoSignature()
    ensures ReadSignature([]).NoSignature?
  {
  }

  lemma FixedWidthValue(n: nat, width: nat)
    requires n < Pow256(width)
    ensures BeValue(BeBytes(n, width)) == n
  {
    hide BeValue, BeBytes, Pow256;
    BeValueOfBytes(n, width);
    SmallRemainder(n, Pow256(width));
  }
}
