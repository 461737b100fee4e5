/**
 The frame codec of src/KernelHttpLib/websocket/WebSocketFrame.cpp:277-472 and 611-717 against the
 base framing of RFC 6455, section 5.2. A mask `first & 0x70` is written first / 16 % 8, and so on.
 */
module WebSocketFrame {
  import opened Bytes
  import opened Memory

  const MAX_CONTROL_PAYLOAD: nat := 125
  const MAX_HEADER: nat := 14
  const MAX_PAYLOAD: nat := 0x7fff_ffff_ffff_ffff

  datatype Opcode = Continuation | Text | Binary | Close | Ping | Pong

  function Code(op: Opcode): byte
  {
    match op
    case Continuation => 0
    case Text => 1
    case Binary => 2
    case Close => 8
    case Ping => 9
    case Pong => 10
  }

  predicate IsKnownOpcode(code: nat)
  {
    code <= 2 || 8 <= code <= 10
  }

  function OpcodeOf(code: nat): (op: Opcode)
    requires IsKnownOpcode(code)
    ensures Code(op) == code
  {
    if code == 0 then Continuation else if code == 1 then Text else if code == 2 then Binary
    else if code == 8 then Close else if code == 9 then Ping else Pong
  }

  predicate IsControl(op: Opcode)
  {
    op in {Close, Ping, Pong}
  }

  datatype Header = Header(fin: bool, opcode: Opcode, payloadLength: nat, headerLength: nat)

  datatype Decoded = More | Malformed | Known(header: Header)

  datatype Frame = Frame(fin: bool, opcode: Opcode, payload: seq<byte>)

  // ---- The framing of section 5.2 ----

  function FirstByte(fin: bool, op: Opcode): byte
  {
    if fin then 0x80 + Code(op) else Code(op)
  }

  /** The length in its shortest form; `mask` is the mask bit in front of it. */
  function LengthField(n: nat, mask: byte): (s: seq<byte>)
    requires mask == 0 || mask == 0x80
    ensures |s| == if n <= 125 then 1 else if n <= 0xffff then 3 else 9
  {
    if n <= 125 then [mask + n]
    else if n <= 0xffff then [mask + 126] + BeBytes(n, 2)
    else [mask + 127] + BeBytes(n, 8)
  }

  /** A control frame is not fragmented and has a short payload: section 5.5. */
  predicate Allowed(fin: bool, op: Opcode, n: nat)
  {
    n <= MAX_PAYLOAD && (IsControl(op) ==> fin && n <= MAX_CONTROL_PAYLOAD)
  }

  /** The header of a frame from the server, which is not masked. */
  function ServerHeader(fin: bool, op: Opcode, n: nat): (s: seq<byte>)
    ensures 2 <= |s| <= 10
  {
    [FirstByte(fin, op)] + LengthField(n, 0)
  }

  function ServerFrame(f: Frame): seq<byte>
  {
    ServerHeader(f.fin, f.opcode, |f.payload|) + f.payload
  }

  // ---- Decoding a header ----

  datatype Length = NeedMore | NotMinimal | Length(payloadLength: nat, cursor: nat)

  function ExtendedLength(data: seq<byte>, lengthCode: nat): Length
    requires |data| >= 2
  {
    if lengthCode <= 125 then Length(lengthCode, 2)
    else if lengthCode == 126 then
      if |data| < 4 then NeedMore
      else
        var value := BeValue(data[2..4]);
        if value <= 125 then NotMinimal else Length(value, 4)
    else if |data| < 10 then NeedMore
    else
      var value := BeValue(data[2..10]);
      if value > MAX_PAYLOAD || value <= 0xffff then NotMinimal else Length(value, 10)
  }

  function DecodeHeader(data: seq<byte>): Decoded
  {
    if |data| < 2 then More
    else
      var first: nat, second: nat := data[0], data[1];
      if first / 16 % 8 != 0 || !IsKnownOpcode(first % 16) then Malformed
      else
        match ExtendedLength(data, second % 128)
        case NeedMore => More
        case NotMinimal => Malformed
        case Length(n, cursor) =>
          var fin, op := first >= 0x80, OpcodeOf(first % 16);
          if second >= 0x80 || (IsControl(op) && (!fin || n > 125)) then Malformed
          else Known(Header(fin, op, n, cursor))
  }

  /** Bytes behind a decided header do not change the decision. */
  lemma DecodeIsStable(data: seq<byte>, rest: seq<byte>)
    requires !DecodeHeader(data).More?
    ensures DecodeHeader(data + rest) == DecodeHeader(data)
  {
    var all := data + rest;
    assert |data| >= 4 ==> all[2..4] == data[2..4];
    assert |data| >= 10 ==> all[2..10] == data[2..10];
  }

  /** Ten bytes decide. */
  lemma TenBytesDecide(data: seq<byte>)
    ensures |data| >= 10 ==> !DecodeHeader(data).More?
    ensures DecodeHeader(data).Known? ==> DecodeHeader(data).header.headerLength <= |data|
    ensures DecodeHeader(data).Known? ==> 2 <= DecodeHeader(data).header.headerLength <= 10
    ensures DecodeHeader(data).Known? ==>
              var h := DecodeHeader(data).header; Allowed(h.fin, h.opcode, h.payloadLength)
  {
    hide BeValue;
    if |data| >= 4 { FieldBound(data[2..4]); }
  }

  lemma FieldBound(s: seq<byte>)
    requires |s| == 2 || |s| == 8
    ensures BeValue(s) < if |s| == 2 then 0x1_0000 else SIZE_LIMIT
  {
    Pow256Values();
    BeValueBound(s);
  }

  /** What decodes is exactly an allowed header in its shortest form. */
  lemma DecodesExactlyServerHeaders(data: seq<byte>, fin: bool, op: Opcode, n: nat)
    ensures DecodeHeader(data) == Known(Header(fin, op, n, |ServerHeader(fin, op, n)|))
       <==> Allowed(fin, op, n) && ServerHeader(fin, op, n) <= data
  {
    if Allowed(fin, op, n) && ServerHeader(fin, op, n) <= data {
      EncodedHeaderDecodes(fin, op, n, data);
    }
    if DecodeHeader(data) == Known(Header(fin, op, n, |ServerHeader(fin, op, n)|)) {
      DecodedHeaderIsEncoded(data);
    }
  }

  /** A header of the server in numbers: section 5.2 for the bytes, section 5.5 for control frames. */
  predicate Announces(data: seq<byte>, fin: bool, op: Opcode, n: nat, k: nat)
  {
    && 2 <= k <= |data|
    && data[0] == (if fin then 128 else 0) + (match op
                                              case Continuation => 0
                                              case Text => 1
                                              case Binary => 2
                                              case Close => 8
                                              case Ping => 9
                                              case Pong => 10)
    && (if n <= 125 then k == 2 && data[1] == n
        else if n <= 0xffff then k == 4 && data[1] == 126 && data[2] as int * 256 + data[3] == n
        else k == 10 && data[1] == 127 && n < 0x8000_0000_0000_0000 && BeValue(data[2..10]) == n)
    && (op in {Close, Ping, Pong} ==> fin && n <= 125)
  }

  lemma HeaderInNumbers(data: seq<byte>, fin: bool, op: Opcode, n: nat, k: nat)
    ensures DecodeHeader(data) == Known(Header(fin, op, n, k)) <==> Announces(data, fin, op, n, k)
  {
    hide BeValue;
    if |data| >= 4 {
      TwoByteValue(data[2..4]);
      FieldBound(data[2..4]);
    }
    if |data| >= 2 && IsKnownOpcode(data[0] % 16) && data[0] / 16 % 8 == 0 {
      FirstByteOf(data[0]);
    }
  }

  lemma EncodedHeaderDecodes(fin: bool, op: Opcode, n: nat, data: seq<byte>)
    requires Allowed(fin, op, n) && ServerHeader(fin, op, n) <= data
    ensures DecodeHeader(data) == Known(Header(fin, op, n, |ServerHeader(fin, op, n)|))
  {
    hide BeValue, BeBytes;
    var s := ServerHeader(fin, op, n);
    assert data[0] == s[0] && data[1] == s[1];
    OpcodeOfCode(op);
    FieldValue(n);
    if 125 < n <= 0xffff {
      assert data[2..4] == s[2..4] == BeBytes(n, 2);
    } else if 0xffff < n {
      assert data[2..10] == s[2..10] == BeBytes(n, 8);
    }
  }

  lemma OpcodeOfCode(op: Opcode)
    ensures IsKnownOpcode(Code(op)) && OpcodeOf(Code(op)) == op
  {
  }

  lemma FieldValue(n: nat)
    requires n <= MAX_PAYLOAD
    ensures n <= 0xffff ==> BeValue(BeBytes(n, 2)) == n
    ensures BeValue(BeBytes(n, 8)) == n
  {
    Pow256Values();
    hide BeValue, BeBytes, Pow256;
    BeValueOfBytes(n, 2);
    BeValueOfBytes(n, 8);
  }

  lemma DecodedHeaderIsEncoded(data: seq<byte>)
    requires DecodeHeader(data).Known?
    ensures var h := DecodeHeader(data).header;
            Allowed(h.fin, h.opcode, h.payloadLength) && ServerHeader(h.fin, h.opcode, h.payloadLength) <= data
            && |ServerHeader(h.fin, h.opcode, h.payloadLength)| == h.headerLength
  {
    hide BeValue, BeBytes;
    var h := DecodeHeader(data).header;
    FirstByteOf(data[0]);
    var s := ServerHeader(h.fin, h.opcode, h.payloadLength);
    if h.headerLength == 4 {
      BeBytesOfValue(data[2..4]);
      FieldBound(data[2..4]);
      assert s == data[..2] + data[2..4];
    } else if h.headerLength == 10 {
      BeBytesOfValue(data[2..10]);
      FieldBound(data[2..10]);
      assert s == data[..2] + data[2..10];
    }
    assert s == data[..|s|];
  }

  lemma FirstByteOf(b: byte)
    requires b / 16 % 8 == 0 && IsKnownOpcode(b % 16)
    ensures FirstByte(b >= 0x80, OpcodeOf(b % 16)) == b
  {
  }

  /** Every proper prefix of a header asks for more. */
  lemma ShortPrefixAsksForMore(fin: bool, op: Opcode, n: nat, k: nat)
    requires Allowed(fin, op, n) && k < |ServerHeader(fin, op, n)|
    ensures DecodeHeader(ServerHeader(fin, op, n)[..k]) == More
  {
    hide ServerHeader, Allowed, DecodeHeader;
    var s := ServerHeader(fin, op, n);
    if !DecodeHeader(s[..k]).More? {
      DecodeIsStable(s[..k], s[k..]);
      assert s[..k] + s[k..] == s;
      EncodedHeaderDecodes(fin, op, n, s);
      DecodedHeaderIsEncoded(s[..k]);
    }
  }

  /** `ReadExtendedLength`'s loop over the eight length bytes. */
  method ReadLength64(data: seq<byte>) returns (value: nat)
    requires |data| >= 10
    ensures value == BeValue(data[2..10])
  {
    value := 0;
    assert data[2..2] == [];
    for index := 0 to 8
      invariant value == BeValue(data[2..2 + index])
    {
      var b: nat := data[2 + index];
      assert data[2..2 + index + 1][..index] == data[2..2 + index];
      value := value * 256 + b;
    }
  }

  method DecodeFrameHeader(data: seq<byte>) returns (status: Status, header: Header)
    ensures match DecodeHeader(data)
            case More => status == MoreProcessingRequired
            case Malformed => status == InvalidNetworkResponse
            case Known(h) => status == Success && header == h
    ensures status == Success ==>
              && |data| >= 2 && data[0] / 16 % 8 == 0 && (header.fin <==> data[0] >= 128)
              && match header.opcode
                 case Continuation => data[0] % 16 == 0
                 case Text => data[0] % 16 == 1
                 case Binary => data[0] % 16 == 2
                 case Close => data[0] % 16 == 8
                 case Ping => data[0] % 16 == 9
                 case Pong => data[0] % 16 == 10
    ensures status == Success ==>
              var n, k := header.payloadLength, header.headerLength;
              || (data[1] <= 125 && n == data[1] && k == 2)
              || (data[1] == 126 && |data| >= 4 && n == data[2] as int * 256 + data[3] && k == 4)
              || (data[1] == 127 && |data| >= 10 && n == BeValue(data[2..10]) && k == 10)
  {
    hide BeValue;
    header := Header(false, Continuation, 0, 0);
    if |data| < 2 {
      return MoreProcessingRequired, header;
    }
    var first: nat, second: nat := data[0], data[1];
    if first / 16 % 8 != 0 {
      return InvalidNetworkResponse, header;
    }
    var opcodeValue := first % 16;
    if !IsKnownOpcode(opcodeValue) {
      return InvalidNetworkResponse, header;
    }
    var cursor, payloadLength := 2, 0;
    var lengthCode := second % 128;
    if lengthCode <= 125 {
      payloadLength := lengthCode;
    } else if lengthCode == 126 {
      if |data| - cursor < 2 {
        return MoreProcessingRequired, header;
      }
      TwoByteValue(data[2..4]);
      var high: nat, low: nat := data[2], data[3];
      payloadLength := high * 256 + low;
      cursor := cursor + 2;
      if payloadLength <= 125 {
        return InvalidNetworkResponse, header;
      }
    } else {
      if |data| - cursor < 8 {
        return MoreProcessingRequired, header;
      }
      payloadLength := ReadLength64(data);
      cursor := cursor + 8;
      if payloadLength > MAX_PAYLOAD || payloadLength <= 0xffff {
        return InvalidNetworkResponse, header;
      }
    }
    if second >= 0x80 {
      return InvalidNetworkResponse, header;
    }
    var opcode := OpcodeOf(opcodeValue);
    if IsControl(opcode) && (first < 0x80 || payloadLength > 125) {
      return InvalidNetworkResponse, header;
    }
    return Success, Header(first >= 0x80, opcode, payloadLength, cursor);
  }

  lemma TwoByteValue(s: seq<byte>)
    requires |s| == 2
    ensures BeValue(s) == s[0] as int * 256 + s[1]
  {
    assert s[..1][..0] == [];
    assert BeValue(s[..1]) == s[0];
  }

  // ---- Frames to the server ----

  type Key = s: seq<byte> | |s| == 4 witness Zeros(4)

  function Mask(payload: seq<byte>, key: Key): (s: seq<byte>)
    ensures |s| == |payload|
  {
    seq(|payload|, i requires 0 <= i < |payload| => XorByte(payload[i], key[i % 4]))
  }

  function ClientHeader(fin: bool, op: Opcode, n: nat, key: Key): (s: seq<byte>)
    ensures |s| == 6 + if n <= 125 then 0 else if n <= 0xffff then 2 else 8
    ensures |s| <= MAX_HEADER
  {
    [FirstByte(fin, op)] + LengthField(n, 0x80) + key
  }

  function ClientFrame(f: Frame, key: Key): (s: seq<byte>)
    ensures |s| <= MAX_HEADER + |f.payload|
  {
    ClientHeader(f.fin, f.opcode, |f.payload|, key) + Mask(f.payload, key)
  }

  /** These bytes are the frame, masked with the key: sections 5.2 and 5.3 in numbers. */
  predicate Represents(s: seq<byte>, f: Frame, key: Key)
  {
    var n := |f.payload|;
    var start := if n <= 125 then 6 else if n <= 0xffff then 8 else 14;
    && |s| == start + n
    && s[0] == (if f.fin then 128 else 0) + (match f.opcode
                                             case Continuation => 0
                                             case Text => 1
                                             case Binary => 2
                                             case Close => 8
                                             case Ping => 9
                                             case Pong => 10)
    && (if n <= 125 then s[1] == 128 + n
        else if n <= 0xffff then s[1] == 254 && s[2] as int * 256 + s[3] == n
        else s[1] == 255 && BeValue(s[2..10]) == n)
    && s[start - 4..start] == key
    && forall i :: 0 <= i < n ==> s[start + i] == XorByte(f.payload[i], key[i % 4])
  }

  /** There is one such byte string, the frame that the client sends. */
  lemma FrameInNumbers(f: Frame, key: Key, s: seq<byte>)
    requires |f.payload| <= MAX_PAYLOAD
    ensures Represents(s, f, key) <==> s == ClientFrame(f, key)
  {
    hide Represents, ClientFrame;
    FrameRepresents(f, key);
    if Represents(s, f, key) {
      OneRepresentation(s, ClientFrame(f, key), f, key);
    }
  }

  lemma FrameRepresents(f: Frame, key: Key)
    requires |f.payload| <= MAX_PAYLOAD
    ensures Represents(ClientFrame(f, key), f, key)
  {
    hide BeValue, XorByte, ClientHeader, Mask;
    var n, s, header := |f.payload|, ClientFrame(f, key), ClientHeader(f.fin, f.opcode, |f.payload|, key);
    HeaderRepresents(f.fin, f.opcode, n, key);
    MaskedPayload(header, f.payload, key);
    assert s[0] == header[0] && s[1] == header[1] && s[2] == header[2] && s[3] == header[3];
    assert s[|header| - 4..|header|] == header[|header| - 4..];
    assert n > 0xffff ==> s[2..10] == header[2..10];
  }

  lemma MaskedPayload(header: seq<byte>, payload: seq<byte>, key: Key)
    ensures var s := header + Mask(payload, key);
            forall i :: 0 <= i < |payload| ==> s[|header| + i] == XorByte(payload[i], key[i % 4])
  {
    hide XorByte;
  }

  lemma HeaderRepresents(fin: bool, op: Opcode, n: nat, key: Key)
    requires n <= MAX_PAYLOAD
    ensures var s := ClientHeader(fin, op, n, key);
            && s[0] == (if fin then 128 else 0) + (match op
                                                   case Continuation => 0
                                                   case Text => 1
                                                   case Binary => 2
                                                   case Close => 8
                                                   case Ping => 9
                                                   case Pong => 10)
            && (if n <= 125 then |s| == 6 && s[1] == 128 + n
                else if n <= 0xffff then |s| == 8 && s[1] == 254 && s[2] as int * 256 + s[3] == n
                else |s| == 14 && s[1] == 255 && BeValue(s[2..10]) == n)
            && s[|s| - 4..] == key
  {
    hide BeValue, BeBytes;
    FieldValue(n);
    TwoByteValue(BeBytes(n, 2));
    var s := ClientHeader(fin, op, n, key);
    assert s[|s| - 4..] == key;
    if n > 0xffff {
      assert s[2..10] == BeBytes(n, 8);
    } else if n > 125 {
      assert s[2..4] == BeBytes(n, 2);
      assert s[2] == s[2..4][0] && s[3] == s[2..4][1];
    }
  }

  lemma OneRepresentation(s: seq<byte>, t: seq<byte>, f: Frame, key: Key)
    requires Represents(s, f, key) && Represents(t, f, key)
    ensures s == t
  {
    hide BeValue, XorByte;
    var n := |f.payload|;
    var start := if n <= 125 then 6 else if n <= 0xffff then 8 else 14;
    if n > 0xffff {
      BeBytesOfValue(s[2..10]);
      BeBytesOfValue(t[2..10]);
    }
    forall i | start <= i < start + n ensures s[i] == t[i] {
      var j := i - start;
      assert s[start + j] == XorByte(f.payload[j], key[j % 4]) == t[start + j];
    }
    assert s[start..] == t[start..];
    assert s == s[..start - 4] + s[start - 4..start] + s[start..];
    assert t == t[..start - 4] + t[start - 4..start] + t[start..];
    assert s[2..start - 4] == t[2..start - 4];
    assert s[..start - 4] == s[..2] + s[2..start - 4] && t[..start - 4] == t[..2] + t[2..start - 4];
  }

  lemma MaskTwice(payload: seq<byte>, key: Key)
    ensures Mask(Mask(payload, key), key) == payload
  {
    var once := Mask(payload, key);
    forall i | 0 <= i < |payload| ensures Mask(once, key)[i] == payload[i] {
      XorOfBytes(payload[i], key[i % 4]);
    }
  }

  /** How much room a frame takes. */
  function FrameRoom(n: nat): nat
  {
    n + 6 + if n <= 125 then 0 else if n <= 0xffff then 2 else 8
  }

  function EncodeStatus(f: Frame, room: nat): (status: Status)
    ensures status in {Success, InvalidParameter, IntegerOverflow, BufferTooSmall}
  {
    if !Allowed(f.fin, f.opcode, |f.payload|) then InvalidParameter
    else if FrameRoom(|f.payload|) >= SIZE_LIMIT then IntegerOverflow
    else if room < FrameRoom(|f.payload|) then BufferTooSmall
    else Success
  }

  method MaskInto(payload: seq<byte>, key: Key, destination: array<byte>, cursor: nat)
    requires cursor + |payload| <= destination.Length
    modifies destination
    ensures destination[..cursor] == old(destination[..cursor])
    ensures destination[cursor..cursor + |payload|] == Mask(payload, key)
  {
    hide XorByte;
    for index := 0 to |payload|
      invariant destination[..cursor] == old(destination[..cursor])
      invariant forall j :: 0 <= j < index ==> destination[cursor + j] == XorByte(payload[j], key[j % 4])
    {
      destination[cursor + index] := XorByte(payload[index], key[index % 4]);
    }
  }

  /** `EncodeFrame` with a masking key. */
  method EncodeClientFrame(f: Frame, key: Key, destination: array<byte>) returns (status: Status, bytesWritten: nat)
    modifies destination
    ensures status == EncodeStatus(f, destination.Length)
    ensures status == Success ==>
              && bytesWritten == FrameRoom(|f.payload|) <= destination.Length
              && destination[..bytesWritten] == ClientFrame(f, key) && Represents(destination[..bytesWritten], f, key)
    ensures status != Success ==> destination[..] == old(destination[..])
  {
    hide BeBytes, Mask, Represents, LengthField;
    bytesWritten := 0;
    var n := |f.payload|;
    if IsControl(f.opcode) && (!f.fin || n > MAX_CONTROL_PAYLOAD) {
      return InvalidParameter, bytesWritten;
    }
    if n > MAX_PAYLOAD {
      return InvalidParameter, bytesWritten;
    }
    var headerLength := 6;
    if n > 125 && n <= 0xffff {
      headerLength := headerLength + 2;
    } else if n > 0xffff {
      headerLength := headerLength + 8;
    }
    if n > SIZE_LIMIT - 1 - headerLength {
      return IntegerOverflow, bytesWritten;
    }
    var required := headerLength + n;
    if destination.Length < required {
      return BufferTooSmall, required;
    }
    var header := ClientHeader(f.fin, f.opcode, n, key);
    CopyMemory(destination, 0, header);
    assert destination[..headerLength] == header;
    MaskInto(f.payload, key, destination, headerLength);
    assert destination[..required] == destination[..headerLength] + destination[headerLength..required];
    FrameInNumbers(f, key, destination[..required]);
    return Success, required;
  }

  // ---- What a server reads ----

  datatype Read = Unreadable | Read(frame: Frame, rest: seq<byte>)

  /** One masked frame from the front of a stream. */
  function ReadClientFrame(s: seq<byte>): Read
  {
    if |s| < 2 || s[1] < 0x80 || s[0] / 16 % 8 != 0 || !IsKnownOpcode(s[0] % 16) then Unreadable
    else
      var code: nat := s[1] - 0x80;
      var start := if code <= 125 then 2 else if code == 126 then 4 else 10;
      if |s| < start + 4 then Unreadable
      else
        var n := if code <= 125 then code else BeValue(s[2..start]);
        if |s| < start + 4 + n then Unreadable
        else
          var payload := Mask(s[start + 4..start + 4 + n], s[start..start + 4]);
          Read(Frame(s[0] >= 0x80, OpcodeOf(s[0] % 16), payload), s[start + 4 + n..])
  }

  /** A frame comes back from its encoding, whatever the key and whatever follows. */
  lemma ClientFrameRoundTrip(f: Frame, key: Key, rest: seq<byte>)
    requires |f.payload| <= MAX_PAYLOAD
    ensures ReadClientFrame(ClientFrame(f, key) + rest) == Read(f, rest)
  {
    hide BeValue, BeBytes, Mask;
    var n := |f.payload|;
    var s := ClientFrame(f, key) + rest;
    OpcodeOfCode(f.opcode);
    FieldValue(n);
    MaskTwice(f.payload, key);
    var header := ClientHeader(f.fin, f.opcode, n, key);
    var start := |header| - 4;
    assert s[0] == header[0] == FirstByte(f.fin, f.opcode) && s[1] == header[1];
    assert s[2..start] == header[2..start];
    assert 125 < n <= 0xffff ==> header[2..start] == BeBytes(n, 2);
    assert 0xffff < n ==> header[2..start] == BeBytes(n, 8);
    assert header[start..] == key;
    assert s[..|header|] == header && s[start..|header|] == s[..|header|][start..];
    assert s[start + 4..start + 4 + n] == Mask(f.payload, key);
    assert s[start + 4 + n..] == rest;
  }

  datatype Sent = Sent(frame: Frame, key: Key)

  /** The bytes that a sequence of frames puts on the wire. */
  function Wire(log: seq<Sent>): seq<byte>
  {
    if log == [] then [] else Wire(log[..|log| - 1]) + ClientFrame(log[|log| - 1].frame, log[|log| - 1].key)
  }

  function Frames(log: seq<Sent>): (fs: seq<Frame>)
    ensures |fs| == |log|
  {
    seq(|log|, i requires 0 <= i < |log| => log[i].frame)
  }

  /** What a server makes of a byte stream: frames up to the first it cannot read. */
  function ReadFrames(s: seq<byte>, count: nat): seq<Frame>
  {
    if count == 0 then []
    else match ReadClientFrame(s)
      case Unreadable => []
      case Read(f, rest) => [f] + ReadFrames(rest, count - 1)
  }

  lemma {:induction false} WireFromFront(log: seq<Sent>)
    requires log != []
    ensures Wire(log) == ClientFrame(log[0].frame, log[0].key) + Wire(log[1..])
  {
    hide ClientFrame;
    var n := |log| - 1;
    if n == 0 {
      assert log[..0] == [] && log[1..] == [];
      assert Wire(log) == Wire(log[..0]) + ClientFrame(log[0].frame, log[0].key);
    } else {
      WireFromFront(log[..n]);
      assert log[..n][1..] == log[1..][..n - 1];
      var first, last := ClientFrame(log[0].frame, log[0].key), ClientFrame(log[n].frame, log[n].key);
      var middle := Wire(log[1..][..n - 1]);
      assert first + middle + last == first + (middle + last);
      assert Wire(log[1..]) == middle + last;
    }
  }

  lemma NothingToRead(s: seq<byte>, count: nat)
    ensures s == [] || count == 0 ==> ReadFrames(s, count) == []
  {
  }

  /** Bytes behind a frame do not change how it reads. */
  lemma ReadIsStable(s: seq<byte>, more: seq<byte>)
    requires ReadClientFrame(s).Read?
    ensures ReadClientFrame(s + more) == Read(ReadClientFrame(s).frame, ReadClientFrame(s).rest + more)
  {
    hide Mask, BeValue;
    var t := s + more;
    var code: nat := s[1] - 0x80;
    var start := if code <= 125 then 2 else if code == 126 then 4 else 10;
    assert t[0] == s[0] && t[1] == s[1];
    assert t[2..start] == s[2..start];
    var n := if code <= 125 then code else BeValue(s[2..start]);
    assert t[start..start + 4] == s[start..start + 4] && t[start + 4..start + 4 + n] == s[start + 4..start + 4 + n];
    assert t[start + 4 + n..] == s[start + 4 + n..] + more;
  }

  /** A front part of a frame is no frame, unless it is all of it. */
  lemma PartOfFrame(part: seq<byte>, f: Frame, key: Key, count: nat)
    requires |f.payload| <= MAX_PAYLOAD && part <= ClientFrame(f, key)
    ensures ReadFrames(part, count) == if part == ClientFrame(f, key) && count > 0 then [f] else []
  {
    hide ClientFrame, ReadClientFrame;
    var whole := ClientFrame(f, key);
    var more := whole[|part|..];
    assert part + more == whole == whole + [];
    ClientFrameRoundTrip(f, key, []);
    if count > 0 && ReadClientFrame(part).Read? {
      ReadIsStable(part, more);
      assert |ReadClientFrame(part).rest + more| == 0;
      assert part == whole;
      NothingToRead([], count - 1);
    }
  }

  lemma FramesFromFront(log: seq<Sent>)
    requires log != []
    ensures Frames(log) == [log[0].frame] + Frames(log[1..])
  {
  }

  /** The frames sent are the frames the server reads off the wire, and then it reads what follows them. */
  lemma {:induction false} ServerReadsTheFrames(log: seq<Sent>, rest: seq<byte>, more: nat)
    requires forall i :: 0 <= i < |log| ==> |log[i].frame.payload| <= MAX_PAYLOAD
    ensures ReadFrames(Wire(log) + rest, |log| + more) == Frames(log) + ReadFrames(rest, more)
  {
    hide ClientFrame, ReadClientFrame;
    if log == [] {
      assert [] + rest == rest && Frames(log) == [];
    } else {
      WireFromFront(log);
      var front := ClientFrame(log[0].frame, log[0].key);
      assert front + Wire(log[1..]) + rest == front + (Wire(log[1..]) + rest);
      ClientFrameRoundTrip(log[0].frame, log[0].key, Wire(log[1..]) + rest);
      ServerReadsTheFrames(log[1..], rest, more);
      FramesFromFront(log);
    }
  }
}
