/**
 The examples of section 5.7 of RFC 6455 byte by byte, in both directions, and an example for each way in
 which a call of `ReceiveMessage` fails the connection.
 */
module WebSocketExamples {
  import opened Bits
  import opened Bytes
  import opened Memory
  import opened Transport
  import opened WebSocketFrame
  import opened WebSocketMessages
  import opened WebSocketReassembly
  import opened WebSocketClient
  import Utf8

  const HELLO: seq<byte> := [0x48, 0x65, 0x6c, 0x6c, 0x6f]
  const KEY: Key := [0x37, 0xfa, 0x21, 0x3d]
  const LIMITS := Settings(16, 131, true)

  // ---- From the server ----

  /** One header for each opcode. */
  lemma Headers()
    ensures DecodeHeader([0x81, 0x05]) == Known(Header(true, Text, 5, 2))
    ensures DecodeHeader([0x01, 0x03]) == Known(Header(false, Text, 3, 2))
    ensures DecodeHeader([0x80, 0x02]) == Known(Header(true, Continuation, 2, 2))
    ensures DecodeHeader([0x88, 0x02]) == Known(Header(true, Close, 2, 2))
    ensures DecodeHeader([0x89, 0x05]) == Known(Header(true, Ping, 5, 2))
    ensures DecodeHeader([0x8a, 0x05]) == Known(Header(true, Pong, 5, 2))
  {
  }

  /** 256 bytes and 64 KiB of binary data. */
  lemma LongHeaders()
    ensures DecodeHeader([0x82, 0x7e, 0x01, 0x00]) == Known(Header(true, Binary, 256, 4))
    ensures DecodeHeader([0x82, 0x7f, 0, 0, 0, 0, 0, 1, 0, 0]) == Known(Header(true, Binary, 65536, 10))
  {
    hide DecodeHeader, BeValue;
    HeaderInNumbers([0x82, 0x7e, 0x01, 0x00], true, Binary, 256, 4);
    var long: seq<byte> := [0x82, 0x7f, 0, 0, 0, 0, 0, 1, 0, 0];
    LengthOfExample();
    assert long[2..10] == [0, 0, 0, 0, 0, 1, 0, 0];
    HeaderInNumbers(long, true, Binary, 65536, 10);
  }

  lemma LengthOfExample()
    ensures BeValue([0, 0, 0, 0, 0, 1, 0, 0]) == 65536
  {
    assert [0, 0, 0, 0, 0, 1, 0, 0] == Zeros(5) + [1, 0, 0];
    BeValueLeadingZeros(5, [1, 0, 0]);
    TwoByteValue([1, 0]);
    assert [1, 0, 0][..2] == [1, 0];
  }

  /** Reserved bits and opcodes, fragmented or long control frames, masked frames, lengths not in shortest form. */
  lemma Refusals()
    ensures DecodeHeader([0xc1, 0x05]).Malformed? && DecodeHeader([0x91, 0x05]).Malformed?
    ensures DecodeHeader([0x83, 0x00]).Malformed? && DecodeHeader([0x8b, 0x00]).Malformed?
    ensures DecodeHeader([0x09, 0x00]).Malformed? && DecodeHeader([0x89, 0x7e, 0x00, 0x7e]).Malformed?
    ensures DecodeHeader([0x81, 0x85]).Malformed?
    ensures DecodeHeader([0x82, 0x7e, 0x00, 0x7d]).Malformed?
  {
    TwoByteValue([0x00, 0x7e]);
    TwoByteValue([0x00, 0x7d]);
    assert [0x89, 0x7e, 0x00, 0x7e][2..4] == [0x00, 0x7e];
    assert [0x82, 0x7e, 0x00, 0x7d][2..4] == [0x00, 0x7d];
  }

  lemma {:induction false} AsciiIsUtf8(s: seq<byte>)
    requires forall i :: 0 <= i < |s| ==> s[i] < 0x80
    ensures Utf8.Accepts(s) && Utf8.IsUtf8(s)
  {
    hide Utf8.IsUtf8;
    if s != [] {
      AsciiIsUtf8(s[1..]);
    }
    Utf8.AcceptsExactlyUtf8(s);
  }

  /** The step over a frame whose header has two bytes. */
  lemma ShortFrame(s: seq<byte>, head: seq<byte>, h: Header, payload: seq<byte>, rest: seq<byte>, g: Fragment,
                   controls: nat, limits: Settings)
    requires DecodeHeader(head) == Known(h) && |head| == h.headerLength == 2 && h.payloadLength == |payload|
    requires s == head + payload + rest && (IsControl(h.opcode) || |g.partial| + |payload| <= limits.capacity)
    requires IsControl(h.opcode) || (h.opcode == Continuation) == g.open
    ensures StepOver(s, g, controls, limits)
         == match h.opcode
            case Ping => OnPing(payload, rest, g, controls, limits)
            case Pong => OnPong(payload, rest, g, controls, limits)
            case Close => Stop(OnClose(payload, rest, limits))
            case _ => OnData(h, payload, rest, g, controls)
  {
    hide DecodeHeader, OnPing, OnPong, OnClose, OnData;
    assert s == head + (payload + rest);
    DecodeIsStable(head, payload + rest);
    assert s[2..2 + |payload|] == payload && s[2 + |payload|..] == rest;
  }

  lemma Stops(s: seq<byte>, g: Fragment, controls: nat, limits: Settings, outcome: Outcome)
    requires StepOver(s, g, controls, limits) == Stop(outcome)
    ensures Receive(s, g, controls, limits) == Received(outcome, [])
  {
    hide StepOver;
  }

  lemma GoesOn(s: seq<byte>, g: Fragment, controls: nat, limits: Settings, step: Step, r: Received)
    requires step.Continue? && StepOver(s, g, controls, limits) == step
    requires Receive(step.rest, step.fragment, step.controls, limits) == r
    ensures Receive(s, g, controls, limits) == Received(r.outcome, step.pongs + r.pongs)
  {
    hide StepOver;
  }

  /** 81: a text message in one frame. */
  lemma WholeText(payload: seq<byte>, rest: seq<byte>, controls: nat, limits: Settings)
    requires |payload| <= 125 && |payload| <= limits.capacity
    ensures Receive([0x81, |payload|] + payload + rest, NO_FRAGMENT, controls, limits)
         == Received(if Utf8.IsUtf8(payload) then Delivered(Text, payload, rest, NO_FRAGMENT)
                     else Failed(1007, InvalidNetworkResponse, 0), [])
  {
    hide StepOver, Utf8.IsUtf8, Receive;
    var head: seq<byte> := [0x81, |payload|];
    var h := Header(true, Text, |payload|, 2);
    assert DecodeHeader(head) == Known(h);
    hide DecodeHeader;
    var s := head + payload + rest;
    ShortFrame(s, head, h, payload, rest, NO_FRAGMENT, controls, limits);
    assert [] + payload == payload;
    Stops(s, NO_FRAGMENT, controls, limits, OnMessage(Text, payload, rest));
  }

  /** 82: a binary message in one frame. */
  lemma WholeBinary(payload: seq<byte>, rest: seq<byte>, controls: nat, limits: Settings)
    requires |payload| <= 125 && |payload| <= limits.capacity
    ensures Receive([0x82, |payload|] + payload + rest, NO_FRAGMENT, controls, limits)
         == Received(Delivered(Binary, payload, rest, NO_FRAGMENT), [])
  {
    hide StepOver, Utf8.IsUtf8, Receive;
    var head: seq<byte> := [0x82, |payload|];
    var h := Header(true, Binary, |payload|, 2);
    assert DecodeHeader(head) == Known(h);
    hide DecodeHeader;
    var s := head + payload + rest;
    ShortFrame(s, head, h, payload, rest, NO_FRAGMENT, controls, limits);
    assert [] + payload == payload;
    Stops(s, NO_FRAGMENT, controls, limits, OnMessage(Binary, payload, rest));
  }

  /** 89: a ping. It is answered if the answer fits, or it goes to the caller, inside a message without its payload. */
  lemma WholePing(payload: seq<byte>, rest: seq<byte>, g: Fragment, controls: nat, limits: Settings)
    requires |payload| <= 125 && controls < 100
    ensures Receive([0x89, |payload|] + payload + rest, g, controls, limits)
         == if !limits.autoReply then
              Received(if g.open then Delivered(Ping, [], rest, g)
                       else if |payload| > limits.capacity then OutputTooSmall(|payload|)
                       else Delivered(Ping, payload, rest, g), [])
            else if 6 + |payload| > limits.room then Received(PongTooLarge(|payload|, g), [])
            else var r := Receive(rest, g, controls + 1, limits); Received(r.outcome, [payload] + r.pongs)
  {
    hide StepOver, Receive;
    var head: seq<byte> := [0x89, |payload|];
    var h := Header(true, Ping, |payload|, 2);
    assert DecodeHeader(head) == Known(h);
    hide DecodeHeader;
    var s := head + payload + rest;
    ShortFrame(s, head, h, payload, rest, g, controls, limits);
    var step := OnPing(payload, rest, g, controls, limits);
    if step.Stop? {
      Stops(s, g, controls, limits, step.outcome);
    } else {
      GoesOn(s, g, controls, limits, step, Receive(rest, g, controls + 1, limits));
    }
  }

  /** 8a: a pong. */
  lemma WholePong(payload: seq<byte>, rest: seq<byte>, g: Fragment, controls: nat, limits: Settings)
    requires |payload| <= 125 && controls < 100
    ensures Receive([0x8a, |payload|] + payload + rest, g, controls, limits)
         == if !limits.autoReply then
              Received(if g.open then Delivered(Pong, [], rest, g)
                       else if |payload| > limits.capacity then OutputTooSmall(|payload|)
                       else Delivered(Pong, payload, rest, g), [])
            else Receive(rest, g, controls + 1, limits)
  {
    hide StepOver, Receive;
    var head: seq<byte> := [0x8a, |payload|];
    var h := Header(true, Pong, |payload|, 2);
    assert DecodeHeader(head) == Known(h);
    hide DecodeHeader;
    var s := head + payload + rest;
    ShortFrame(s, head, h, payload, rest, g, controls, limits);
    var step := OnPong(payload, rest, g, controls, limits);
    if step.Stop? {
      Stops(s, g, controls, limits, step.outcome);
    } else {
      var r := Receive(rest, g, controls + 1, limits);
      GoesOn(s, g, controls, limits, step, r);
      assert [] + r.pongs == r.pongs;
    }
  }

  /** A text message in two frames with a ping between them, which is answered with its own payload. */
  lemma TwoFrames()
    ensures Receive([0x01, 0x03] + [0x48, 0x65, 0x6c] + ([0x89, 0x05] + HELLO + ([0x80, 0x02] + [0x6c, 0x6f])),
                    NO_FRAGMENT, 0, LIMITS)
         == Received(Delivered(Text, HELLO, [], NO_FRAGMENT), [HELLO])
  {
    hide DecodeHeader, StepOver, Receive;
    Headers();
    var hel: seq<byte> := [0x48, 0x65, 0x6c];
    var g := Fragment(true, Text, hel);
    var rest := [0x89, 0x05] + HELLO + ([0x80, 0x02] + [0x6c, 0x6f]);
    var s := [0x01, 0x03] + hel + rest;
    ShortFrame(s, [0x01, 0x03], Header(false, Text, 3, 2), hel, rest, NO_FRAGMENT, 0, LIMITS);
    assert [] + hel == hel;
    PingAndRest();
    GoesOn(s, NO_FRAGMENT, 0, LIMITS, Continue([], rest, g, 0),
           Received(Delivered(Text, HELLO, [], NO_FRAGMENT), [HELLO]));
  }

  lemma PingAndRest()
    ensures Receive([0x89, 0x05] + HELLO + ([0x80, 0x02] + [0x6c, 0x6f]), Fragment(true, Text, [0x48, 0x65, 0x6c]), 0,
                    LIMITS)
         == Received(Delivered(Text, HELLO, [], NO_FRAGMENT), [HELLO])
  {
    hide DecodeHeader, StepOver, Receive;
    Headers();
    LastFrame();
    var g := Fragment(true, Text, [0x48, 0x65, 0x6c]);
    var rest := [0x80, 0x02] + [0x6c, 0x6f];
    var s := [0x89, 0x05] + HELLO + rest;
    ShortFrame(s, [0x89, 0x05], Header(true, Ping, 5, 2), HELLO, rest, g, 0, LIMITS);
    GoesOn(s, g, 0, LIMITS, Continue([HELLO], rest, g, 1), Received(Delivered(Text, HELLO, [], NO_FRAGMENT), []));
  }

  lemma LastFrame()
    ensures Receive([0x80, 0x02] + [0x6c, 0x6f], Fragment(true, Text, [0x48, 0x65, 0x6c]), 1, LIMITS)
         == Received(Delivered(Text, HELLO, [], NO_FRAGMENT), [])
  {
    hide DecodeHeader, StepOver, Utf8.IsUtf8, Receive;
    Headers();
    AsciiIsUtf8(HELLO);
    var g := Fragment(true, Text, [0x48, 0x65, 0x6c]);
    var s := [0x80, 0x02] + [0x6c, 0x6f];
    assert s == [0x80, 0x02] + [0x6c, 0x6f] + [] && g.partial + [0x6c, 0x6f] == HELLO;
    ShortFrame(s, [0x80, 0x02], Header(true, Continuation, 2, 2), [0x6c, 0x6f], [], g, 1, LIMITS);
    Stops(s, g, 1, LIMITS, Delivered(Text, HELLO, [], NO_FRAGMENT));
  }

  /** A Close frame with status 1000, and one with status 1005, which is not for the wire. */
  lemma ClosingFrames()
    ensures Receive([0x88, 0x02] + [0x03, 0xe8] + [], NO_FRAGMENT, 0, LIMITS)
         == Received(PeerClosed([0x03, 0xe8], []), [])
    ensures Receive([0x88, 0x02] + [0x03, 0xed] + [], NO_FRAGMENT, 0, LIMITS)
         == Received(Failed(1002, InvalidNetworkResponse, 0), [])
  {
    hide DecodeHeader, StepOver, Utf8.IsUtf8, Receive;
    Headers();
    AsciiIsUtf8([]);
    ClosingFrame([0x03, 0xe8], [], NO_FRAGMENT, 0, LIMITS);
    ClosingFrame([0x03, 0xed], [], NO_FRAGMENT, 0, LIMITS);
  }

  /** 88 and two bytes of payload, behind anything. */
  lemma ClosingFrame(payload: seq<byte>, rest: seq<byte>, g: Fragment, controls: nat, limits: Settings)
    requires |payload| == 2
    ensures Receive([0x88, 0x02] + payload + rest, g, controls, limits)
         == Received(if !IsValidCloseStatus(payload[0] as int * 256 + payload[1]) then
                       Failed(1002, InvalidNetworkResponse, 0)
                     else if limits.room < 8 then EchoTooLarge(2) else PeerClosed(payload, rest), [])
  {
    hide DecodeHeader, StepOver, Utf8.IsUtf8, Receive;
    Headers();
    AsciiIsUtf8([]);
    TwoByteValue(payload);
    assert payload[..2] == payload && payload[2..] == [];
    var s := [0x88, 0x02] + payload + rest;
    ShortFrame(s, [0x88, 0x02], Header(true, Close, 2, 2), payload, rest, g, controls, limits);
    Stops(s, g, controls, limits, OnClose(payload, rest, limits));
  }

  /** The statuses that may stand in a Close frame: section 7.4. */
  lemma CloseStatuses(code: nat)
    ensures IsValidCloseStatus(code)
       <==> code in {1000, 1001, 1002, 1003, 1007, 1008, 1009, 1010, 1011, 1012, 1013, 1014} || 3000 <= code < 5000
  {
  }

  // ---- Failures ----

  /** 1002: a frame that is malformed, or that does not continue what is in progress. */
  lemma ProtocolErrors(partial: seq<byte>)
    ensures Receive([0x83, 0x00], NO_FRAGMENT, 0, LIMITS) == Received(Failed(1002, InvalidNetworkResponse, 0), [])
    ensures Receive([0x80, 0x02], NO_FRAGMENT, 0, LIMITS) == Received(Failed(1002, InvalidNetworkResponse, 0), [])
    ensures Receive([0x81, 0x05], Fragment(true, Text, partial), 0, LIMITS)
         == Received(Failed(1002, InvalidNetworkResponse, 0), [])
  {
    Headers();
    Refusals();
    hide DecodeHeader;
  }

  /** 1007: a text message that is not UTF-8. */
  lemma InvalidText()
    ensures Receive([0x81, 0x01] + [0xff] + [], NO_FRAGMENT, 0, LIMITS)
         == Received(Failed(1007, InvalidNetworkResponse, 0), [])
  {
    hide Receive;
    assert !Utf8.Accepts([0xff]);
    hide Utf8.IsUtf8;
    Utf8.AcceptsExactlyUtf8([0xff]);
    WholeText([0xff], [], 0, LIMITS);
  }

  /** 1008: a control frame behind a hundred others. */
  lemma TooManyControls(controls: nat)
    ensures Receive([0x89, 0x05] + HELLO, NO_FRAGMENT, controls, LIMITS)
         == if controls < 100 then Received(Starved, [HELLO])
            else Received(Failed(1008, InvalidNetworkResponse, 0), [])
  {
    hide DecodeHeader, StepOver, Receive;
    Headers();
    var s := [0x89, 0x05] + HELLO;
    assert s == [0x89, 0x05] + HELLO + [];
    ShortFrame(s, [0x89, 0x05], Header(true, Ping, 5, 2), HELLO, [], NO_FRAGMENT, controls, LIMITS);
    if controls < 100 {
      NothingLeft(controls + 1);
      GoesOn(s, NO_FRAGMENT, controls, LIMITS, Continue([HELLO], [], NO_FRAGMENT, controls + 1), Received(Starved, []));
    } else {
      Stops(s, NO_FRAGMENT, controls, LIMITS, Failed(1008, InvalidNetworkResponse, 0));
    }
  }

  lemma NothingLeft(controls: nat)
    ensures Receive([], NO_FRAGMENT, controls, LIMITS) == Received(Starved, [])
  {
  }

  /** 1009: a message that does not fit the output; its length is reported. */
  lemma MessageTooBig()
    ensures Receive([0x82, 0x11], NO_FRAGMENT, 0, LIMITS) == Received(Failed(1009, BufferTooSmall, 17), [])
  {
    assert DecodeHeader([0x82, 0x11]) == Known(Header(true, Binary, 17, 2));
    hide DecodeHeader;
  }

  // ---- The client ----

  /** What a client makes of a text message in one frame. */
  method TextArrives(client: Client, frameBuffer: array<byte>, output: array<byte>, ghost payload: seq<byte>,
                     ghost rest: seq<byte>)
    returns (status: Status, opcode: Opcode, bytesReceived: nat)
    requires client.Valid() && client.transport.faults == [] && !client.receiveFragmentOpen
    requires frameBuffer != output && client.bufferedFrame != frameBuffer && client.bufferedFrame != output
    requires client.CanReceive(frameBuffer, output) && |payload| <= 125 && |payload| <= output.Length
    requires client.Pending() == [0x81, |payload|] + payload + rest
    modifies client, client.transport, client.bufferedFrame, frameBuffer, output
    ensures client.Valid()
    ensures Utf8.IsUtf8(payload) ==>
              && status == Success && opcode == Text && bytesReceived == |payload| <= output.Length
              && output[..bytesReceived] == payload && client.Pending() == rest && client.connected
              && Frames(client.log) == Frames(old(client.log))
    ensures !Utf8.IsUtf8(payload) ==>
              && status == InvalidNetworkResponse && !client.connected
              && Frames(client.log) == Frames(old(client.log))
                                       + if frameBuffer.Length >= 8 then [Frame(true, Close, [0x03, 0xef])] else []
  {
    hide Utf8.IsUtf8, Receive, Recorded, Untorn, TextsComplete, InStep, CloseSeen, Frames, StepOver;
    ghost var limits := Settings(output.Length, frameBuffer.Length, true);
    WholeText(payload, rest, 0, limits);
    NothingPartial(output[..]);
    status, opcode, bytesReceived := client.ReceiveMessage(frameBuffer, output, true);
    NoPongs(Frames(old(client.log)));
    RefusalFrame(frameBuffer.Length);
  }

  lemma NothingPartial(output: seq<byte>)
    ensures PartialIn(0, output) == []
  {
  }

  lemma NoPongs(fs: seq<Frame>)
    ensures fs + PongFrames([]) == fs && fs + [] == fs
  {
  }

  lemma RefusalFrame(room: nat)
    ensures CloseFrames(StatusPayload(1007), room) == if room >= 8 then [Frame(true, Close, [0x03, 0xef])] else []
  {
  }

  /** How closing ends behind a valid Close frame. */
  lemma CloseAnswers(s: seq<byte>, payload: seq<byte>, timedOut: bool, endStatus: Status)
    requires CloseAhead(s, payload) && IsValidClosePayload(payload)
    ensures CloseAnswer(FindClose(s), timedOut, endStatus, Success) == Success
    ensures CloseAnswer(FindClose(s), timedOut, endStatus, ConnectionReset) == Success
    ensures CloseAnswer(FindClose(s), timedOut, endStatus, Unsuccessful) == Unsuccessful
  {
    hide FindClose, CloseAhead, IsValidClosePayload;
    FindsFirstClose(s, payload);
  }

  /** The errors that end a connection: all but these. */
  lemma OtherStatuses(status: Status)
    ensures IsTerminal(status)
       <==> status !in {Success, InvalidParameter, InvalidSignature, InvalidDeviceState, InvalidNetworkResponse,
                        BufferTooSmall, IntegerOverflow, NotSupported, InsufficientResources, MoreProcessingRequired,
                        Unsuccessful}
  {
  }

  lemma NothingToDecode()
    ensures DecodeHeader([]) == More
  {
  }

  /** And without one. */
  lemma CloseMisses(timedOut: bool, endStatus: Status)
    ensures CloseAnswer(FindClose([]), timedOut, InvalidNetworkResponse, Success)
         == if timedOut then Success else InvalidNetworkResponse
    ensures CloseAnswer(FindClose([]), timedOut, ConnectionReset, Success) == Success
    ensures CloseAnswer(FindClose([0x83, 0x00]), false, endStatus, Success) == InvalidNetworkResponse
  {
    Refusals();
    hide DecodeHeader, IsValidClosePayload;
    assert FindClose([0x83, 0x00]) == BadStream;
    NothingToDecode();
  }

  // ---- To the server ----

  /** One frame for each opcode, masked with the key of the example. */
  lemma ClientFrames()
    ensures ClientFrame(Frame(true, Text, HELLO), KEY)
         == [0x81, 0x85, 0x37, 0xfa, 0x21, 0x3d, 0x7f, 0x9f, 0x4d, 0x51, 0x58]
    ensures ClientFrame(Frame(true, Binary, HELLO), KEY)
         == [0x82, 0x85, 0x37, 0xfa, 0x21, 0x3d, 0x7f, 0x9f, 0x4d, 0x51, 0x58]
    ensures ClientFrame(Frame(false, Continuation, HELLO), KEY)
         == [0x00, 0x85, 0x37, 0xfa, 0x21, 0x3d, 0x7f, 0x9f, 0x4d, 0x51, 0x58]
    ensures ClientFrame(Frame(true, Ping, HELLO), KEY)
         == [0x89, 0x85, 0x37, 0xfa, 0x21, 0x3d, 0x7f, 0x9f, 0x4d, 0x51, 0x58]
    ensures ClientFrame(Frame(true, Pong, HELLO), KEY)
         == [0x8a, 0x85, 0x37, 0xfa, 0x21, 0x3d, 0x7f, 0x9f, 0x4d, 0x51, 0x58]
    ensures ClientFrame(Frame(true, Close, [0x03, 0xe8]), KEY) == [0x88, 0x82, 0x37, 0xfa, 0x21, 0x3d, 0x34, 0x12]
  {
    hide Mask;
    Masked();
    MaskedStatus();
  }

  /** What a server makes of the masked frame of the example. */
  lemma ServerReads(rest: seq<byte>)
    ensures ReadClientFrame([0x81, 0x85, 0x37, 0xfa, 0x21, 0x3d, 0x7f, 0x9f, 0x4d, 0x51, 0x58] + rest)
         == Read(Frame(true, Text, HELLO), rest)
  {
    hide ReadClientFrame, ClientFrame;
    ClientFrames();
    ClientFrameRoundTrip(Frame(true, Text, HELLO), KEY, rest);
  }

  lemma MaskedStatus()
    ensures Mask([0x03, 0xe8], KEY) == [0x34, 0x12]
  {
    hide XorByte;
    Mask0337();
    Maske8fa();
  }

  lemma Masked()
    ensures Mask(HELLO, KEY) == [0x7f, 0x9f, 0x4d, 0x51, 0x58]
  {
    hide XorByte;
    Mask4837();
    Mask65fa();
    Mask6c21();
    Mask6c3d();
    Mask6f37();
  }

  lemma Mask4837()
    ensures XorByte(0x48, 0x37) == 0x7f
  {
    assert BitXor(1, 0) == 1;
    assert BitXor(2, 1) == 3;
    assert BitXor(4, 3) == 7;
    assert BitXor(9, 6) == 15;
    assert BitXor(18, 13) == 31;
    assert BitXor(36, 27) == 63;
    assert BitXor(72, 55) == 127;
  }

  lemma Mask65fa()
    ensures XorByte(0x65, 0xfa) == 0x9f
  {
    assert BitXor(0, 1) == 1;
    assert BitXor(1, 3) == 2;
    assert BitXor(3, 7) == 4;
    assert BitXor(6, 15) == 9;
    assert BitXor(12, 31) == 19;
    assert BitXor(25, 62) == 39;
    assert BitXor(50, 125) == 79;
    assert BitXor(101, 250) == 159;
  }

  lemma Mask6c21()
    ensures XorByte(0x6c, 0x21) == 0x4d
  {
    assert BitXor(1, 0) == 1;
    assert BitXor(3, 1) == 2;
    assert BitXor(6, 2) == 4;
    assert BitXor(13, 4) == 9;
    assert BitXor(27, 8) == 19;
    assert BitXor(54, 16) == 38;
    assert BitXor(108, 33) == 77;
  }

  lemma Mask6c3d()
    ensures XorByte(0x6c, 0x3d) == 0x51
  {
    assert BitXor(1, 0) == 1;
    assert BitXor(3, 1) == 2;
    assert BitXor(6, 3) == 5;
    assert BitXor(13, 7) == 10;
    assert BitXor(27, 15) == 20;
    assert BitXor(54, 30) == 40;
    assert BitXor(108, 61) == 81;
  }

  lemma Mask6f37()
    ensures XorByte(0x6f, 0x37) == 0x58
  {
    assert BitXor(1, 0) == 1;
    assert BitXor(3, 1) == 2;
    assert BitXor(6, 3) == 5;
    assert BitXor(13, 6) == 11;
    assert BitXor(27, 13) == 22;
    assert BitXor(55, 27) == 44;
    assert BitXor(111, 55) == 88;
  }

  lemma Mask0337()
    ensures XorByte(0x03, 0x37) == 0x34
  {
    assert BitXor(0, 1) == 1;
    assert BitXor(0, 3) == 3;
    assert BitXor(0, 6) == 6;
    assert BitXor(0, 13) == 13;
    assert BitXor(1, 27) == 26;
    assert BitXor(3, 55) == 52;
  }

  lemma Maske8fa()
    ensures XorByte(0xe8, 0xfa) == 0x12
  {
    assert BitXor(1, 1) == 0;
    assert BitXor(3, 3) == 0;
    assert BitXor(7, 7) == 0;
    assert BitXor(14, 15) == 1;
    assert BitXor(29, 31) == 2;
    assert BitXor(58, 62) == 4;
    assert BitXor(116, 125) == 9;
    assert BitXor(232, 250) == 18;
  }
}
