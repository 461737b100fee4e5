/**
 The client of src/KernelHttpLib/client/WebSocketClient.cpp over a socket or TLS: its flags, its
 receive buffer, the fragments in both directions and the close handshake.
 */
module WebSocketClient {
  import opened Bits
  import opened Bytes
  import opened Memory
  import opened Transport
  import opened WebSocketFrame
  import opened WebSocketMessages
  import Utf8

  /** A Close frame is the last frame of a connection. */
  ghost predicate CloseIsLast(log: seq<Sent>)
  {
    forall i :: 0 <= i < |log| - 1 ==> log[i].frame.opcode != Close
  }

  predicate CloseSeen(log: seq<Sent>)
  {
    log != [] && log[|log| - 1].frame.opcode == Close
  }

  /** What the frames sent so far add up to. */
  function Sending(log: seq<Sent>): Assembly
  {
    Assemble(Frames(log))
  }

  /** The control frames sent so far. */
  function SentControls(log: seq<Sent>): seq<Frame>
  {
    Controls(Frames(log))
  }

  lemma SendingNext(log: seq<Sent>, s: Sent)
    ensures Sending(log + [s]) == Absorb(Sending(log), s.frame)
    ensures !IsControl(s.frame.opcode) ==> SentControls(log + [s]) == SentControls(log)
  {
    hide Absorb;
    assert Frames(log + [s]) == Frames(log) + [s.frame];
    AbsorbNext(NOTHING_YET, Frames(log), s.frame);
    ControlsNext(Frames(log), s.frame);
  }

  lemma ControlKeepsSending(log: seq<Sent>, s: Sent)
    requires IsControl(s.frame.opcode) && s.frame.fin
    ensures Sending(log + [s]) == Sending(log)
  {
    SendingNext(log, s);
  }

  ghost predicate WellSent(log: seq<Sent>)
  {
    forall i :: 0 <= i < |log| ==> Allowed(log[i].frame.fin, log[i].frame.opcode, |log[i].frame.payload|)
  }

  /** The wire is the handshake, these frames and at most one frame more, whole or in part. */
  ghost predicate Recorded(wire: seq<byte>, preface: seq<byte>, log: seq<Sent>, history: seq<seq<Sent>>)
  {
    && preface + Wire(log) <= wire && Begun(wire, preface + Wire(log)) && WellSent(log) && CloseIsLast(log)
    && forall i :: 0 <= i < |history| ==> CloseIsLast(history[i])
  }

  /** Behind `done` there is at most a front part of one frame. */
  ghost predicate Begun(wire: seq<byte>, done: seq<byte>)
  {
    exists s: Sent :: MayFollow(s) && wire <= done + ClientFrame(s.frame, s.key)
  }

  predicate MayFollow(s: Sent)
  {
    Allowed(s.frame.fin, s.frame.opcode, |s.frame.payload|)
  }

  lemma NothingBegun(wire: seq<byte>)
    ensures Begun(wire, wire)
  {
    hide ClientFrame;
    var s := Sent(Frame(true, Binary, []), [0, 0, 0, 0]);
    assert MayFollow(s) && wire <= wire + ClientFrame(s.frame, s.key);
  }

  /** Every frame that was begun is complete. */
  predicate Untorn(wire: seq<byte>, preface: seq<byte>, log: seq<Sent>)
  {
    wire == preface + Wire(log)
  }

  lemma RecordNext(wire: seq<byte>, preface: seq<byte>, log: seq<Sent>, history: seq<seq<Sent>>, s: Sent)
    requires Recorded(wire, preface, log, history) && !CloseSeen(log) && Untorn(wire, preface, log)
    requires Allowed(s.frame.fin, s.frame.opcode, |s.frame.payload|)
    ensures Recorded(wire + ClientFrame(s.frame, s.key), preface, log + [s], history)
    ensures Untorn(wire + ClientFrame(s.frame, s.key), preface, log + [s])
  {
    hide ClientFrame;
    WireNext(log, s);
    NothingBegun(wire + ClientFrame(s.frame, s.key));
    assert preface + Wire(log) + ClientFrame(s.frame, s.key) == preface + (Wire(log) + ClientFrame(s.frame, s.key));
  }

  /** The bytes of this frame were sent, and nothing else. */
  predicate Added(wire: seq<byte>, wire': seq<byte>, f: Frame, key: Key)
  {
    wire <= wire' && Represents(wire'[|wire|..], f, key)
  }

  lemma AddedFrame(wire: seq<byte>, f: Frame, key: Key)
    requires |f.payload| <= MAX_PAYLOAD
    ensures Added(wire, wire + ClientFrame(f, key), f, key)
  {
    hide ClientFrame, Represents;
    FrameInNumbers(f, key, ClientFrame(f, key));
    assert (wire + ClientFrame(f, key))[|wire|..] == ClientFrame(f, key);
  }

  /** A write that took only a part leaves the record as it was. */
  lemma RecordTorn(wire: seq<byte>, wire': seq<byte>, preface: seq<byte>, log: seq<Sent>, history: seq<seq<Sent>>,
                   s: Sent)
    requires Recorded(wire, preface, log, history) && Untorn(wire, preface, log)
    requires MayFollow(s) && wire <= wire' <= wire + ClientFrame(s.frame, s.key)
    ensures Recorded(wire', preface, log, history)
  {
    hide ClientFrame;
  }

  /** The send side agrees with what is on the wire. */
  ghost predicate InStep(log: seq<Sent>, open: bool, opcode: Opcode, text: Utf8.State)
  {
    var a := Sending(log);
    && a.Assembly? && a.open == open
    && (open ==> a.current.opcode == opcode && IsData(opcode))
    && (open && opcode == Text ==>
          Utf8.Run(Utf8.START, a.current.payload) == Utf8.Valid(text))
  }

  /** Every completed text message is UTF-8. */
  ghost predicate TextsComplete(log: seq<Sent>)
  {
    Sending(log).Assembly? && TextIsUtf8(Sending(log).done)
  }

  /** A message or a piece of one is on the wire: both invariants hold for the new state. */
  lemma StepAfterSend(log: seq<Sent>, log': seq<Sent>, open: bool, opcode: Opcode, text: Utf8.State,
                      op: Opcode, message: seq<byte>, fin: bool, text': Utf8.State)
    requires InStep(log, open, opcode, text) && TextsComplete(log)
    requires (op == Continuation) == open && (op == Continuation || IsData(op))
    requires Sending(log') == Extend(Sending(log), op, message, fin)
    requires op == Text || (open && opcode == Text) ==>
               var o := Utf8.Run(if op == Text then Utf8.START else text, message);
               o == Utf8.Valid(text') && (fin ==> Utf8.Ended(o))
    ensures TextsComplete(log')
    ensures if fin then InStep(log', false, Continuation, Utf8.START)
            else InStep(log', true, if open then opcode else op, text')
  {
    hide Sending, Utf8.IsUtf8, Utf8.Run;
    var a := Sending(log);
    if open {
      Utf8.RunConcat(Utf8.START, a.current.payload, message);
    }
    var whole := if open then a.current.payload + message else message;
    if fin && (op == Text || (open && opcode == Text)) {
      Utf8.AcceptsExactlyUtf8(whole);
    }
  }

  /** `MaxPayloadForFrameBuffer` */
  function MaxPayload(frameBufferLength: nat): (n: nat)
    ensures frameBufferLength > 14 ==> n + 14 == frameBufferLength
    ensures frameBufferLength <= 14 ==> n == 0
  {
    if frameBufferLength > MAX_HEADER then frameBufferLength - MAX_HEADER else 0
  }

  /** max(1, ceil(n / limit)) */
  function FrameCount(n: nat, limit: nat): nat
    requires limit > 0 || n == 0
  {
    if n == 0 then 1 else (n + limit - 1) / limit
  }

  lemma LastChunk(n: nat, limit: nat, count: nat)
    requires limit > 0 && count * limit < n <= count * limit + limit
    ensures FrameCount(n, limit) == count + 1
  {
    assert (count + 1) * limit == count * limit + limit;
    QuotientIsUnique(n + limit - 1, limit, count + 1, n - 1 - count * limit);
  }

  /** Frames and offset agree: full chunks so far, and at the end as few as possible. */
  ghost predicate Counted(n: nat, limit: nat, offset: nat, count: nat, any: bool)
    requires limit > 0 || n == 0
  {
    && (!any || offset < n ==> offset == count * limit)
    && (any && offset == n ==> count == FrameCount(n, limit))
  }

  /** The part of the message that went out extends what was there before. */
  ghost predicate Progressed(a: Assembly, op: Opcode, message: seq<byte>, offset: nat, fin: bool, any: bool, log: seq<Sent>)
    requires offset <= |message|
  {
    Continues(a, op) ==>
      Sending(log) == if any then Extend(a, op, message[..offset], fin && offset == |message|) else a
  }

  lemma ChunkFits(fin: bool, op: Opcode, chunk: seq<byte>, n: nat, room: nat)
    requires !IsControl(op) && |chunk| <= MaxPayload(room) && (n > 0 ==> |chunk| > 0) && (n == 0 ==> chunk == [])
    ensures room <= MAX_PAYLOAD ==>
              EncodeStatus(Frame(fin, op, chunk), room) == if n == 0 && room < 6 then BufferTooSmall else Success
  {
  }

  /** This piece of text may follow, and may end the message if it is the last. */
  predicate TextAccepted(text: Utf8.State, message: seq<byte>, fin: bool)
  {
    var o := Utf8.Run(text, message);
    o.Valid? && (fin ==> Utf8.Ended(o))
  }

  /** What one turn of the splitter does to the offset. */
  lemma NextChunk(n: nat, limit: nat, count: nat, offset: nat)
    requires offset <= n && (limit > 0 || n == 0) && offset == count * limit && (offset < n || offset == 0)
    requires offset == n ==> count == 0
    ensures n - offset <= limit ==> FrameCount(n, limit) == count + 1
    ensures n - offset > limit ==> offset + limit == (count + 1) * limit
  {
    if 0 < n - offset <= limit {
      LastChunk(n, limit, count);
    }
  }

  lemma ContinuesInStep(log: seq<Sent>, partWay: bool, open: bool, opcode: Opcode, text: Utf8.State, op: Opcode)
    requires !partWay ==> InStep(log, open, opcode, text)
    requires !IsControl(op) && (op == Continuation) == open
    ensures !partWay ==> Continues(Sending(log), op)
  {
    hide Sending;
  }

  lemma StalledKeepsTexts(log: seq<Sent>, log': seq<Sent>)
    ensures TextsComplete(log) && (log == log' || Stalled(Sending(log), Sending(log'))) ==> TextsComplete(log')
  {
    hide Sending, TextIsUtf8;
  }

  /** The three send fields after a message or a piece of one. */
  lemma MessageSent(partWay: bool, log: seq<Sent>, log': seq<Sent>, open: bool, opcode: Opcode, text: Utf8.State,
                    op: Opcode, message: seq<byte>, fin: bool, next: Utf8.State,
                    open': bool, opcode': Opcode, text': Utf8.State)
    requires !partWay ==> InStep(log, open, opcode, text) && TextsComplete(log)
    requires !partWay ==> Sending(log') == Extend(Sending(log), op, message, fin)
    requires (op == Continuation) == open && (op == Continuation || IsData(op))
    requires op == Text || (open && opcode == Text) ==>
               && (var o := Utf8.Run(if op == Text then Utf8.START else text, message);
                   o == Utf8.Valid(next) && (fin ==> Utf8.Ended(o)))
               && (!fin ==> text' == next)
    requires open' == !fin && (!fin ==> opcode' == if open then opcode else op)
    ensures !partWay ==> TextsComplete(log') && InStep(log', open', opcode', text')
  {
    hide Sending, Utf8.Run, TextsComplete;
    if !partWay {
      StepAfterSend(log, log', open, opcode, text, op, message, fin, next);
    }
  }

  predicate Continues(a: Assembly, op: Opcode)
  {
    a.Assembly? && !IsControl(op) && (op == Continuation) == a.open
  }

  /** Some frames of a message went out, but not the last one. */
  predicate Stalled(before: Assembly, after: Assembly)
  {
    before.Assembly? ==> after.Assembly? && after.done == before.done
  }

  /** The next chunk of a message continues what the earlier ones began. */
  lemma ChunkSent(a: Assembly, op: Opcode, sent: seq<byte>, chunk: seq<byte>, fin: bool, any: bool)
    requires Continues(a, op) && (!any ==> sent == [])
    ensures var b := if any then Extend(a, op, sent, false) else a;
            Absorb(b, Frame(fin, if any then Continuation else op, chunk)) == Extend(a, op, sent + chunk, fin)
  {
    if any {
      ExtendTwice(a, op, sent, chunk, fin);
    } else {
      assert sent + chunk == chunk;
    }
  }

  lemma ControlKeepsTexts(log: seq<Sent>, s: Sent)
    requires IsControl(s.frame.opcode) && s.frame.fin
    ensures TextsComplete(log + [s]) == TextsComplete(log)
  {
    hide Sending, TextIsUtf8;
    ControlKeepsSending(log, s);
  }

  lemma ControlKeepsStep(log: seq<Sent>, s: Sent, open: bool, opcode: Opcode, text: Utf8.State)
    requires IsControl(s.frame.opcode) && s.frame.fin
    ensures InStep(log + [s], open, opcode, text) == InStep(log, open, opcode, text)
  {
    hide Sending;
    ControlKeepsSending(log, s);
  }

  lemma FramesNext(log: seq<Sent>, s: Sent)
    ensures Frames(log + [s]) == Frames(log) + [s.frame]
  {
  }

  function StatusPayload(code: nat): (p: seq<byte>)
    requires code < 0x1_0000
    ensures |p| == 2 && p[0] as int * 256 + p[1] == code
  {
    [code / 256, code % 256]
  }

  /** How sending a Close frame ends, and what it puts on the wire, when writes succeed. */
  function CloseStatus(payload: seq<byte>, room: nat): Status
  {
    if room == 0 then InvalidParameter else EncodeStatus(Frame(true, Close, payload), room)
  }

  function CloseFrames(payload: seq<byte>, room: nat): seq<Frame>
  {
    if CloseStatus(payload, room) == Success then [Frame(true, Close, payload)] else []
  }

  lemma CloseRoom(payload: seq<byte>, room: nat)
    ensures CloseStatus(payload, room) == if room == 0 then InvalidParameter else EncodeStatus(Frame(true, Close, payload), room)
    ensures room == 0 ==> CloseStatus(payload, room) == InvalidParameter
    ensures |payload| <= MAX_CONTROL_PAYLOAD ==>
              (CloseStatus(payload, room) == Success <==> FrameRoom(|payload|) <= room)
  {
  }

  // ---- Receiving ----

  /** A client with nothing buffered is about to read one piece that holds a whole frame. */
  ghost predicate OnePiece(pieces: seq<seq<byte>>, buffered: nat, room: nat, open: bool, assembled: nat, capacity: nat)
  {
    && buffered == 0 && |pieces| > 0 && 0 < |pieces[0]| <= room
    && LookAhead(pieces[0], open, assembled, capacity).Whole?
  }

  lemma NothingToSee(open: bool, assembled: nat, capacity: nat)
    ensures LookAhead([], open, assembled, capacity) == NoFrame
  {
  }

  /** What a call can buffer at least: a frame that fills the output, or a control frame. */
  function ReceiveRoom(capacity: nat): nat
  {
    MAX_HEADER + if capacity < MAX_CONTROL_PAYLOAD then MAX_CONTROL_PAYLOAD else capacity
  }

  /** The answer to a ping does not fit the frame buffer. */
  predicate Overflows(step: Step)
  {
    step.Stop? && step.outcome.PongTooLarge?
  }

  datatype Fetched = Complete(header: Header, frameLength: nat) | Refused(code: nat, status: Status, reported: nat)
                   | Ended(status: Status)

  /** `TryDecodeCompleteFrame` and the checks that need no payload. */
  method Examine(data: seq<byte>, open: bool, assembled: nat, capacity: nat) returns (look: Look)
    ensures look == LookAhead(data, open, assembled, capacity)
  {
    hide DecodeHeader;
    TenBytesDecide(data);
    var status, header := DecodeFrameHeader(data);
    if status == MoreProcessingRequired {
      return NoFrame;
    }
    if status != Success {
      return Refuse(PROTOCOL_ERROR, InvalidNetworkResponse, 0);
    }
    var complete := header.payloadLength <= |data| - header.headerLength;
    var dataFrame := header.opcode == Text || header.opcode == Binary;
    if dataFrame && open {
      return Refuse(PROTOCOL_ERROR, InvalidNetworkResponse, 0);
    }
    if header.opcode == Continuation && !open {
      return Refuse(PROTOCOL_ERROR, InvalidNetworkResponse, 0);
    }
    if (dataFrame || header.opcode == Continuation) &&
       (assembled > capacity || header.payloadLength > capacity - assembled) {
      return Refuse(MESSAGE_TOO_BIG, BufferTooSmall, Saturate(assembled + header.payloadLength));
    }
    return if complete then Whole(header) else NoFrame;
  }

  /** The bytes of a message in progress, which are in the caller's buffer if it is large enough. */
  function PartialIn(assembled: nat, output: seq<byte>): (p: seq<byte>)
    ensures |p| == assembled
  {
    if assembled <= |output| then output[..assembled] else Zeros(assembled)
  }

  function PongFrames(pongs: seq<seq<byte>>): (fs: seq<Frame>)
    ensures |fs| == |pongs|
  {
    seq(|pongs|, i requires 0 <= i < |pongs| => Frame(true, Pong, pongs[i]))
  }

  /** What the end of a call puts on the wire. */
  function LastFrames(o: Outcome, room: nat): seq<Frame>
  {
    match o
    case Failed(code, _, _) => if code < 0x1_0000 then CloseFrames(StatusPayload(code), room) else []
    case PeerClosed(payload, _) => [Frame(true, Close, payload)]
    case _ => []
  }

  class Client {
    var transport: Connection
    var connected: bool
    var transportClosed: bool
    var closeSent: bool
    var closeReceived: bool
    var sendFragmentOpen: bool
    var sendFragmentOpcode: Opcode
    var sendText: Utf8.State
    var receiveFragmentOpen: bool
    var receiveFragmentOpcode: Opcode
    var receiveFragmentLength: nat
    var bufferedFrame: array<byte>
    var bufferedFrameLength: nat
    ghost var preface: seq<byte>            // what went out of the handshake request
    ghost var log: seq<Sent>                // the frames behind it
    ghost var partWay: bool                 // a send failed between two frames of one message
    ghost var history: seq<seq<Sent>>       // the frames of earlier connections

    ghost predicate Wired()
      reads this, transport
    {
      && Recorded(transport.wire, preface, log, history) && (transportClosed <==> !transport.open)
      && (connected || CloseSeen(log) || transport.faults == [] ==> Untorn(transport.wire, preface, log))
    }

    ghost predicate FragmentFields()
      reads this
    {
      if receiveFragmentOpen then IsData(receiveFragmentOpcode)
      else receiveFragmentOpcode == Continuation && receiveFragmentLength == 0
    }

    /** Kept at every step. */
    ghost predicate Core()
      reads this, transport
    {
      && Wired() && bufferedFrameLength <= bufferedFrame.Length && Utf8.Reachable(sendText)
      && (connected ==> !transportClosed && (CloseSeen(log) ==> closeSent))
      && (!partWay ==> TextsComplete(log))
    }

    /** Kept at every step of a connection that goes on. */
    ghost predicate Inv()
      reads this, transport
    {
      && Core() && FragmentFields()
      && (connected && !partWay ==> InStep(log, sendFragmentOpen, sendFragmentOpcode, sendText))
    }

    /** Holds between calls. */
    ghost predicate Valid()
      reads this, transport
    {
      && Inv()
      && (closeSent ==> !connected)
      && (!connected ==> transportClosed)
    }

    ghost function Buffered(): seq<byte>
      reads this, bufferedFrame
      requires bufferedFrameLength <= bufferedFrame.Length
    {
      bufferedFrame[..bufferedFrameLength]
    }

    /** The peer's bytes that no call has consumed. */
    ghost function Pending(): seq<byte>
      reads this, bufferedFrame, transport
      requires bufferedFrameLength <= bufferedFrame.Length
    {
      Buffered() + transport.Unread()
    }

    constructor ()
      ensures Valid() && !connected && history == [] && log == []
    {
      var t := new Connection([], ConnectionDisconnected, [], Success, 0);
      transport, connected, transportClosed := t, false, true;
      closeSent, closeReceived := false, false;
      sendFragmentOpen, sendFragmentOpcode, sendText := false, Continuation, Utf8.START;
      receiveFragmentOpen, receiveFragmentOpcode, receiveFragmentLength := false, Continuation, 0;
      bufferedFrame, bufferedFrameLength := new byte[0], 0;
      preface, log, partWay, history := [], [], false, [];
      NothingBegun([]);
      new;
      var ignored := transport.Shut();
    }

    // ---- Small helpers ----

    method ResetReceiveFragment()
      modifies this`receiveFragmentOpen, this`receiveFragmentOpcode, this`receiveFragmentLength
      ensures !receiveFragmentOpen && receiveFragmentOpcode == Continuation && receiveFragmentLength == 0
    {
      receiveFragmentOpen, receiveFragmentOpcode, receiveFragmentLength := false, Continuation, 0;
    }

    method ResetSendFragment()
      modifies this`sendFragmentOpen, this`sendFragmentOpcode, this`sendText
      ensures !sendFragmentOpen && Utf8.Reachable(sendText)
    {
      sendFragmentOpen, sendFragmentOpcode, sendText := false, Continuation, Utf8.START;
    }

    method CloseTransport() returns (status: Status)
      requires transportClosed <==> !transport.open
      modifies this`transportClosed, transport`open
      ensures transportClosed && !transport.open
      ensures status == if old(transportClosed) || IsTerminal(transport.closeStatus) then Success else transport.closeStatus
    {
      if transportClosed {
        return Success;
      }
      transportClosed := true;
      var closeStatus := transport.Shut();
      return if IsTerminal(closeStatus) then Success else closeStatus;
    }

    /** The three steps of every loss of the connection. */
    method Disconnect()
      requires Core()
      modifies this`connected, this`closeReceived, this`transportClosed, transport`open
      ensures Core() && !connected && closeReceived && transportClosed
    {
      hide Recorded, Untorn, TextsComplete, CloseSeen;
      connected := false;
      closeReceived := true;
      var closeStatus := CloseTransport();
    }

    // ---- Sending ----

    /** `SendRaw` for an encoded frame: it goes out whole, or the caller must give the connection up. */
    method SendEncoded(data: seq<byte>, ghost s: Sent) returns (status: Status)
      requires Wired() && connected && !transportClosed && !CloseSeen(log)
      requires data == ClientFrame(s.frame, s.key) && Allowed(s.frame.fin, s.frame.opcode, |s.frame.payload|)
      modifies this`log, transport`wire, transport`faults
      ensures Recorded(transport.wire, preface, log, history) && transport.wire <= old(transport.wire) + data
      ensures log == if status == Success then old(log) + [s] else old(log)
      ensures status == Success ==> transport.wire == old(transport.wire) + data
      ensures status == Success || !IsTerminal(status) || transport.faults == [] ==> Untorn(transport.wire, preface, log)
      ensures old(transport.faults) == [] ==> transport.faults == [] && status == Success
    {
      hide ClientFrame, Recorded, Untorn, Wire;
      var sent;
      status, sent := transport.Send(data);
      if status == Success && sent != |data| {
        status := ConnectionDisconnected;
      }
      RecordTorn(old(transport.wire), transport.wire, preface, log, history, s);
      if status == Success {
        assert data[..sent] == data;
        RecordNext(old(transport.wire), preface, log, history, s);
        log := log + [s];
      }
    }

    /** No frame is sent once a Close frame is on the wire. */
    method EncodeAndSendFrame(opcode: Opcode, payload: seq<byte>, frameBuffer: array<byte>, finalFragment: bool)
      returns (status: Status)
      requires Wired() && connected && !transportClosed && !CloseSeen(log)
      modifies this`connected, this`closeReceived, this`transportClosed, this`log
      modifies transport`wire, transport`faults, transport`open, frameBuffer
      ensures Wired()
      ensures status == Success ==>
                && |log| == |old(log)| + 1
                && log == old(log) + [Sent(Frame(finalFragment, opcode, payload), log[|old(log)|].key)]
                && Added(old(transport.wire), transport.wire, Frame(finalFragment, opcode, payload), log[|old(log)|].key)
      ensures status != Success ==>
                && log == old(log)
                && exists key: Key ::
                     transport.wire <= old(transport.wire) + ClientFrame(Frame(finalFragment, opcode, payload), key)
      ensures status != Success && IsTerminal(status) ==> !connected && closeReceived && transportClosed
      ensures !(status != Success && IsTerminal(status)) ==>
                connected && closeReceived == old(closeReceived) && !transportClosed
      ensures status == Success ==> EncodeStatus(Frame(finalFragment, opcode, payload), frameBuffer.Length) == Success
      ensures old(transport.faults) == [] ==>
                && transport.faults == []
                && status == EncodeStatus(Frame(finalFragment, opcode, payload), frameBuffer.Length)
    {
      hide ClientFrame, EncodeStatus, Recorded, Untorn, Added;
      var maskingKey: Key :| true;
      var frame := Frame(finalFragment, opcode, payload);
      var frameLength;
      status, frameLength := EncodeClientFrame(frame, maskingKey, frameBuffer);
      if status == Success {
        EncodedIsAllowed(frame, frameBuffer.Length);
        status := SendEncoded(frameBuffer[..frameLength], Sent(frame, maskingKey));
        AddedFrame(old(transport.wire), frame, maskingKey);
      }
      assert transport.wire <= old(transport.wire) + ClientFrame(frame, maskingKey);
      if status != Success && IsTerminal(status) {
        connected := false;
        closeReceived := true;
        var closeStatus := CloseTransport();
      }
    }

    /** What every sending method answers without a connection. */
    method NotConnected() returns (status: Status)
      ensures status == if transportClosed || closeSent || closeReceived then ConnectionDisconnected else InvalidParameter
    {
      return if transportClosed || closeSent || closeReceived then ConnectionDisconnected else InvalidParameter;
    }

    /** The answer of `SendControlFrame` when writes succeed. */
    ghost function ControlStatus(opcode: Opcode, payload: seq<byte>, room: nat): Status
      reads this
    {
      if !connected then
        if transportClosed || closeSent || closeReceived then ConnectionDisconnected else InvalidParameter
      else if |payload| > MAX_CONTROL_PAYLOAD || room == 0 || opcode !in {Ping, Pong} then InvalidParameter
      else if closeSent || closeReceived then InvalidDeviceState
      else if FrameRoom(|payload|) <= room then Success
      else BufferTooSmall
    }

    /** `SendPing` and `SendPong` */
    method SendControlFrame(opcode: Opcode, payload: seq<byte>, frameBuffer: array<byte>) returns (status: Status)
      requires Valid()
      modifies this`connected, this`closeReceived, this`transportClosed, this`log
      modifies transport`wire, transport`faults, transport`open, frameBuffer
      ensures Valid()
      ensures old(transport.faults) == [] ==>
                && transport.faults == [] && connected == old(connected) && closeReceived == old(closeReceived)
                && status == old(ControlStatus(opcode, payload, frameBuffer.Length))
      ensures Frames(log) == Frames(old(log)) + if status == Success then [Frame(true, opcode, payload)] else []
      ensures status == Success ==> old(connected) && opcode in {Ping, Pong} && |payload| <= MAX_CONTROL_PAYLOAD
      ensures !old(connected) ==> transport.wire == old(transport.wire)
    {
      hide EncodeStatus, Recorded, Untorn, TextsComplete, InStep, CloseSeen;
      if !connected {
        status := NotConnected();
        return;
      }
      if |payload| > MAX_CONTROL_PAYLOAD || frameBuffer.Length == 0 {
        return InvalidParameter;
      }
      if opcode != Ping && opcode != Pong {
        return InvalidParameter;
      }
      if closeSent || closeReceived {
        return InvalidDeviceState;
      }
      ControlRoom(opcode, payload, frameBuffer.Length);
      status := SendBetween(opcode, payload, frameBuffer);
    }

    /** A control frame between, or inside, messages. */
    method SendBetween(opcode: Opcode, payload: seq<byte>, frameBuffer: array<byte>) returns (status: Status)
      requires Valid() && connected && opcode in {Ping, Pong}
      modifies this`connected, this`closeReceived, this`transportClosed, this`log
      modifies transport`wire, transport`faults, transport`open, frameBuffer
      ensures Valid()
      ensures Frames(log) == Frames(old(log)) + if status == Success then [Frame(true, opcode, payload)] else []
      ensures status == Success || !IsTerminal(status) ==> connected && closeReceived == old(closeReceived)
      ensures status == Success ==> EncodeStatus(Frame(true, opcode, payload), frameBuffer.Length) == Success
      ensures old(transport.faults) == [] ==>
                transport.faults == [] && status == EncodeStatus(Frame(true, opcode, payload), frameBuffer.Length)
    {
      hide EncodeStatus, Recorded, Untorn, TextsComplete, InStep;
      status := EncodeAndSendFrame(opcode, payload, frameBuffer, true);
      if status == Success {
        ControlKeepsTexts(old(log), log[|old(log)|]);
        ControlKeepsStep(old(log), log[|old(log)|], sendFragmentOpen, sendFragmentOpcode, sendText);
        FramesNext(old(log), log[|old(log)|]);
      }
    }

    /** A send without write failures leaves the connection as it is, and a refused one the wire as well. */
    ghost predicate Untouched(connected0: bool, closeReceived0: bool, partWay0: bool, status: Status, log0: seq<Sent>)
      reads this
    {
      && connected == connected0 && closeReceived == closeReceived0 && partWay == partWay0
      && (status != Success ==> log == log0)
    }

    /** One turn of the loop. */
    method SendChunk(opcode: Opcode, chunk: seq<byte>, frameBuffer: array<byte>, fin: bool, ghost a: Assembly,
                     ghost op: Opcode, ghost sent: seq<byte>, ghost any: bool) returns (status: Status)
      requires Wired() && connected && !transportClosed && !CloseSeen(log) && !IsControl(opcode)
      requires opcode == (if any then Continuation else op) && (!any ==> sent == [])
      requires Continues(a, op) ==> Sending(log) == if any then Extend(a, op, sent, false) else a
      modifies this`connected, this`closeReceived, this`transportClosed, this`log
      modifies transport`wire, transport`faults, transport`open, frameBuffer
      ensures Wired() && !CloseSeen(log) && SentControls(log) == SentControls(old(log))
      ensures status == Success ==> |log| == |old(log)| + 1
      ensures status == Success && Continues(a, op) ==> Sending(log) == Extend(a, op, sent + chunk, fin)
      ensures status != Success ==> log == old(log)
      ensures old(transport.faults) == [] ==>
                transport.faults == [] && status == EncodeStatus(Frame(fin, opcode, chunk), frameBuffer.Length)
      ensures status != Success && IsTerminal(status) ==> !connected && closeReceived && transportClosed
      ensures !(status != Success && IsTerminal(status)) ==>
                connected && closeReceived == old(closeReceived) && !transportClosed
    {
      hide EncodeStatus, Recorded, Untorn, Sending, SentControls, Absorb, Extend;
      status := EncodeAndSendFrame(opcode, chunk, frameBuffer, fin);
      if status == Success {
        SendingNext(old(log), log[|old(log)|]);
        if Continues(a, op) {
          ChunkSent(a, op, sent, chunk, fin, any);
        }
      }
    }

    /** The next chunk, as large as the frame buffer allows. */
    method SendNext(opcode: Opcode, message: seq<byte>, frameBuffer: array<byte>, finalFragment: bool, offset: nat,
                    sentAnyFrame: bool, ghost a: Assembly, ghost count: nat) returns (status: Status, newOffset: nat)
      requires Wired() && connected && !transportClosed && !CloseSeen(log) && !IsControl(opcode)
      requires offset <= |message| && (if sentAnyFrame then offset < |message| else offset == 0 == count)
      requires message != [] ==> MaxPayload(frameBuffer.Length) > 0
      requires Counted(|message|, MaxPayload(frameBuffer.Length), offset, count, sentAnyFrame)
      requires Progressed(a, opcode, message, offset, finalFragment, sentAnyFrame, log)
      modifies this`connected, this`closeReceived, this`transportClosed, this`log
      modifies transport`wire, transport`faults, transport`open, frameBuffer
      ensures Wired() && !CloseSeen(log) && SentControls(log) == SentControls(old(log))
      ensures status == Success ==>
                && |log| == |old(log)| + 1 && newOffset <= |message| && (message != [] ==> newOffset > offset)
                && Counted(|message|, MaxPayload(frameBuffer.Length), newOffset, count + 1, true)
                && Progressed(a, opcode, message, newOffset, finalFragment, true, log)
      ensures status != Success ==> log == old(log)
      ensures old(transport.faults) == [] && frameBuffer.Length <= MAX_PAYLOAD ==>
                && transport.faults == []
                && status == if message == [] && frameBuffer.Length < 6 then BufferTooSmall else Success
      ensures old(transport.faults) == [] ==> transport.faults == []
      ensures status != Success && IsTerminal(status) ==> !connected && closeReceived && transportClosed
      ensures !(status != Success && IsTerminal(status)) ==>
                connected && closeReceived == old(closeReceived) && !transportClosed
    {
      hide EncodeStatus, Recorded, Untorn, Sending, SentControls, Absorb, CloseSeen, FrameCount, Extend, IsTerminal;
      var maxPayloadPerFrame := MaxPayload(frameBuffer.Length);
      var remaining := |message| - offset;
      var chunkLength := if remaining > maxPayloadPerFrame then maxPayloadPerFrame else remaining;
      newOffset := offset + chunkLength;
      var lastChunk := newOffset == |message|;
      var frameFinal := finalFragment && lastChunk;
      var frameOpcode := if sentAnyFrame then Continuation else opcode;
      var chunk := message[offset..newOffset];
      ChunkFits(frameFinal, frameOpcode, chunk, |message|, frameBuffer.Length);
      NextChunk(|message|, maxPayloadPerFrame, count, offset);
      assert message[..offset] + chunk == message[..newOffset];
      status := SendChunk(frameOpcode, chunk, frameBuffer, frameFinal, a, opcode, message[..offset], sentAnyFrame);
    }

    /** The frames of one call: as few as the frame buffer allows, FIN on the last if the caller says so. */
    method SendChunks(opcode: Opcode, message: seq<byte>, frameBuffer: array<byte>, finalFragment: bool)
      returns (status: Status)
      requires Wired() && connected && !transportClosed && !CloseSeen(log) && !IsControl(opcode)
      requires message != [] ==> MaxPayload(frameBuffer.Length) > 0
      modifies this`connected, this`closeReceived, this`transportClosed, this`log
      modifies transport`wire, transport`faults, transport`open, frameBuffer
      ensures Wired() && !CloseSeen(log) && SentControls(log) == SentControls(old(log))
      ensures status == Success ==> |log| == |old(log)| + FrameCount(|message|, MaxPayload(frameBuffer.Length))
      ensures status == Success && Continues(Sending(old(log)), opcode) ==>
                Sending(log) == Extend(Sending(old(log)), opcode, message, finalFragment)
      ensures old(transport.faults) == [] && frameBuffer.Length <= MAX_PAYLOAD ==>
                && transport.faults == [] && (status != Success ==> log == old(log))
                && status == if message == [] && frameBuffer.Length < 6 then BufferTooSmall else Success
      ensures status != Success ==>
                log == old(log) || (Continues(Sending(old(log)), opcode) ==> Stalled(Sending(old(log)), Sending(log)))
      ensures status != Success && IsTerminal(status) ==> !connected && closeReceived && transportClosed
      ensures !(status != Success && IsTerminal(status)) ==>
                connected && closeReceived == old(closeReceived) && !transportClosed
    {
      hide EncodeStatus, Recorded, Untorn, Sending, SentControls, Absorb, CloseSeen, FrameCount;
      ghost var maxPayloadPerFrame := MaxPayload(frameBuffer.Length);
      ghost var a := Sending(log);
      ghost var count: nat := 0;
      var offset := 0;
      var sentAnyFrame := false;
      while !sentAnyFrame || offset < |message|
        invariant 0 <= offset <= |message| && (!sentAnyFrame ==> offset == 0 && count == 0)
        invariant Wired() && connected && !transportClosed && !CloseSeen(log) && closeReceived == old(closeReceived)
        invariant old(transport.faults) == [] ==> transport.faults == []
        invariant old(transport.faults) == [] && frameBuffer.Length <= MAX_PAYLOAD && sentAnyFrame ==>
                    message != [] || frameBuffer.Length >= 6
        invariant |log| == |old(log)| + count && (count == 0 ==> log == old(log))
        invariant SentControls(log) == SentControls(old(log)) && (sentAnyFrame ==> count > 0)
        invariant Counted(|message|, maxPayloadPerFrame, offset, count, sentAnyFrame)
        invariant Progressed(a, opcode, message, offset, finalFragment, sentAnyFrame, log)
        decreases if sentAnyFrame then 0 else 1, |message| - offset
      {
        status, offset := SendNext(opcode, message, frameBuffer, finalFragment, offset, sentAnyFrame, a, count);
        if status != Success {
          return;
        }
        count := count + 1;
        sentAnyFrame := true;
      }
      assert message[..offset] == message;
      return Success;
    }

    /** The state of the text validator after this piece, if the piece is text at all. */
    method AdvanceSendText(opcode: Opcode, message: seq<byte>, finalFragment: bool)
      returns (status: Status, textFragment: bool, next: Utf8.State)
      requires Utf8.Reachable(sendText)
      ensures textFragment == (opcode == Text || (opcode == Continuation && sendFragmentOpcode == Text))
      ensures Utf8.Reachable(next)
      ensures status == if textFragment ==> TextAccepted(if opcode == Text then Utf8.START else sendText, message, finalFragment)
                        then Success else InvalidParameter
      ensures status == Success && textFragment ==>
                var o := Utf8.Run(if opcode == Text then Utf8.START else sendText, message);
                o == Utf8.Valid(next) && (finalFragment ==> Utf8.Ended(o))
    {
      hide Utf8.Run;
      next := sendText;
      textFragment := opcode == Text || (opcode == Continuation && sendFragmentOpcode == Text);
      status := Success;
      if textFragment {
        if opcode == Text {
          next := Utf8.START;
        }
        status, next := Utf8.AdvanceUtf8State(message, finalFragment, next);
        if status != Success {
          next := Utf8.START;
        }
      }
    }

    /** The answer of a send when writes succeed. */
    ghost function SendStatus(opcode: Opcode, message: seq<byte>, room: nat, fin: bool): Status
      reads this
    {
      if !connected then
        if transportClosed || closeSent || closeReceived then ConnectionDisconnected else InvalidParameter
      else if room == 0 then InvalidParameter
      else if (opcode == Continuation) != sendFragmentOpen then InvalidDeviceState
      else if IsControl(opcode) then InvalidParameter
      else if closeSent || closeReceived then InvalidDeviceState
      else if (opcode == Text || (opcode == Continuation && sendFragmentOpcode == Text))
           && !TextAccepted(if opcode == Text then Utf8.START else sendText, message, fin) then InvalidParameter
      else if message != [] && MaxPayload(room) == 0 then BufferTooSmall
      else if message == [] && room < 6 then BufferTooSmall
      else Success
    }

    /** `SendText`, `SendBinary` and `SendContinuation` */
    method SendFrame(opcode: Opcode, message: seq<byte>, frameBuffer: array<byte>, finalFragment: bool)
      returns (status: Status)
      requires Valid()
      modifies this`connected, this`closeReceived, this`transportClosed, this`log, this`partWay
      modifies this`sendFragmentOpen, this`sendFragmentOpcode, this`sendText
      modifies transport`wire, transport`faults, transport`open, frameBuffer
      ensures Valid() && SentControls(log) == SentControls(old(log))
      ensures old(transport.faults) == [] && frameBuffer.Length <= MAX_PAYLOAD ==>
                && transport.faults == [] && Untouched(old(connected), old(closeReceived), old(partWay), status, old(log))
                && status == old(SendStatus(opcode, message, frameBuffer.Length, finalFragment))
      ensures status == Success ==>
                && old(connected) && connected && (opcode == Continuation) == old(sendFragmentOpen)
                && sendFragmentOpen == !finalFragment && partWay == old(partWay)
                && (message != [] ==> MaxPayload(frameBuffer.Length) > 0)
                && |log| == |old(log)| + FrameCount(|message|, MaxPayload(frameBuffer.Length))
      ensures status == Success && !partWay ==>
                && Continues(Sending(old(log)), opcode)
                && Sending(log) == Extend(Sending(old(log)), opcode, message, finalFragment)
      ensures status != Success && !partWay ==> log == old(log) || !connected
      ensures status != Success ==> sendFragmentOpen == old(sendFragmentOpen)
      ensures !old(connected) ==> transport.wire == old(transport.wire)
    {
      hide EncodeStatus, Recorded, Untorn, TextsComplete, InStep, Sending, SentControls, CloseSeen, Utf8.Run;
      if !connected {
        status := NotConnected();
        return;
      }
      if frameBuffer.Length == 0 {
        return InvalidParameter;
      }
      var continuation := opcode == Continuation;
      if continuation != sendFragmentOpen {
        return InvalidDeviceState;
      }
      if !continuation && opcode != Text && opcode != Binary {
        return InvalidParameter;
      }
      if closeSent || closeReceived {
        return InvalidDeviceState;
      }
      var textFragment, nextText;
      status, textFragment, nextText := AdvanceSendText(opcode, message, finalFragment);
      if status != Success {
        return;
      }
      if message != [] && MaxPayload(frameBuffer.Length) == 0 {
        return BufferTooSmall;
      }
      status := SendMessage(opcode, message, frameBuffer, finalFragment, textFragment, nextText);
    }

    /** The frames; a failure between two of them is remembered. */
    method SendPieces(opcode: Opcode, message: seq<byte>, frameBuffer: array<byte>, finalFragment: bool)
      returns (status: Status)
      requires Valid() && connected && (opcode == Continuation || IsData(opcode))
      requires (opcode == Continuation) == sendFragmentOpen
      requires message != [] ==> MaxPayload(frameBuffer.Length) > 0
      modifies this`connected, this`closeReceived, this`transportClosed, this`log, this`partWay
      modifies transport`wire, transport`faults, transport`open, frameBuffer
      ensures SentControls(log) == SentControls(old(log))
      ensures old(transport.faults) == [] && frameBuffer.Length <= MAX_PAYLOAD ==>
                && transport.faults == [] && Untouched(old(connected), old(closeReceived), old(partWay), status, old(log))
                && status == if message == [] && frameBuffer.Length < 6 then BufferTooSmall else Success
      ensures status == Success ==>
                && Wired() && !CloseSeen(log) && connected && !transportClosed && partWay == old(partWay)
                && |log| == |old(log)| + FrameCount(|message|, MaxPayload(frameBuffer.Length))
      ensures status == Success && !partWay ==>
                && Continues(Sending(old(log)), opcode)
                && Sending(log) == Extend(Sending(old(log)), opcode, message, finalFragment)
      ensures status != Success ==> Valid() && (!partWay ==> log == old(log) || !connected)
    {
      hide EncodeStatus, Recorded, Untorn, TextsComplete, InStep, Sending, SentControls, Utf8.Run, Extend, FrameCount,
           CloseSeen, Continues, Stalled, MaxPayload, Utf8.Reachable;
      ContinuesInStep(log, partWay, sendFragmentOpen, sendFragmentOpcode, sendText, opcode);
      status := SendChunks(opcode, message, frameBuffer, finalFragment);
      if status != Success {
        StalledKeepsTexts(old(log), log);
        partWay := partWay || (connected && log != old(log));
      }
    }

    /** The frames, and then the fields that say whether a message is in progress. */
    method SendMessage(opcode: Opcode, message: seq<byte>, frameBuffer: array<byte>, finalFragment: bool,
                       textFragment: bool, nextText: Utf8.State) returns (status: Status)
      requires Valid() && connected && (opcode == Continuation || IsData(opcode))
      requires (opcode == Continuation) == sendFragmentOpen && Utf8.Reachable(nextText)
      requires message != [] ==> MaxPayload(frameBuffer.Length) > 0
      requires textFragment == (opcode == Text || (opcode == Continuation && sendFragmentOpcode == Text))
      requires textFragment ==>
                 var o := Utf8.Run(if opcode == Text then Utf8.START else sendText, message);
                 o == Utf8.Valid(nextText) && (finalFragment ==> Utf8.Ended(o))
      modifies this`connected, this`closeReceived, this`transportClosed, this`log, this`partWay
      modifies this`sendFragmentOpen, this`sendFragmentOpcode, this`sendText
      modifies transport`wire, transport`faults, transport`open, frameBuffer
      ensures Valid() && SentControls(log) == SentControls(old(log))
      ensures old(transport.faults) == [] && frameBuffer.Length <= MAX_PAYLOAD ==>
                && transport.faults == [] && Untouched(old(connected), old(closeReceived), old(partWay), status, old(log))
                && status == if message == [] && frameBuffer.Length < 6 then BufferTooSmall else Success
      ensures status == Success ==>
                && connected && sendFragmentOpen == !finalFragment && partWay == old(partWay)
                && |log| == |old(log)| + FrameCount(|message|, MaxPayload(frameBuffer.Length))
      ensures status == Success && !partWay ==>
                && Continues(Sending(old(log)), opcode)
                && Sending(log) == Extend(Sending(old(log)), opcode, message, finalFragment)
      ensures status != Success ==> sendFragmentOpen == old(sendFragmentOpen)
      ensures status != Success && !partWay ==> log == old(log) || !connected
    {
      hide EncodeStatus, Recorded, Untorn, TextsComplete, InStep, Sending, SentControls, Utf8.Run, Extend, FrameCount,
           CloseSeen, Continues, MaxPayload;
      status := SendPieces(opcode, message, frameBuffer, finalFragment);
      if status == Success {
        RememberFragment(opcode, finalFragment, textFragment, nextText);
        MessageSent(partWay, old(log), log, old(sendFragmentOpen), old(sendFragmentOpcode), old(sendText),
                    opcode, message, finalFragment, nextText, sendFragmentOpen, sendFragmentOpcode, sendText);
      }
    }

    method RememberFragment(opcode: Opcode, finalFragment: bool, textFragment: bool, nextText: Utf8.State)
      requires Utf8.Reachable(nextText)
      modifies this`sendFragmentOpen, this`sendFragmentOpcode, this`sendText
      ensures sendFragmentOpen == !finalFragment && Utf8.Reachable(sendText)
      ensures !finalFragment ==>
                && sendFragmentOpcode == (if opcode == Continuation then old(sendFragmentOpcode) else opcode)
                && (textFragment ==> sendText == nextText)
    {
      if finalFragment {
        ResetSendFragment();
      } else {
        sendFragmentOpen := true;
        if opcode != Continuation {
          sendFragmentOpcode := opcode;
        }
        sendText := if textFragment then nextText else Utf8.START;
      }
    }

    // ---- Closing ----

    /** At most one Close frame. */
    method SendCloseFrame(payload: seq<byte>, frameBuffer: array<byte>) returns (status: Status)
      requires Core()
      modifies this`connected, this`closeReceived, this`transportClosed, this`log, this`closeSent
      modifies transport`wire, transport`faults, transport`open, frameBuffer
      ensures Core() && (connected ==> old(connected)) && (old(connected) && !connected ==> transportClosed)
      ensures status == Success && !old(closeSent) ==>
                connected && closeSent && closeReceived == old(closeReceived) && |log| == |old(log)| + 1
      ensures !(status == Success && !old(closeSent)) ==> closeSent == old(closeSent) && log == old(log)
      ensures connected == old(connected) ==> closeReceived == old(closeReceived)
      ensures old(transport.faults) == [] && old(connected) && !old(closeSent) ==>
                && transport.faults == [] && connected
                && status == CloseStatus(payload, frameBuffer.Length)
                && Frames(log) == Frames(old(log)) + CloseFrames(payload, frameBuffer.Length)
      ensures !old(connected) ==> transport.wire == old(transport.wire)
    {
      hide EncodeStatus, Recorded, Untorn, TextsComplete, CloseSeen, CloseStatus;
      CloseRoom(payload, frameBuffer.Length);
      if !connected || frameBuffer.Length == 0 {
        return InvalidParameter;
      }
      if closeSent {
        return Success;
      }
      status := EncodeAndSendFrame(Close, payload, frameBuffer, true);
      if status == Success {
        ControlKeepsTexts(old(log), log[|old(log)|]);
        FramesNext(old(log), log[|old(log)|]);
        closeSent := true;
      }
    }

    method SendCloseStatus(code: nat, frameBuffer: array<byte>) returns (status: Status)
      requires Core() && code < 0x1_0000
      modifies this`connected, this`closeReceived, this`transportClosed, this`log, this`closeSent
      modifies transport`wire, transport`faults, transport`open, frameBuffer
      ensures Core()
      ensures old(transport.faults) == [] && old(connected) && !old(closeSent) ==>
                transport.faults == [] && Frames(log) == Frames(old(log)) + CloseFrames(StatusPayload(code), frameBuffer.Length)
    {
      hide EncodeStatus, Recorded, Untorn, TextsComplete, CloseSeen, CloseStatus;
      CloseRoom(StatusPayload(code), frameBuffer.Length);
      if !connected || frameBuffer.Length == 0 {
        return InvalidParameter;
      }
      status := SendCloseFrame(StatusPayload(code), frameBuffer);
    }

    /** `FailConnectionWithClose`: a Close frame if it can be sent; in any case the connection is over. */
    method FailConnectionWithClose(code: nat, frameBuffer: array<byte>, returnStatus: Status) returns (status: Status)
      requires Core() && code < 0x1_0000
      modifies this`sendFragmentOpen, this`sendFragmentOpcode, this`sendText
      modifies this`receiveFragmentOpen, this`receiveFragmentOpcode, this`receiveFragmentLength
      modifies this`connected, this`closeReceived, this`transportClosed, this`log, this`closeSent
      modifies transport`wire, transport`faults, transport`open, frameBuffer
      ensures Inv() && !connected && transportClosed && closeReceived && status == returnStatus
      ensures old(transport.faults) == [] && old(connected) && !old(closeSent) ==>
                transport.faults == [] && Frames(log) == Frames(old(log)) + CloseFrames(StatusPayload(code), frameBuffer.Length)
    {
      hide EncodeStatus, Recorded, Untorn, TextsComplete, CloseSeen, CloseFrames, Frames;
      ResetSendFragment();
      ResetReceiveFragment();
      if connected && !closeSent {
        var ignored := SendCloseStatus(code, frameBuffer);
      }
      Disconnect();
      return returnStatus;
    }

    // ---- Receiving ----

    /** The message in progress on the receiving side. */
    ghost function FragmentIn(output: array<byte>): (g: Fragment)
      reads this, output
      ensures |g.partial| == receiveFragmentLength
    {
      Fragment(receiveFragmentOpen, receiveFragmentOpcode, PartialIn(receiveFragmentLength, output[..]))
    }

    /** The buffer grows and keeps its contents. */
    method EnsureBufferedFrameCapacity(capacity: nat) returns (status: Status)
      requires bufferedFrameLength <= bufferedFrame.Length
      modifies this`bufferedFrame
      ensures status == if capacity == 0 then InvalidParameter else Success
      ensures bufferedFrame == old(bufferedFrame) || fresh(bufferedFrame)
      ensures capacity <= bufferedFrame.Length && old(bufferedFrame.Length) <= bufferedFrame.Length
      ensures Buffered() == old(Buffered())
    {
      if capacity == 0 {
        return InvalidParameter;
      }
      if bufferedFrame.Length >= capacity {
        return Success;
      }
      var replacement := new byte[capacity](_ => 0);
      CopyMemory(replacement, 0, bufferedFrame[..bufferedFrameLength]);
      bufferedFrame := replacement;
      return Success;
    }

    /** A whole frame stands at the front of the buffer; `rest` is the stream behind it. */
    ghost predicate Loaded(h: Header, frameLength: nat, payload: seq<byte>, rest: seq<byte>)
      reads this, bufferedFrame, transport
    {
      && h.headerLength + h.payloadLength <= frameLength <= bufferedFrame.Length
      && bufferedFrame[h.headerLength..h.headerLength + h.payloadLength] == payload
      && bufferedFrame[h.headerLength + h.payloadLength..frameLength] + transport.Unread() == rest
    }

    lemma LoadedFromStream(h: Header, frameLength: nat, s: seq<byte>)
      requires h.headerLength + h.payloadLength <= frameLength <= bufferedFrame.Length
      requires bufferedFrame[..frameLength] + transport.Unread() == s
      ensures |s| >= h.headerLength + h.payloadLength
      ensures Loaded(h, frameLength, s[h.headerLength..h.headerLength + h.payloadLength],
                     s[h.headerLength + h.payloadLength..])
    {
      var a, b := h.headerLength, h.headerLength + h.payloadLength;
      assert bufferedFrame[a..b] == bufferedFrame[..frameLength][a..b] == s[a..b];
      assert s[b..] == bufferedFrame[..frameLength][b..] + transport.Unread();
      assert bufferedFrame[b..frameLength] == bufferedFrame[..frameLength][b..];
    }

    ghost predicate Advanced(frameLength: nat, rest: seq<byte>)
      reads this, bufferedFrame, transport
    {
      bufferedFrameLength <= frameLength && bufferedFrameLength <= bufferedFrame.Length && Pending() == rest
    }

    /** The frame is taken out of the buffer, and what was read behind it moves to the front. */
    method Consume(h: Header, frameLength: nat, ghost payload: seq<byte>, ghost rest: seq<byte>)
      requires Loaded(h, frameLength, payload, rest)
      modifies this`bufferedFrameLength, bufferedFrame
      ensures Advanced(frameLength, rest)
    {
      var consumed := h.headerLength + h.payloadLength;
      var remaining := frameLength - consumed;
      if remaining > 0 {
        MoveToFront(bufferedFrame, consumed, remaining);
      }
      bufferedFrameLength := remaining;
    }

    /** Reads until a frame is whole, is refused, or will not come. The buffer never fills up first. */
    method ReadFrame(frameBuffer: array<byte>, output: array<byte>, receiveFrameCapacity: nat, ghost s: seq<byte>)
      returns (f: Fetched)
      requires Receiving(frameBuffer, output) && bufferedFrameLength <= receiveFrameCapacity <= bufferedFrame.Length
      requires s == Pending()
      requires receiveFrameCapacity >= MAX_HEADER + output.Length && receiveFrameCapacity >= MAX_HEADER + MAX_CONTROL_PAYLOAD
      modifies this`connected, this`closeReceived, this`transportClosed, transport`pieces, transport`open, bufferedFrame
      ensures if f.Ended? then Valid() else Receiving(frameBuffer, output)
      ensures FragmentIn(output) == old(FragmentIn(output))
      ensures match LookAhead(s, receiveFragmentOpen, receiveFragmentLength, output.Length)
              case NoFrame => f == Ended(StarvedStatus(transport.endStatus))
              case Refuse(code, status, reported) => f == Refused(code, status, reported)
              case Whole(h) =>
                && f.Complete? && f.header == h && f.frameLength <= receiveFrameCapacity
                && |s| >= h.headerLength + h.payloadLength
                && Loaded(h, f.frameLength, s[h.headerLength..h.headerLength + h.payloadLength],
                          s[h.headerLength + h.payloadLength..])
      ensures var one := OnePiece(old(transport.pieces), old(bufferedFrameLength), receiveFrameCapacity,
                                  receiveFragmentOpen, receiveFragmentLength, output.Length);
              one ==> transport.pieces == old(transport.pieces[1..])
      ensures f.Ended? ==>
                && bufferedFrameLength <= bufferedFrame.Length && Pending() <= s
                && if Quiet(transport.endStatus) then !connected else connected && !closeReceived
    {
      hide LookAhead, Recorded, Untorn, TextsComplete, CloseSeen, InStep, PartialIn, Loaded;
      var look, frameLength, status := ReadUntilDecided(receiveFrameCapacity, output.Length, s);
      match look {
        case Refuse(code, refusal, reported) => f := Refused(code, refusal, reported);
        case Whole(h) =>
          LoadedFromStream(h, frameLength, s);
          f := Complete(h, frameLength);
        case NoFrame =>
          if status == Success || IsTerminal(status) {
            Disconnect();
          }
          f := Ended(StarvedStatus(status));
      }
    }

    /** The reads themselves; `NoFrame` means that a read brought nothing, with this status. */
    method ReadUntilDecided(receiveFrameCapacity: nat, outputCapacity: nat, ghost s: seq<byte>)
      returns (look: Look, frameLength: nat, status: Status)
      requires bufferedFrameLength <= receiveFrameCapacity <= bufferedFrame.Length && s == Pending()
      requires receiveFrameCapacity >= MAX_HEADER + outputCapacity && receiveFrameCapacity >= MAX_HEADER + MAX_CONTROL_PAYLOAD
      modifies transport`pieces, bufferedFrame
      ensures look == LookAhead(s, receiveFragmentOpen, receiveFragmentLength, outputCapacity)
      ensures look.NoFrame? ==> status == transport.endStatus && Pending() <= s
      ensures look.Whole? ==>
                && look.header.headerLength + look.header.payloadLength <= frameLength <= receiveFrameCapacity
                && bufferedFrame[..frameLength] + transport.Unread() == s
      ensures var one := OnePiece(old(transport.pieces), old(bufferedFrameLength), receiveFrameCapacity,
                                  receiveFragmentOpen, receiveFragmentLength, outputCapacity);
              one ==> transport.pieces == old(transport.pieces[1..])
    {
      hide LookAhead, Flatten;
      frameLength, status := bufferedFrameLength, Success;
      ghost var one := OnePiece(transport.pieces, bufferedFrameLength, receiveFrameCapacity, receiveFragmentOpen,
                                receiveFragmentLength, outputCapacity);
      NothingToSee(receiveFragmentOpen, receiveFragmentLength, outputCapacity);
      while true
        invariant bufferedFrameLength <= frameLength <= receiveFrameCapacity
        invariant bufferedFrame[..frameLength] + transport.Unread() == s
        invariant one ==> if frameLength == 0 then transport.pieces == old(transport.pieces)
                          else transport.pieces == old(transport.pieces[1..])
                               && bufferedFrame[..frameLength] == old(transport.pieces[0])
        decreases |transport.Unread()|
      {
        look := Decide(frameLength, receiveFrameCapacity, outputCapacity, s);
        if look != NoFrame {
          return;
        }
        if frameLength >= receiveFrameCapacity {
          status := BufferTooSmall;
          return;
        }
        var received;
        status, received := ReadOn(frameLength, receiveFrameCapacity, s);
        if status != Success || received == 0 {
          assert Pending() == s[..bufferedFrameLength];
          return;
        }
        frameLength := frameLength + received;
      }
    }

    /** What can be said so far stands for the whole stream, and a full buffer says enough. */
    method Decide(frameLength: nat, receiveFrameCapacity: nat, outputCapacity: nat, ghost s: seq<byte>) returns (look: Look)
      requires frameLength <= receiveFrameCapacity <= bufferedFrame.Length
      requires receiveFrameCapacity >= MAX_HEADER + outputCapacity && receiveFrameCapacity >= MAX_HEADER + MAX_CONTROL_PAYLOAD
      requires bufferedFrame[..frameLength] + transport.Unread() == s
      ensures look == LookAhead(bufferedFrame[..frameLength], receiveFragmentOpen, receiveFragmentLength, outputCapacity)
      ensures look != NoFrame ==> look == LookAhead(s, receiveFragmentOpen, receiveFragmentLength, outputCapacity)
      ensures look.Whole? ==> look.header.headerLength + look.header.payloadLength <= frameLength
      ensures frameLength == receiveFrameCapacity ==> look != NoFrame
    {
      hide LookAhead;
      var data := bufferedFrame[..frameLength];
      look := Examine(data, receiveFragmentOpen, receiveFragmentLength, outputCapacity);
      LookIsStable(data, transport.Unread(), receiveFragmentOpen, receiveFragmentLength, outputCapacity);
      WholeFits(data, receiveFragmentOpen, receiveFragmentLength, outputCapacity);
      if frameLength == receiveFrameCapacity {
        FullBufferDecides(data, receiveFragmentOpen, receiveFragmentLength, outputCapacity);
      }
    }

    /** One read behind the bytes that are already there. */
    method ReadOn(frameLength: nat, receiveFrameCapacity: nat, ghost s: seq<byte>) returns (status: Status, received: nat)
      requires frameLength < receiveFrameCapacity <= bufferedFrame.Length
      requires bufferedFrame[..frameLength] + transport.Unread() == s
      modifies transport`pieces, bufferedFrame
      ensures status == Success && received > 0 ==>
                && frameLength + received <= receiveFrameCapacity
                && bufferedFrame[..frameLength + received] + transport.Unread() == s
                && |transport.Unread()| < |old(transport.Unread())|
      ensures frameLength == 0 && old(|transport.pieces|) > 0 && 0 < old(|transport.pieces[0]|) <= receiveFrameCapacity ==>
                && status == Success && received == old(|transport.pieces[0]|)
                && transport.pieces == old(transport.pieces[1..]) && bufferedFrame[..received] == old(transport.pieces[0])
      ensures !(status == Success && received > 0) ==>
                && status == transport.endStatus && received == 0 && transport.Unread() == []
                && s == bufferedFrame[..frameLength] == old(bufferedFrame[..frameLength])
    {
      ghost var data := bufferedFrame[..frameLength];
      status, received := transport.Receive(bufferedFrame, frameLength, receiveFrameCapacity - frameLength);
      assert bufferedFrame[..frameLength + received] == data + bufferedFrame[frameLength..frameLength + received];
      assert status == Success && received > 0 ==>
          bufferedFrame[..frameLength + received] + transport.Unread()
          == data + (bufferedFrame[frameLength..frameLength + received] + transport.Unread());
    }

    // ---- One frame: control frames ----

    /** What every turn of the receive loop starts from. */
    ghost predicate Receiving(frameBuffer: array<byte>, output: array<byte>)
      reads this, transport
    {
      && Inv() && connected && !closeSent && !closeReceived
      && frameBuffer.Length > 0 && frameBuffer != output && bufferedFrame != frameBuffer && bufferedFrame != output
    }

    /** No whole frame is pending, and none will come. */
    ghost predicate Starving(output: array<byte>)
      reads this, bufferedFrame, transport
      requires bufferedFrameLength <= bufferedFrame.Length
    {
      LookAhead(Pending(), receiveFragmentOpen, receiveFragmentLength, output.Length).NoFrame?
    }

    /** The results of a call, and the state it leaves. */
    ghost predicate Concluded(o: Outcome, output: array<byte>, status: Status, opcode: Opcode, bytesReceived: nat)
      reads this, transport, bufferedFrame, output
      requires bufferedFrameLength <= bufferedFrame.Length
    {
      && Answered(o, transport.endStatus, status, opcode, bytesReceived, output[..])
      && (EndsConnection(o, transport.endStatus) ==> !connected)
      && (o.Delivered? ==> connected && !closeReceived && Pending() == o.rest && FragmentIn(output) == o.fragment)
      && (o.PongTooLarge? ==> connected && !closeReceived && FragmentIn(output) == o.fragment)
      && (o.Starved? && !Quiet(transport.endStatus) ==> connected && !closeReceived && Starving(output))
    }

    /** The state and the results after one step of the receive loop. */
    ghost predicate Stepped(step: Step, more: bool, controls: nat, output: array<byte>, room: nat, log0: seq<Sent>,
                            status: Status, opcode: Opcode, bytesReceived: nat)
      reads this, transport, bufferedFrame, output
    {
      && bufferedFrameLength <= bufferedFrame.Length
      && match step
         case Continue(pongs, rest, g, controls') =>
           && more && controls == controls' && Pending() == rest && FragmentIn(output) == g
           && Frames(log) == Frames(log0) + PongFrames(pongs)
         case Stop(o) =>
           && !more && Concluded(o, output, status, opcode, bytesReceived)
           && Frames(log) == Frames(log0) + LastFrames(o, room)
    }

    /** A frame is refused: the connection is failed with this code. */
    method RefuseFrame(code: nat, refusal: Status, reported: nat, frameBuffer: array<byte>, output: array<byte>,
                       controls: nat)
      returns (status: Status)
      requires Receiving(frameBuffer, output) && code < 0x1_0000
      modifies this`sendFragmentOpen, this`sendFragmentOpcode, this`sendText
      modifies this`receiveFragmentOpen, this`receiveFragmentOpcode, this`receiveFragmentLength
      modifies this`connected, this`closeReceived, this`transportClosed, this`log, this`closeSent
      modifies transport`wire, transport`faults, transport`open, frameBuffer
      ensures Valid() && !connected
      ensures Answered(Failed(code, refusal, reported), transport.endStatus, status, Continuation, reported, output[..])
      ensures old(transport.faults) == [] ==>
                && transport.faults == []
                && Stepped(Stop(Failed(code, refusal, reported)), false, controls, output, frameBuffer.Length, old(log),
                           status, Continuation, reported)
    {
      hide Recorded, Untorn, TextsComplete, InStep, CloseSeen, Frames, CloseFrames;
      status := FailConnectionWithClose(code, frameBuffer, refusal);
    }

    /** Without automatic answers, a ping or pong goes to the caller. */
    method HandOverControl(h: Header, frameLength: nat, frameBuffer: array<byte>, output: array<byte>,
                           ghost payload: seq<byte>, ghost rest: seq<byte>, ghost g: Fragment, ghost limits: Settings,
                           controls: nat)
      returns (status: Status, opcode: Opcode, bytesReceived: nat)
      requires Receiving(frameBuffer, output) && Loaded(h, frameLength, payload, rest) && h.opcode in {Ping, Pong}
      requires g == FragmentIn(output) && limits.capacity == output.Length
      modifies this`bufferedFrameLength, bufferedFrame, output
      modifies this`receiveFragmentOpen, this`receiveFragmentOpcode, this`receiveFragmentLength
      ensures Receiving(frameBuffer, output)
      ensures Stepped(Stop(HandOver(h.opcode, payload, rest, g, limits)), false, controls, output, frameBuffer.Length,
                      old(log), status, opcode, bytesReceived)
    {
      hide Utf8.Reachable, IsData, Recorded, Untorn, TextsComplete, InStep, CloseSeen, Frames;
      NoPongs(log);
      if !receiveFragmentOpen && output.Length < h.payloadLength {
        ResetReceiveFragment();
        return BufferTooSmall, Continuation, h.payloadLength;
      }
      TakePayload(h, frameLength, output, payload, rest, !receiveFragmentOpen);
      return Success, h.opcode, if receiveFragmentOpen then 0 else h.payloadLength;
    }

    /** The payload goes to the caller's buffer, if it is wanted, and the frame leaves the client's. */
    method TakePayload(h: Header, frameLength: nat, output: array<byte>, ghost payload: seq<byte>, ghost rest: seq<byte>,
                       wanted: bool)
      requires Loaded(h, frameLength, payload, rest) && output != bufferedFrame
      requires wanted ==> h.payloadLength <= output.Length
      modifies this`bufferedFrameLength, bufferedFrame, output
      ensures Advanced(frameLength, rest) && |payload| == h.payloadLength
      ensures if wanted then output[..h.payloadLength] == payload else output[..] == old(output[..])
    {
      if wanted {
        CopyMemory(output, 0, bufferedFrame[h.headerLength..h.headerLength + h.payloadLength]);
      }
      Consume(h, frameLength, payload, rest);
    }

    /** With automatic answers, a ping is echoed. */
    method AnswerPing(h: Header, frameLength: nat, frameBuffer: array<byte>, output: array<byte>,
                      ghost payload: seq<byte>, ghost rest: seq<byte>, ghost g: Fragment, controls: nat)
      returns (status: Status)
      requires Receiving(frameBuffer, output) && Loaded(h, frameLength, payload, rest) && g == FragmentIn(output)
      requires h.payloadLength <= MAX_CONTROL_PAYLOAD
      modifies this`bufferedFrameLength, bufferedFrame
      modifies this`connected, this`closeReceived, this`transportClosed, this`log
      modifies transport`wire, transport`faults, transport`open, frameBuffer
      ensures status != Success ==> bufferedFrameLength == old(bufferedFrameLength)
      ensures Valid() && (status == Success ==> Receiving(frameBuffer, output) && Advanced(frameLength, rest))
      ensures old(transport.faults) == [] ==>
                && transport.faults == []
                && Stepped(if FrameRoom(|payload|) <= frameBuffer.Length then Continue([payload], rest, g, controls)
                           else Stop(PongTooLarge(|payload|, g)),
                           status == Success, controls, output, frameBuffer.Length, old(log), status, Continuation, 0)
    {
      hide Receiving, Valid, Starving, EncodeStatus, Frames, PartialIn;
      ControlRoom(Pong, payload, frameBuffer.Length);
      BetweenFrames(frameBuffer, output);
      status := SendBetween(Pong, bufferedFrame[h.headerLength..h.headerLength + h.payloadLength], frameBuffer);
      if status == Success {
        GoesOn(frameBuffer, output);
        ConsumeFrame(h, frameLength, frameBuffer, output, payload, rest, g);
        BetweenFrames(frameBuffer, output);
      }
    }

    lemma BetweenFrames(frameBuffer: array<byte>, output: array<byte>)
      requires Receiving(frameBuffer, output)
      ensures Valid() && connected && !closeReceived && bufferedFrameLength <= bufferedFrame.Length
      ensures frameBuffer.Length > 0 && frameBuffer != output && bufferedFrame != frameBuffer && bufferedFrame != output
    {
      hide Recorded, Untorn, TextsComplete, InStep, CloseSeen;
    }

    lemma GoesOn(frameBuffer: array<byte>, output: array<byte>)
      requires Valid() && connected && !closeReceived
      requires frameBuffer.Length > 0 && frameBuffer != output && bufferedFrame != frameBuffer && bufferedFrame != output
      ensures Receiving(frameBuffer, output)
    {
      hide Recorded, Untorn, TextsComplete, InStep, CloseSeen;
    }

    /** A frame that has been dealt with leaves the buffer. */
    method ConsumeFrame(h: Header, frameLength: nat, frameBuffer: array<byte>, output: array<byte>,
                        ghost payload: seq<byte>, ghost rest: seq<byte>, ghost g: Fragment)
      requires Receiving(frameBuffer, output) && Loaded(h, frameLength, payload, rest) && g == FragmentIn(output)
      modifies this`bufferedFrameLength, bufferedFrame
      ensures Receiving(frameBuffer, output) && Advanced(frameLength, rest) && g == FragmentIn(output)
    {
      hide Recorded, Untorn, TextsComplete, InStep, CloseSeen, PartialIn;
      Consume(h, frameLength, payload, rest);
    }

    /** With automatic answers, a pong is dropped. */
    method DropPong(h: Header, frameLength: nat, frameBuffer: array<byte>, output: array<byte>,
                    ghost payload: seq<byte>, ghost rest: seq<byte>, ghost g: Fragment, controls: nat)
      requires Receiving(frameBuffer, output) && Loaded(h, frameLength, payload, rest) && g == FragmentIn(output)
      modifies this`bufferedFrameLength, bufferedFrame
      ensures Receiving(frameBuffer, output) && Advanced(frameLength, rest)
      ensures Stepped(Continue([], rest, g, controls), true, controls, output, frameBuffer.Length, log, Success, Continuation, 0)
    {
      hide Receiving, Starving, PartialIn;
      NoPongs(log);
      ConsumeFrame(h, frameLength, frameBuffer, output, payload, rest, g);
    }

    /** The peer's Close frame: it is checked, echoed once, and handed to the caller. */
    method HandleClose(h: Header, frameLength: nat, frameBuffer: array<byte>, output: array<byte>,
                       ghost payload: seq<byte>, ghost rest: seq<byte>, ghost limits: Settings, controls: nat)
      returns (status: Status, opcode: Opcode, bytesReceived: nat)
      requires Receiving(frameBuffer, output) && Loaded(h, frameLength, payload, rest) && h.payloadLength <= MAX_CONTROL_PAYLOAD
      requires limits.room == frameBuffer.Length
      modifies this`bufferedFrameLength, bufferedFrame, output
      modifies this`sendFragmentOpen, this`sendFragmentOpcode, this`sendText
      modifies this`receiveFragmentOpen, this`receiveFragmentOpcode, this`receiveFragmentLength
      modifies this`connected, this`closeReceived, this`transportClosed, this`log, this`closeSent
      modifies transport`wire, transport`faults, transport`open, frameBuffer
      ensures Valid()
      ensures old(transport.faults) == [] ==>
                && transport.faults == []
                && Stepped(Stop(OnClose(payload, rest, limits)), false, controls, output, frameBuffer.Length, old(log),
                           status, opcode, bytesReceived)
    {
      hide Receiving, Valid, Starving, PartialIn, Frames, CloseStatus, IsValidClosePayload, CloseFrames;
      BetweenFrames(frameBuffer, output);
      opcode, bytesReceived := Continuation, 0;
      var closePayload := bufferedFrame[h.headerLength..h.headerLength + h.payloadLength];
      var valid := CheckClosePayload(closePayload);
      if !valid {
        status := RefuseFrame(PROTOCOL_ERROR, InvalidNetworkResponse, 0, frameBuffer, output, controls);
        return;
      }
      status := EchoClose(closePayload, frameBuffer);
      if status != Success {
        return;
      }
      status, opcode, bytesReceived := HandOverClose(h, frameLength, output, payload, rest);
    }

    method HandOverClose(h: Header, frameLength: nat, output: array<byte>, ghost payload: seq<byte>, ghost rest: seq<byte>)
      returns (status: Status, opcode: Opcode, bytesReceived: nat)
      requires Valid() && Loaded(h, frameLength, payload, rest) && output != bufferedFrame
      modifies this`bufferedFrameLength, bufferedFrame, output
      ensures Valid() && bufferedFrameLength <= bufferedFrame.Length
      ensures Answered(PeerClosed(payload, rest), transport.endStatus, status, opcode, bytesReceived, output[..])
    {
      hide Recorded, Untorn, TextsComplete, InStep, CloseSeen;
      var fits := h.payloadLength <= output.Length;
      TakePayload(h, frameLength, output, payload, rest, fits);
      return if fits then Success else BufferTooSmall, Close, h.payloadLength;
    }

    method EchoClose(closePayload: seq<byte>, frameBuffer: array<byte>) returns (status: Status)
      requires Valid() && connected && frameBuffer.Length > 0 && |closePayload| <= MAX_CONTROL_PAYLOAD
      modifies this`receiveFragmentOpen, this`receiveFragmentOpcode, this`receiveFragmentLength
      modifies this`connected, this`closeReceived, this`transportClosed, this`log, this`closeSent
      modifies transport`wire, transport`faults, transport`open, frameBuffer
      ensures Valid() && (status == Success ==> !connected)
      ensures old(transport.faults) == [] ==>
                && transport.faults == [] && (status != Success ==> connected)
                && status == (if FrameRoom(|closePayload|) <= frameBuffer.Length then Success else BufferTooSmall)
                && Frames(log) == Frames(old(log)) + if status == Success then [Frame(true, Close, closePayload)] else []
    {
      hide Recorded, Untorn, TextsComplete, InStep, CloseSeen, Frames, CloseStatus;
      ResetReceiveFragment();
      closeReceived := true;
      EchoRoom(closePayload, frameBuffer.Length);
      status := SendCloseFrame(closePayload, frameBuffer);
      if status != Success {
        return;
      }
      Disconnect();
    }

    // ---- One frame: data ----

    /** A fragment is appended to the caller's buffer; FIN completes the message. */
    method HandleData(h: Header, frameLength: nat, frameBuffer: array<byte>, output: array<byte>,
                      ghost payload: seq<byte>, ghost rest: seq<byte>, ghost g: Fragment, controls: nat)
      returns (more: bool, status: Status, opcode: Opcode, bytesReceived: nat)
      requires Receiving(frameBuffer, output) && Loaded(h, frameLength, payload, rest) && !IsControl(h.opcode)
      requires (h.opcode == Continuation) == receiveFragmentOpen
      requires receiveFragmentLength + h.payloadLength <= output.Length && g == FragmentIn(output)
      modifies this`bufferedFrameLength, bufferedFrame, output
      modifies this`sendFragmentOpen, this`sendFragmentOpcode, this`sendText
      modifies this`receiveFragmentOpen, this`receiveFragmentOpcode, this`receiveFragmentLength
      modifies this`connected, this`closeReceived, this`transportClosed, this`log, this`closeSent
      modifies transport`wire, transport`faults, transport`open, frameBuffer
      ensures Valid() && (more ==> Receiving(frameBuffer, output) && Advanced(frameLength, rest))
      ensures old(transport.faults) == [] ==>
                && transport.faults == []
                && Stepped(OnData(h, payload, rest, g, controls), more, controls, output, frameBuffer.Length, old(log),
                           status, opcode, bytesReceived)
    {
      hide Recorded, Untorn, TextsComplete, InStep, CloseSeen, Frames, LastFrames, OnMessage, Concluded, PartialIn;
      status, opcode, bytesReceived := Success, Continuation, 0;
      TakeFragment(h, frameLength, output, payload, rest);
      if !h.fin {
        receiveFragmentOpen := true;
        NoPongs(log);
        return true, status, opcode, bytesReceived;
      }
      more := false;
      status, opcode, bytesReceived := FinishMessage(frameBuffer, output, rest);
    }

    method FinishMessage(frameBuffer: array<byte>, output: array<byte>, ghost rest: seq<byte>)
      returns (status: Status, opcode: Opcode, bytesReceived: nat)
      requires Core() && connected && !closeSent && !closeReceived
      requires !partWay ==> InStep(log, sendFragmentOpen, sendFragmentOpcode, sendText)
      requires receiveFragmentLength <= output.Length && frameBuffer != output && frameBuffer != bufferedFrame
      requires Pending() == rest
      modifies this`sendFragmentOpen, this`sendFragmentOpcode, this`sendText
      modifies this`receiveFragmentOpen, this`receiveFragmentOpcode, this`receiveFragmentLength
      modifies this`connected, this`closeReceived, this`transportClosed, this`log, this`closeSent
      modifies transport`wire, transport`faults, transport`open, frameBuffer
      ensures Valid()
      ensures var o := OnMessage(old(receiveFragmentOpcode), output[..old(receiveFragmentLength)], rest);
              && Concluded(o, output, status, opcode, bytesReceived)
              && (old(transport.faults) == [] ==>
                    transport.faults == [] && Frames(log) == Frames(old(log)) + LastFrames(o, frameBuffer.Length))
    {
      hide Recorded, Untorn, TextsComplete, InStep, CloseSeen, Frames, CloseFrames, Utf8.IsUtf8;
      status, opcode, bytesReceived := Success, Continuation, 0;
      if receiveFragmentOpcode == Text {
        var valid := Utf8.IsValidUtf8(output[..receiveFragmentLength]);
        if !valid {
          status := FailConnectionWithClose(INVALID_PAYLOAD, frameBuffer, InvalidNetworkResponse);
          return;
        }
      }
      opcode, bytesReceived := receiveFragmentOpcode, receiveFragmentLength;
      ResetReceiveFragment();
    }

    method TakeFragment(h: Header, frameLength: nat, output: array<byte>,
                        ghost payload: seq<byte>, ghost rest: seq<byte>)
      requires Loaded(h, frameLength, payload, rest) && receiveFragmentLength + h.payloadLength <= output.Length
      requires output != bufferedFrame
      modifies this`receiveFragmentOpcode, this`receiveFragmentLength, this`bufferedFrameLength, bufferedFrame, output
      ensures Advanced(frameLength, rest) && receiveFragmentLength <= output.Length
      ensures receiveFragmentOpcode == if receiveFragmentOpen then old(receiveFragmentOpcode) else h.opcode
      ensures output[..receiveFragmentLength]
           == old(FragmentIn(output)).partial + payload
      ensures FragmentIn(output).partial == output[..receiveFragmentLength]
    {
      CopyMemory(output, receiveFragmentLength, bufferedFrame[h.headerLength..h.headerLength + h.payloadLength]);
      if !receiveFragmentOpen {
        receiveFragmentOpcode := h.opcode;
      }
      receiveFragmentLength := receiveFragmentLength + h.payloadLength;
      Consume(h, frameLength, payload, rest);
    }

    // ---- The receive loop ----

    /** A whole frame is dealt with as `StepOver` says. */
    method HandleFrame(h: Header, frameLength: nat, frameBuffer: array<byte>, output: array<byte>, autoReplyPing: bool,
                       controlFrameCount: nat, ghost s: seq<byte>, ghost g: Fragment)
      returns (more: bool, status: Status, opcode: Opcode, bytesReceived: nat, controls: nat)
      requires Receiving(frameBuffer, output) && |s| >= h.headerLength + h.payloadLength
      requires LookAhead(s, g.open, |g.partial|, output.Length) == Whole(h) && g == FragmentIn(output)
      requires Loaded(h, frameLength, s[h.headerLength..h.headerLength + h.payloadLength],
                      s[h.headerLength + h.payloadLength..])
      modifies this`bufferedFrameLength, bufferedFrame, output
      modifies this`sendFragmentOpen, this`sendFragmentOpcode, this`sendText
      modifies this`receiveFragmentOpen, this`receiveFragmentOpcode, this`receiveFragmentLength
      modifies this`connected, this`closeReceived, this`transportClosed, this`log, this`closeSent
      modifies transport`wire, transport`faults, transport`open, frameBuffer
      ensures var step := StepOver(s, g, controlFrameCount, Settings(output.Length, frameBuffer.Length, autoReplyPing));
              Overflows(step) && !more ==> bufferedFrameLength == old(bufferedFrameLength)
      ensures Valid()
      ensures more ==> Receiving(frameBuffer, output) && Advanced(frameLength, s[h.headerLength + h.payloadLength..])
      ensures old(transport.faults) == [] ==>
                && transport.faults == []
                && Stepped(StepOver(s, g, controlFrameCount, Settings(output.Length, frameBuffer.Length, autoReplyPing)),
                           more, controls, output, frameBuffer.Length, old(log),
                           status, opcode, bytesReceived)
    {
      hide Recorded, Untorn, TextsComplete, InStep, CloseSeen, Frames, LastFrames, OnMessage, Answered, PartialIn,
           IsValidClosePayload, DecodeHeader, Stepped, OnPing, OnPong, OnClose, OnData;
      WholeIsAllowed(s, g.open, |g.partial|, output.Length);
      ghost var payload := s[h.headerLength..h.headerLength + h.payloadLength];
      ghost var rest := s[h.headerLength + h.payloadLength..];
      ghost var limits := Settings(output.Length, frameBuffer.Length, autoReplyPing);
      more, status, opcode, bytesReceived, controls := false, Success, Continuation, 0, controlFrameCount;
      match h.opcode {
        case Ping | Pong =>
          more, status, opcode, bytesReceived, controls :=
            HandlePingOrPong(h, frameLength, frameBuffer, output, autoReplyPing, controlFrameCount, payload, rest, g, limits);
        case Close =>
          status, opcode, bytesReceived := HandleClose(h, frameLength, frameBuffer, output, payload, rest, limits, controls);
        case _ =>
          more, status, opcode, bytesReceived :=
            HandleData(h, frameLength, frameBuffer, output, payload, rest, g, controlFrameCount);
      }
    }

    method HandlePingOrPong(h: Header, frameLength: nat, frameBuffer: array<byte>, output: array<byte>, autoReplyPing: bool,
                            controlFrameCount: nat, ghost payload: seq<byte>, ghost rest: seq<byte>, ghost g: Fragment,
                            ghost limits: Settings)
      returns (more: bool, status: Status, opcode: Opcode, bytesReceived: nat, controls: nat)
      requires Receiving(frameBuffer, output) && Loaded(h, frameLength, payload, rest) && h.opcode in {Ping, Pong}
      requires g == FragmentIn(output) && h.payloadLength <= MAX_CONTROL_PAYLOAD
      requires limits == Settings(output.Length, frameBuffer.Length, autoReplyPing)
      modifies this`bufferedFrameLength, bufferedFrame, output
      modifies this`sendFragmentOpen, this`sendFragmentOpcode, this`sendText
      modifies this`receiveFragmentOpen, this`receiveFragmentOpcode, this`receiveFragmentLength
      modifies this`connected, this`closeReceived, this`transportClosed, this`log, this`closeSent
      modifies transport`wire, transport`faults, transport`open, frameBuffer
      ensures var step := if h.opcode == Ping then OnPing(payload, rest, g, controlFrameCount, limits)
                          else OnPong(payload, rest, g, controlFrameCount, limits);
              Overflows(step) && !more ==> bufferedFrameLength == old(bufferedFrameLength)
      ensures Valid() && (more ==> Receiving(frameBuffer, output) && Advanced(frameLength, rest))
      ensures old(transport.faults) == [] ==>
                && transport.faults == []
                && Stepped(if h.opcode == Ping then OnPing(payload, rest, g, controlFrameCount, limits)
                           else OnPong(payload, rest, g, controlFrameCount, limits),
                           more, controls, output, frameBuffer.Length, old(log), status, opcode, bytesReceived)
    {
      hide Recorded, Untorn, TextsComplete, InStep, CloseSeen, Frames, PartialIn, Stepped;
      more, status, opcode, bytesReceived := false, Success, Continuation, 0;
      controls := controlFrameCount + 1;
      if controls > MAX_CONTROL_FRAMES {
        status := RefuseFrame(POLICY_VIOLATION, InvalidNetworkResponse, 0, frameBuffer, output, controls);
        return;
      }
      if !autoReplyPing {
        status, opcode, bytesReceived :=
          HandOverControl(h, frameLength, frameBuffer, output, payload, rest, g, limits, controls);
        return;
      }
      if h.opcode == Ping {
        status := AnswerPing(h, frameLength, frameBuffer, output, payload, rest, g, controls);
        more := status == Success;
      } else {
        DropPong(h, frameLength, frameBuffer, output, payload, rest, g, controls);
        more := true;
      }
    }

    /** One turn of the receive loop: read until there is a frame, then deal with it. */
    method OneTurn(frameBuffer: array<byte>, output: array<byte>, autoReplyPing: bool, receiveFrameCapacity: nat,
                   controlFrameCount: nat, ghost s: seq<byte>, ghost g: Fragment)
      returns (more: bool, status: Status, opcode: Opcode, bytesReceived: nat, controls: nat)
      requires Receiving(frameBuffer, output) && bufferedFrameLength <= receiveFrameCapacity <= bufferedFrame.Length
      requires s == Pending() && g == FragmentIn(output)
      requires receiveFrameCapacity >= MAX_HEADER + output.Length && receiveFrameCapacity >= MAX_HEADER + MAX_CONTROL_PAYLOAD
      modifies this`bufferedFrameLength, bufferedFrame, output
      modifies this`sendFragmentOpen, this`sendFragmentOpcode, this`sendText
      modifies this`receiveFragmentOpen, this`receiveFragmentOpcode, this`receiveFragmentLength
      modifies this`connected, this`closeReceived, this`transportClosed, this`log, this`closeSent
      modifies transport`pieces, transport`wire, transport`faults, transport`open, frameBuffer
      ensures var step := StepOver(s, g, controlFrameCount,
                                   Settings(output.Length, frameBuffer.Length, autoReplyPing));
              Overflows(step) && !more ==> bufferedFrameLength == old(bufferedFrameLength)
      ensures var one := OnePiece(old(transport.pieces), old(bufferedFrameLength), receiveFrameCapacity,
                                  old(receiveFragmentOpen), old(receiveFragmentLength), output.Length);
              one ==> transport.pieces == old(transport.pieces[1..])
      ensures Valid()
      ensures more ==> Receiving(frameBuffer, output) && |Pending()| < |s|
      ensures more ==> bufferedFrameLength <= receiveFrameCapacity
      ensures old(transport.faults) == [] ==>
                && transport.faults == []
                && Stepped(StepOver(s, g, controlFrameCount,
                                    Settings(output.Length, frameBuffer.Length, autoReplyPing)),
                           more, controls, output, frameBuffer.Length, old(log), status, opcode, bytesReceived)
    {
      hide Recorded, Untorn, TextsComplete, InStep, CloseSeen, Frames, PartialIn, Stepped, StepOver, LookAhead,
           Loaded, OnePiece, Receiving, Valid, Starving;
      ghost var limits := Settings(output.Length, frameBuffer.Length, autoReplyPing);
      var f := ReadFrame(frameBuffer, output, receiveFrameCapacity, s);
      match f {
        case Ended(ended) =>
          StoppedStarved(s, g, controlFrameCount, limits, output, ended);
          return false, ended, Continuation, 0, controlFrameCount;
        case Refused(code, refusal, reported) =>
          StoppedRefused(s, g, controlFrameCount, limits);
          status := RefuseFrame(code, refusal, reported, frameBuffer, output, controlFrameCount);
          return false, status, Continuation, reported, controlFrameCount;
        case Complete(h, frameLength) =>
          WholeHasHeader(s, g.open, |g.partial|, output.Length);
          more, status, opcode, bytesReceived, controls :=
            HandleFrame(h, frameLength, frameBuffer, output, autoReplyPing, controlFrameCount, s, g);
      }
    }

    lemma StoppedStarved(s: seq<byte>, g: Fragment, controls: nat, limits: Settings, output: array<byte>, status: Status)
      requires LookAhead(s, g.open, |g.partial|, limits.capacity).NoFrame? && status == StarvedStatus(transport.endStatus)
      requires bufferedFrameLength <= bufferedFrame.Length && Pending() <= s
      requires g.open == receiveFragmentOpen && |g.partial| == receiveFragmentLength && limits.capacity == output.Length
      requires if Quiet(transport.endStatus) then !connected else connected && !closeReceived
      ensures Stepped(StepOver(s, g, controls, limits), false, controls, output, limits.room, log, status, Continuation, 0)
    {
      hide LookAhead;
      NoPongs(log);
      LookIsStable(Pending(), s[|Pending()|..], g.open, |g.partial|, limits.capacity);
      assert Pending() + s[|Pending()|..] == s;
    }

    /** The state and the results after a call that did what `Receive` says. */
    ghost predicate Finished(r: Received, output: array<byte>, room: nat, log0: seq<Sent>, status: Status,
                             opcode: Opcode, bytesReceived: nat)
      reads this, transport, bufferedFrame, output
    {
      && bufferedFrameLength <= bufferedFrame.Length
      && Concluded(r.outcome, output, status, opcode, bytesReceived)
      && Frames(log) == Frames(log0) + PongFrames(r.pongs) + LastFrames(r.outcome, room)
    }

    method ReceiveLoop(frameBuffer: array<byte>, output: array<byte>, autoReplyPing: bool, receiveFrameCapacity: nat)
      returns (status: Status, opcode: Opcode, bytesReceived: nat)
      requires Receiving(frameBuffer, output) && bufferedFrameLength <= receiveFrameCapacity <= bufferedFrame.Length
      requires receiveFrameCapacity >= MAX_HEADER + output.Length && receiveFrameCapacity >= MAX_HEADER + MAX_CONTROL_PAYLOAD
      modifies this`bufferedFrameLength, bufferedFrame, output
      modifies this`sendFragmentOpen, this`sendFragmentOpcode, this`sendText
      modifies this`receiveFragmentOpen, this`receiveFragmentOpcode, this`receiveFragmentLength
      modifies this`connected, this`closeReceived, this`transportClosed, this`log, this`closeSent
      modifies transport`pieces, transport`wire, transport`faults, transport`open, frameBuffer
      ensures Valid()
      ensures var step := StepOver(old(Pending()), old(FragmentIn(output)), 0,
                                   Settings(output.Length, frameBuffer.Length, autoReplyPing));
              old(transport.faults) == [] && Overflows(step) ==>
                bufferedFrameLength == old(bufferedFrameLength)
                && (OnePiece(old(transport.pieces), old(bufferedFrameLength), receiveFrameCapacity,
                             old(receiveFragmentOpen), old(receiveFragmentLength), output.Length) ==>
                      transport.pieces == old(transport.pieces[1..]))
      ensures old(transport.faults) == [] ==>
                && transport.faults == []
                && Finished(Receive(old(Pending()), old(FragmentIn(output)), 0,
                                    Settings(output.Length, frameBuffer.Length, autoReplyPing)),
                            output, frameBuffer.Length, old(log), status, opcode, bytesReceived)
    {
      hide LookAhead, Recorded, Untorn, TextsComplete, InStep, CloseSeen, Frames, PartialIn, Stepped, StepOver,
           Receive, Finished;
      ghost var s, g := Pending(), FragmentIn(output);
      ghost var limits := Settings(output.Length, frameBuffer.Length, autoReplyPing);
      ghost var one := OnePiece(transport.pieces, bufferedFrameLength, receiveFrameCapacity, receiveFragmentOpen,
                                receiveFragmentLength, output.Length);
      ghost var lost := Overflows(StepOver(s, g, 0, limits));
      ghost var first := true;
      ghost var pongs: seq<seq<byte>> := [];
      ghost var quiet := transport.faults == [];
      status, opcode, bytesReceived := Success, Continuation, 0;
      var controlFrameCount := 0;
      var more := true;
      NoPongs(log);
      while more
        invariant Valid() && 0 <= controlFrameCount
        invariant more ==> Receiving(frameBuffer, output) && bufferedFrameLength <= receiveFrameCapacity
        invariant quiet ==> transport.faults == []
        invariant quiet && more ==>
                    && Frames(log) == Frames(old(log)) + PongFrames(pongs)
                    && Receive(s, g, 0, limits) == After(pongs, Receive(Pending(), FragmentIn(output), controlFrameCount, limits))
        invariant quiet && !more ==>
                    Finished(Receive(s, g, 0, limits), output, frameBuffer.Length, old(log), status, opcode, bytesReceived)
        invariant first ==>
                    && more && controlFrameCount == 0 && Pending() == s && FragmentIn(output) == g
                    && bufferedFrameLength == old(bufferedFrameLength) && transport.pieces == old(transport.pieces)
        invariant quiet && lost && !first ==>
                    && !more && bufferedFrameLength == old(bufferedFrameLength)
                    && (one ==> transport.pieces == old(transport.pieces[1..]))
        decreases more, |Pending()|
      {
        ghost var before, s1, g1, count1 := log, Pending(), FragmentIn(output), controlFrameCount;
        more, status, opcode, bytesReceived, controlFrameCount :=
          OneTurn(frameBuffer, output, autoReplyPing, receiveFrameCapacity, controlFrameCount, s1, g1);
        if quiet {
          OverflowStops(StepOver(s1, g1, count1, limits), more, controlFrameCount, output, limits.room, before,
                        status, opcode, bytesReceived);
          TurnTaken(old(log), before, s, g, s1, g1, count1, limits, pongs, more, controlFrameCount, output,
                    status, opcode, bytesReceived);
          pongs := pongs + StepPongs(StepOver(s1, g1, count1, limits));
        }
        first := false;
      }
    }

    lemma OverflowStops(step: Step, more: bool, controls: nat, output: array<byte>, room: nat, log0: seq<Sent>,
                        status: Status, opcode: Opcode, bytesReceived: nat)
      requires Stepped(step, more, controls, output, room, log0, status, opcode, bytesReceived)
      ensures Overflows(step) ==> !more
    {
    }

    /** A call reaches the receive loop only on a connection, with a frame buffer and a sensible output. */
    predicate CanReceive(frameBuffer: array<byte>, output: array<byte>)
      reads this
    {
      connected && !closeReceived && frameBuffer.Length > 0 && output.Length < SIZE_LIMIT - MAX_HEADER
    }

    function ReceiveRefusal(frameBuffer: array<byte>): Status
      reads this
    {
      if !connected then
        if transportClosed || closeSent || closeReceived then ConnectionDisconnected else InvalidParameter
      else if frameBuffer.Length == 0 then InvalidParameter
      else if closeReceived then ConnectionDisconnected
      else BufferTooSmall
    }

    /**
     `ReceiveMessage`: when no write fails, the answers and the frames sent are those of `Receive` for the
     pending bytes, however they are cut into reads.
     */
    method ReceiveMessage(frameBuffer: array<byte>, output: array<byte>, autoReplyPing: bool)
      returns (status: Status, opcode: Opcode, bytesReceived: nat)
      requires Valid() && frameBuffer != output && bufferedFrame != frameBuffer && bufferedFrame != output
      modifies this`bufferedFrame, this`bufferedFrameLength, bufferedFrame, output
      modifies this`sendFragmentOpen, this`sendFragmentOpcode, this`sendText
      modifies this`receiveFragmentOpen, this`receiveFragmentOpcode, this`receiveFragmentLength
      modifies this`connected, this`closeReceived, this`transportClosed, this`log, this`closeSent
      modifies transport`pieces, transport`wire, transport`faults, transport`open, frameBuffer
      ensures Valid() && (bufferedFrame == old(bufferedFrame) || fresh(bufferedFrame))
      ensures !old(CanReceive(frameBuffer, output)) ==>
                && status == old(ReceiveRefusal(frameBuffer)) && opcode == Continuation && bytesReceived == 0
                && Pending() == old(Pending()) && log == old(log) && connected == old(connected)
                && closeReceived == old(closeReceived) && closeSent == old(closeSent)
                && transportClosed == old(transportClosed) && transport.faults == old(transport.faults)
      ensures var step := StepOver(old(Pending()), old(FragmentIn(output)), 0,
                                   Settings(output.Length, frameBuffer.Length, autoReplyPing));
              old(CanReceive(frameBuffer, output)) && old(transport.faults) == [] && Overflows(step) ==>
                bufferedFrameLength == old(bufferedFrameLength)
                && (OnePiece(old(transport.pieces), old(bufferedFrameLength), ReceiveRoom(output.Length),
                             old(receiveFragmentOpen), old(receiveFragmentLength), output.Length) ==>
                      transport.pieces == old(transport.pieces[1..]))
      ensures old(transport.faults) == [] && old(CanReceive(frameBuffer, output)) ==>
                && transport.faults == []
                && Finished(Receive(old(Pending()), old(FragmentIn(output)), 0,
                                    Settings(output.Length, frameBuffer.Length, autoReplyPing)),
                            output, frameBuffer.Length, old(log), status, opcode, bytesReceived)
    {
      hide LookAhead, Recorded, Untorn, TextsComplete, InStep, CloseSeen, Frames, PartialIn, Stepped, StepOver,
           Receive, Finished;
      opcode, bytesReceived := Continuation, 0;
      if !connected {
        status := NotConnected();
        return;
      }
      if frameBuffer.Length == 0 {
        return InvalidParameter, opcode, bytesReceived;
      }
      if closeReceived {
        return ConnectionDisconnected, opcode, bytesReceived;
      }
      if output.Length > SIZE_LIMIT - 1 - MAX_HEADER {
        return BufferTooSmall, opcode, bytesReceived;
      }
      var minimumPayloadCapacity := if output.Length < MAX_CONTROL_PAYLOAD then MAX_CONTROL_PAYLOAD else output.Length;
      var receiveFrameCapacity := minimumPayloadCapacity + MAX_HEADER;
      if bufferedFrameLength > receiveFrameCapacity {
        receiveFrameCapacity := bufferedFrameLength;
      }
      var ensured := EnsureBufferedFrameCapacity(receiveFrameCapacity);
      status, opcode, bytesReceived := ReceiveLoop(frameBuffer, output, autoReplyPing, receiveFrameCapacity);
    }

    /** A turn brings the call one step of `Receive` further, or to its end. */
    lemma TurnTaken(log0: seq<Sent>, before: seq<Sent>, s: seq<byte>, g: Fragment, s1: seq<byte>, g1: Fragment, count1: nat,
                    limits: Settings, pongs: seq<seq<byte>>, more: bool, controls: nat, output: array<byte>,
                    status: Status, opcode: Opcode, bytesReceived: nat)
      requires Frames(before) == Frames(log0) + PongFrames(pongs)
      requires Receive(s, g, 0, limits) == After(pongs, Receive(s1, g1, count1, limits))
      requires Stepped(StepOver(s1, g1, count1, limits), more, controls, output, limits.room, before, status, opcode,
                       bytesReceived)
      ensures more ==>
                var pongs' := pongs + StepPongs(StepOver(s1, g1, count1, limits));
                && Frames(log) == Frames(log0) + PongFrames(pongs')
                && Receive(s, g, 0, limits) == After(pongs', Receive(Pending(), FragmentIn(output), controls, limits))
      ensures !more ==> Finished(Receive(s, g, 0, limits), output, limits.room, log0, status, opcode, bytesReceived)
    {
      hide StepOver, Frames, Concluded, LastFrames, PartialIn;
      var step := StepOver(s1, g1, count1, limits);
      MorePongs(pongs, StepPongs(step));
      if more {
        var r := Receive(Pending(), FragmentIn(output), controls, limits);
        assert pongs + (step.pongs + r.pongs) == pongs + step.pongs + r.pongs;
      } else {
        assert pongs + [] == pongs;
      }
    }

    // ---- Waiting for the peer's Close frame ----

    /** The wait goes on: nothing about the search has changed. */
    ghost predicate Waiting()
      reads this, transport
    {
      Core() && connected && !closeReceived && !transportClosed
    }

    /** Since then the clock was read at most once for every byte that came, and `more` times besides. */
    ghost predicate ClockRead(ticks: nat, unread: nat, more: nat)
      reads this, transport
    {
      |transport.Unread()| <= unread && ticks <= transport.ticks + (unread - |transport.Unread()|) + more
    }

    /** `ReceiveRaw`; a quiet or a terminal end is not an error here. */
    method ReadSome(offset: nat, length: nat) returns (more: bool, status: Status, received: nat)
      requires Waiting() && 0 < length && offset + length <= bufferedFrame.Length
      modifies transport`pieces, bufferedFrame
      ensures Waiting() && (more ==> 0 < received <= length)
      ensures more ==> bufferedFrame[offset..offset + received] + transport.Unread() == old(transport.Unread())
      ensures more ==> |transport.Unread()| + received == |old(transport.Unread())|
      ensures !more ==> transport.Unread() == old(transport.Unread()) == [] && status == QuietEnd(transport.endStatus)
      ensures bufferedFrame[..offset] == old(bufferedFrame[..offset])
    {
      hide Recorded, Untorn, TextsComplete, CloseSeen;
      status, received := transport.Receive(bufferedFrame, offset, length);
      if status != Success {
        return false, if IsTerminal(status) then Success else status, received;
      }
      return received != 0, Success, received;
    }

    /** The clock is read first. */
    method ReadInTime(offset: nat, length: nat) returns (more: bool, status: Status, received: nat, ghost timedOut: bool)
      requires Waiting() && 0 < length && offset + length <= bufferedFrame.Length
      modifies transport`pieces, transport`ticks, bufferedFrame
      ensures Waiting() && (more ==> 0 < received <= length)
      ensures more ==> bufferedFrame[offset..offset + received] + transport.Unread() == old(transport.Unread())
      ensures more ==> |transport.Unread()| + received == |old(transport.Unread())|
      ensures !more ==> transport.Unread() == old(transport.Unread())
      ensures !more && !timedOut ==> old(transport.Unread()) == [] && status == QuietEnd(transport.endStatus)
      ensures !more && timedOut ==> status == Success && transport.ticks == 0
      ensures more || timedOut ==> ClockRead(old(transport.ticks), |old(transport.Unread())|, 0)
      ensures bufferedFrame[..offset] == old(bufferedFrame[..offset])
    {
      hide Recorded, Untorn, TextsComplete, CloseSeen;
      var remains := transport.TimeRemains();
      if !remains {
        return false, Success, 0, true;
      }
      more, status, received := ReadSome(offset, length);
      timedOut := false;
    }

    /** A data frame that does not fit is read past, and not one byte more. */
    method Drain(length: nat) returns (more: bool, status: Status, ghost timedOut: bool, ghost left: nat)
      requires Waiting() && bufferedFrame.Length > 0
      modifies transport`pieces, transport`ticks, bufferedFrame
      ensures Waiting() && |transport.Unread()| <= |old(transport.Unread())|
      ensures more ==> |old(transport.Unread())| >= length && transport.Unread() == old(transport.Unread())[length..]
      ensures !more && !timedOut ==> |old(transport.Unread())| < length && status == QuietEnd(transport.endStatus)
      ensures !more && timedOut ==> status == Success && transport.ticks == 0
      ensures timedOut ==>
                && left <= length <= |old(transport.Unread())| + left
                && transport.Unread() == old(transport.Unread())[length - left..]
      ensures more || timedOut ==> ClockRead(old(transport.ticks), |old(transport.Unread())|, 0)
    {
      hide Waiting, Flatten;
      var remainingPayload := length;
      status, timedOut, left := Success, false, length;
      ghost var s := transport.Unread();
      while remainingPayload != 0
        invariant Waiting() && 0 <= remainingPayload <= length <= |s| + remainingPayload
        invariant transport.Unread() == s[length - remainingPayload..]
        invariant ClockRead(old(transport.ticks), |s|, 0)
        decreases remainingPayload
      {
        var chunk := if remainingPayload > bufferedFrame.Length then bufferedFrame.Length else remainingPayload;
        var received;
        more, status, received, timedOut := ReadInTime(0, chunk);
        if !more {
          left := remainingPayload;
          return;
        }
        DropMore(s, length - remainingPayload, bufferedFrame[0..0 + received], transport.Unread());
        remainingPayload := remainingPayload - received;
      }
      return true, Success, false, 0;
    }

    /** Reads up to the end of a control frame. */
    method FillFrame(frameLength: nat) returns (more: bool, status: Status, ghost timedOut: bool)
      requires Waiting() && frameLength <= bufferedFrame.Length
      modifies this`bufferedFrameLength, transport`pieces, transport`ticks, bufferedFrame
      ensures Waiting() && Pending() == old(Pending())
      ensures more ==> bufferedFrameLength >= frameLength
      ensures !more && !timedOut ==> |old(Pending())| < frameLength && status == QuietEnd(transport.endStatus)
      ensures !more && timedOut ==> status == Success && transport.ticks == 0
      ensures more || timedOut ==> ClockRead(old(transport.ticks), |old(transport.Unread())|, 0)
    {
      hide Flatten, Recorded, Untorn, TextsComplete, CloseSeen;
      status, timedOut := Success, false;
      while bufferedFrameLength < frameLength
        invariant Waiting() && Pending() == old(Pending())
        invariant ClockRead(old(transport.ticks), |old(transport.Unread())|, 0)
        decreases frameLength - bufferedFrameLength
      {
        var received;
        ghost var data := Buffered();
        more, status, received, timedOut := ReadInTime(bufferedFrameLength, frameLength - bufferedFrameLength);
        if !more {
          return;
        }
        assert bufferedFrame[..bufferedFrameLength + received]
            == data + bufferedFrame[bufferedFrameLength..bufferedFrameLength + received];
        bufferedFrameLength := bufferedFrameLength + received;
      }
      return true, Success, false;
    }

    /** What has been read so far was no part of the answer, but perhaps of a frame that is being read past. */
    ghost predicate Searching(found: Search)
      reads this, bufferedFrame, transport
      requires bufferedFrameLength <= bufferedFrame.Length
    {
      exists skipped: nat :: FindCloseBehind(Pending(), skipped) == found
    }

    lemma SearchingBehind(skipped: nat)
      requires bufferedFrameLength <= bufferedFrame.Length
      ensures Searching(FindCloseBehind(Pending(), skipped))
    {
    }

    lemma SearchingFrom(s: seq<byte>)
      requires bufferedFrameLength <= bufferedFrame.Length && Pending() == s
      ensures Searching(FindClose(s))
    {
      hide FindClose;
      assert s[0..] == s;
      assert FindCloseBehind(Pending(), 0) == FindClose(s);
    }

    /** How the wait can end. */
    ghost predicate WaitEnded(found: Search, status: Status, timedOut: bool)
      reads this, transport, bufferedFrame
    {
      && Core()
      && if closeReceived then
           && found.Found? && !timedOut && !connected && transportClosed
           && status == (if IsTerminal(transport.closeStatus) then Success else transport.closeStatus)
         else
           && connected && !transportClosed
           && if timedOut then status == Success && transport.ticks == 0 && Searching(found)
              else match found
                   case Exhausted => status == QuietEnd(transport.endStatus)
                   case BadStream => status == InvalidNetworkResponse
                   case Found(_) => false
    }

    /** The clock ran only while bytes were read and frames passed: once for each of them, and `more` times besides. */
    ghost predicate Consumed(ticks: nat, pending: nat, unread: nat, more: nat)
      reads this, transport, bufferedFrame
    {
      && bufferedFrameLength <= bufferedFrame.Length && |Pending()| <= pending && |transport.Unread()| <= unread
      && ticks <= transport.ticks + (pending - |Pending()|) + 2 * (unread - |transport.Unread()|) + more
    }

    /** The search goes on behind a frame that was passed over. */
    ghost predicate Passed(s: seq<byte>)
      reads this, bufferedFrame, transport
    {
      Waiting() && FindClose(Pending()) == FindClose(s) && |Pending()| < |s|
    }

    /** A frame that is whole in the buffer and no Close frame leaves it. */
    method PassBuffered(header: Header, ghost s: seq<byte>)
      requires Waiting() && s == Pending() && DecodeHeader(s) == Known(header) && header.opcode != Close
      requires header.headerLength + header.payloadLength <= bufferedFrameLength
      modifies this`bufferedFrameLength, bufferedFrame
      ensures Passed(s)
    {
      hide Flatten, Utf8.Reachable, Loaded, Recorded, Untorn, TextsComplete, CloseSeen, FindClose, IsValidClosePayload,
           DecodeHeader;
      TenBytesDecide(s);
      FindCloseStep(s);
      var frameLength := header.headerLength + header.payloadLength;
      LoadedFromStream(header, bufferedFrameLength, s);
      Consume(header, bufferedFrameLength, s[header.headerLength..frameLength], s[frameLength..]);
    }

    /** A Close frame that is whole in the buffer ends the wait. */
    method MeetClose(header: Header, ghost s: seq<byte>) returns (status: Status)
      requires Waiting() && s == Pending() && DecodeHeader(s) == Known(header) && header.opcode == Close
      requires header.headerLength + header.payloadLength <= bufferedFrameLength
      modifies this`connected, this`closeReceived, this`transportClosed, transport`open
      ensures WaitEnded(FindClose(s), status, false)
    {
      hide Flatten, Utf8.Reachable, Recorded, Untorn, TextsComplete, CloseSeen, FindClose, IsValidClosePayload, DecodeHeader;
      TenBytesDecide(s);
      FindCloseStep(s);
      var frameLength := header.headerLength + header.payloadLength;
      LoadedFromStream(header, bufferedFrameLength, s);
      var valid := CheckClosePayload(bufferedFrame[header.headerLength..frameLength]);
      if !valid {
        return InvalidNetworkResponse;
      }
      status := AcceptPeerClose();
    }

    method PassControl(header: Header, ghost s: seq<byte>) returns (more: bool, status: Status, ghost timedOut: bool)
      requires Waiting() && s == Pending() && DecodeHeader(s) == Known(header) && IsControl(header.opcode)
      requires bufferedFrame.Length >= MAX_HEADER + MAX_CONTROL_PAYLOAD
      modifies this`bufferedFrameLength, transport`pieces, transport`ticks, bufferedFrame
      modifies this`connected, this`closeReceived, this`transportClosed, transport`open
      ensures if more then Passed(s) else WaitEnded(FindClose(s), status, timedOut)
      ensures more || timedOut ==> ClockRead(old(transport.ticks), |old(transport.Unread())|, 0)
      ensures bufferedFrameLength <= bufferedFrame.Length && |Pending()| <= |old(Pending())|
    {
      hide Flatten, Utf8.Reachable, Recorded, Untorn, TextsComplete, CloseSeen, FindClose, IsValidClosePayload, DecodeHeader;
      TenBytesDecide(s);
      FindCloseStep(s);
      more, status, timedOut := FillFrame(header.headerLength + header.payloadLength);
      if !more {
        SearchingFrom(s);
        return;
      }
      if header.opcode == Close {
        status := MeetClose(header, s);
        return false, status, false;
      }
      PassBuffered(header, s);
    }

    method AcceptPeerClose() returns (status: Status)
      requires Core()
      modifies this`connected, this`closeReceived, this`transportClosed, transport`open
      ensures Core() && closeReceived && !connected && transportClosed
      ensures !old(transportClosed) ==>
                status == if IsTerminal(transport.closeStatus) then Success else transport.closeStatus
    {
      hide Recorded, Untorn, TextsComplete, CloseSeen;
      closeReceived := true;
      connected := false;
      status := CloseTransport();
    }

    method PassData(header: Header, ghost s: seq<byte>) returns (more: bool, status: Status, ghost timedOut: bool)
      requires Waiting() && s == Pending() && DecodeHeader(s) == Known(header) && !IsControl(header.opcode)
      requires bufferedFrame.Length > 0 && header.headerLength <= bufferedFrameLength
      modifies this`bufferedFrameLength, transport`pieces, transport`ticks, bufferedFrame
      ensures if more then Passed(s) else WaitEnded(FindClose(s), status, timedOut)
      ensures more || timedOut ==> ClockRead(old(transport.ticks), |old(transport.Unread())|, 0)
      ensures bufferedFrameLength <= bufferedFrame.Length && |Pending()| <= |old(Pending())|
    {
      hide Flatten, Utf8.Reachable, Recorded, Untorn, TextsComplete, CloseSeen, FindClose, DecodeHeader, FindCloseBehind,
           Searching;
      TenBytesDecide(s);
      FindCloseStep(s);
      var bufferedPayload := bufferedFrameLength - header.headerLength;
      if bufferedPayload >= header.payloadLength {
        PassBuffered(header, s);
        return true, Success, false;
      }
      ghost var unread := transport.Unread();
      var remainingPayload := header.payloadLength - bufferedPayload;
      BehindBuffered(Buffered(), unread, remainingPayload);
      bufferedFrameLength := 0;
      ghost var left;
      more, status, timedOut, left := Drain(remainingPayload);
      assert Buffered() == [] && Pending() == transport.Unread();
      if timedOut {
        LeftBehind(unread, remainingPayload, left);
        SearchingBehind(left);
      }
    }

    /** One turn of the wait, while time remains. */
    method WaitTurn() returns (more: bool, status: Status, ghost timedOut: bool)
      requires Waiting() && bufferedFrame.Length >= MAX_HEADER + MAX_CONTROL_PAYLOAD
      modifies this`bufferedFrameLength, transport`pieces, transport`ticks, bufferedFrame
      modifies this`connected, this`closeReceived, this`transportClosed, transport`open
      ensures more ==> old(transport.ticks) > 0
      ensures more ==> Waiting() && FindClose(Pending()) == FindClose(old(Pending()))
      ensures more ==> |Pending()| < |old(Pending())|
                       || (|Pending()| == |old(Pending())| && |transport.Unread()| < |old(transport.Unread())|)
      ensures !more ==> WaitEnded(FindClose(old(Pending())), status, timedOut)
      ensures more || timedOut ==> ClockRead(old(transport.ticks), |old(transport.Unread())|, 1)
      ensures bufferedFrameLength <= bufferedFrame.Length && |Pending()| <= |old(Pending())|
    {
      hide Recorded, Untorn, TextsComplete, CloseSeen, FindClose;
      var remains := transport.TimeRemains();
      if !remains {
        SearchingFrom(Pending());
        return false, Success, true;
      }
      more, status, timedOut := PassFrame();
    }

    /** Bytes are read for a header, or one whole frame is passed over. */
    method PassFrame() returns (more: bool, status: Status, ghost timedOut: bool)
      requires Waiting() && bufferedFrame.Length >= MAX_HEADER + MAX_CONTROL_PAYLOAD
      modifies this`bufferedFrameLength, transport`pieces, transport`ticks, bufferedFrame
      modifies this`connected, this`closeReceived, this`transportClosed, transport`open
      ensures more ==> Waiting() && FindClose(Pending()) == FindClose(old(Pending()))
      ensures more ==> |Pending()| < |old(Pending())|
                       || (|Pending()| == |old(Pending())| && |transport.Unread()| < |old(transport.Unread())|)
      ensures !more ==> WaitEnded(FindClose(old(Pending())), status, timedOut)
      ensures more || timedOut ==> ClockRead(old(transport.ticks), |old(transport.Unread())|, 0)
      ensures bufferedFrameLength <= bufferedFrame.Length && |Pending()| <= |old(Pending())|
    {
      hide Recorded, Untorn, TextsComplete, CloseSeen, FindClose, IsValidClosePayload, DecodeHeader;
      ghost var s, unread := Pending(), transport.Unread();
      var data := bufferedFrame[..bufferedFrameLength];
      var decodeStatus, header := DecodeFrameHeader(data);
      HeaderOfStream(data, unread);
      if decodeStatus == MoreProcessingRequired {
        var received;
        more, status, received := ReadSome(bufferedFrameLength, bufferedFrame.Length - bufferedFrameLength);
        timedOut := false;
        if !more {
          return;
        }
        assert bufferedFrame[..bufferedFrameLength + received]
            == data + bufferedFrame[bufferedFrameLength..bufferedFrameLength + received];
        assert bufferedFrame[..bufferedFrameLength + received] + transport.Unread()
            == data + (bufferedFrame[bufferedFrameLength..bufferedFrameLength + received] + transport.Unread());
        bufferedFrameLength := bufferedFrameLength + received;
        return;
      }
      if decodeStatus != Success {
        return false, decodeStatus, false;
      }
      if IsControl(header.opcode) {
        more, status, timedOut := PassControl(header, s);
      } else {
        more, status, timedOut := PassData(header, s);
      }
    }

    /**
     `WaitForPeerClose` looks for the first Close frame of the frame-parsed stream, whatever the reads
     deliver, and finds it unless time or the stream runs out or a malformed frame comes first.
     */
    method WaitForPeerClose() returns (status: Status, ghost timedOut: bool)
      requires Core()
      modifies this`bufferedFrame, this`bufferedFrameLength, transport`pieces, transport`ticks, bufferedFrame
      modifies this`connected, this`closeReceived, this`transportClosed, transport`open
      ensures Core() && (bufferedFrame == old(bufferedFrame) || fresh(bufferedFrame))
      ensures old(connected) && !old(closeReceived) ==> WaitEnded(FindClose(old(Pending())), status, timedOut)
      ensures timedOut ==> Consumed(old(transport.ticks), |old(Pending())|, |old(transport.Unread())|, 1)
      ensures !old(connected) || old(closeReceived) ==> !timedOut
      ensures !old(connected) || old(closeReceived) ==>
                status == Success && connected == old(connected) && closeReceived == old(closeReceived)
    {
      hide Recorded, Untorn, TextsComplete, CloseSeen, FindClose;
      timedOut := false;
      if !connected || closeReceived {
        return Success, timedOut;
      }
      status := EnsureBufferedFrameCapacity(MAX_HEADER + MAX_CONTROL_PAYLOAD);
      ghost var s, buffer := Pending(), bufferedFrame;
      var more := true;
      while more
        invariant bufferedFrame == buffer
        invariant more ==> Waiting() && FindClose(Pending()) == FindClose(s)
        invariant bufferedFrame.Length >= MAX_HEADER + MAX_CONTROL_PAYLOAD
        invariant !more ==> WaitEnded(FindClose(s), status, timedOut)
        invariant more || timedOut ==>
                    Consumed(old(transport.ticks), |s|, |old(transport.Unread())|, if more then 0 else 1)
        decreases more, if more then |Pending()| else 0, |transport.Unread()|
      {
        more, status, timedOut := WaitTurn();
      }
    }

    // ---- Close and Connect ----

    /** Everything about the connection is forgotten. */
    ghost predicate Cleared()
      reads this
    {
      && !connected && !closeSent && !closeReceived && transportClosed
      && !sendFragmentOpen && !receiveFragmentOpen && bufferedFrameLength == 0
    }

    /** Sends a Close frame unless one was sent or received, and then waits for the peer's. */
    method SendCloseAndWait(frameBuffer: array<byte>) returns (waitStatus: Status, ghost timedOut: bool)
      requires Core() && frameBuffer != bufferedFrame
      modifies this`bufferedFrame, this`bufferedFrameLength, bufferedFrame, frameBuffer
      modifies this`connected, this`closeReceived, this`transportClosed, this`log, this`closeSent
      modifies transport`pieces, transport`ticks, transport`wire, transport`faults, transport`open
      ensures Core() && (bufferedFrame == old(bufferedFrame) || fresh(bufferedFrame))
      ensures old(transport.faults) == [] && old(connected) && !old(closeSent) && !old(closeReceived) ==>
                Frames(log) == Frames(old(log)) + if frameBuffer.Length >= 6 then [Frame(true, Close, [])] else []
      ensures !old(connected) || old(closeSent) || old(closeReceived) || frameBuffer.Length < 6 ==>
                log == old(log) && waitStatus == Success && transportClosed == old(transportClosed)
      ensures log != old(log) ==> WaitEnded(FindClose(old(Pending())), waitStatus, timedOut)
      ensures timedOut ==> log != old(log) && Late(old(transport.ticks), |old(Pending())|, |old(transport.Unread())|)
    {
      hide Recorded, Untorn, TextsComplete, CloseSeen, FindClose, Frames, CloseStatus, EncodeStatus, Flatten;
      waitStatus, timedOut := Success, false;
      if connected && !closeSent && !closeReceived && frameBuffer.Length >= 6 {
        EchoRoom([], frameBuffer.Length);
        var sendStatus := SendCloseFrame([], frameBuffer);
        assert Pending() == old(Pending());
        if sendStatus == Success {
          waitStatus, timedOut := WaitForPeerClose();
        }
      } else {
        NoPongs(log);
      }
    }

    /** `Close(buffers)`: whatever happened before, the client can connect again. */
    method CloseConnection(frameBuffer: array<byte>) returns (status: Status, ghost timedOut: bool)
      requires Core() && frameBuffer != bufferedFrame
      modifies this`bufferedFrame, this`bufferedFrameLength, bufferedFrame, frameBuffer
      modifies this`sendFragmentOpen, this`sendFragmentOpcode, this`sendText
      modifies this`receiveFragmentOpen, this`receiveFragmentOpcode, this`receiveFragmentLength
      modifies this`connected, this`closeReceived, this`transportClosed, this`log, this`closeSent
      modifies transport`pieces, transport`ticks, transport`wire, transport`faults, transport`open
      ensures Valid() && Cleared() && !connected && (bufferedFrame == old(bufferedFrame) || fresh(bufferedFrame))
      ensures old(transport.faults) == [] && old(connected) && !old(closeSent) && !old(closeReceived) ==>
                Frames(log) == Frames(old(log)) + if frameBuffer.Length >= 6 then [Frame(true, Close, [])] else []
      ensures !old(connected) || old(closeSent) || old(closeReceived) || frameBuffer.Length < 6 ==>
                && log == old(log)
                && status == (if old(transportClosed) || IsTerminal(transport.closeStatus) then Success
                              else transport.closeStatus)
      ensures log != old(log) ==>
                status == CloseAnswer(FindClose(old(Pending())), timedOut, transport.endStatus, transport.closeStatus)
      ensures timedOut ==> log != old(log) && Late(old(transport.ticks), |old(Pending())|, |old(transport.Unread())|)
    {
      hide Recorded, Untorn, TextsComplete, CloseSeen, Frames, InStep, Cleared, FindClose, Flatten;
      var waitStatus;
      waitStatus, timedOut := SendCloseAndWait(frameBuffer);
      var closeStatus := ForgetConnection();
      status := closeStatus;
      if closeStatus == Success && waitStatus != Success && !IsTerminal(waitStatus) && waitStatus != IoTimeout {
        status := waitStatus;
      }
    }

    method ForgetConnection() returns (closeStatus: Status)
      requires Core()
      modifies this`connected, this`closeSent, this`closeReceived, this`bufferedFrameLength
      modifies this`sendFragmentOpen, this`sendFragmentOpcode, this`sendText
      modifies this`receiveFragmentOpen, this`receiveFragmentOpcode, this`receiveFragmentLength
      modifies this`transportClosed, transport`open
      ensures Valid() && Cleared() && !connected
      ensures closeStatus == if old(transportClosed) || IsTerminal(transport.closeStatus) then Success
                             else transport.closeStatus
    {
      hide Recorded, Untorn, TextsComplete, CloseSeen, InStep;
      ClearFields();
      closeStatus := CloseTransport();
    }

    /** All flags, both fragments and the buffered bytes. */
    method ClearFields()
      modifies this`connected, this`closeSent, this`closeReceived, this`bufferedFrameLength
      modifies this`sendFragmentOpen, this`sendFragmentOpcode, this`sendText
      modifies this`receiveFragmentOpen, this`receiveFragmentOpcode, this`receiveFragmentLength
      ensures !connected && !closeSent && !closeReceived && bufferedFrameLength == 0
      ensures !sendFragmentOpen && Utf8.Reachable(sendText)
      ensures !receiveFragmentOpen && receiveFragmentOpcode == Continuation && receiveFragmentLength == 0
    {
      connected := false;
      ResetSendFragment();
      closeSent := false;
      closeReceived := false;
      ResetReceiveFragment();
      bufferedFrameLength := 0;
    }

    /** `Close(statusCode, reason, ...)`: it does not wait, because `CloseConnection` finds the frame sent. */
    method CloseWithStatus(code: nat, reason: seq<byte>, frameBuffer: array<byte>) returns (status: Status)
      requires Valid() && frameBuffer != bufferedFrame && code < 0x1_0000
      modifies this`bufferedFrame, this`bufferedFrameLength, bufferedFrame, frameBuffer
      modifies this`sendFragmentOpen, this`sendFragmentOpcode, this`sendText
      modifies this`receiveFragmentOpen, this`receiveFragmentOpcode, this`receiveFragmentLength
      modifies this`connected, this`closeReceived, this`transportClosed, this`log, this`closeSent
      modifies transport`pieces, transport`ticks, transport`wire, transport`faults, transport`open
      ensures Valid() && (bufferedFrame == old(bufferedFrame) || fresh(bufferedFrame))
      ensures !(IsValidCloseStatus(code) && |reason| <= MAX_CONTROL_PAYLOAD - 2 && Utf8.IsUtf8(reason)) ==>
                status == InvalidParameter && log == old(log) && connected == old(connected)
      ensures IsValidCloseStatus(code) && |reason| <= MAX_CONTROL_PAYLOAD - 2 && Utf8.IsUtf8(reason) ==>
                && (old(transport.faults) == [] && old(connected) && !old(closeReceived) ==>
                      Frames(log) == Frames(old(log)) + CloseFrames(StatusPayload(code) + reason, frameBuffer.Length))
                && (old(transport.faults) == [] && old(connected) && !old(closeReceived) ==>
                      var sendStatus := CloseStatus(StatusPayload(code) + reason, frameBuffer.Length);
                      status == if sendStatus != Success then sendStatus
                                else if IsTerminal(transport.closeStatus) then Success else transport.closeStatus)
                && (!old(connected) ==> Cleared() && log == old(log) && status == Success)
                && (Cleared() || (status != Success && log == old(log)))
    {
      hide Recorded, Untorn, TextsComplete, InStep, CloseSeen, Frames, CloseFrames, CloseStatus, Utf8.IsUtf8;
      if !IsValidCloseStatus(code) || |reason| > MAX_CONTROL_PAYLOAD - 2 {
        return InvalidParameter;
      }
      var valid := Utf8.IsValidUtf8(reason);
      if !valid {
        return InvalidParameter;
      }
      if connected && !closeSent && !closeReceived {
        status := SendCloseFrame(StatusPayload(code) + reason, frameBuffer);
        if status != Success {
          return;
        }
      }
      ghost var timedOut;
      status, timedOut := CloseConnection(frameBuffer);
    }

    /**
     `ReadHandshakeResponse`: the response is read in pieces until the parser has seen enough; what was
     read behind it already belongs to the frames.
     */
    method ReadHandshakeResponse(parse: seq<byte> -> Parsed, responseBuffer: array<byte>, frameBuffer: array<byte>)
      returns (status: Status, ghost n: nat)
      requires bufferedFrameLength <= bufferedFrame.Length
      requires responseBuffer != bufferedFrame
      modifies this`bufferedFrame, this`bufferedFrameLength, bufferedFrame, responseBuffer, transport`pieces
      ensures bufferedFrame == old(bufferedFrame) || fresh(bufferedFrame)
      ensures bufferedFrameLength <= bufferedFrame.Length
      ensures status == Success ==> UpgradedAt(parse, old(transport.Unread()), n, Pending())
      ensures Acceptable(parse, old(transport.Unread()), responseBuffer.Length, frameBuffer.Length) ==> status == Success
    {
      ghost var s := transport.Unread();
      bufferedFrameLength := 0;
      var responseLength := 0;
      n := 0;
      while true
        invariant 0 <= responseLength <= responseBuffer.Length && bufferedFrameLength == 0
        invariant responseBuffer[..responseLength] + transport.Unread() == s
        invariant bufferedFrame == old(bufferedFrame)
        decreases |transport.Unread()|
      {
        var data := responseBuffer[..responseLength];
        AcceptablePrefix(parse, data, transport.Unread(), s, responseBuffer.Length, frameBuffer.Length);
        match parse(data) {
          case Upgraded(consumed) =>
            if consumed > responseLength {
              return InvalidNetworkResponse, n;
            }
            n := responseLength;
            PrefixUpgraded(parse, data, transport.Unread(), s);
            status := KeepUpgraded(data, consumed, frameBuffer.Length);
            return status, n;
          case Rejected(refusal) =>
            return if refusal == Success then InvalidNetworkResponse else refusal, n;
          case Incomplete =>
        }
        if responseLength >= responseBuffer.Length {
          return BufferTooSmall, n;
        }
        status, responseLength := ReadResponse(responseBuffer, responseLength, s);
        if status != Success {
          return status, n;
        }
      }
    }

    method ReadResponse(responseBuffer: array<byte>, responseLength: nat, ghost s: seq<byte>)
      returns (status: Status, newLength: nat)
      requires responseLength < responseBuffer.Length && responseBuffer[..responseLength] + transport.Unread() == s
      modifies responseBuffer, transport`pieces
      ensures status == Success ==>
                && newLength <= responseBuffer.Length && responseBuffer[..newLength] + transport.Unread() == s
                && |transport.Unread()| < |old(transport.Unread())|
      ensures old(transport.Unread()) != [] ==> status == Success
    {
      ghost var data := responseBuffer[..responseLength];
      var received;
      status, received := transport.Receive(responseBuffer, responseLength, responseBuffer.Length - responseLength);
      newLength := responseLength + received;
      if status != Success {
        return;
      }
      if received == 0 {
        return ConnectionDisconnected, newLength;
      }
      assert responseBuffer[..newLength] == data + responseBuffer[responseLength..newLength];
      assert responseBuffer[..newLength] + transport.Unread()
          == data + (responseBuffer[responseLength..newLength] + transport.Unread());
    }

    method KeepUpgraded(data: seq<byte>, consumed: nat, frameBufferLength: nat) returns (status: Status)
      requires consumed <= |data| && bufferedFrameLength == 0
      modifies this`bufferedFrame, this`bufferedFrameLength, bufferedFrame
      ensures bufferedFrame == old(bufferedFrame) || fresh(bufferedFrame)
      ensures bufferedFrameLength <= bufferedFrame.Length
      ensures status == if consumed == |data| || |data| - consumed <= frameBufferLength then Success else BufferTooSmall
      ensures status == Success ==> Buffered() == data[consumed..]
    {
      var upgradedBytes := |data| - consumed;
      if upgradedBytes != 0 {
        if frameBufferLength < upgradedBytes {
          return BufferTooSmall;
        }
        status := EnsureBufferedFrameCapacity(frameBufferLength);
        CopyMemory(bufferedFrame, 0, data[consumed..]);
        bufferedFrameLength := upgradedBytes;
      }
      return Success;
    }

    /** A new connection: its flags, its fragments and its buffer start over, and so does its record. */
    method StartConnection(t: Connection)
      requires Valid() && !connected && t.open && t.wire == []
      modifies this
      ensures transport.wire == []
      ensures Core() && FragmentFields() && transport == t && !connected && !transportClosed
      ensures !closeSent && !closeReceived && !sendFragmentOpen && !receiveFragmentOpen && bufferedFrameLength == 0
      ensures log == [] && preface == [] && !partWay && history == old(history) + [old(log)]
      ensures bufferedFrame == old(bufferedFrame)
    {
      hide Recorded, Untorn, TextsComplete, CloseSeen, InStep;
      EmptyRecord(transport.wire, preface, log, history);
      history := history + [log];
      log, preface, partWay := [], [], false;
      transport := t;
      transportClosed := false;
      ClearFields();
    }

    /** A successful connection starts with a clean record and with exactly the bytes behind the response pending. */
    method Connect(t: Connection, request: seq<byte>, parse: seq<byte> -> Parsed, responseBuffer: array<byte>,
                   frameBuffer: array<byte>) returns (status: Status)
      requires Valid() && t.open && t.wire == [] && t != transport
      requires responseBuffer != bufferedFrame && frameBuffer != bufferedFrame
      modifies this, bufferedFrame, t, responseBuffer, frameBuffer
      ensures Valid() && (bufferedFrame == old(bufferedFrame) || fresh(bufferedFrame))
      ensures old(connected) ==> status == InvalidDeviceState && log == old(log) && history == old(history) && connected
      ensures !old(connected) ==>
                && transport == t && history == old(history) + [old(log)] && log == []
                && connected == (status == Success) && (!connected ==> Cleared())
      ensures !old(connected) && status == Success ==>
                && !closeSent && !closeReceived && !sendFragmentOpen && !receiveFragmentOpen && !partWay
                && preface == request == t.wire
      ensures !old(connected) && old(t.faults) == [] ==>
                Acceptable(parse, old(t.Unread()), responseBuffer.Length, frameBuffer.Length) ==> status == Success
      ensures !old(connected) && status == Success && Stable(parse) ==>
                BehindResponse(parse, old(t.Unread()), Pending())
    {
      hide Recorded, Untorn, TextsComplete, CloseSeen, InStep, Cleared, Valid, Core, FragmentFields;
      if connected {
        return InvalidDeviceState;
      }
      StartConnection(t);
      status := Handshake(request, parse, responseBuffer, frameBuffer);
      if status != Success {
        var closeStatus, timedOut := CloseConnection(frameBuffer);
        return;
      }
      Establish(request);
    }

    /** The connection stands. */
    method Establish(ghost request: seq<byte>)
      requires Core() && FragmentFields() && !transportClosed && !closeSent && !sendFragmentOpen && !partWay
      requires log == [] && preface == request == transport.wire
      modifies this`connected
      ensures Valid() && connected
    {
      hide Utf8.Reachable, IsData, Recorded, Untorn, TextsComplete, CloseSeen, InStep;
      FreshInStep(request);
      connected := true;
    }

    method SendRequest(request: seq<byte>) returns (status: Status)
      requires Core() && FragmentFields() && !connected && !transportClosed
      requires log == [] && preface == [] && transport.wire == []
      modifies this`preface, transport`wire, transport`faults
      ensures Core() && FragmentFields()
      ensures status == Success ==> preface == request == transport.wire
      ensures old(transport.faults) == [] ==> status == Success
    {
      hide Recorded, Untorn, TextsComplete, CloseSeen, Utf8.Reachable;
      var sent;
      status, sent := transport.Send(request);
      preface := transport.wire;
      RequestRecorded(transport.wire, history);
      if status == Success && sent != |request| {
        status := ConnectionDisconnected;
      }
    }

    /** The request goes out and the response is read. */
    method Handshake(request: seq<byte>, parse: seq<byte> -> Parsed, responseBuffer: array<byte>, frameBuffer: array<byte>)
      returns (status: Status)
      requires Core() && FragmentFields() && !connected && !transportClosed
      requires log == [] && preface == [] && transport.wire == []
      requires responseBuffer != bufferedFrame
      modifies this`preface, this`bufferedFrame, this`bufferedFrameLength, bufferedFrame, responseBuffer
      modifies transport`wire, transport`faults, transport`pieces
      ensures Core() && FragmentFields() && (bufferedFrame == old(bufferedFrame) || fresh(bufferedFrame))
      ensures status == Success ==> preface == request == transport.wire
      ensures old(transport.faults) == [] ==>
                Acceptable(parse, old(transport.Unread()), responseBuffer.Length, frameBuffer.Length) ==> status == Success
      ensures status == Success && Stable(parse) ==>
                BehindResponse(parse, old(transport.Unread()), Pending())
    {
      hide Core, FragmentFields, Stable, Acceptable, BehindResponse;
      status := SendRequest(request);
      if status == Success {
        status := ReadUpgrade(parse, responseBuffer, frameBuffer, transport.Unread());
      }
    }

    method ReadUpgrade(parse: seq<byte> -> Parsed, responseBuffer: array<byte>, frameBuffer: array<byte>, ghost s: seq<byte>)
      returns (status: Status)
      requires Core() && FragmentFields() && !connected && !transportClosed && s == transport.Unread()
      requires responseBuffer != bufferedFrame
      modifies this`bufferedFrame, this`bufferedFrameLength, bufferedFrame, responseBuffer, transport`pieces
      ensures Core() && FragmentFields() && (bufferedFrame == old(bufferedFrame) || fresh(bufferedFrame))
      ensures Acceptable(parse, s, responseBuffer.Length, frameBuffer.Length) ==> status == Success
      ensures status == Success && Stable(parse) ==> BehindResponse(parse, s, Pending())
    {
      hide Recorded, Untorn, TextsComplete, CloseSeen, Utf8.Reachable, IsData, Flatten, Stable, Acceptable, UpgradedAt,
           BehindResponse;
      ghost var n;
      status, n := ReadHandshakeResponse(parse, responseBuffer, frameBuffer);
      if status == Success {
        StablePrefix(parse, s, n, Pending());
      }
    }
  }

  // ---- The handshake ----

  /** The HTTP parser and the validation of the 101 response, which are not part of this model. */
  datatype Parsed = Incomplete | Rejected(status: Status) | Upgraded(consumed: nat)

  /** More bytes do not change what a complete response is, and a response is inside what was parsed. */
  ghost predicate Stable(parse: seq<byte> -> Parsed)
  {
    && (forall s, t :: parse(s).Upgraded? ==> parse(s + t) == parse(s))
    && (forall s :: parse(s).Upgraded? ==> parse(s).consumed <= |s|)
  }

  /** The parser accepted the first n bytes, and `pending` is the stream behind what it consumed of them. */
  ghost predicate UpgradedAt(parse: seq<byte> -> Parsed, s: seq<byte>, n: nat, pending: seq<byte>)
  {
    && n <= |s| && parse(s[..n]).Upgraded? && parse(s[..n]).consumed <= n
    && pending == s[parse(s[..n]).consumed..]
  }

  /** `pending` is the stream behind the response. */
  ghost predicate BehindResponse(parse: seq<byte> -> Parsed, s: seq<byte>, pending: seq<byte>)
  {
    parse(s).Upgraded? && parse(s).consumed <= |s| && pending == s[parse(s).consumed..]
  }

  lemma PrefixUpgraded(parse: seq<byte> -> Parsed, data: seq<byte>, unread: seq<byte>, s: seq<byte>)
    requires data + unread == s && parse(data).Upgraded? && parse(data).consumed <= |data|
    ensures UpgradedAt(parse, s, |data|, data[parse(data).consumed..] + unread)
  {
    assert s[..|data|] == data;
  }

  /**
   The server's bytes begin with an acceptable response that fits the response buffer, and whatever may be
   read there behind it fits the frame buffer.
   */
  ghost predicate Acceptable(parse: seq<byte> -> Parsed, s: seq<byte>, responseRoom: nat, frameRoom: nat)
  {
    var seen := if |s| <= responseRoom then |s| else responseRoom;
    && parse(s[..seen]).Upgraded?
    && forall k :: 0 <= k <= seen ==>
         && !parse(s[..k]).Rejected?
         && (parse(s[..k]).Upgraded? ==> k - frameRoom <= parse(s[..k]).consumed <= k)
  }

  lemma AcceptablePrefix(parse: seq<byte> -> Parsed, data: seq<byte>, unread: seq<byte>, s: seq<byte>,
                         responseRoom: nat, frameRoom: nat)
    requires data + unread == s && |data| <= responseRoom
    ensures Acceptable(parse, s, responseRoom, frameRoom) ==>
              && !parse(data).Rejected?
              && (parse(data).Upgraded? ==> |data| - frameRoom <= parse(data).consumed <= |data|)
              && (parse(data).Incomplete? ==> unread != [] && |data| < responseRoom)
  {
    assert s[..|data|] == data;
    assert unread == [] ==> data == s;
  }

  lemma StablePrefix(parse: seq<byte> -> Parsed, s: seq<byte>, n: nat, pending: seq<byte>)
    requires UpgradedAt(parse, s, n, pending)
    ensures Stable(parse) ==> BehindResponse(parse, s, pending)
  {
    assert s == s[..n] + s[n..];
  }

  lemma EmptyRecord(wire: seq<byte>, preface: seq<byte>, log: seq<Sent>, history: seq<seq<Sent>>)
    requires Recorded(wire, preface, log, history)
    ensures Recorded([], [], [], history + [log]) && TextsComplete([]) && !CloseSeen([]) && Untorn([], [], [])
  {
  }

  /** Whatever went out of the request, no frame has. */
  lemma RequestRecorded(wire: seq<byte>, history: seq<seq<Sent>>)
    requires Recorded([], [], [], history)
    ensures Recorded(wire, wire, [], history) && Untorn(wire, wire, []) && !CloseSeen([])
  {
    NothingBegun(wire);
    assert wire + Wire([]) == wire;
  }

  lemma FreshInStep(request: seq<byte>)
    ensures Untorn(request, request, [])
    ensures InStep([], false, Continuation, Utf8.START) && !CloseSeen([])
    ensures forall op, text :: InStep([], false, op, text)
  {
  }

  lemma FindCloseStep(s: seq<byte>)
    requires DecodeHeader(s).Known?
    ensures var h := DecodeHeader(s).header;
            var total := h.headerLength + h.payloadLength;
            FindClose(s) == if |s| < total then Exhausted
                            else if h.opcode != Close then FindClose(s[total..])
                            else if IsValidClosePayload(s[h.headerLength..total]) then Found(s[h.headerLength..total])
                            else BadStream
  {
    hide DecodeHeader, IsValidClosePayload;
  }

  /** What the buffered bytes say of the header is what the stream says. */
  lemma HeaderOfStream(data: seq<byte>, unread: seq<byte>)
    ensures DecodeHeader(data).Known? ==>
              DecodeHeader(data + unread) == DecodeHeader(data) && DecodeHeader(data).header.headerLength <= |data|
    ensures DecodeHeader(data).Malformed? ==> FindClose(data + unread) == BadStream
    ensures DecodeHeader(data).More? ==> |data| < 10 && (unread == [] ==> FindClose(data + unread) == Exhausted)
  {
    hide DecodeHeader, IsValidClosePayload;
    TenBytesDecide(data);
    if !DecodeHeader(data).More? {
      DecodeIsStable(data, unread);
    }
    assert unread == [] ==> data + unread == data;
  }

  /** What is missing of a frame is the front of what is unread. */
  lemma BehindBuffered(buffered: seq<byte>, unread: seq<byte>, missing: nat)
    ensures var total := |buffered| + missing;
            FindCloseBehind(unread, missing)
            == if |buffered + unread| < total then Exhausted else FindClose((buffered + unread)[total..])
    ensures |unread| >= missing ==> (buffered + unread)[|buffered| + missing..] == unread[missing..]
  {
    hide FindClose;
    assert |unread| >= missing ==> (buffered + unread)[|buffered| + missing..] == unread[missing..];
  }

  lemma DropMore(s: seq<byte>, from: nat, front: seq<byte>, rest: seq<byte>)
    requires from <= |s| && front + rest == s[from..]
    ensures from + |front| <= |s| && rest == s[from + |front|..]
  {
    assert rest == s[from..][|front|..];
  }

  lemma LeftBehind(unread: seq<byte>, length: nat, left: nat)
    requires left <= length <= |unread| + left
    ensures FindCloseBehind(unread[length - left..], left) == FindCloseBehind(unread, length)
  {
    hide FindClose;
    assert |unread| >= length ==> unread[length - left..][left..] == unread[length..];
  }

  /** The clock had too few readings for every byte that was to come and every frame in it. */
  predicate Late(ticks: nat, pending: nat, unread: nat)
  {
    ticks <= pending + 2 * unread + 1
  }

  /** What `CloseConnection` answers after a Close frame went out. */
  function CloseAnswer(found: Search, timedOut: bool, endStatus: Status, closeStatus: Status): Status
  {
    if closeStatus != Success && !IsTerminal(closeStatus) then closeStatus
    else if timedOut then Success
    else match found
      case Exhausted => QuietEnd(endStatus)
      case BadStream => InvalidNetworkResponse
      case Found(_) => Success
  }

  /** A stream that ends quietly or terminally ends the wait without an error. */
  function QuietEnd(endStatus: Status): Status
  {
    if Quiet(endStatus) then Success else endStatus
  }

  /** Pongs sent before the rest of a call. */
  function After(pongs: seq<seq<byte>>, r: Received): Received
  {
    Received(r.outcome, pongs + r.pongs)
  }

  function StepPongs(step: Step): seq<seq<byte>>
  {
    if step.Continue? then step.pongs else []
  }

  lemma MorePongs(p: seq<seq<byte>>, q: seq<seq<byte>>)
    ensures PongFrames(p + q) == PongFrames(p) + PongFrames(q)
  {
  }

  lemma StoppedRefused(s: seq<byte>, g: Fragment, controls: nat, limits: Settings)
    ensures var l := LookAhead(s, g.open, |g.partial|, limits.capacity);
            l.Refuse? ==> StepOver(s, g, controls, limits) == Stop(Failed(l.code, l.status, l.reported)) && l.code < 0x1_0000
  {
    hide DecodeHeader;
  }

  lemma WholeHasHeader(s: seq<byte>, open: bool, assembled: nat, capacity: nat)
    ensures var l := LookAhead(s, open, assembled, capacity); l.Whole? ==> l.header.headerLength >= 2
  {
    hide DecodeHeader;
    TenBytesDecide(s);
  }

  lemma NoPongs(log: seq<Sent>)
    ensures Frames(log) + PongFrames([]) == Frames(log) == Frames(log) + []
  {
    assert PongFrames([]) == [];
  }

  lemma WholeIsAllowed(s: seq<byte>, open: bool, assembled: nat, capacity: nat)
    ensures var l := LookAhead(s, open, assembled, capacity);
            l.Whole? ==>
              && (IsControl(l.header.opcode) ==> l.header.payloadLength <= MAX_CONTROL_PAYLOAD)
              && (!IsControl(l.header.opcode) ==>
                    (l.header.opcode == Continuation) == open && assembled + l.header.payloadLength <= capacity)
  {
    hide DecodeHeader;
    TenBytesDecide(s);
  }

  method CheckClosePayload(payload: seq<byte>) returns (valid: bool)
    ensures valid == IsValidClosePayload(payload)
  {
    hide Utf8.IsUtf8;
    if |payload| == 1 {
      return false;
    }
    if |payload| >= 2 {
      TwoByteValue(payload[..2]);
      var high: nat, low: nat := payload[0], payload[1];
      var utf8 := Utf8.IsValidUtf8(payload[2..]);
      return IsValidCloseStatus(high * 256 + low) && utf8;
    }
    return true;
  }

  lemma EchoRoom(payload: seq<byte>, room: nat)
    requires |payload| <= MAX_CONTROL_PAYLOAD
    ensures room > 0 ==> CloseStatus(payload, room) == if FrameRoom(|payload|) <= room then Success else BufferTooSmall
  {
  }

  lemma ControlRoom(opcode: Opcode, payload: seq<byte>, room: nat)
    requires |payload| <= MAX_CONTROL_PAYLOAD
    ensures EncodeStatus(Frame(true, opcode, payload), room)
         == if FrameRoom(|payload|) <= room then Success else BufferTooSmall
  {
  }

  lemma WholeFits(s: seq<byte>, open: bool, assembled: nat, capacity: nat)
    ensures var l := LookAhead(s, open, assembled, capacity);
            l.Whole? ==> l.header.headerLength + l.header.payloadLength <= |s|
  {
    hide DecodeHeader;
  }

  lemma WireNext(log: seq<Sent>, s: Sent)
    ensures Wire(log + [s]) == Wire(log) + ClientFrame(s.frame, s.key)
  {
    assert (log + [s])[..|log|] == log;
  }

  lemma EncodedIsAllowed(f: Frame, room: nat)
    requires EncodeStatus(f, room) == Success
    ensures Allowed(f.fin, f.opcode, |f.payload|)
  {
  }

  /**
   What a server makes of the wire, between calls, however many frames it reads: the frames sent, with no
   frame behind a Close frame, and, unless a send failed inside a message, well-formed messages with valid
   texts. Behind the frames of a connection that a write lost there may be one frame more, whole or in part.
   */
  lemma ServerView(client: Client)
    requires client.Valid()
    ensures client.preface <= client.transport.wire
    ensures forall n :: n >= |client.log| ==>
              SeenOnWire(ReadFrames(client.transport.wire[|client.preface|..], n), Frames(client.log))
    ensures ReadFrames(client.transport.wire[|client.preface|..], |client.log|) == Frames(client.log)
    ensures client.connected || CloseSeen(client.log) || client.transport.faults == [] ==>
              && client.transport.wire == client.preface + Wire(client.log)
              && forall n :: n >= |client.log| ==>
                   ReadFrames(client.transport.wire[|client.preface|..], n) == Frames(client.log)
    ensures client.connected ==> client.transport.open && forall f :: f in Frames(client.log) ==> f.opcode != Close
    ensures forall i :: 0 <= i < |client.history| ==> CloseIsLast(client.history[i])
    ensures !client.partWay ==>
              var a := Assemble(Frames(client.log)); a.Assembly? && TextIsUtf8(a.done)
    ensures !client.partWay && client.connected ==> Assemble(Frames(client.log)).open == client.sendFragmentOpen
  {
    hide Wire, ReadFrames, Assemble, TextIsUtf8, Utf8.Run, Begun, ClientFrame;
    forall n | n >= |client.log|
      ensures SeenOnWire(ReadFrames(client.transport.wire[|client.preface|..], n), Frames(client.log))
      ensures n == |client.log| || client.connected || CloseSeen(client.log) || client.transport.faults == [] ==>
                ReadFrames(client.transport.wire[|client.preface|..], n) == Frames(client.log)
    {
      FramesOnWire(client.transport.wire, client.preface, client.log, client.history, n);
    }
  }

  /** The frames sent and at most one more, and no frame behind a Close frame. */
  predicate SeenOnWire(seen: seq<Frame>, sent: seq<Frame>)
  {
    && sent <= seen && |seen| <= |sent| + 1
    && forall i :: 0 <= i < |seen| - 1 ==> seen[i].opcode != Close
  }

  lemma FramesOnWire(wire: seq<byte>, preface: seq<byte>, log: seq<Sent>, history: seq<seq<Sent>>, n: nat)
    requires Recorded(wire, preface, log, history) && n >= |log|
    requires CloseSeen(log) ==> Untorn(wire, preface, log)
    ensures SeenOnWire(ReadFrames(wire[|preface|..], n), Frames(log))
    ensures n == |log| || Untorn(wire, preface, log) ==> ReadFrames(wire[|preface|..], n) == Frames(log)
  {
    hide Wire, ReadFrames, ClientFrame;
    var done := preface + Wire(log);
    var s: Sent :| MayFollow(s) && wire <= done + ClientFrame(s.frame, s.key);
    var part := wire[|done|..];
    assert wire[|preface|..] == Wire(log) + part;
    assert part <= ClientFrame(s.frame, s.key);
    ServerReadsTheFrames(log, part, n - |log|);
    PartOfFrame(part, s.frame, s.key, n - |log|);
    NothingToRead(part, n - |log|);
  }
}
