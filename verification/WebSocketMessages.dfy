/**
 What the frames of a connection mean. `Assemble` is the fragmentation grammar of RFC 6455,
 section 5.4, read as a machine that puts messages together. `Receive` says what one call of
 `ReceiveMessage` (src/KernelHttpLib/client/WebSocketClient.cpp:1506-1882) answers for a byte stream,
 without any notion of reads.
 */
module WebSocketMessages {
  import opened Bytes
  import opened Transport
  import opened WebSocketFrame
  import Utf8

  // ---- Frames into messages: section 5.4 ----

  datatype Message = Message(opcode: Opcode, payload: seq<byte>)

  const NO_MESSAGE := Message(Continuation, [])

  datatype Assembly = Broken | Assembly(done: seq<Message>, open: bool, current: Message)

  const NOTHING_YET := Assembly([], false, NO_MESSAGE)

  predicate IsData(op: Opcode)
  {
    op == Text || op == Binary
  }

  /** A message begins with a text or binary frame, goes on with continuations and ends with FIN. */
  function Absorb(a: Assembly, f: Frame): Assembly
  {
    if a.Broken? then Broken
    else if IsControl(f.opcode) then (if f.fin then a else Broken)
    else if (f.opcode == Continuation) != a.open then Broken
    else Extend(a, f.opcode, f.payload, f.fin)
  }

  /** More payload for the message in progress, or for a new one; `fin` completes it. */
  function Extend(a: Assembly, op: Opcode, payload: seq<byte>, fin: bool): (b: Assembly)
    requires a.Assembly?
  {
    var m := if op == Continuation then Message(a.current.opcode, a.current.payload + payload)
             else Message(op, payload);
    if fin then Assembly(a.done + [m], false, NO_MESSAGE) else Assembly(a.done, true, m)
  }

  function AbsorbAll(a: Assembly, fs: seq<Frame>): Assembly
    decreases fs
  {
    if fs == [] then a else AbsorbAll(Absorb(a, fs[0]), fs[1..])
  }

  function Assemble(fs: seq<Frame>): Assembly
  {
    AbsorbAll(NOTHING_YET, fs)
  }

  lemma {:induction false} AbsorbNext(a: Assembly, fs: seq<Frame>, f: Frame)
    ensures AbsorbAll(a, fs + [f]) == Absorb(AbsorbAll(a, fs), f)
    decreases fs
  {
    hide Absorb;
    if fs == [] {
      assert AbsorbAll(a, [f]) == AbsorbAll(Absorb(a, f), []);
    } else {
      assert (fs + [f])[1..] == fs[1..] + [f];
      AbsorbNext(Absorb(a, fs[0]), fs[1..], f);
    }
  }

  /** The control frames, in order. */
  function Controls(fs: seq<Frame>): seq<Frame>
  {
    if fs == [] then []
    else Controls(fs[..|fs| - 1]) + if IsControl(fs[|fs| - 1].opcode) then [fs[|fs| - 1]] else []
  }

  lemma ControlsNext(fs: seq<Frame>, f: Frame)
    ensures Controls(fs + [f]) == Controls(fs) + if IsControl(f.opcode) then [f] else []
  {
    assert (fs + [f])[..|fs|] == fs;
  }

  /** Control frames interrupt nothing. */
  lemma {:induction false} ControlsBetween(a: Assembly, fs: seq<Frame>, more: seq<Frame>)
    requires forall f :: f in more ==> IsControl(f.opcode) && f.fin
    ensures AbsorbAll(a, fs + more) == AbsorbAll(a, fs) && Controls(fs + more) == Controls(fs) + more
    decreases |more|
  {
    hide AbsorbAll, Controls;
    if more == [] {
      assert fs + more == fs && Controls(fs) + more == Controls(fs);
    } else {
      var n := |more| - 1;
      assert more[n] in more;
      assert fs + more == (fs + more[..n]) + [more[n]] && more == more[..n] + [more[n]];
      ControlsBetween(a, fs, more[..n]);
      AbsorbNext(a, fs + more[..n], more[n]);
      ControlsNext(fs + more[..n], more[n]);
    }
  }

  /** Two pieces, the first without FIN, are one. */
  lemma ExtendTwice(a: Assembly, op: Opcode, first: seq<byte>, second: seq<byte>, fin: bool)
    requires a.Assembly?
    ensures Extend(Extend(a, op, first, false), Continuation, second, fin) == Extend(a, op, first + second, fin)
  {
    if op == Continuation {
      assert a.current.payload + first + second == a.current.payload + (first + second);
    }
  }

  ghost predicate TextIsUtf8(messages: seq<Message>)
  {
    forall i :: 0 <= i < |messages| && messages[i].opcode == Text ==> Utf8.IsUtf8(messages[i].payload)
  }

  // ---- Receiving ----

  const PROTOCOL_ERROR: nat := 1002
  const INVALID_PAYLOAD: nat := 1007
  const POLICY_VIOLATION: nat := 1008
  const MESSAGE_TOO_BIG: nat := 1009
  const MAX_CONTROL_FRAMES: nat := 100

  /** `IsValidCloseStatus` */
  predicate IsValidCloseStatus(code: nat)
  {
    3000 <= code <= 4999 || (1000 <= code <= 1014 && code != 1004 && code != 1005 && code != 1006)
  }

  /** Empty, or a valid status followed by a reason in UTF-8. */
  ghost predicate IsValidClosePayload(p: seq<byte>)
  {
    p == [] || (|p| >= 2 && IsValidCloseStatus(BeValue(p[..2])) && Utf8.IsUtf8(p[2..]))
  }

  /** The message in progress; its bytes are in the caller's buffer. */
  datatype Fragment = Fragment(open: bool, opcode: Opcode, partial: seq<byte>)

  const NO_FRAGMENT := Fragment(false, Continuation, [])

  /** The output capacity, the room for an encoded frame, and whether pings are answered. */
  datatype Settings = Settings(capacity: nat, room: nat, autoReply: bool)

  datatype Outcome =
    | Starved                                                     // the stream ends first
    | Failed(code: nat, status: Status, reported: nat)            // the connection is failed with this code
    | Delivered(opcode: Opcode, payload: seq<byte>, rest: seq<byte>, fragment: Fragment)
    | PeerClosed(payload: seq<byte>, rest: seq<byte>)
    | PongTooLarge(length: nat, fragment: Fragment)               // the answer does not fit the frame buffer
    | EchoTooLarge(length: nat)
    | OutputTooSmall(length: nat)

  /** What can be said of the stream before anything is consumed. */
  datatype Look = NoFrame | Refuse(code: nat, status: Status, reported: nat) | Whole(header: Header)

  function LookAhead(s: seq<byte>, open: bool, assembled: nat, capacity: nat): Look
  {
    match DecodeHeader(s)
    case More => NoFrame
    case Malformed => Refuse(PROTOCOL_ERROR, InvalidNetworkResponse, 0)
    case Known(h) =>
      if IsData(h.opcode) && open then Refuse(PROTOCOL_ERROR, InvalidNetworkResponse, 0)
      else if h.opcode == Continuation && !open then Refuse(PROTOCOL_ERROR, InvalidNetworkResponse, 0)
      else if !IsControl(h.opcode) && assembled + h.payloadLength > capacity then
        Refuse(MESSAGE_TOO_BIG, BufferTooSmall, Saturate(assembled + h.payloadLength))
      else if |s| < h.headerLength + h.payloadLength then NoFrame
      else Whole(h)
  }

  function Saturate(n: nat): nat
  {
    if n < SIZE_LIMIT then n else SIZE_LIMIT - 1
  }

  lemma LookIsStable(s: seq<byte>, rest: seq<byte>, open: bool, assembled: nat, capacity: nat)
    ensures var l := LookAhead(s, open, assembled, capacity);
            !l.NoFrame? ==> LookAhead(s + rest, open, assembled, capacity) == l
  {
    hide DecodeHeader;
    if !DecodeHeader(s).More? {
      DecodeIsStable(s, rest);
    }
  }

  /** A buffer with room for a header and for the larger of the output and a control payload decides. */
  lemma FullBufferDecides(s: seq<byte>, open: bool, assembled: nat, capacity: nat)
    requires |s| >= MAX_HEADER + capacity && |s| >= MAX_HEADER + MAX_CONTROL_PAYLOAD
    ensures !LookAhead(s, open, assembled, capacity).NoFrame?
  {
    hide DecodeHeader;
    TenBytesDecide(s);
  }

  /** One frame: go on with the rest of the stream, or stop with an answer. */
  datatype Step =
    | Continue(pongs: seq<seq<byte>>, rest: seq<byte>, fragment: Fragment, controls: nat)
    | Stop(outcome: Outcome)

  ghost function StepOver(s: seq<byte>, g: Fragment, controls: nat, limits: Settings): Step
  {
    match LookAhead(s, g.open, |g.partial|, limits.capacity)
    case NoFrame => Stop(Starved)
    case Refuse(code, status, reported) => Stop(Failed(code, status, reported))
    case Whole(h) =>
      TenBytesDecide(s);
      var payload, rest := s[h.headerLength..h.headerLength + h.payloadLength], s[h.headerLength + h.payloadLength..];
      match h.opcode
      case Ping => OnPing(payload, rest, g, controls, limits)
      case Pong => OnPong(payload, rest, g, controls, limits)
      case Close => Stop(OnClose(payload, rest, limits))
      case _ => OnData(h, payload, rest, g, controls)
  }

  function OnPing(payload: seq<byte>, rest: seq<byte>, g: Fragment, controls: nat, limits: Settings): Step
  {
    if controls + 1 > MAX_CONTROL_FRAMES then Stop(Failed(POLICY_VIOLATION, InvalidNetworkResponse, 0))
    else if !limits.autoReply then Stop(HandOver(Ping, payload, rest, g, limits))
    else if FrameRoom(|payload|) > limits.room then Stop(PongTooLarge(|payload|, g))
    else Continue([payload], rest, g, controls + 1)
  }

  function OnPong(payload: seq<byte>, rest: seq<byte>, g: Fragment, controls: nat, limits: Settings): Step
  {
    if controls + 1 > MAX_CONTROL_FRAMES then Stop(Failed(POLICY_VIOLATION, InvalidNetworkResponse, 0))
    else if !limits.autoReply then Stop(HandOver(Pong, payload, rest, g, limits))
    else Continue([], rest, g, controls + 1)
  }

  /** Without automatic answers a control frame goes to the caller, but not its payload inside a message. */
  function HandOver(op: Opcode, payload: seq<byte>, rest: seq<byte>, g: Fragment, limits: Settings): Outcome
  {
    if g.open then Delivered(op, [], rest, g)
    else if |payload| > limits.capacity then OutputTooSmall(|payload|)
    else Delivered(op, payload, rest, g)
  }

  ghost function OnClose(payload: seq<byte>, rest: seq<byte>, limits: Settings): (o: Outcome)
    ensures !o.PongTooLarge?
  {
    if !IsValidClosePayload(payload) then Failed(PROTOCOL_ERROR, InvalidNetworkResponse, 0)
    else if FrameRoom(|payload|) > limits.room then EchoTooLarge(|payload|)
    else PeerClosed(payload, rest)
  }

  ghost function OnData(h: Header, payload: seq<byte>, rest: seq<byte>, g: Fragment, controls: nat): (step: Step)
    ensures step.Stop? ==> !step.outcome.PongTooLarge?
  {
    var op, message := if g.open then g.opcode else h.opcode, g.partial + payload;
    if h.fin then Stop(OnMessage(op, message, rest)) else Continue([], rest, Fragment(true, op, message), controls)
  }

  ghost function OnMessage(op: Opcode, message: seq<byte>, rest: seq<byte>): (o: Outcome)
    ensures !o.PongTooLarge?
  {
    if op == Text && !Utf8.IsUtf8(message) then Failed(INVALID_PAYLOAD, InvalidNetworkResponse, 0)
    else Delivered(op, message, rest, NO_FRAGMENT)
  }

  lemma StepConsumes(s: seq<byte>, g: Fragment, controls: nat, limits: Settings)
    ensures var r := StepOver(s, g, controls, limits); r.Continue? ==> |r.rest| < |s|
  {
    hide DecodeHeader;
    TenBytesDecide(s);
  }

  datatype Received = Received(outcome: Outcome, pongs: seq<seq<byte>>)

  /** One call: frames are taken from the stream until one of them answers it. */
  ghost function Receive(s: seq<byte>, g: Fragment, controls: nat, limits: Settings): Received
    decreases |s|
  {
    StepConsumes(s, g, controls, limits);
    match StepOver(s, g, controls, limits)
    case Stop(outcome) => Received(outcome, [])
    case Continue(pongs, rest, g', controls') =>
      var r := Receive(rest, g', controls', limits);
      Received(r.outcome, pongs + r.pongs)
  }

  /** The connection is over after this outcome. */
  predicate EndsConnection(o: Outcome, endStatus: Status)
  {
    o.Failed? || o.PeerClosed? || (o.Starved? && Quiet(endStatus))
  }

  /** A stream that ends like this ends the connection; any other read error leaves it. */
  predicate Quiet(endStatus: Status)
  {
    endStatus == Success || IsTerminal(endStatus)
  }

  /** What a read that brings nothing means. */
  function StarvedStatus(endStatus: Status): Status
  {
    if endStatus == Success then ConnectionDisconnected else endStatus
  }

  /** The results of a call, as its caller sees them. */
  predicate Answered(o: Outcome, endStatus: Status, status: Status, opcode: Opcode, bytesReceived: nat, output: seq<byte>)
  {
    match o
    case Starved => status == StarvedStatus(endStatus) && opcode == Continuation && bytesReceived == 0
    case Failed(_, s, reported) => status == s && opcode == Continuation && bytesReceived == reported
    case Delivered(op, payload, _, _) =>
      && status == Success && opcode == op
      && bytesReceived == |payload| <= |output| && output[..bytesReceived] == payload
    case PeerClosed(payload, _) =>
      && opcode == Close && bytesReceived == |payload|
      && if |payload| > |output| then status == BufferTooSmall
         else status == Success && output[..bytesReceived] == payload
    case PongTooLarge(_, _) => status == BufferTooSmall && opcode == Continuation && bytesReceived == 0
    case EchoTooLarge(_) => status == BufferTooSmall && opcode == Continuation && bytesReceived == 0
    case OutputTooSmall(n) => status == BufferTooSmall && opcode == Continuation && bytesReceived == n
  }

  // ---- Waiting for the peer's Close frame ----

  datatype Search = Exhausted | BadStream | Found(payload: seq<byte>)

  /** The stream is parsed into frames; the first Close frame is what the search is for. */
  ghost function FindClose(s: seq<byte>): Search
    decreases |s|
  {
    match DecodeHeader(s)
    case More => Exhausted
    case Malformed => BadStream
    case Known(h) =>
      TenBytesDecide(s);
      var total := h.headerLength + h.payloadLength;
      if |s| < total then Exhausted
      else if h.opcode != Close then FindClose(s[total..])
      else if IsValidClosePayload(s[h.headerLength..total]) then Found(s[h.headerLength..total])
      else BadStream
  }

  /** The search behind so many bytes that are still to be read past. */
  ghost function FindCloseBehind(s: seq<byte>, skipped: nat): Search
  {
    if |s| < skipped then Exhausted else FindClose(s[skipped..])
  }
}
