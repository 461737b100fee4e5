/**
 Sessions: calls of the send methods and of `ReceiveMessage` in any order. When no write fails and the
 frame buffer has 131 bytes, every answer and everything a server makes of the wire is a function of the
 calls and of the peer's bytes.
 */
module WebSocketSessions {
  import opened Bytes
  import opened Transport
  import opened WebSocketClient
  import opened WebSocketFrame
  import opened WebSocketMessages
  import opened WebSocketRuns
  import Utf8

  /** `SendText`, `SendBinary` or `SendContinuation`; `SendPing` or `SendPong`; `ReceiveMessage`. */
  datatype Call = Piece(opcode: Opcode, payload: seq<byte>, fin: bool) | Control(opcode: Opcode, payload: seq<byte>) | Take

  /** What matters of a connection: what a server has of it, and what the peer has sent. */
  datatype World = World(link: Link, sent: Assembly, controls: seq<Frame>)

  datatype Session = Session(world: World, answers: seq<Answer>)

  /** The message so far and this piece are text that may go on, or may end. */
  ghost predicate MayBeText(text: seq<byte>, fin: bool)
  {
    if fin then Utf8.IsUtf8(text) else Utf8.Run(Utf8.START, text).Valid?
  }

  /** What a piece of a message is answered when the server has `a` so far. */
  ghost function PieceStatus(connected: bool, a: Assembly, op: Opcode, payload: seq<byte>, fin: bool): Status
  {
    if !connected then ConnectionDisconnected
    else if !a.Assembly? || (op == Continuation) != a.open then InvalidDeviceState
    else if IsControl(op) then InvalidParameter
    else if !a.open then if op == Text && !MayBeText(payload, fin) then InvalidParameter else Success
    else if a.current.opcode == Text && !MayBeText(a.current.payload + payload, fin) then InvalidParameter
    else Success
  }

  function ControlAnswer(connected: bool, op: Opcode, payload: seq<byte>): Status
  {
    if !connected then ConnectionDisconnected
    else if |payload| > MAX_CONTROL_PAYLOAD || op !in {Ping, Pong} then InvalidParameter
    else Success
  }

  function Plain(status: Status): Answer
  {
    Answer(status, Continuation, 0, [])
  }

  /** One call: what it changes and what it answers. */
  ghost function Turn(w: World, call: Call, limits: Settings, endStatus: Status): (s: Session)
    ensures |s.answers| == 1
  {
    match call
    case Piece(op, payload, fin) =>
      var status := PieceStatus(w.link.Up?, w.sent, op, payload, fin);
      Session(if status == Success then w.(sent := Extend(w.sent, op, payload, fin)) else w, [Plain(status)])
    case Control(op, payload) =>
      var status := ControlAnswer(w.link.Up?, op, payload);
      Session(if status == Success then w.(controls := w.controls + [Frame(true, op, payload)]) else w, [Plain(status)])
    case Take =>
      var reply := ReplyOf(w.link, limits, endStatus);
      Session(World(reply.link, w.sent, w.controls + reply.frames), [reply.answer])
  }

  ghost function Turns(w: World, calls: seq<Call>, limits: Settings, endStatus: Status): (s: Session)
    ensures |s.answers| == |calls|
  {
    if calls == [] then Session(w, [])
    else
      var before := Turns(w, calls[..|calls| - 1], limits, endStatus);
      var last := Turn(before.world, calls[|calls| - 1], limits, endStatus);
      Session(last.world, before.answers + last.answers)
  }

  ghost predicate Steady(client: Client, frameBuffer: array<byte>, output: array<byte>)
    reads client, client.transport
  {
    && Ready(client, frameBuffer, output) && !client.partWay && frameBuffer.Length <= MAX_PAYLOAD
  }

  ghost function Now(client: Client, output: array<byte>): World
    reads client, client.transport, client.bufferedFrame, output
    requires client.bufferedFrameLength <= client.bufferedFrame.Length
  {
    World(LinkOf(client, output), Sending(client.log), SentControls(client.log))
  }

  /** The client's send fields answer as what the server has so far demands. */
  lemma PieceStatusHolds(client: Client, op: Opcode, payload: seq<byte>, room: nat, fin: bool)
    requires client.Valid() && !client.partWay && (client.connected ==> !client.closeReceived) && room >= AMPLE_ROOM
    ensures client.SendStatus(op, payload, room, fin)
         == PieceStatus(client.connected, Sending(client.log), op, payload, fin)
  {
    hide Sending, Utf8.Run, Utf8.IsUtf8, Recorded, Untorn, TextsComplete, CloseSeen;
    var a := Sending(client.log);
    if client.connected {
      var text := if a.open then a.current.payload + payload else payload;
      Utf8.AcceptsExactlyUtf8(text);
      if a.open {
        Utf8.RunConcat(Utf8.START, a.current.payload, payload);
      }
    }
  }

  /** One call of a session. */
  method MakeCall(client: Client, frameBuffer: array<byte>, output: array<byte>, call: Call) returns (answer: Answer)
    requires Steady(client, frameBuffer, output)
    modifies client, client.transport, client.bufferedFrame, frameBuffer, output
    ensures Steady(client, frameBuffer, output) && client.transport == old(client.transport)
    ensures client.transport.endStatus == old(client.transport.endStatus)
    ensures client.bufferedFrame == old(client.bufferedFrame) || fresh(client.bufferedFrame)
    ensures Turn(old(Now(client, output)), call, Settings(output.Length, frameBuffer.Length, true),
                 client.transport.endStatus)
         == Session(Now(client, output), [answer])
  {
    hide Recorded, Untorn, TextsComplete, InStep, CloseSeen, Frames, PartialIn, ReplyOf, Trimmed, Sending, SentControls;
    match call {
      case Piece(op, payload, fin) =>
        answer := MakePiece(client, frameBuffer, output, op, payload, fin);
      case Control(op, payload) =>
        answer := MakeControl(client, frameBuffer, output, op, payload);
      case Take =>
        answer := MakeTake(client, frameBuffer, output);
    }
  }

  method MakePiece(client: Client, frameBuffer: array<byte>, output: array<byte>, op: Opcode, payload: seq<byte>, fin: bool)
    returns (answer: Answer)
    requires Steady(client, frameBuffer, output)
    modifies client, client.transport, frameBuffer
    ensures Steady(client, frameBuffer, output) && client.transport == old(client.transport)
    ensures client.transport.endStatus == old(client.transport.endStatus)
    ensures client.bufferedFrame == old(client.bufferedFrame)
    ensures Turn(old(Now(client, output)), Piece(op, payload, fin), Settings(output.Length, frameBuffer.Length, true),
                 client.transport.endStatus)
         == Session(Now(client, output), [answer])
  {
    hide Recorded, Untorn, TextsComplete, InStep, CloseSeen, Frames, PartialIn, Trimmed, Sending, SentControls, PieceStatus;
    PieceStatusHolds(client, op, payload, frameBuffer.Length, fin);
    var status := client.SendFrame(op, payload, frameBuffer, fin);
    answer := Plain(status);
  }

  method MakeControl(client: Client, frameBuffer: array<byte>, output: array<byte>, op: Opcode, payload: seq<byte>)
    returns (answer: Answer)
    requires Steady(client, frameBuffer, output)
    modifies client, client.transport, frameBuffer
    ensures Steady(client, frameBuffer, output) && client.transport == old(client.transport)
    ensures client.transport.endStatus == old(client.transport.endStatus)
    ensures client.bufferedFrame == old(client.bufferedFrame)
    ensures Turn(old(Now(client, output)), Control(op, payload), Settings(output.Length, frameBuffer.Length, true),
                 client.transport.endStatus)
         == Session(Now(client, output), [answer])
  {
    hide Recorded, Untorn, TextsComplete, InStep, CloseSeen, Frames, PartialIn, Trimmed, Sending, SentControls;
    var status := client.SendControlFrame(op, payload, frameBuffer);
    ControlsSent(old(client.log), client.log, if status == Success then [Frame(true, op, payload)] else []);
    answer := Plain(status);
  }

  method MakeTake(client: Client, frameBuffer: array<byte>, output: array<byte>) returns (answer: Answer)
    requires Steady(client, frameBuffer, output)
    modifies client, client.transport, client.bufferedFrame, frameBuffer, output
    ensures Steady(client, frameBuffer, output) && client.transport == old(client.transport)
    ensures client.transport.endStatus == old(client.transport.endStatus)
    ensures client.bufferedFrame == old(client.bufferedFrame) || fresh(client.bufferedFrame)
    ensures Turn(old(Now(client, output)), Take, Settings(output.Length, frameBuffer.Length, true),
                 client.transport.endStatus)
         == Session(Now(client, output), [answer])
  {
    hide Recorded, Untorn, TextsComplete, InStep, CloseSeen, Frames, PartialIn, ReplyOf, Trimmed, Sending, SentControls;
    ghost var reply := ReplyOf(LinkOf(client, output), Settings(output.Length, frameBuffer.Length, true),
                               client.transport.endStatus);
    RepliesAreControls(LinkOf(client, output), Settings(output.Length, frameBuffer.Length, true), client.transport.endStatus);
    answer := OneCall(client, frameBuffer, output);
    ControlsSent(old(client.log), client.log, reply.frames);
  }

  lemma ControlsSent(before: seq<Sent>, after: seq<Sent>, fs: seq<Frame>)
    requires Frames(after) == Frames(before) + fs && forall f :: f in fs ==> IsControl(f.opcode) && f.fin
    ensures Sending(after) == Sending(before) && SentControls(after) == SentControls(before) + fs
  {
    ControlsBetween(NOTHING_YET, Frames(before), fs);
  }

  lemma RepliesAreControls(link: Link, limits: Settings, endStatus: Status)
    ensures forall f :: f in ReplyOf(link, limits, endStatus).frames ==> IsControl(f.opcode) && f.fin
  {
    hide CloseStatus, Receive;
  }

  /**
   A session: what is answered and what a server puts together are those of `Turns`, however the peer's
   bytes are cut into reads and however messages are cut into frames.
   */
  method Converse(client: Client, frameBuffer: array<byte>, output: array<byte>, calls: seq<Call>)
    returns (answers: seq<Answer>)
    requires Steady(client, frameBuffer, output)
    modifies client, client.transport, client.bufferedFrame, frameBuffer, output
    ensures Steady(client, frameBuffer, output)
    ensures var limits := Settings(output.Length, frameBuffer.Length, true);
            Session(Now(client, output), answers)
            == Turns(old(Now(client, output)), calls, limits, old(client.transport.endStatus))
    ensures Hears(client, Spoken(old(Sending(client.log)), calls, answers), Now(client, output).controls)
  {
    hide Recorded, Untorn, TextsComplete, InStep, CloseSeen, Frames, PartialIn, Turn, Sending, SentControls, Spoken;
    ghost var limits := Settings(output.Length, frameBuffer.Length, true);
    ghost var w, endStatus := Now(client, output), client.transport.endStatus;
    HearsTheLog(client);
    answers := [];
    for i := 0 to |calls|
      invariant Steady(client, frameBuffer, output) && client.transport == old(client.transport)
      invariant client.transport.endStatus == endStatus
      invariant client.bufferedFrame == old(client.bufferedFrame) || fresh(client.bufferedFrame)
      invariant Turns(w, calls[..i], limits, endStatus) == Session(Now(client, output), answers)
    {
      var answer := MakeCall(client, frameBuffer, output, calls[i]);
      assert calls[..i + 1][..i] == calls[..i];
      answers := answers + [answer];
    }
    assert calls[..|calls|] == calls;
    HearsTheLog(client);
    TurnsSpeak(w, calls, limits, endStatus);
  }

  /** A server has these messages and these control frames, however many frames it reads off the wire. */
  ghost predicate Hears(client: Client, messages: Assembly, controls: seq<Frame>)
    reads client, client.transport
  {
    && client.preface <= client.transport.wire && messages.Assembly? && TextIsUtf8(messages.done)
    && forall n :: n >= |client.log| ==>
         HeardIn(ReadFrames(client.transport.wire[|client.preface|..], n), messages, controls)
  }

  /** These frames are these messages and these control frames, and none follows a Close frame. */
  predicate HeardIn(frames: seq<Frame>, messages: Assembly, controls: seq<Frame>)
  {
    && Assemble(frames) == messages && Controls(frames) == controls
    && forall i :: 0 <= i < |frames| - 1 ==> frames[i].opcode != Close
  }

  lemma HearsTheLog(client: Client)
    requires client.Valid() && !client.partWay && client.transport.faults == []
    ensures Hears(client, Sending(client.log), SentControls(client.log)) && Sending(client.log).Assembly?
  {
    hide Recorded, Untorn, CloseSeen, InStep, Assemble, ReadFrames, Controls, Frames, TextIsUtf8;
    ServerView(client);
  }

  // ---- What the pieces add up to ----

  /** The pieces that were accepted, put together. */
  function Spoken(a: Assembly, calls: seq<Call>, answers: seq<Answer>): Assembly
    requires |calls| == |answers|
  {
    if calls == [] then a
    else
      var n := |calls| - 1;
      var b := Spoken(a, calls[..n], answers[..n]);
      if b.Assembly? && calls[n].Piece? && answers[n].status == Success
      then Extend(b, calls[n].opcode, calls[n].payload, calls[n].fin) else b
  }

  /** What the server puts together are the pieces that were accepted. */
  lemma {:induction false} TurnsSpeak(w: World, calls: seq<Call>, limits: Settings, endStatus: Status)
    requires w.sent.Assembly?
    ensures var s := Turns(w, calls, limits, endStatus);
            s.world.sent.Assembly? && s.world.sent == Spoken(w.sent, calls, s.answers)
  {
    hide ReplyOf, PieceStatus;
    if calls != [] {
      var n := |calls| - 1;
      var before := Turns(w, calls[..n], limits, endStatus);
      TurnsSpeak(w, calls[..n], limits, endStatus);
      assert Turns(w, calls, limits, endStatus).answers[..n] == before.answers;
    }
  }

  /** The payloads of the pieces that were accepted. */
  function Words(calls: seq<Call>, answers: seq<Answer>): seq<byte>
    requires |calls| == |answers|
  {
    if calls == [] then []
    else
      var n := |calls| - 1;
      var before := Words(calls[..n], answers[..n]);
      if calls[n].Piece? && answers[n].status == Success then before + calls[n].payload else before
  }

  /** How many messages the accepted pieces complete. */
  function Endings(calls: seq<Call>, answers: seq<Answer>): nat
    requires |calls| == |answers|
  {
    if calls == [] then 0
    else
      var n := |calls| - 1;
      Endings(calls[..n], answers[..n])
      + if calls[n].Piece? && calls[n].fin && answers[n].status == Success then 1 else 0
  }

  /** The bytes of all messages, and of the one in progress. */
  function Content(a: Assembly): seq<byte>
    requires a.Assembly?
  {
    Flatten(seq(|a.done|, i requires 0 <= i < |a.done| => a.done[i].payload)) + a.current.payload
  }

  /** Nothing is in progress unless a message is open. */
  predicate Tidy(a: Assembly)
  {
    a.Assembly? && (!a.open ==> a.current == NO_MESSAGE)
  }

  lemma ExtendedContent(a: Assembly, op: Opcode, payload: seq<byte>, fin: bool)
    requires Tidy(a) && (op == Continuation) == a.open
    ensures var b := Extend(a, op, payload, fin);
            Tidy(b) && Content(b) == Content(a) + payload && |b.done| == |a.done| + if fin then 1 else 0
  {
    hide Flatten;
    var b := Extend(a, op, payload, fin);
    var bytes := seq(|a.done|, i requires 0 <= i < |a.done| => a.done[i].payload);
    if fin {
      var last := b.done[|a.done|].payload;
      assert seq(|b.done|, i requires 0 <= i < |b.done| => b.done[i].payload) == bytes + [last];
      FlattenNext(bytes, last);
    }
  }

  /** An accepted piece adds its payload, and nothing else adds anything. */
  lemma TurnAdds(w: World, call: Call, limits: Settings, endStatus: Status)
    requires Tidy(w.sent)
    ensures var s := Turn(w, call, limits, endStatus);
            var spoken := call.Piece? && s.answers[0].status == Success;
            && Tidy(s.world.sent)
            && Content(s.world.sent) == (if spoken then Content(w.sent) + call.payload else Content(w.sent))
            && |s.world.sent.done| == |w.sent.done| + if spoken && call.fin then 1 else 0
  {
    hide ReplyOf, MayBeText, Content, Extend;
    if call.Piece? && PieceStatus(w.link.Up?, w.sent, call.opcode, call.payload, call.fin) == Success {
      ExtendedContent(w.sent, call.opcode, call.payload, call.fin);
    }
  }

  /** In a session no byte of an accepted piece is lost, comes twice or changes places. */
  lemma {:induction false} NothingIsLost(w: World, calls: seq<Call>, limits: Settings, endStatus: Status)
    requires Tidy(w.sent)
    ensures var s := Turns(w, calls, limits, endStatus);
            && Tidy(s.world.sent)
            && Content(s.world.sent) == Content(w.sent) + Words(calls, s.answers)
            && |s.world.sent.done| == |w.sent.done| + Endings(calls, s.answers)
  {
    hide Turn, Content, Words, Endings;
    NoWords();
    if calls == [] {
      assert Content(w.sent) + [] == Content(w.sent);
    } else {
      var n := |calls| - 1;
      var before := Turns(w, calls[..n], limits, endStatus);
      NothingIsLost(w, calls[..n], limits, endStatus);
      TurnAdds(before.world, calls[n], limits, endStatus);
      var last := Turn(before.world, calls[n], limits, endStatus);
      assert calls == calls[..n] + [calls[n]] && last.answers == [last.answers[0]];
      MoreWords(calls[..n], before.answers, calls[n], last.answers[0], Content(w.sent));
    }
  }

  lemma NoWords()
    ensures Words([], []) == [] && Endings([], []) == 0
  {
  }

  lemma MoreWords(calls: seq<Call>, answers: seq<Answer>, call: Call, answer: Answer, before: seq<byte>)
    requires |calls| == |answers|
    ensures var spoken := call.Piece? && answer.status == Success;
            && before + Words(calls + [call], answers + [answer])
               == (if spoken then before + Words(calls, answers) + call.payload else before + Words(calls, answers))
            && Endings(calls + [call], answers + [answer])
               == Endings(calls, answers) + if spoken && call.fin then 1 else 0
  {
    assert (calls + [call])[..|calls|] == calls && (answers + [answer])[..|answers|] == answers;
    if call.Piece? {
      assert before + (Words(calls, answers) + call.payload) == before + Words(calls, answers) + call.payload;
    }
  }
}
