/**
 Runs of `ReceiveMessage` with one output buffer: with room for every pong the answers and the frames
 sent are a function of the peer's bytes, and without it they are not.
 */
module WebSocketRuns {
  import opened Bytes
  import opened Transport
  import opened WebSocketClient
  import opened WebSocketFrame
  import opened WebSocketMessages
  import opened WebSocketReassembly

  /** The largest frame that answers a ping: six bytes of header and a control payload. */
  const AMPLE_ROOM: nat := 131

  datatype Answer = Answer(status: Status, opcode: Opcode, bytesReceived: nat, payload: seq<byte>)

  datatype Run = Run(answers: seq<Answer>, frames: seq<Frame>)

  function AnswerOf(o: Outcome, capacity: nat, endStatus: Status): Answer
  {
    match o
    case Starved => Answer(StarvedStatus(endStatus), Continuation, 0, [])
    case Failed(_, status, reported) => Answer(status, Continuation, reported, [])
    case Delivered(op, payload, _, _) => Answer(Success, op, |payload|, payload)
    case PeerClosed(payload, _) =>
      if |payload| > capacity then Answer(BufferTooSmall, Close, |payload|, [])
      else Answer(Success, Close, |payload|, payload)
    case PongTooLarge(_, _) => Answer(BufferTooSmall, Continuation, 0, [])
    case EchoTooLarge(_) => Answer(BufferTooSmall, Continuation, 0, [])
    case OutputTooSmall(n) => Answer(BufferTooSmall, Continuation, n, [])
  }

  const GONE := Answer(ConnectionDisconnected, Continuation, 0, [])

  /** The receiving side of a client: what is pending on a connection, if it stands. */
  datatype Link = Down | Up(pending: seq<byte>, fragment: Fragment)

  /** Where no whole frame is pending, every call comes to the end of the stream, whatever is pending. */
  function Trimmed(s: seq<byte>, g: Fragment, capacity: nat): (link: Link)
    ensures link.Up?
  {
    if LookAhead(s, g.open, |g.partial|, capacity).NoFrame? then Up([], NO_FRAGMENT) else Up(s, g)
  }

  /** A call that does not deliver ends the connection, unless a read failed in another way. */
  function NextLink(o: Outcome, capacity: nat, endStatus: Status): Link
  {
    if o.Delivered? then Trimmed(o.rest, o.fragment, capacity)
    else if o.Starved? && !Quiet(endStatus) then Up([], NO_FRAGMENT)
    else Down
  }

  datatype Reply = Reply(answer: Answer, frames: seq<Frame>, link: Link)

  /** One call: its answer, the frames it sends, and what it leaves. */
  ghost function ReplyOf(link: Link, limits: Settings, endStatus: Status): Reply
  {
    match link
    case Down => Reply(GONE, [], Down)
    case Up(s, g) =>
      var r := Receive(s, g, 0, limits);
      Reply(AnswerOf(r.outcome, limits.capacity, endStatus), PongFrames(r.pongs) + LastFrames(r.outcome, limits.room),
            NextLink(r.outcome, limits.capacity, endStatus))
  }

  /** n calls in a row. */
  ghost function Calls(link: Link, n: nat, limits: Settings, endStatus: Status): (run: Run)
    ensures |run.answers| == n
    decreases n
  {
    if n == 0 then Run([], [])
    else
      var first := ReplyOf(link, limits, endStatus);
      Before([first.answer], first.frames, Calls(first.link, n - 1, limits, endStatus))
  }

  function Before(answers: seq<Answer>, frames: seq<Frame>, run: Run): Run
  {
    Run(answers + run.answers, frames + run.frames)
  }

  /** With ample room and automatic answers, a call delivers, ends the connection, or ends with the stream. */
  lemma {:induction false} DeliversOrEnds(s: seq<byte>, g: Fragment, controls: nat, limits: Settings)
    requires limits.autoReply && limits.room >= AMPLE_ROOM
    ensures var o := Receive(s, g, controls, limits).outcome;
            (o.Delivered? || o.Failed? || o.PeerClosed? || o.Starved?) && (o.Failed? ==> o.status != Success)
    decreases |s|
  {
    hide DecodeHeader, IsValidClosePayload;
    StepConsumes(s, g, controls, limits);
    WholeIsAllowed(s, g.open, |g.partial|, limits.capacity);
    WholeFits(s, g.open, |g.partial|, limits.capacity);
    var step := StepOver(s, g, controls, limits);
    if step.Continue? {
      DeliversOrEnds(step.rest, step.fragment, step.controls, limits);
    } else {
      assert !step.outcome.PongTooLarge? && !step.outcome.EchoTooLarge? && !step.outcome.OutputTooSmall?;
    }
  }

  /** Trimming changes no answer. */
  lemma TrimmedStarves(s: seq<byte>, g: Fragment, limits: Settings)
    ensures var link := Trimmed(s, g, limits.capacity);
            Receive(link.pending, link.fragment, 0, limits) == Receive(s, g, 0, limits)
  {
    hide LookAhead;
    NothingToSee(false, 0, limits.capacity);
  }

  ghost predicate Ready(client: Client, frameBuffer: array<byte>, output: array<byte>)
    reads client, client.transport
  {
    && client.Valid() && frameBuffer != output && client.bufferedFrame != frameBuffer && client.bufferedFrame != output
    && client.transport.faults == [] && (client.connected ==> !client.closeReceived)
    && AMPLE_ROOM <= frameBuffer.Length && output.Length < SIZE_LIMIT - MAX_HEADER
  }

  ghost function LinkOf(client: Client, output: array<byte>): Link
    reads client, client.transport, client.bufferedFrame, output
    requires client.bufferedFrameLength <= client.bufferedFrame.Length
  {
    if client.connected then Trimmed(client.Pending(), client.FragmentIn(output), output.Length) else Down
  }

  /** One call of a run. */
  method OneCall(client: Client, frameBuffer: array<byte>, output: array<byte>) returns (answer: Answer)
    requires Ready(client, frameBuffer, output)
    modifies client, client.transport, client.bufferedFrame, frameBuffer, output
    ensures Ready(client, frameBuffer, output) && client.transport == old(client.transport)
    ensures client.transport.endStatus == old(client.transport.endStatus)
    ensures client.partWay == old(client.partWay)
    ensures client.bufferedFrame == old(client.bufferedFrame) || fresh(client.bufferedFrame)
    ensures var reply := ReplyOf(old(LinkOf(client, output)), Settings(output.Length, frameBuffer.Length, true),
                                 client.transport.endStatus);
            && answer == reply.answer && LinkOf(client, output) == reply.link
            && Frames(client.log) == Frames(old(client.log)) + reply.frames
  {
    hide Recorded, Untorn, TextsComplete, InStep, CloseSeen, Frames, PartialIn, Receive, LastFrames, LookAhead;
    if client.connected {
      answer := CallOnConnection(client, frameBuffer, output);
    } else {
      var status, opcode, bytesReceived := client.ReceiveMessage(frameBuffer, output, true);
      answer := Answer(status, opcode, bytesReceived, []);
    }
  }

  method CallOnConnection(client: Client, frameBuffer: array<byte>, output: array<byte>) returns (answer: Answer)
    requires Ready(client, frameBuffer, output) && client.connected
    modifies client, client.transport, client.bufferedFrame, frameBuffer, output
    ensures Ready(client, frameBuffer, output) && client.transport == old(client.transport)
    ensures client.transport.endStatus == old(client.transport.endStatus)
    ensures client.partWay == old(client.partWay)
    ensures client.bufferedFrame == old(client.bufferedFrame) || fresh(client.bufferedFrame)
    ensures var reply := ReplyOf(old(LinkOf(client, output)), Settings(output.Length, frameBuffer.Length, true),
                                 client.transport.endStatus);
            && answer == reply.answer && LinkOf(client, output) == reply.link
            && Frames(client.log) == Frames(old(client.log)) + reply.frames
  {
    hide Recorded, Untorn, TextsComplete, InStep, CloseSeen, Frames, PartialIn, Receive, LastFrames, LookAhead;
    ghost var limits := Settings(output.Length, frameBuffer.Length, true);
    ghost var s, g := client.Pending(), client.FragmentIn(output);
    DeliversOrEnds(s, g, 0, limits);
    TrimmedStarves(s, g, limits);
    ghost var r := Receive(s, g, 0, limits);
    var status, opcode, bytesReceived := client.ReceiveMessage(frameBuffer, output, true);
    answer := Answer(status, opcode, bytesReceived, if status == Success then output[..bytesReceived] else []);
    assert Frames(old(client.log)) + PongFrames(r.pongs) + LastFrames(r.outcome, limits.room)
        == Frames(old(client.log)) + (PongFrames(r.pongs) + LastFrames(r.outcome, limits.room));
  }

  /**
   The answers of n calls, and the frames sent meanwhile, are a function of the pending bytes: how the
   transport cuts them into reads does not matter.
   */
  method ReceiveMany(client: Client, frameBuffer: array<byte>, output: array<byte>, n: nat) returns (answers: seq<Answer>)
    requires Ready(client, frameBuffer, output)
    modifies client, client.transport, client.bufferedFrame, frameBuffer, output
    ensures var run := Calls(old(LinkOf(client, output)), n, Settings(output.Length, frameBuffer.Length, true),
                             old(client.transport.endStatus));
            answers == run.answers && Frames(client.log) == Frames(old(client.log)) + run.frames
  {
    hide Recorded, Untorn, TextsComplete, InStep, CloseSeen, Frames, PartialIn, ReplyOf, LinkOf, Calls, Before;
    ghost var limits := Settings(output.Length, frameBuffer.Length, true);
    ghost var link, end := LinkOf(client, output), client.transport.endStatus;
    ghost var frames: seq<Frame> := [];
    answers := [];
    NothingBefore(Calls(link, n, limits, end));
    assert Frames(client.log) + frames == Frames(client.log);
    for i := 0 to n
      invariant Ready(client, frameBuffer, output) && client.transport == old(client.transport)
      invariant client.transport.endStatus == end
      invariant client.bufferedFrame == old(client.bufferedFrame) || fresh(client.bufferedFrame)
      invariant Frames(client.log) == Frames(old(client.log)) + frames
      invariant Calls(link, n, limits, end)
             == Before(answers, frames, Calls(LinkOf(client, output), n - i, limits, end))
    {
      CallMade(answers, frames, LinkOf(client, output), n - i, limits, end);
      ghost var sent := ReplyOf(LinkOf(client, output), limits, end).frames;
      assert Frames(old(client.log)) + frames + sent == Frames(old(client.log)) + (frames + sent);
      var answer := OneCall(client, frameBuffer, output);
      answers, frames := answers + [answer], frames + sent;
    }
    NoCallsLeft(answers, frames, LinkOf(client, output), limits, end);
  }

  lemma NothingBefore(run: Run)
    ensures Before([], [], run) == run
  {
    assert [] + run.answers == run.answers && [] + run.frames == run.frames;
  }

  lemma NoCallsLeft(answers: seq<Answer>, frames: seq<Frame>, link: Link, limits: Settings, endStatus: Status)
    ensures Before(answers, frames, Calls(link, 0, limits, endStatus)) == Run(answers, frames)
  {
    assert answers + [] == answers && frames + [] == frames;
  }

  /** A call moves its answer and its frames from the run that is left to what came before. */
  lemma CallMade(answers: seq<Answer>, frames: seq<Frame>, link: Link, n: nat, limits: Settings, endStatus: Status)
    requires n > 0
    ensures var first := ReplyOf(link, limits, endStatus);
            Before(answers, frames, Calls(link, n, limits, endStatus))
            == Before(answers + [first.answer], frames + first.frames, Calls(first.link, n - 1, limits, endStatus))
  {
    hide ReplyOf;
    var first := ReplyOf(link, limits, endStatus);
    var rest := Calls(first.link, n - 1, limits, endStatus);
    assert answers + ([first.answer] + rest.answers) == answers + [first.answer] + rest.answers;
    assert frames + (first.frames + rest.frames) == frames + first.frames + rest.frames;
  }

  // ---- Without a frame buffer ----

  /** Every call is refused before it reads, and the pending bytes stay. */
  method WithoutFrameBuffer(client: Client, frameBuffer: array<byte>, output: array<byte>, autoReplyPing: bool, n: nat)
    returns (answers: seq<Answer>)
    requires client.Valid() && client.connected && frameBuffer.Length == 0
    requires frameBuffer != output && client.bufferedFrame != frameBuffer && client.bufferedFrame != output
    modifies client, client.transport, client.bufferedFrame, frameBuffer, output
    ensures answers == seq(n, _ => Answer(InvalidParameter, Continuation, 0, []))
    ensures client.Valid() && client.connected && client.Pending() == old(client.Pending()) && client.log == old(client.log)
  {
    hide Recorded, Untorn, TextsComplete, InStep, CloseSeen, Receive;
    answers := [];
    for i := 0 to n
      invariant client.Valid() && client.connected && client.transport == old(client.transport)
      invariant client.bufferedFrame == old(client.bufferedFrame) || fresh(client.bufferedFrame)
      invariant client.bufferedFrame != frameBuffer && client.bufferedFrame != output
      invariant client.Pending() == old(client.Pending()) && client.log == old(client.log)
      invariant answers == seq(i, _ => Answer(InvalidParameter, Continuation, 0, []))
    {
      var status, opcode, bytesReceived := client.ReceiveMessage(frameBuffer, output, autoReplyPing);
      answers := answers + [Answer(status, opcode, bytesReceived, [])];
    }
  }

  // ---- With a frame buffer of 1 to 130 bytes ----

  const PING := Frame(true, Ping, Zeros(MAX_CONTROL_PAYLOAD))

  const MESSAGE := Frame(true, Binary, [])

  /** A connected client that has buffered nothing yet. */
  ghost predicate Fresh(client: Client, frameBuffer: array<byte>, output: array<byte>, pieces: seq<seq<byte>>)
    reads client, client.transport
  {
    && client.Valid() && client.CanReceive(frameBuffer, output)
    && frameBuffer != output && client.bufferedFrame != frameBuffer && client.bufferedFrame != output
    && client.bufferedFrameLength == 0 && !client.receiveFragmentOpen
    && client.transport.pieces == pieces && client.transport.faults == [] && client.transport.endStatus == Success
  }

  /** The largest ping cannot be answered from a smaller frame buffer. */
  lemma PingOverflows(rest: seq<byte>, limits: Settings)
    requires limits.autoReply && limits.room < AMPLE_ROOM
    ensures StepOver(ServerFrame(PING) + rest, NO_FRAGMENT, 0, limits) == Stop(PongTooLarge(MAX_CONTROL_PAYLOAD, NO_FRAGMENT))
    ensures Receive(ServerFrame(PING) + rest, NO_FRAGMENT, 0, limits)
         == Received(PongTooLarge(MAX_CONTROL_PAYLOAD, NO_FRAGMENT), [])
    ensures LookAhead(ServerFrame(PING) + rest, false, 0, limits.capacity).Whole?
  {
    hide DecodeHeader, ServerHeader, ServerFrame, LookAhead;
    LookAtFrame(PING, rest, NO_FRAGMENT, limits.capacity);
  }

  lemma PingLength(rest: seq<byte>)
    ensures |ServerFrame(PING) + rest| == 127 + |rest| && |ServerFrame(MESSAGE)| == 2
  {
  }

  /** The call that meets the ping fails, and what came in the same read is gone afterwards. */
  method FirstCall(client: Client, frameBuffer: array<byte>, output: array<byte>, behind: seq<byte>, rest: seq<seq<byte>>)
    returns (status: Status)
    requires Fresh(client, frameBuffer, output, [ServerFrame(PING) + behind] + rest)
    requires frameBuffer.Length < AMPLE_ROOM && |behind| <= 12
    modifies client, client.transport, client.bufferedFrame, frameBuffer, output
    ensures status == BufferTooSmall && Fresh(client, frameBuffer, output, rest)
    ensures client.Pending() == Flatten(rest) && client.FragmentIn(output) == NO_FRAGMENT
    ensures client.transport == old(client.transport)
    ensures client.bufferedFrame == old(client.bufferedFrame) || fresh(client.bufferedFrame)
  {
    hide Recorded, Untorn, TextsComplete, InStep, CloseSeen, Frames, Receive, StepOver, LookAhead, LastFrames, ServerFrame, PartialIn;
    ghost var first := ServerFrame(PING) + behind;
    ghost var limits := Settings(output.Length, frameBuffer.Length, true);
    PingOverflows(behind, limits);
    PingOverflows(behind + Flatten(rest), limits);
    PingLength(behind);
    EmptyFragment(client, output);
    assert ([first] + rest)[0] == first && ([first] + rest)[1..] == rest;
    assert client.Pending() == first + Flatten(rest) == ServerFrame(PING) + (behind + Flatten(rest));
    var opcode, bytesReceived;
    status, opcode, bytesReceived := client.ReceiveMessage(frameBuffer, output, true);
  }

  /** The next call answers as if the bytes behind the ping had never been sent. */
  method SecondCall(client: Client, frameBuffer: array<byte>, output: array<byte>, behind: seq<byte>, rest: seq<seq<byte>>)
    returns (status: Status, opcode: Opcode, bytesReceived: nat)
    requires Fresh(client, frameBuffer, output, [ServerFrame(PING) + behind] + rest)
    requires frameBuffer.Length < AMPLE_ROOM && |behind| <= 12
    modifies client, client.transport, client.bufferedFrame, frameBuffer, output
    ensures var o := Receive(Flatten(rest), NO_FRAGMENT, 0, Settings(output.Length, frameBuffer.Length, true)).outcome;
            Answered(o, Success, status, opcode, bytesReceived, output[..])
  {
    hide Recorded, Untorn, TextsComplete, InStep, CloseSeen, Frames, Receive, StepOver, LastFrames, ServerFrame, PartialIn;
    var refused := FirstCall(client, frameBuffer, output, behind, rest);
    status, opcode, bytesReceived := client.ReceiveMessage(frameBuffer, output, true);
  }

  lemma EmptyFragment(client: Client, output: array<byte>)
    requires client.Valid() && !client.receiveFragmentOpen && client.bufferedFrameLength == 0
    ensures client.FragmentIn(output) == NO_FRAGMENT && client.Buffered() == []
  {
  }

  /** Two ways to cut one stream, two results: the message is lost, or it is delivered. */
  lemma CutsMatter(limits: Settings)
    requires limits.autoReply
    ensures Flatten([ServerFrame(PING) + ServerFrame(MESSAGE)]) == Flatten([ServerFrame(PING), ServerFrame(MESSAGE)])
    ensures Receive(Flatten([]), NO_FRAGMENT, 0, limits).outcome == Starved
    ensures Receive(Flatten([ServerFrame(MESSAGE)]), NO_FRAGMENT, 0, limits).outcome
         == Delivered(Binary, [], [], NO_FRAGMENT)
  {
    assert Flatten([ServerFrame(MESSAGE)]) == ServerFrame(MESSAGE) + Flatten([]);
    assert [ServerFrame(PING), ServerFrame(MESSAGE)][1..] == [ServerFrame(MESSAGE)];
    NothingToSee(false, 0, limits.capacity);
    hide ServerFrame, DecodeHeader;
    var fs := [MESSAGE];
    OneFrame(MESSAGE);
    assert ServerFrames(fs) + [] == ServerFrame(MESSAGE);
    assert AbsorbAll(AssemblyOf(NO_FRAGMENT), fs) == AbsorbAll(Absorb(AssemblyOf(NO_FRAGMENT), MESSAGE), []);
    assert AbsorbAll(AssemblyOf(NO_FRAGMENT), fs[..0]) == AssemblyOf(NO_FRAGMENT);
    assert [] + [Message(Binary, [])] == [Message(Binary, [])];
    MessageComesBack(fs, [], NO_FRAGMENT, 0, limits, Message(Binary, []));
  }

  /**
   Below 131 bytes the cuts decide: one peer, two ways to cut its bytes into reads, and clients that
   answer differently.
   */
  method CutsDecide(lost: Client, kept: Client, lostFrames: array<byte>, keptFrames: array<byte>,
                    lostOutput: array<byte>, keptOutput: array<byte>)
    returns (lostStatus: Status, keptStatus: Status, opcode: Opcode, bytesReceived: nat)
    requires Fresh(lost, lostFrames, lostOutput, [ServerFrame(PING) + ServerFrame(MESSAGE)])
    requires Fresh(kept, keptFrames, keptOutput, [ServerFrame(PING), ServerFrame(MESSAGE)])
    requires lostFrames.Length == keptFrames.Length < AMPLE_ROOM && lostOutput.Length == keptOutput.Length
    requires lost != kept && lost.transport != kept.transport
    requires {lost.bufferedFrame, lostFrames, lostOutput} !! {kept.bufferedFrame, keptFrames, keptOutput}
    modifies lost, lost.transport, lost.bufferedFrame, lostFrames, lostOutput
    modifies kept, kept.transport, kept.bufferedFrame, keptFrames, keptOutput
    ensures old(lost.Pending()) == old(kept.Pending())
    ensures lostStatus == ConnectionDisconnected
    ensures keptStatus == Success && opcode == Binary && bytesReceived == 0
  {
    hide Recorded, Untorn, TextsComplete, InStep, CloseSeen, Frames, Receive, StepOver, LastFrames, ServerFrame, PartialIn;
    ghost var limits := Settings(lostOutput.Length, lostFrames.Length, true);
    CutsMatter(limits);
    EmptyFragment(lost, lostOutput);
    EmptyFragment(kept, keptOutput);
    assert ServerFrame(PING) + [] == ServerFrame(PING);
    PingLength([]);
    var lostOpcode, lostBytes;
    lostStatus, lostOpcode, lostBytes := SecondCall(lost, lostFrames, lostOutput, ServerFrame(MESSAGE), []);
    keptStatus, opcode, bytesReceived := SecondCall(kept, keptFrames, keptOutput, [], [ServerFrame(MESSAGE)]);
  }
}
