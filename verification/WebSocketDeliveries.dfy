/**
 What many calls of `ReceiveMessage` deliver: the messages that the frame grammar of RFC 6455, section 5.4,
 makes of the peer's frames, all of them, in order, each once.
 */
module WebSocketDeliveries {
  import opened Bytes
  import opened Transport
  import opened WebSocketClient
  import opened WebSocketFrame
  import opened WebSocketMessages
  import opened WebSocketReassembly
  import opened WebSocketRuns
  import Utf8

  /** The stream begins with the frames of these messages, one after the other. */
  ghost predicate MessagesAhead(s: seq<byte>, g: Fragment, limits: Settings, ms: seq<Message>, pings: seq<seq<byte>>,
                                rest: seq<byte>)
    decreases |ms|
  {
    if ms == [] then pings == [] && s == rest
    else exists k: nat, behind: seq<byte> ::
      && k <= |pings| && MessageAhead(s, g, limits, ms[0], pings[..k], behind)
      && MessagesAhead(behind, NO_FRAGMENT, limits, ms[1..], pings[k..], rest)
  }

  function Delivery(m: Message): Answer
  {
    Answer(Success, m.opcode, |m.payload|, m.payload)
  }

  function Deliveries(ms: seq<Message>): (answers: seq<Answer>)
    ensures |answers| == |ms|
  {
    if ms == [] then [] else [Delivery(ms[0])] + Deliveries(ms[1..])
  }

  predicate DataOnly(ms: seq<Message>)
  {
    forall m :: m in ms ==> IsData(m.opcode)
  }

  /** As many calls as there are messages deliver them. */
  ghost predicate Delivers(s: seq<byte>, g: Fragment, ms: seq<Message>, limits: Settings, endStatus: Status)
  {
    DataOnly(ms) && Calls(Up(s, g), |ms|, limits, endStatus).answers == Deliveries(ms)
  }

  // ---- One call ----

  lemma CallsTrimmed(s: seq<byte>, g: Fragment, n: nat, limits: Settings, endStatus: Status)
    ensures Calls(Trimmed(s, g, limits.capacity), n, limits, endStatus) == Calls(Up(s, g), n, limits, endStatus)
  {
    hide Receive, LastFrames, LookAhead;
    TrimmedStarves(s, g, limits);
  }

  /** A message ahead is the answer of the next call, and the calls after it start behind it. */
  lemma CallDelivers(s: seq<byte>, g: Fragment, m: Message, pings: seq<seq<byte>>, behind: seq<byte>, n: nat,
                     limits: Settings, endStatus: Status)
    requires WellFormed(g) && limits.autoReply && MessageAhead(s, g, limits, m, pings, behind)
    ensures Calls(Up(s, g), n + 1, limits, endStatus)
         == Before([Delivery(m)], PongFrames(pings), Calls(Up(behind, NO_FRAGMENT), n, limits, endStatus))
  {
    hide Receive, MessageAhead, WellFormed, Trimmed, Before;
    DeliversExactlyMessages(s, g, limits, m, pings, behind);
    CallsTrimmed(behind, NO_FRAGMENT, n, limits, endStatus);
    assert PongFrames(pings) + [] == PongFrames(pings);
  }

  /** An answer with a message is a message ahead. */
  lemma DeliveryIsAhead(s: seq<byte>, g: Fragment, m: Message, limits: Settings, endStatus: Status)
    returns (pings: seq<seq<byte>>, behind: seq<byte>)
    requires WellFormed(g) && limits.autoReply && limits.room >= AMPLE_ROOM && IsData(m.opcode)
    requires ReplyOf(Up(s, g), limits, endStatus).answer == Delivery(m)
    ensures MessageAhead(s, g, limits, m, pings, behind)
  {
    hide Receive, MessageAhead, WellFormed, Trimmed;
    DeliversOrEnds(s, g, 0, limits);
    var r := Receive(s, g, 0, limits);
    assert r.outcome.Delivered?;
    var fs := DeliveryIsAMessage(s, g, 0, limits);
    pings, behind := r.pongs, r.outcome.rest;
    DeliversExactlyMessages(s, g, limits, m, pings, behind);
  }

  // ---- Many calls ----

  /** The messages of the stream are delivered, each once and in order, and every ping is answered. */
  lemma {:induction false} MessagesAreDelivered(s: seq<byte>, g: Fragment, ms: seq<Message>, pings: seq<seq<byte>>,
                                                rest: seq<byte>, n: nat, limits: Settings, endStatus: Status)
    requires WellFormed(g) && limits.autoReply && MessagesAhead(s, g, limits, ms, pings, rest)
    ensures Calls(Up(s, g), |ms| + n, limits, endStatus)
         == Before(Deliveries(ms), PongFrames(pings),
                   Calls(Up(rest, if ms == [] then g else NO_FRAGMENT), n, limits, endStatus))
    decreases |ms|
  {
    hide Calls, MessageAhead, Before;
    if ms == [] {
      assert PongFrames(pings) == [];
      NothingBefore(Calls(Up(rest, g), n, limits, endStatus));
    } else {
      var k: nat, behind: seq<byte> :|
        && k <= |pings| && MessageAhead(s, g, limits, ms[0], pings[..k], behind)
        && MessagesAhead(behind, NO_FRAGMENT, limits, ms[1..], pings[k..], rest);
      CallDelivers(s, g, ms[0], pings[..k], behind, |ms| - 1 + n, limits, endStatus);
      MessagesAreDelivered(behind, NO_FRAGMENT, ms[1..], pings[k..], rest, n, limits, endStatus);
      assert pings == pings[..k] + pings[k..];
      MorePongs(pings[..k], pings[k..]);
      BeforeTwice([Delivery(ms[0])], PongFrames(pings[..k]), Deliveries(ms[1..]), PongFrames(pings[k..]),
                  Calls(Up(rest, NO_FRAGMENT), n, limits, endStatus));
    }
  }

  lemma BeforeTwice(answers: seq<Answer>, frames: seq<Frame>, answers': seq<Answer>, frames': seq<Frame>, run: Run)
    ensures Before(answers, frames, Before(answers', frames', run)) == Before(answers + answers', frames + frames', run)
  {
    assert answers + (answers' + run.answers) == answers + answers' + run.answers;
    assert frames + (frames' + run.frames) == frames + frames' + run.frames;
  }

  /** Whatever many calls deliver are the messages of the stream. */
  lemma {:induction false} DeliveriesAreAhead(s: seq<byte>, g: Fragment, ms: seq<Message>, limits: Settings,
                                              endStatus: Status)
    returns (pings: seq<seq<byte>>, rest: seq<byte>)
    requires WellFormed(g) && limits.autoReply && limits.room >= AMPLE_ROOM && Delivers(s, g, ms, limits, endStatus)
    ensures MessagesAhead(s, g, limits, ms, pings, rest)
    decreases |ms|
  {
    hide ReplyOf, MessageAhead, Trimmed;
    if ms == [] {
      pings, rest := [], s;
    } else {
      var reply := ReplyOf(Up(s, g), limits, endStatus);
      var after := Calls(reply.link, |ms| - 1, limits, endStatus);
      assert ([reply.answer] + after.answers)[0] == reply.answer && Deliveries(ms)[0] == Delivery(ms[0]);
      var first, behind := DeliveryIsAhead(s, g, ms[0], limits, endStatus);
      CallDelivers(s, g, ms[0], first, behind, |ms| - 1, limits, endStatus);
      OneLess(ms, Calls(Up(s, g), |ms|, limits, endStatus), PongFrames(first),
              Calls(Up(behind, NO_FRAGMENT), |ms| - 1, limits, endStatus));
      var others;
      others, rest := DeliveriesAreAhead(behind, NO_FRAGMENT, ms[1..], limits, endStatus);
      pings := first + others;
      assert pings[..|first|] == first && pings[|first|..] == others;
    }
  }

  lemma OneLess(ms: seq<Message>, run: Run, frames: seq<Frame>, rest: Run)
    requires ms != [] && DataOnly(ms) && run.answers == Deliveries(ms) && run == Before([Delivery(ms[0])], frames, rest)
    ensures DataOnly(ms[1..]) && rest.answers == Deliveries(ms[1..])
  {
    assert ([Delivery(ms[0])] + rest.answers)[1..] == rest.answers;
    assert ([Delivery(ms[0])] + Deliveries(ms[1..]))[1..] == Deliveries(ms[1..]);
  }

  /** A run delivers messages exactly when the stream begins with their frames. */
  lemma RunDeliversExactly(s: seq<byte>, g: Fragment, ms: seq<Message>, limits: Settings, endStatus: Status)
    requires WellFormed(g) && limits.autoReply && limits.room >= AMPLE_ROOM
    ensures Delivers(s, g, ms, limits, endStatus) <==> exists pings, rest :: MessagesAhead(s, g, limits, ms, pings, rest)
  {
    hide MessagesAhead, Calls, WellFormed;
    if Delivers(s, g, ms, limits, endStatus) {
      var pings, rest := DeliveriesAreAhead(s, g, ms, limits, endStatus);
    }
    if pings, rest :| MessagesAhead(s, g, limits, ms, pings, rest) {
      MessagesAreDelivered(s, g, ms, pings, rest, 0, limits, endStatus);
      NoCallsLeft(Deliveries(ms), PongFrames(pings), Up(rest, if ms == [] then g else NO_FRAGMENT), limits, endStatus);
      MessagesAreData(s, g, ms, pings, rest, limits);
    }
  }

  lemma {:induction false} MessagesAreData(s: seq<byte>, g: Fragment, ms: seq<Message>, pings: seq<seq<byte>>,
                                           rest: seq<byte>, limits: Settings)
    requires WellFormed(g) && MessagesAhead(s, g, limits, ms, pings, rest)
    ensures DataOnly(ms)
    decreases |ms|
  {
    hide Completes, Answerable;
    if ms != [] {
      var k: nat, behind: seq<byte> :|
        && k <= |pings| && MessageAhead(s, g, limits, ms[0], pings[..k], behind)
        && MessagesAhead(behind, NO_FRAGMENT, limits, ms[1..], pings[k..], rest);
      var fs :| s == ServerFrames(fs) + behind && Completes(g, fs, ms[0]) && Answerable(g, 0, fs, limits)
                && Pings(fs) == pings[..k];
      CompletedIsData(g, fs, ms[0]);
      MessagesAreData(behind, NO_FRAGMENT, ms[1..], pings[k..], rest, limits);
    }
  }

  lemma CompletedIsData(g: Fragment, fs: seq<Frame>, m: Message)
    requires WellFormed(g) && Completes(g, fs, m)
    ensures IsData(m.opcode)
  {
    DataStaysData(AssemblyOf(g), fs);
    assert m in AbsorbAll(AssemblyOf(g), fs).done;
  }

  predicate AllData(a: Assembly)
  {
    a.Assembly? ==> DataOnly(a.done) && (a.open ==> IsData(a.current.opcode))
  }

  lemma {:induction false} DataStaysData(a: Assembly, fs: seq<Frame>)
    requires AllData(a)
    ensures AllData(AbsorbAll(a, fs))
    decreases fs
  {
    if fs != [] {
      DataStaysData(Absorb(a, fs[0]), fs[1..]);
    }
  }

  // ---- The frames behind the messages ----

  /** The messages ahead are what the grammar makes of the frames that the peer sent. */
  lemma {:induction false} MessagesAssemble(s: seq<byte>, g: Fragment, ms: seq<Message>, pings: seq<seq<byte>>,
                                            rest: seq<byte>, limits: Settings) returns (fs: seq<Frame>)
    requires WellFormed(g) && MessagesAhead(s, g, limits, ms, pings, rest)
    ensures s == ServerFrames(fs) + rest && Transmittable(fs, limits.room) && Pings(fs) == pings
    ensures AbsorbAll(AssemblyOf(g), fs) == if ms == [] then AssemblyOf(g) else Assembly(ms, false, NO_MESSAGE)
    decreases |ms|
  {
    hide AbsorbAll, ServerFrames, Pings, Transmittable, Completes, MessageAhead;
    if ms == [] {
      fs := [];
      NoFrames(AssemblyOf(g), rest, limits.room);
    } else {
      var k: nat, behind: seq<byte> :|
        && k <= |pings| && MessageAhead(s, g, limits, ms[0], pings[..k], behind)
        && MessagesAhead(behind, NO_FRAGMENT, limits, ms[1..], pings[k..], rest);
      var first := FramesAhead(s, g, ms[0], pings[..k], behind, limits);
      var others := MessagesAssemble(behind, NO_FRAGMENT, ms[1..], pings[k..], rest, limits);
      fs := first + others;
      FramesTogether(first, others, rest);
      BothTransmittable(first, others, limits.room);
      OneMessageMore(g, first, ms[0], others, ms[1..]);
      assert pings == pings[..k] + pings[k..] && ms == [ms[0]] + ms[1..];
    }
  }

  lemma FramesAhead(s: seq<byte>, g: Fragment, m: Message, pings: seq<seq<byte>>, rest: seq<byte>, limits: Settings)
    returns (fs: seq<Frame>)
    requires MessageAhead(s, g, limits, m, pings, rest)
    ensures s == ServerFrames(fs) + rest && Completes(g, fs, m) && Transmittable(fs, limits.room) && Pings(fs) == pings
  {
    hide ServerFrames, Pings, Transmittable, Completes, Utf8.IsUtf8;
    fs :| s == ServerFrames(fs) + rest && Completes(g, fs, m) && Answerable(g, 0, fs, limits) && Pings(fs) == pings;
  }

  lemma NoFrames(a: Assembly, rest: seq<byte>, room: nat)
    ensures AbsorbAll(a, []) == a && ServerFrames([]) + rest == rest && Pings([]) == [] && Transmittable([], room)
  {
  }

  lemma {:induction false} FramesTogether(fs: seq<Frame>, others: seq<Frame>, rest: seq<byte>)
    ensures ServerFrames(fs + others) + rest == ServerFrames(fs) + (ServerFrames(others) + rest)
    ensures Pings(fs + others) == Pings(fs) + Pings(others)
    decreases fs
  {
    hide ServerFrames, Pings, Transmittable;
    if fs == [] {
      assert fs + others == others;
      NoFrames(NOTHING_YET, ServerFrames(others) + rest, 0);
    } else {
      FramesTogether(fs[1..], others, rest);
      assert fs + others == [fs[0]] + (fs[1..] + others) && fs == [fs[0]] + fs[1..];
      FrameInFront(fs[0], fs[1..] + others, rest, 0);
      FrameInFront(fs[0], fs[1..], ServerFrames(others) + rest, 0);
    }
  }

  lemma BothTransmittable(fs: seq<Frame>, others: seq<Frame>, room: nat)
    requires Transmittable(fs, room) && Transmittable(others, room)
    ensures Transmittable(fs + others, room)
  {
    hide Allowed;
  }

  /** Frames that complete a message, and then frames that add up to more. */
  lemma OneMessageMore(g: Fragment, fs: seq<Frame>, m: Message, others: seq<Frame>, ms: seq<Message>)
    requires Completes(g, fs, m)
    requires AbsorbAll(AssemblyOf(NO_FRAGMENT), others)
          == if ms == [] then AssemblyOf(NO_FRAGMENT) else Assembly(ms, false, NO_MESSAGE)
    ensures AbsorbAll(AssemblyOf(g), fs + others) == Assembly([m] + ms, false, NO_MESSAGE)
  {
    hide AbsorbAll;
    AbsorbBoth(AssemblyOf(g), fs, others);
    DoneBefore([m], NOTHING_YET, others);
    assert [m] + [] == [m];
  }

  lemma {:induction false} AbsorbBoth(a: Assembly, fs: seq<Frame>, others: seq<Frame>)
    ensures AbsorbAll(a, fs + others) == AbsorbAll(AbsorbAll(a, fs), others)
    decreases fs
  {
    hide Absorb;
    if fs == [] {
      assert fs + others == others;
    } else {
      assert (fs + others)[1..] == fs[1..] + others;
      AbsorbBoth(Absorb(a, fs[0]), fs[1..], others);
    }
  }

  /** Messages that are done stay in front. */
  lemma {:induction false} DoneBefore(done: seq<Message>, a: Assembly, fs: seq<Frame>)
    requires a.Assembly? && AbsorbAll(a, fs).Assembly?
    ensures AbsorbAll(a.(done := done + a.done), fs)
         == AbsorbAll(a, fs).(done := done + AbsorbAll(a, fs).done)
    decreases fs
  {
    if fs != [] {
      BrokenStays(fs[1..]);
      var b := Absorb(a, fs[0]);
      assert b.Assembly? ==> Absorb(a.(done := done + a.done), fs[0]) == b.(done := done + b.done);
      DoneBefore(done, b, fs[1..]);
    }
  }

  lemma {:induction false} BrokenStays(fs: seq<Frame>)
    ensures AbsorbAll(Broken, fs) == Broken
    decreases fs
  {
    if fs != [] {
      BrokenStays(fs[1..]);
    }
  }

  // ---- The client ----

  /** A peer that sends the frames of these messages has them delivered, however the reads cut its bytes. */
  method ReceiveMessages(client: Client, frameBuffer: array<byte>, output: array<byte>, n: nat, ghost ms: seq<Message>,
                         ghost pings: seq<seq<byte>>, ghost rest: seq<byte>) returns (answers: seq<Answer>)
    requires Ready(client, frameBuffer, output) && client.connected && n == |ms|
    requires MessagesAhead(client.Pending(), client.FragmentIn(output),
                           Settings(output.Length, frameBuffer.Length, true), ms, pings, rest)
    modifies client, client.transport, client.bufferedFrame, frameBuffer, output
    ensures answers == Deliveries(ms) && Frames(client.log) == Frames(old(client.log)) + PongFrames(pings)
  {
    hide Recorded, Untorn, TextsComplete, InStep, CloseSeen, Frames, Calls, Trimmed, MessagesAhead, Before;
    ghost var s, g := client.Pending(), client.FragmentIn(output);
    ghost var limits, end := Settings(output.Length, frameBuffer.Length, true), client.transport.endStatus;
    FragmentIsWellFormed(client, output);
    CallsTrimmed(s, g, n, limits, end);
    MessagesAreDelivered(s, g, ms, pings, rest, 0, limits, end);
    NoCallsLeft(Deliveries(ms), PongFrames(pings), Up(rest, if ms == [] then g else NO_FRAGMENT), limits, end);
    answers := ReceiveMany(client, frameBuffer, output, n);
  }

  lemma FragmentIsWellFormed(client: Client, output: array<byte>)
    requires client.Valid()
    ensures WellFormed(client.FragmentIn(output))
  {
    hide Recorded, Untorn, TextsComplete, InStep, CloseSeen;
  }
}
