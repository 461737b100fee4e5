/**
 The answers of `Receive` are the messages of the frame grammar: a message of the stream comes back
 whole, and whatever comes back is a message of the stream.
 */
module WebSocketReassembly {
  import opened Bytes
  import opened WebSocketFrame
  import opened WebSocketMessages
  import Utf8

  function ServerFrames(fs: seq<Frame>): seq<byte>
  {
    if fs == [] then [] else ServerFrame(fs[0]) + ServerFrames(fs[1..])
  }

  /** The frames that a message in progress stands for have left this behind. */
  function AssemblyOf(g: Fragment): Assembly
  {
    if g.open then Assembly([], true, Message(g.opcode, g.partial)) else NOTHING_YET
  }

  predicate WellFormed(g: Fragment)
  {
    if g.open then IsData(g.opcode) else g == NO_FRAGMENT
  }

  function ControlCount(fs: seq<Frame>): nat
  {
    if fs == [] then 0 else (if IsControl(fs[0].opcode) then 1 else 0) + ControlCount(fs[1..])
  }

  /** The ping payloads, in order. */
  function Pings(fs: seq<Frame>): seq<seq<byte>>
  {
    if fs == [] then [] else (if fs[0].opcode == Ping then [fs[0].payload] else []) + Pings(fs[1..])
  }

  predicate Transmittable(fs: seq<Frame>, room: nat)
  {
    forall f :: f in fs ==>
      && Allowed(f.fin, f.opcode, |f.payload|) && f.opcode != Close
      && (f.opcode == Ping ==> FrameRoom(|f.payload|) <= room)
  }

  /** These frames, and no fewer, complete the message. */
  predicate Completes(g: Fragment, fs: seq<Frame>, m: Message)
  {
    && fs != []
    && AbsorbAll(AssemblyOf(g), fs) == Assembly([m], false, NO_MESSAGE)
    && AbsorbAll(AssemblyOf(g), fs[..|fs| - 1]).Assembly?
    && AbsorbAll(AssemblyOf(g), fs[..|fs| - 1]).done == []
  }

  predicate Answerable(g: Fragment, controls: nat, fs: seq<Frame>, limits: Settings)
  {
    limits.autoReply && Transmittable(fs, limits.room) && controls + ControlCount(fs) <= MAX_CONTROL_FRAMES
  }

  // ---- A message comes back ----

  lemma LookAtFrame(f: Frame, rest: seq<byte>, g: Fragment, capacity: nat)
    requires Allowed(f.fin, f.opcode, |f.payload|)
    requires !IsControl(f.opcode) ==> (f.opcode == Continuation) == g.open && |g.partial| + |f.payload| <= capacity
    ensures var s, h := ServerFrame(f) + rest, |ServerHeader(f.fin, f.opcode, |f.payload|)|;
            && LookAhead(s, g.open, |g.partial|, capacity) == Whole(Header(f.fin, f.opcode, |f.payload|, h))
            && s[h..h + |f.payload|] == f.payload && s[h + |f.payload|..] == rest
  {
    hide DecodeHeader, ServerHeader;
    var s := ServerFrame(f) + rest;
    EncodedHeaderDecodes(f.fin, f.opcode, |f.payload|, s);
  }

  /** Completed messages stay, and the one in progress only grows. */
  lemma {:induction false} AssemblyGrows(a: Assembly, fs: seq<Frame>)
    requires AbsorbAll(a, fs).Assembly?
    ensures a.Assembly? && a.done <= AbsorbAll(a, fs).done
    ensures var b := AbsorbAll(a, fs);
            a.open ==> (if b.done == a.done then b.open && a.current.payload <= b.current.payload
                        else a.current.payload <= b.done[|a.done|].payload)
    decreases fs
  {
    if fs != [] {
      AssemblyGrows(Absorb(a, fs[0]), fs[1..]);
    }
  }

  /** The first frame of a message fits, since the whole message does. */
  lemma FirstFrameFits(fs: seq<Frame>, g: Fragment, m: Message)
    requires WellFormed(g) && Completes(g, fs, m)
    ensures !IsControl(fs[0].opcode) ==>
              (fs[0].opcode == Continuation) == g.open && |g.partial| + |fs[0].payload| <= |m.payload|
    ensures |fs| > 1 ==> Absorb(AssemblyOf(g), fs[0]).Assembly? && Absorb(AssemblyOf(g), fs[0]).done == []
  {
    var b := Absorb(AssemblyOf(g), fs[0]);
    AssemblyGrows(b, fs[1..]);
    assert b.done != [] ==> b.done[0] == m;
    if |fs| > 1 {
      var init := fs[..|fs| - 1];
      assert init[0] == fs[0];
      AssemblyGrows(Absorb(AssemblyOf(g), fs[0]), init[1..]);
    }
  }

  function ControlsAfter(f: Frame, controls: nat): nat
  {
    if IsControl(f.opcode) then controls + 1 else controls
  }

  function FragmentAfter(f: Frame, g: Fragment): Fragment
  {
    if IsControl(f.opcode) then g
    else Fragment(true, if g.open then g.opcode else f.opcode, g.partial + f.payload)
  }

  /** One frame of the stream that does not complete a message. */
  lemma FrameIsTaken(f: Frame, rest: seq<byte>, g: Fragment, controls: nat, limits: Settings)
    requires Answerable(g, controls, [f], limits) && (IsControl(f.opcode) || !f.fin)
    requires !IsControl(f.opcode) ==> (f.opcode == Continuation) == g.open && |g.partial| + |f.payload| <= limits.capacity
    ensures StepOver(ServerFrame(f) + rest, g, controls, limits)
         == Continue(if f.opcode == Ping then [f.payload] else [], rest, FragmentAfter(f, g), ControlsAfter(f, controls))
  {
    hide DecodeHeader, ServerHeader, ServerFrame, LookAhead;
    assert f in [f];
    LookAtFrame(f, rest, g, limits.capacity);
    assert ControlCount([f]) == if IsControl(f.opcode) then 1 else 0;
  }

  /** The frame that completes one. */
  lemma LastFrameDelivers(f: Frame, rest: seq<byte>, g: Fragment, controls: nat, limits: Settings, m: Message)
    requires WellFormed(g) && Completes(g, [f], m) && Answerable(g, controls, [f], limits)
    requires |m.payload| <= limits.capacity && (m.opcode == Text ==> Utf8.IsUtf8(m.payload))
    ensures StepOver(ServerFrame(f) + rest, g, controls, limits) == Stop(Delivered(m.opcode, m.payload, rest, NO_FRAGMENT))
  {
    hide DecodeHeader, ServerHeader, ServerFrame, LookAhead;
    assert f in [f];
    FirstFrameFits([f], g, m);
    assert AbsorbAll(AssemblyOf(g), [f]) == AbsorbAll(Absorb(AssemblyOf(g), f), []);
    assert Absorb(AssemblyOf(g), f).done[0] == m;
    assert !IsControl(f.opcode) && f.fin && g.partial + f.payload == m.payload;
    LookAtFrame(f, rest, g, limits.capacity);
  }

  /**
   A message of the stream, cut into frames in any way and with pings and pongs between them, comes
   back whole under its first opcode; each ping is answered with its own payload.
   */
  lemma {:induction false} MessageComesBack(fs: seq<Frame>, rest: seq<byte>, g: Fragment, controls: nat,
                                            limits: Settings, m: Message)
    requires WellFormed(g) && Completes(g, fs, m) && Answerable(g, controls, fs, limits)
    requires |m.payload| <= limits.capacity && (m.opcode == Text ==> Utf8.IsUtf8(m.payload))
    ensures Receive(ServerFrames(fs) + rest, g, controls, limits)
         == Received(Delivered(m.opcode, m.payload, rest, NO_FRAGMENT), Pings(fs))
    decreases fs
  {
    hide Utf8.IsUtf8, ServerFrame, StepOver;
    var f, tail := fs[0], ServerFrames(fs[1..]) + rest;
    assert ServerFrames(fs) + rest == ServerFrame(f) + tail;
    assert f in fs;
    assert ControlCount([f]) == if IsControl(f.opcode) then 1 else 0;
    FirstFrameFits(fs, g, m);
    if |fs| == 1 {
      assert fs == [f] && tail == rest;
      LastFrameDelivers(f, rest, g, controls, limits, m);
    } else {
      var g', controls' := FragmentAfter(f, g), ControlsAfter(f, controls);
      FrameIsTaken(f, tail, g, controls, limits);
      RestCompletes(fs, g, m);
      MessageComesBack(fs[1..], rest, g', controls', limits, m);
      assert forall x :: x in fs[1..] ==> x in fs;
    }
  }

  lemma RestCompletes(fs: seq<Frame>, g: Fragment, m: Message)
    requires WellFormed(g) && Completes(g, fs, m) && |fs| > 1
    ensures (IsControl(fs[0].opcode) || !fs[0].fin) && WellFormed(FragmentAfter(fs[0], g))
    ensures Completes(FragmentAfter(fs[0], g), fs[1..], m)
  {
    FirstFrameFits(fs, g, m);
    var f, init := fs[0], fs[..|fs| - 1];
    assert init[0] == f && init[1..] == fs[1..][..|fs[1..]| - 1];
    assert Absorb(AssemblyOf(g), f) == AssemblyOf(FragmentAfter(f, g));
  }

  // ---- Whatever comes back is a message ----

  /** The frame that the look-ahead found. */
  function FrameAt(s: seq<byte>, h: Header): (f: Frame)
    requires |s| >= h.headerLength + h.payloadLength
    ensures |f.payload| == h.payloadLength
  {
    Frame(h.fin, h.opcode, s[h.headerLength..h.headerLength + h.payloadLength])
  }

  lemma FrameWasSent(s: seq<byte>, h: Header)
    requires DecodeHeader(s) == Known(h) && |s| >= h.headerLength + h.payloadLength
    ensures var f := FrameAt(s, h);
            s == ServerFrame(f) + s[h.headerLength + h.payloadLength..] && Allowed(f.fin, f.opcode, |f.payload|)
  {
    hide DecodeHeader, ServerHeader;
    DecodedHeaderIsEncoded(s);
    assert s[..h.headerLength] == ServerHeader(h.fin, h.opcode, h.payloadLength);
    assert s == s[..h.headerLength] + s[h.headerLength..h.headerLength + h.payloadLength]
                + s[h.headerLength + h.payloadLength..];
  }

  lemma TakenFrame(s: seq<byte>, g: Fragment, controls: nat, limits: Settings) returns (f: Frame)
    requires WellFormed(g) && limits.autoReply && StepOver(s, g, controls, limits).Continue?
    ensures var r := StepOver(s, g, controls, limits);
            && s == ServerFrame(f) + r.rest && Transmittable([f], limits.room) && (IsControl(f.opcode) || !f.fin)
            && (IsControl(f.opcode) || (f.opcode == Continuation) == g.open)
            && r.pongs == (if f.opcode == Ping then [f.payload] else [])
            && r.fragment == FragmentAfter(f, g) && r.controls == ControlsAfter(f, controls)
            && (IsControl(f.opcode) ==> controls + 1 <= MAX_CONTROL_FRAMES)
  {
    hide DecodeHeader, ServerFrame, Allowed;
    var h := LookAhead(s, g.open, |g.partial|, limits.capacity).header;
    f := FrameAt(s, h);
    FrameWasSent(s, h);
  }

  lemma DeliveredFrame(s: seq<byte>, g: Fragment, controls: nat, limits: Settings) returns (f: Frame)
    requires WellFormed(g) && limits.autoReply && StepOver(s, g, controls, limits).Stop?
    requires StepOver(s, g, controls, limits).outcome.Delivered?
    ensures var o := StepOver(s, g, controls, limits).outcome;
            && s == ServerFrame(f) + o.rest && Transmittable([f], limits.room) && !IsControl(f.opcode)
            && Completes(g, [f], Message(o.opcode, o.payload)) && o.fragment == NO_FRAGMENT
            && |o.payload| <= limits.capacity && (o.opcode == Text ==> Utf8.IsUtf8(o.payload))
  {
    hide DecodeHeader, ServerFrame, Allowed;
    var h := LookAhead(s, g.open, |g.partial|, limits.capacity).header;
    f := FrameAt(s, h);
    FrameWasSent(s, h);
    assert AbsorbAll(AssemblyOf(g), [f]) == AbsorbAll(Absorb(AssemblyOf(g), f), []);
    assert AbsorbAll(AssemblyOf(g), [f][..0]) == AssemblyOf(g);
    assert !g.open ==> g.partial + f.payload == f.payload;
    assert [] + [Message(if g.open then g.opcode else f.opcode, g.partial + f.payload)]
        == [Message(if g.open then g.opcode else f.opcode, g.partial + f.payload)];
  }

  lemma CompletesFromRest(g: Fragment, f: Frame, fs: seq<Frame>, m: Message)
    requires WellFormed(g) && (IsControl(f.opcode) ==> f.fin)
    requires IsControl(f.opcode) || (!f.fin && (f.opcode == Continuation) == g.open)
    requires Completes(FragmentAfter(f, g), fs, m)
    ensures Completes(g, [f] + fs, m) && WellFormed(FragmentAfter(f, g))
  {
    var all := [f] + fs;
    assert all[1..] == fs && all[..|all| - 1][0] == f && all[..|all| - 1][1..] == fs[..|fs| - 1];
    assert Absorb(AssemblyOf(g), f) == AssemblyOf(FragmentAfter(f, g));
  }

  /** The frames behind a delivered message. */
  lemma {:induction false} DeliveryIsAMessage(s: seq<byte>, g: Fragment, controls: nat, limits: Settings)
    returns (fs: seq<Frame>)
    requires WellFormed(g) && limits.autoReply && controls <= MAX_CONTROL_FRAMES
    requires Receive(s, g, controls, limits).outcome.Delivered?
    ensures var r := Receive(s, g, controls, limits); var o := r.outcome;
            && s == ServerFrames(fs) + o.rest && r.pongs == Pings(fs) && o.fragment == NO_FRAGMENT
            && Completes(g, fs, Message(o.opcode, o.payload)) && Answerable(g, controls, fs, limits)
            && |o.payload| <= limits.capacity && (o.opcode == Text ==> Utf8.IsUtf8(o.payload))
    decreases |s|
  {
    hide StepOver, ServerFrame, ServerFrames, Pings, ControlCount, Transmittable, Utf8.IsUtf8, Completes, WellFormed,
         Allowed;
    StepConsumes(s, g, controls, limits);
    var step := StepOver(s, g, controls, limits);
    if step.Stop? {
      var f := DeliveredFrame(s, g, controls, limits);
      fs := [f];
      OneFrame(f);
    } else {
      var f := TakenFrame(s, g, controls, limits);
      ControlHasFin(f, limits.room);
      FragmentStaysWellFormed(f, g);
      var tail := DeliveryIsAMessage(step.rest, step.fragment, step.controls, limits);
      var o := Receive(s, g, controls, limits).outcome;
      CompletesFromRest(g, f, tail, Message(o.opcode, o.payload));
      fs := [f] + tail;
      FrameInFront(f, tail, o.rest, limits.room);
    }
  }

  lemma OneFrame(f: Frame)
    ensures ServerFrames([f]) == ServerFrame(f)
    ensures ControlCount([f]) == (if IsControl(f.opcode) then 1 else 0)
    ensures Pings([f]) == (if f.opcode == Ping then [f.payload] else [])
  {
    hide ServerFrame;
    assert [f][1..] == [];
    assert ServerFrames([f]) == ServerFrame(f) + ServerFrames([]);
  }

  lemma FrameInFront(f: Frame, fs: seq<Frame>, rest: seq<byte>, room: nat)
    ensures ServerFrames([f] + fs) + rest == ServerFrame(f) + (ServerFrames(fs) + rest)
    ensures ControlCount([f] + fs) == (if IsControl(f.opcode) then 1 else 0) + ControlCount(fs)
    ensures Pings([f] + fs) == (if f.opcode == Ping then [f.payload] else []) + Pings(fs)
    ensures Transmittable([f], room) && Transmittable(fs, room) ==> Transmittable([f] + fs, room)
  {
    hide ServerFrame, Allowed;
    assert ([f] + fs)[1..] == fs;
    assert f in [f];
  }

  lemma ControlHasFin(f: Frame, room: nat)
    requires Transmittable([f], room)
    ensures IsControl(f.opcode) ==> f.fin
  {
    assert f in [f];
  }

  lemma FragmentStaysWellFormed(f: Frame, g: Fragment)
    requires WellFormed(g) && (IsControl(f.opcode) || (f.opcode == Continuation) == g.open)
    ensures WellFormed(FragmentAfter(f, g))
  {
  }

  /** The stream begins with the frames of this message, and the call has room to answer. */
  ghost predicate MessageAhead(s: seq<byte>, g: Fragment, limits: Settings, m: Message, pings: seq<seq<byte>>,
                               rest: seq<byte>)
  {
    && |m.payload| <= limits.capacity && (m.opcode == Text ==> Utf8.IsUtf8(m.payload))
    && exists fs :: s == ServerFrames(fs) + rest && Completes(g, fs, m) && Answerable(g, 0, fs, limits) && Pings(fs) == pings
  }

  /** A call delivers a message exactly when the stream begins with the frames of that message. */
  lemma DeliversExactlyMessages(s: seq<byte>, g: Fragment, limits: Settings, m: Message, pings: seq<seq<byte>>,
                                rest: seq<byte>)
    requires WellFormed(g) && limits.autoReply
    ensures Receive(s, g, 0, limits) == Received(Delivered(m.opcode, m.payload, rest, NO_FRAGMENT), pings)
       <==> MessageAhead(s, g, limits, m, pings, rest)
  {
    hide Receive, Completes, WellFormed, Answerable, Utf8.IsUtf8, ServerFrames, Pings;
    if Receive(s, g, 0, limits) == Received(Delivered(m.opcode, m.payload, rest, NO_FRAGMENT), pings) {
      var fs := DeliveryIsAMessage(s, g, 0, limits);
    }
    if MessageAhead(s, g, limits, m, pings, rest) {
      var fs :| s == ServerFrames(fs) + rest && Completes(g, fs, m) && Answerable(g, 0, fs, limits) && Pings(fs) == pings;
      MessageComesBack(fs, rest, g, 0, limits, m);
    }
  }

  // ---- The search for a Close frame ----

  predicate NoClose(fs: seq<Frame>)
  {
    forall f :: f in fs ==> f.opcode != Close && Allowed(f.fin, f.opcode, |f.payload|)
  }

  /** Behind any number of other frames comes a Close frame with this payload. */
  ghost predicate CloseAhead(s: seq<byte>, payload: seq<byte>)
  {
    && |payload| <= 125
    && exists fs, rest :: NoClose(fs) && s == ServerFrames(fs) + (ServerFrame(Frame(true, Close, payload)) + rest)
  }

  /** The search finds the first Close frame of the stream, if it is valid, and nothing else. */
  lemma FindsFirstClose(s: seq<byte>, payload: seq<byte>)
    ensures FindClose(s) == Found(payload) <==> IsValidClosePayload(payload) && CloseAhead(s, payload)
  {
    hide FindClose, IsValidClosePayload, ServerFrame, ServerFrames, NoClose;
    if FindClose(s) == Found(payload) {
      var fs, rest := FoundIsAhead(s, payload);
    }
    if IsValidClosePayload(payload) && CloseAhead(s, payload) {
      var fs, rest :| NoClose(fs) && s == ServerFrames(fs) + (ServerFrame(Frame(true, Close, payload)) + rest);
      CloseIsFound(fs, payload, rest);
    }
  }

  lemma SearchStep(f: Frame, rest: seq<byte>)
    requires Allowed(f.fin, f.opcode, |f.payload|)
    ensures FindClose(ServerFrame(f) + rest)
         == if f.opcode != Close then FindClose(rest)
            else if IsValidClosePayload(f.payload) then Found(f.payload) else BadStream
  {
    hide DecodeHeader, ServerHeader, IsValidClosePayload;
    var s, h := ServerFrame(f) + rest, |ServerHeader(f.fin, f.opcode, |f.payload|)|;
    EncodedHeaderDecodes(f.fin, f.opcode, |f.payload|, s);
    assert s[h..h + |f.payload|] == f.payload && s[h + |f.payload|..] == rest;
  }

  lemma {:induction false} CloseIsFound(fs: seq<Frame>, payload: seq<byte>, rest: seq<byte>)
    requires NoClose(fs) && |payload| <= 125 && IsValidClosePayload(payload)
    ensures FindClose(ServerFrames(fs) + (ServerFrame(Frame(true, Close, payload)) + rest)) == Found(payload)
    decreases fs
  {
    hide FindClose, IsValidClosePayload, ServerFrame;
    var tail := ServerFrame(Frame(true, Close, payload)) + rest;
    if fs == [] {
      assert ServerFrames(fs) + tail == tail;
      SearchStep(Frame(true, Close, payload), rest);
    } else {
      assert fs[0] in fs;
      assert ServerFrames(fs) + tail == ServerFrame(fs[0]) + (ServerFrames(fs[1..]) + tail);
      SearchStep(fs[0], ServerFrames(fs[1..]) + tail);
      CloseIsFound(fs[1..], payload, rest);
    }
  }

  lemma {:induction false} FoundIsAhead(s: seq<byte>, payload: seq<byte>) returns (fs: seq<Frame>, rest: seq<byte>)
    requires FindClose(s) == Found(payload)
    ensures IsValidClosePayload(payload) && |payload| <= 125 && NoClose(fs)
    ensures s == ServerFrames(fs) + (ServerFrame(Frame(true, Close, payload)) + rest)
    decreases |s|
  {
    hide DecodeHeader, IsValidClosePayload, ServerFrame;
    TenBytesDecide(s);
    var h := DecodeHeader(s).header;
    var f, behind := FrameAt(s, h), s[h.headerLength + h.payloadLength..];
    FrameWasSent(s, h);
    if f.opcode == Close {
      fs, rest := [], behind;
      assert ServerFrames([]) + (ServerFrame(f) + rest) == ServerFrame(f) + rest;
    } else {
      var more;
      more, rest := FoundIsAhead(behind, payload);
      fs := [f] + more;
      assert fs[1..] == more;
      var tail := ServerFrame(Frame(true, Close, payload)) + rest;
      assert ServerFrames(fs) + tail == ServerFrame(f) + (ServerFrames(more) + tail);
    }
  }
}
