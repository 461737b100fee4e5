/**
 The upgrade to HTTP/2 over clear text and the transport that replays what was read too far:
 src/KernelHttpLib/client/Http2Client.cpp:159-234, 252-261 and 367-418.
 */
module Upgrade {
  import opened Bytes
  import opened Memory
  import opened Transport

  const HEADER_END: seq<byte> := [13, 10, 13, 10]
  const RESPONSE_CAPACITY: nat := 2048

  // ---- Where the header ends ----

  predicate EndsHeader(s: seq<byte>, e: nat)
  {
    4 <= e <= |s| && s[e - 4..e] == HEADER_END
  }

  /** e lies behind the first CRLFCRLF. */
  ghost predicate FirstEnd(s: seq<byte>, e: nat)
  {
    EndsHeader(s, e) && forall i :: 0 <= i < e ==> !EndsHeader(s, i)
  }

  lemma PrefixEnds(s: seq<byte>, t: seq<byte>, e: nat)
    requires e <= |s|
    ensures EndsHeader(s + t, e) == EndsHeader(s, e)
  {
    assert 4 <= e ==> (s + t)[e - 4..e] == s[e - 4..e];
  }

  lemma FirstEndIsStable(s: seq<byte>, t: seq<byte>, e: nat)
    requires FirstEnd(s, e)
    ensures FirstEnd(s + t, e)
  {
    forall i | 0 <= i <= e ensures EndsHeader(s + t, i) == EndsHeader(s, i) {
      PrefixEnds(s, t, i);
    }
  }

  method FindHeaderEnd(data: seq<byte>) returns (found: bool, end: nat)
    ensures if found then FirstEnd(data, end) else forall e :: !EndsHeader(data, e)
    ensures found ==> 4 <= end <= |data| && data[end - 4..end] == [13, 10, 13, 10]
    ensures forall i :: 0 <= i < (if found then end - 4 else |data| - 3) ==>
              !(data[i] == 13 && data[i + 1] == 10 && data[i + 2] == 13 && data[i + 3] == 10)
  {
    end := 0;
    if |data| < 4 {
      return false, end;
    }
    var i := 0;
    while i + 3 < |data|
      invariant 0 <= i <= |data| - 3
      invariant forall e :: 0 <= e < i + 4 ==> !EndsHeader(data, e)
      invariant forall j :: 0 <= j < i ==> !(data[j] == 13 && data[j + 1] == 10 && data[j + 2] == 13 && data[j + 3] == 10)
    {
      if data[i] == 13 && data[i + 1] == 10 && data[i + 2] == 13 && data[i + 3] == 10 {
        assert data[i..i + 4] == HEADER_END;
        return true, i + 4;
      }
      assert data[i..i + 4][0] == data[i] && data[i..i + 4][1] == data[i + 1];
      assert data[i..i + 4][2] == data[i + 2] && data[i..i + 4][3] == data[i + 3];
      i := i + 1;
    }
    return false, end;
  }

  // ---- The upgrade ----

  /** The response so far, in front of the unread bytes. */
  ghost predicate Holds(response: array<byte>, responseLength: nat, t: Connection, s: seq<byte>)
    reads response, t
  {
    responseLength <= response.Length && response[..responseLength] + t.Unread() == s
  }

  /** The response header fits, is accepted, and leaves room for whatever may be read behind it. */
  ghost predicate Upgradable(s: seq<byte>, validate: seq<byte> -> Status, replayCapacity: nat)
  {
    exists e: nat :: FirstEnd(s, e) && e <= RESPONSE_CAPACITY && validate(s[..e]) == Success
                && RESPONSE_CAPACITY - e <= replayCapacity
  }

  /** The condition in numbers, for a header that ends at e. */
  lemma UpgradableInNumbers(s: seq<byte>, validate: seq<byte> -> Status, replayCapacity: nat, e: nat)
    requires 4 <= e <= |s| && s[e - 4..e] == [13, 10, 13, 10]
    requires forall i :: 0 <= i < e - 4 ==> !(s[i] == 13 && s[i + 1] == 10 && s[i + 2] == 13 && s[i + 3] == 10)
    ensures Upgradable(s, validate, replayCapacity)
       <==> e <= 2048 && validate(s[..e]) == Success && 2048 - e <= replayCapacity
  {
    forall i | 0 <= i < e ensures !EndsHeader(s, i) {
      assert 4 <= i ==> s[i - 4..i][0] == s[i - 4] && s[i - 4..i][1] == s[i - 3];
      assert 4 <= i ==> s[i - 4..i][2] == s[i - 2] && s[i - 4..i][3] == s[i - 1];
    }
    assert FirstEnd(s, e);
  }

  /** As long as no header end is in the buffer there is more to read, and room for it. */
  lemma HeaderIsAhead(data: seq<byte>, unread: seq<byte>, s: seq<byte>, validate: seq<byte> -> Status, replayCapacity: nat)
    requires data + unread == s && |data| <= RESPONSE_CAPACITY && Upgradable(s, validate, replayCapacity)
    requires forall e :: !EndsHeader(data, e)
    ensures unread != [] && |data| < RESPONSE_CAPACITY
  {
    var e: nat :| FirstEnd(s, e) && e <= RESPONSE_CAPACITY && validate(s[..e]) == Success
             && RESPONSE_CAPACITY - e <= replayCapacity;
    if e <= |data| {
      PrefixEnds(data, unread, e);
    }
  }

  method ReadResponse(t: Connection, response: array<byte>, responseLength: nat, ghost s: seq<byte>)
    returns (status: Status, newLength: nat)
    requires Holds(response, responseLength, t, s) && responseLength < response.Length
    modifies response, t`pieces
    ensures status == Success ==> Holds(response, newLength, t, s) && |t.Unread()| < |old(t.Unread())|
    ensures old(t.Unread()) != [] ==> status == Success
  {
    ghost var data := response[..responseLength];
    var received;
    status, received := t.Receive(response, responseLength, response.Length - responseLength);
    newLength := responseLength + received;
    if status != Success {
      return;
    }
    if received == 0 {
      return ConnectionDisconnected, newLength;
    }
    assert response[..responseLength] == data;
    assert response[..newLength] == response[..responseLength] + response[responseLength..newLength];
    assert response[..newLength] + t.Unread() == data + (response[responseLength..newLength] + t.Unread());
  }

  /**
   `PerformH2cUpgrade`: what was read behind the response header goes to the replay buffer. The request
   builder and the check of the response are parameters.
   */
  method PerformH2cUpgrade(t: Connection, hasBody: bool, request: seq<byte>, validate: seq<byte> -> Status,
                           replayBytes: array<byte>)
    returns (status: Status, replayLength: nat, ghost headerEnd: nat)
    requires t.open
    modifies t, replayBytes
    ensures replayLength <= replayBytes.Length
    ensures status == Success ==>
              && 4 <= headerEnd <= 2048 && headerEnd <= |old(t.Unread())|
              && old(t.Unread())[headerEnd - 4..headerEnd] == [13, 10, 13, 10]
              && !hasBody && t.wire == old(t.wire) + request
              && FirstEnd(old(t.Unread()), headerEnd) && validate(old(t.Unread())[..headerEnd]) == Success
              && replayBytes[..replayLength] + t.Unread() == old(t.Unread())[headerEnd..]
    ensures status != Success ==> replayLength == 0
    ensures !hasBody && old(t.faults) == [] && Upgradable(old(t.Unread()), validate, replayBytes.Length) ==>
              status == Success
  {
    replayLength, headerEnd := 0, 0;
    if hasBody {
      return InvalidParameter, 0, 0;
    }
    var sent;
    status, sent := t.Send(request);
    if status != Success {
      return;
    }
    if sent != |request| {
      return ConnectionDisconnected, 0, 0;
    }
    var response := new byte[RESPONSE_CAPACITY](_ => 0);
    var responseLength := 0;
    ghost var s := t.Unread();
    while true
      invariant 0 <= responseLength <= response.Length
      invariant Holds(response, responseLength, t, s) && t.wire == old(t.wire) + request
      decreases |t.Unread()|
    {
      var found, end := FindHeaderEnd(response[..responseLength]);
      if found {
        headerEnd := end;
        status, replayLength := KeepExtra(response, responseLength, end, validate, replayBytes, t, s);
        return;
      }
      if Upgradable(s, validate, replayBytes.Length) {
        HeaderIsAhead(response[..responseLength], t.Unread(), s, validate, replayBytes.Length);
      }
      if responseLength >= response.Length {
        return BufferTooSmall, 0, 0;
      }
      status, responseLength := ReadResponse(t, response, responseLength, s);
      if status != Success {
        return;
      }
    }
  }

  method KeepExtra(response: array<byte>, responseLength: nat, headerEnd: nat, validate: seq<byte> -> Status,
                   replayBytes: array<byte>, t: Connection, ghost s: seq<byte>)
    returns (status: Status, replayLength: nat)
    requires Holds(response, responseLength, t, s) && FirstEnd(response[..responseLength], headerEnd)
    requires response != replayBytes && response.Length == RESPONSE_CAPACITY
    modifies replayBytes
    ensures replayLength <= replayBytes.Length && FirstEnd(s, headerEnd)
    ensures status == Success ==>
              && validate(s[..headerEnd]) == Success
              && replayBytes[..replayLength] + t.Unread() == s[headerEnd..]
    ensures status != Success ==> replayLength == 0
    ensures Upgradable(s, validate, replayBytes.Length) ==> status == Success
  {
    ghost var data := response[..responseLength];
    FirstEndIsStable(data, t.Unread(), headerEnd);
    assert s[..headerEnd] == response[..headerEnd] && s[headerEnd..] == response[headerEnd..responseLength] + t.Unread();
    status := validate(response[..headerEnd]);
    if status != Success {
      return status, 0;
    }
    var extraLength := responseLength - headerEnd;
    if extraLength != 0 {
      if extraLength > replayBytes.Length {
        return BufferTooSmall, 0;
      }
      CopyMemory(replayBytes, 0, response[headerEnd..responseLength]);
    }
    return Success, extraLength;
  }

  // ---- The replaying transport ----

  class ReplayTransport {
    const inner: Connection
    const replayBytes: seq<byte>
    var replayOffset: nat

    constructor (inner: Connection, replayBytes: seq<byte>)
      ensures this.inner == inner && this.replayBytes == replayBytes && replayOffset == 0
    {
      this.inner, this.replayBytes, this.replayOffset := inner, replayBytes, 0;
    }

    ghost predicate Valid()
      reads this
    {
      replayOffset <= |replayBytes|
    }

    /** What a reader of this transport has still to come. */
    ghost function Remaining(): seq<byte>
      reads this, inner
      requires Valid()
    {
      replayBytes[replayOffset..] + inner.Unread()
    }

    /** `ReceiveReplay` */
    method ReceiveReplay(data: array<byte>, length: nat) returns (status: Status, received: nat)
      requires Valid() && length <= data.Length
      modifies this`replayOffset, data
      ensures Valid() && received <= length
      ensures status == if length == 0 then InvalidParameter
                        else if old(replayOffset) == |replayBytes| then MoreProcessingRequired else Success
      ensures status == Success ==>
                received > 0 && data[..received] + replayBytes[replayOffset..] == replayBytes[old(replayOffset)..]
      ensures status != Success ==>
                received == 0 && replayOffset == old(replayOffset) && data[..] == old(data[..])
    {
      if length == 0 {
        return InvalidParameter, 0;
      }
      if replayOffset >= |replayBytes| {
        return MoreProcessingRequired, 0;
      }
      var available := |replayBytes| - replayOffset;
      var toCopy := if length < available then length else available;
      CopyMemory(data, 0, replayBytes[replayOffset..replayOffset + toCopy]);
      replayOffset := replayOffset + toCopy;
      return Success, toCopy;
    }

    /** Replayed bytes come first; nothing is lost and nothing comes twice. */
    method Receive(data: array<byte>, length: nat) returns (status: Status, received: nat)
      requires Valid() && length <= data.Length
      modifies this`replayOffset, data, inner`pieces
      ensures Valid() && received <= length
      ensures data[..received] + Remaining() == old(Remaining())
      ensures length > 0 && old(Remaining()) != [] ==> status == Success && received > 0
      ensures length > 0 && old(Remaining()) == [] ==> status == inner.endStatus && received == 0
      ensures length == 0 ==> status == InvalidParameter && received == 0
    {
      status, received := ReceiveReplay(data, length);
      if status != MoreProcessingRequired {
        assert status == Success ==>
            data[..received] + (replayBytes[replayOffset..] + inner.Unread())
            == data[..received] + replayBytes[replayOffset..] + inner.Unread();
        return;
      }
      status, received := inner.Receive(data, 0, length);
      assert data[0..0 + received] == data[..received];
    }
  }

  /** Reads of any sizes deliver the stream in order, and each one delivers something while there is something. */
  method ReadInPieces(r: ReplayTransport, sizes: seq<nat>) returns (delivered: seq<byte>)
    requires r.Valid()
    modifies r, r.inner
    ensures r.Valid() && delivered + r.Remaining() == old(r.Remaining())
    ensures 0 !in sizes && |sizes| >= |old(r.Remaining())| ==> delivered == old(r.Remaining())
  {
    delivered := [];
    ghost var all := r.Remaining();
    for i := 0 to |sizes|
      invariant r.Valid() && delivered + r.Remaining() == all
      invariant 0 !in sizes ==> |delivered| >= i || r.Remaining() == []
    {
      var data := new byte[sizes[i]](_ => 0);
      var status, received := r.Receive(data, sizes[i]);
      assert sizes[i] in sizes && |delivered| + |r.Remaining()| + received == |all|;
      assert delivered + (data[..received] + r.Remaining()) == delivered + data[..received] + r.Remaining();
      delivered := delivered + data[..received];
    }
    assert |delivered| + |r.Remaining()| == |all|;
    assert delivered + [] == delivered;
  }

  /** After an upgrade, whatever the reads, the bytes delivered are the stream behind the response header. */
  method UpgradeAndRead(t: Connection, request: seq<byte>, validate: seq<byte> -> Status, replayCapacity: nat,
                        sizes: seq<nat>)
    returns (status: Status, delivered: seq<byte>, ghost headerEnd: nat)
    requires t.open
    modifies t
    ensures status == Success ==> FirstEnd(old(t.Unread()), headerEnd) && delivered <= old(t.Unread())[headerEnd..]
    ensures old(t.faults) == [] && Upgradable(old(t.Unread()), validate, replayCapacity) ==> status == Success
    ensures status == Success && 0 !in sizes && |sizes| >= |old(t.Unread())| ==>
              delivered == old(t.Unread())[headerEnd..]
  {
    delivered := [];
    var replayBytes := new byte[replayCapacity](_ => 0);
    var replayLength;
    status, replayLength, headerEnd := PerformH2cUpgrade(t, false, request, validate, replayBytes);
    if status == Success {
      var r := new ReplayTransport(t, replayBytes[..replayLength]);
      assert r.Remaining() == replayBytes[..replayLength] + t.Unread();
      delivered := ReadInPieces(r, sizes);
    }
  }
}
