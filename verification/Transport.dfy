/**
 The connection as the client sees it: a byte stream that arrives in pieces of any size, a wire that
 may take only a part of a write, and a timer. The pieces, the failures and the time left are fields with arbitrary
 values, so what is proved holds for every environment.
 */
module Transport {
  import opened Bytes

  function Flatten(pieces: seq<seq<byte>>): seq<byte>
  {
    if pieces == [] then [] else pieces[0] + Flatten(pieces[1..])
  }

  lemma {:induction false} FlattenNext(pieces: seq<seq<byte>>, piece: seq<byte>)
    ensures Flatten(pieces + [piece]) == Flatten(pieces) + piece
  {
    if pieces == [] {
      assert Flatten([piece]) == piece + Flatten([]);
    } else {
      assert (pieces + [piece])[1..] == pieces[1..] + [piece];
      FlattenNext(pieces[1..], piece);
    }
  }

  /** `IsConnectionTerminalStatus` */
  predicate IsTerminal(status: Status)
  {
    status in {ConnectionDisconnected, ConnectionReset, ConnectionAborted, DeviceNotConnected, IoTimeout, Cancelled,
               Timeout}
  }

  /**
   What a write may answer instead of taking everything, and how many bytes it takes at most. A fault that
   breaks the connection stays; the others are used up.
   */
  datatype Fault = Fault(status: Status, taken: nat)

  class Connection {
    var pieces: seq<seq<byte>>     // what the peer sends, as it will arrive
    var endStatus: Status          // what a read answers afterwards; Success means zero bytes
    var wire: seq<byte>            // what was sent
    var faults: seq<Fault>         // how the next writes go; the later ones take everything
    var open: bool
    var closeStatus: Status
    var ticks: nat                 // how many more times the clock is read before the deadline

    constructor (pieces: seq<seq<byte>>, endStatus: Status, faults: seq<Fault>, closeStatus: Status, ticks: nat)
      ensures this.pieces == pieces && this.endStatus == endStatus && this.faults == faults && this.ticks == ticks
      ensures this.closeStatus == closeStatus && open && wire == []
    {
      this.pieces, this.endStatus, this.wire, this.faults := pieces, endStatus, [], faults;
      this.open, this.closeStatus, this.ticks := true, closeStatus, ticks;
    }

    ghost function Unread(): seq<byte>
      reads this
    {
      Flatten(pieces)
    }

    /** Some bytes, at most as many as asked for and at most one piece; or the end. */
    method Receive(data: array<byte>, offset: nat, length: nat) returns (status: Status, received: nat)
      requires 0 < length && offset + length <= data.Length
      modifies this`pieces, data
      ensures status == Success && received > 0 ==>
                && received <= length
                && data[offset..offset + received] + Unread() == old(Unread())
                && |Unread()| + received == |old(Unread())|
      ensures forall j :: 0 <= j < data.Length && !(offset <= j < offset + received) ==> data[j] == old(data[j])
      ensures !(status == Success && received > 0) ==>
                && status == endStatus && received == 0 && Unread() == [] == old(Unread())
      ensures old(|pieces|) > 0 && 0 < old(|pieces[0]|) <= length ==>
                && status == Success && received == old(|pieces[0]|) && pieces == old(pieces[1..])
                && data[offset..offset + received] == old(pieces[0])
    {
      received := 0;
      while pieces != [] && pieces[0] == []
        invariant Unread() == old(Unread())
        invariant old(|pieces|) > 0 && 0 < old(|pieces[0]|) ==> pieces == old(pieces)
        modifies this`pieces
        decreases |pieces|
      {
        pieces := pieces[1..];
      }
      if pieces == [] {
        return endStatus, 0;
      }
      var piece := pieces[0];
      received := if |piece| <= length then |piece| else length;
      forall j | 0 <= j < received {
        data[offset + j] := piece[j];
      }
      assert data[offset..offset + received] == piece[..received];
      assert piece == piece[..received] + piece[received..];
      if received == |piece| {
        pieces := pieces[1..];
      } else {
        var rest := pieces[1..];
        pieces := [piece[received..]] + rest;
        assert pieces[1..] == rest;
      }
      status := Success;
    }

    /** A front part of the data goes out, all of it if `sent` says so, nothing if the failure is not terminal. */
    method Send(data: seq<byte>) returns (status: Status, sent: nat)
      requires open
      modifies this`wire, this`faults
      ensures old(wire) <= wire <= old(wire) + data && sent <= |data|
      ensures status == Success ==> wire == old(wire) + data[..sent]
      ensures status != Success && !IsTerminal(status) ==> wire == old(wire)
      ensures old(faults) == [] ==> status == Success && sent == |data| && faults == []
      ensures faults == [] ==> if status == Success then sent == |data| else wire == old(wire)
    {
      status, sent := Success, |data|;
      if faults != [] {
        status := faults[0].status;
        sent := if status != Success && !IsTerminal(status) then 0
                else if faults[0].taken < |data| then faults[0].taken else |data|;
        if !IsTerminal(status) && (status != Success || sent == |data|) {
          faults := faults[1..];
        }
      }
      wire := wire + data[..sent];
    }

    method Shut() returns (status: Status)
      modifies this`open
      ensures !open && status == closeStatus
    {
      open := false;
      status := closeStatus;
    }

    /** `RemainingTimeoutMilliseconds`: does any time remain? */
    method TimeRemains() returns (remains: bool)
      modifies this`ticks
      ensures remains == (old(ticks) > 0) && ticks == if remains then old(ticks) - 1 else old(ticks)
    {
      remains := ticks > 0;
      if remains {
        ticks := ticks - 1;
      }
    }
  }
}
