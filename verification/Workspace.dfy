/** The growing response buffer of src/KernelHttpLib/engine/Workspace.cpp:22-30, 132-159, 218-268 and 300-362. */
module Workspace {
  import opened Bytes
  import opened Memory
  import T = Transport

  const INITIAL_BYTES: nat := 4096
  const HALF: nat := 0x8000_0000_0000_0000

  /** `InitialResponseBytes`; a limit of zero is no limit. */
  function InitialResponseBytes(maxResponseBytes: nat): (n: nat)
    ensures n > 0 && (maxResponseBytes > 0 ==> n <= maxResponseBytes)
  {
    if maxResponseBytes == 0 || INITIAL_BYTES < maxResponseBytes then INITIAL_BYTES else maxResponseBytes
  }

  predicate WithinLimit(n: nat, maxResponseBytes: nat)
  {
    maxResponseBytes == 0 || n <= maxResponseBytes
  }

  /**
   The doubling loop. It never meets its own "too small" exit, and short of the limit it at least
   doubles a length below half of the address space.
   */
  method GrownLength(length: nat, requiredCapacity: nat, maxResponseBytes: nat) returns (status: Status, newLength: nat)
    requires length < requiredCapacity < SIZE_LIMIT && WithinLimit(requiredCapacity, maxResponseBytes)
    requires maxResponseBytes < SIZE_LIMIT
    ensures status == Success && requiredCapacity <= newLength < SIZE_LIMIT && WithinLimit(newLength, maxResponseBytes)
    ensures length < HALF ==> newLength >= 2 * length || newLength == maxResponseBytes
    ensures length == 0 && requiredCapacity <= 4096 && (maxResponseBytes == 0 || maxResponseBytes >= 4096) ==>
              newLength == 4096
  {
    var hasLimit := maxResponseBytes != 0;
    newLength := length;
    if newLength == 0 {
      newLength := InitialResponseBytes(maxResponseBytes);
    }
    while newLength < requiredCapacity
      invariant 0 < newLength < SIZE_LIMIT && WithinLimit(newLength, maxResponseBytes)
      invariant length == 0 && requiredCapacity <= 4096 && (maxResponseBytes == 0 || maxResponseBytes >= 4096) ==>
                  newLength == 4096
      invariant length < HALF ==> newLength == length || newLength >= 2 * length || newLength == maxResponseBytes
      decreases requiredCapacity - newLength
    {
      if hasLimit && newLength >= maxResponseBytes {
        return BufferTooSmall, newLength;
      }
      if newLength > SIZE_LIMIT - 1 - newLength {
        newLength := requiredCapacity;
      } else {
        newLength := newLength * 2;
        if hasLimit && newLength > maxResponseBytes {
          newLength := maxResponseBytes;
        }
      }
    }
    return Success, newLength;
  }

  class Workspace {
    var response: array<byte>
    var responseLength: nat
    const maxResponseBytes: nat
    const scratch: seq<array<byte>>   // the request buffer and the other scratch buffers
    var grants: nat              // how many more allocations the system will grant
    ghost var copied: nat        // bytes moved by growth since the last reset

    ghost predicate Valid()
      reads this
    {
      && responseLength <= response.Length < SIZE_LIMIT && maxResponseBytes < SIZE_LIMIT
      && WithinLimit(response.Length, maxResponseBytes)
      && (responseLength <= HALF ==>
            && (copied == 0 || copied < 2 * responseLength)
            && (response.Length < HALF && response.Length != maxResponseBytes ==> copied <= response.Length))
    }

    ghost function Contents(): seq<byte>
      reads this, response
      requires responseLength <= response.Length
    {
      response[..responseLength]
    }

    constructor (maxResponseBytes: nat, grants: nat, scratch: seq<array<byte>>)
      requires maxResponseBytes < SIZE_LIMIT
      ensures Valid() && Contents() == [] && this.maxResponseBytes == maxResponseBytes && fresh(response) && copied == 0
      ensures this.scratch == scratch && this.grants == grants
    {
      this.scratch := scratch;
      this.maxResponseBytes := maxResponseBytes;
      this.grants := grants;
      response := new byte[InitialResponseBytes(maxResponseBytes)](_ => 0);
      responseLength, copied := 0, 0;
    }

    /** A buffer that is long enough stays, and so does one whose replacement is refused. */
    method GrowBuffer(newLength: nat) returns (status: Status)
      requires responseLength <= response.Length
      modifies this`response, this`grants, this`copied
      ensures status == if newLength == 0 then InvalidParameter
                        else if newLength <= old(response.Length) || old(grants) > 0 then Success
                        else InsufficientResources
      ensures newLength <= old(response.Length) ==>
                response == old(response) && grants == old(grants) && copied == old(copied)
      ensures newLength > old(response.Length) ==> grants == if old(grants) > 0 then old(grants) - 1 else 0
      ensures newLength > old(response.Length) && status == Success ==>
                && fresh(response) && response.Length == newLength && response[..old(response.Length)] == old(response[..])
                && copied == old(copied) + old(response.Length)
      ensures status != Success ==> response == old(response) && copied == old(copied)
    {
      if newLength == 0 {
        return InvalidParameter;
      }
      if newLength <= response.Length {
        return Success;
      }
      if grants == 0 {
        return InsufficientResources;
      }
      grants := grants - 1;
      var replacement := new byte[newLength](_ => 0);
      CopyMemory(replacement, 0, response[..]);
      copied := copied + response.Length;
      response := replacement;
      return Success;
    }

    /** Capacity grows to what is needed or not at all; the contents stay. */
    method EnsureResponseCapacity(requiredCapacity: nat) returns (status: Status)
      requires Valid() && requiredCapacity < SIZE_LIMIT
      modifies this`response, this`grants, this`copied
      ensures responseLength <= response.Length && Contents() == old(Contents())
      ensures response == old(response) || fresh(response)
      ensures grants == if response == old(response) then old(grants) else old(grants) - 1
      ensures response.Length >= old(response.Length)
      ensures response.Length == old(response.Length) ==> response == old(response)
      ensures status == if requiredCapacity == 0 then InvalidParameter
                        else if !WithinLimit(requiredCapacity, maxResponseBytes) then BufferTooSmall
                        else if requiredCapacity <= old(response.Length) || old(grants) > 0 then Success
                        else InsufficientResources
      ensures status == Success ==>
                && requiredCapacity <= response.Length < SIZE_LIMIT && WithinLimit(response.Length, maxResponseBytes)
      ensures requiredCapacity <= old(response.Length) || status != Success ==>
                response == old(response) && copied == old(copied)
      ensures status == Success && requiredCapacity > old(response.Length) ==>
                && copied == old(copied) + old(response.Length)
                && (old(response.Length) < HALF ==>
                      response.Length >= 2 * old(response.Length) || response.Length == maxResponseBytes)
    {
      if requiredCapacity == 0 {
        return InvalidParameter;
      }
      var hasLimit := maxResponseBytes != 0;
      if hasLimit && requiredCapacity > maxResponseBytes {
        return BufferTooSmall;
      }
      if requiredCapacity <= response.Length {
        return Success;
      }
      var newLength;
      status, newLength := GrownLength(response.Length, requiredCapacity, maxResponseBytes);
      ghost var contents := Contents();
      status := GrowBuffer(newLength);
      assert status == Success ==> response[..responseLength] == response[..old(response.Length)][..responseLength];
    }

    /** The data is appended, or nothing changes. */
    method AppendResponse(data: seq<byte>) returns (status: Status)
      requires Valid() && |data| < SIZE_LIMIT
      modifies this`response, this`responseLength, this`grants, this`copied, response
      ensures Valid() && (response == old(response) || fresh(response))
      ensures responseLength <= response.Length
      ensures status == Success ==> Contents() == old(Contents()) + data
      ensures status != Success ==>
                Contents() == old(Contents()) && response == old(response) && response[..] == old(response[..])
      ensures status == if data == [] then Success
                        else if old(responseLength) + |data| >= SIZE_LIMIT
                             || !WithinLimit(old(responseLength) + |data|, maxResponseBytes) then BufferTooSmall
                        else if old(responseLength) + |data| <= old(response.Length) || old(grants) > 0 then Success
                        else InsufficientResources
      ensures grants == if response == old(response) then old(grants) else old(grants) - 1
      ensures response.Length >= old(response.Length)
      ensures response.Length == old(response.Length) ==> response == old(response)
    {
      if data == [] {
        assert Contents() + data == Contents();
        return Success;
      }
      if responseLength > SIZE_LIMIT - 1 - |data| {
        return BufferTooSmall;
      }
      var requiredCapacity := responseLength + |data|;
      status := EnsureResponseCapacity(requiredCapacity);
      if status != Success {
        return;
      }
      ghost var before := Contents();
      CopyMemory(response, responseLength, data);
      responseLength := requiredCapacity;
      assert Contents() == before + data;
    }

    /** Every buffer is cleared and the response forgotten; the capacities stay. */
    method Reset()
      requires Valid()
      modifies this`responseLength, this`copied, response, scratch
      ensures Valid() && Contents() == [] && copied == 0
      ensures response[..] == Zeros(response.Length)
      ensures forall i :: 0 <= i < |scratch| ==> Cleared(scratch[i])
    {
      for i := 0 to |scratch|
        modifies scratch
        invariant forall j :: 0 <= j < i ==> Cleared(scratch[j])
      {
        ZeroMemory(scratch[i]);
      }
      ZeroMemory(response);
      responseLength := 0;
      copied := 0;
    }
  }

  ghost predicate Cleared(buffer: array<byte>)
    reads buffer
  {
    buffer[..] == Zeros(buffer.Length)
  }

  // ---- Runs of appends ----

  /** The chunks that were appended, in order. */
  function Accepted(chunks: seq<seq<byte>>, statuses: seq<Status>): seq<seq<byte>>
    requires |chunks| == |statuses|
  {
    if chunks == [] then []
    else
      var n := |chunks| - 1;
      Accepted(chunks[..n], statuses[..n]) + if statuses[n] == Success then [chunks[n]] else []
  }

  /** How long the response is before chunk i. */
  function LengthBefore(chunks: seq<seq<byte>>, statuses: seq<Status>, i: nat): nat
    requires i <= |chunks| && i <= |statuses|
  {
    |T.Flatten(Accepted(chunks[..i], statuses[..i]))|
  }

  /** The status of appending a chunk at a length, when the capacity ends at `capacity`. */
  function AppendStatus(length: nat, chunk: seq<byte>, maxResponseBytes: nat, capacity: nat): Status
  {
    if chunk == [] then Success
    else if length + |chunk| >= SIZE_LIMIT || !WithinLimit(length + |chunk|, maxResponseBytes) then BufferTooSmall
    else if length + |chunk| <= capacity then Success
    else InsufficientResources
  }

  lemma AcceptedNext(chunks: seq<seq<byte>>, statuses: seq<Status>, i: nat, status: Status)
    requires i < |chunks| && |statuses| == i
    ensures Accepted(chunks[..i + 1], statuses + [status])
         == Accepted(chunks[..i], statuses) + if status == Success then [chunks[i]] else []
    ensures forall j :: 0 <= j <= i ==> LengthBefore(chunks, statuses + [status], j) == LengthBefore(chunks, statuses, j)
  {
    assert chunks[..i + 1][..i] == chunks[..i] && (statuses + [status])[..i] == statuses;
    forall j | 0 <= j <= i ensures (statuses + [status])[..j] == statuses[..j] {
    }
  }

  /** Earlier statuses stand when the capacity grows past what was refused memory, or not at all. */
  ghost predicate Answered(chunks: seq<seq<byte>>, statuses: seq<Status>, maxResponseBytes: nat, capacity: nat, grants: nat)
    requires |statuses| <= |chunks|
  {
    forall j :: 0 <= j < |statuses| ==>
      && statuses[j] == AppendStatus(LengthBefore(chunks, statuses, j), chunks[j], maxResponseBytes, capacity)
      && (statuses[j] == InsufficientResources ==> grants == 0)
  }

  lemma AnswerStands(length: nat, chunk: seq<byte>, maxResponseBytes: nat, capacity: nat, capacity': nat, grants: nat)
    requires capacity <= capacity' && (grants == 0 ==> capacity' == capacity)
    requires AppendStatus(length, chunk, maxResponseBytes, capacity) == InsufficientResources ==> grants == 0
    ensures AppendStatus(length, chunk, maxResponseBytes, capacity') == AppendStatus(length, chunk, maxResponseBytes, capacity)
  {
  }

  lemma AnsweredNext(chunks: seq<seq<byte>>, statuses: seq<Status>, maxResponseBytes: nat, capacity: nat, grants: nat,
                     status: Status, capacity': nat, grants': nat)
    requires |statuses| < |chunks| && Answered(chunks, statuses, maxResponseBytes, capacity, grants)
    requires capacity <= capacity' && grants' <= grants && (grants == 0 ==> capacity' == capacity)
    requires status == AppendStatus(LengthBefore(chunks, statuses, |statuses|), chunks[|statuses|], maxResponseBytes, capacity')
    requires status == InsufficientResources ==> grants' == 0
    ensures Answered(chunks, statuses + [status], maxResponseBytes, capacity', grants')
  {
    hide LengthBefore, AppendStatus;
    AcceptedNext(chunks, statuses, |statuses|, status);
    var next := statuses + [status];
    forall j | 0 <= j < |next|
      ensures next[j] == AppendStatus(LengthBefore(chunks, next, j), chunks[j], maxResponseBytes, capacity')
      ensures next[j] == InsufficientResources ==> grants' == 0
    {
      if j < |statuses| {
        assert next[j] == statuses[j];
        AnswerStands(LengthBefore(chunks, statuses, j), chunks[j], maxResponseBytes, capacity, capacity', grants);
      }
    }
  }

  /**
   Any appends, refused ones among them: the contents are the concatenation of the chunks that were
   accepted, each answer is the one for the length reached so far, memory is refused only when none is
   left, and growth has moved less than twice what the response holds.
   */
  method AppendAll(w: Workspace, chunks: seq<seq<byte>>) returns (statuses: seq<Status>)
    requires w.Valid() && w.responseLength == 0 && w.copied == 0
    requires forall i :: 0 <= i < |chunks| ==> |chunks[i]| < SIZE_LIMIT
    modifies w, w.response
    ensures w.Valid() && |statuses| == |chunks| && w.Contents() == T.Flatten(Accepted(chunks, statuses))
    ensures Answered(chunks, statuses, w.maxResponseBytes, w.response.Length, w.grants)
    ensures w.response.Length >= old(w.response.Length) && WithinLimit(w.response.Length, w.maxResponseBytes)
    ensures w.response.Length == old(w.response.Length) ==> w.grants == old(w.grants)
    ensures old(w.grants) <= w.grants + |chunks|
    ensures w.responseLength <= HALF ==> w.copied == 0 || w.copied < 2 * w.responseLength
  {
    hide Accepted, Answered, T.Flatten, LengthBefore, Workspace.Valid;
    NothingYet(w, chunks);
    statuses := [];
    for i := 0 to |chunks|
      invariant w.responseLength <= w.response.Length
      invariant w.Valid() && |statuses| == i && w.Contents() == T.Flatten(Accepted(chunks[..i], statuses))
      invariant w.response == old(w.response) || fresh(w.response)
      invariant Answered(chunks, statuses, w.maxResponseBytes, w.response.Length, w.grants)
      invariant w.response.Length >= old(w.response.Length)
      invariant if w.response.Length == old(w.response.Length) then w.grants == old(w.grants)
                else w.grants <= old(w.grants)
      invariant old(w.grants) <= w.grants + i
    {
      ghost var capacity, grants := w.response.Length, w.grants;
      LengthNow(chunks, statuses);
      var status := w.AppendResponse(chunks[i]);
      AcceptedNext(chunks, statuses, i, status);
      if status == Success {
        T.FlattenNext(Accepted(chunks[..i], statuses), chunks[i]);
      } else {
        NothingAccepted(Accepted(chunks[..i], statuses));
      }
      AnsweredNext(chunks, statuses, w.maxResponseBytes, capacity, grants, status, w.response.Length, w.grants);
      statuses := statuses + [status];
    }
    assert chunks[..|chunks|] == chunks;
    CopiesBounded(w);
  }

  lemma NothingYet(w: Workspace, chunks: seq<seq<byte>>)
    requires w.Valid() && w.responseLength == 0
    ensures w.Contents() == [] == T.Flatten(Accepted(chunks[..0], []))
    ensures Answered(chunks, [], w.maxResponseBytes, w.response.Length, w.grants)
  {
  }

  lemma LengthNow(chunks: seq<seq<byte>>, statuses: seq<Status>)
    requires |statuses| <= |chunks|
    ensures LengthBefore(chunks, statuses, |statuses|) == |T.Flatten(Accepted(chunks[..|statuses|], statuses))|
  {
    assert statuses[..|statuses|] == statuses;
  }

  lemma CopiesBounded(w: Workspace)
    requires w.Valid()
    ensures w.responseLength <= w.response.Length && WithinLimit(w.response.Length, w.maxResponseBytes)
    ensures w.responseLength <= HALF ==> w.copied == 0 || w.copied < 2 * w.responseLength
  {
  }

  lemma NothingAccepted(pieces: seq<seq<byte>>)
    ensures pieces + [] == pieces
  {
  }

  /** Without a limit and with memory to spare, everything is accepted. */
  lemma {:induction false} AllAccepted(chunks: seq<seq<byte>>, statuses: seq<Status>, capacity: nat, grants: nat)
    requires |statuses| == |chunks| && Answered(chunks, statuses, 0, capacity, grants)
    requires grants > 0 && |T.Flatten(chunks)| < SIZE_LIMIT
    ensures Accepted(chunks, statuses) == chunks
  {
    if chunks != [] {
      hide Answered, T.Flatten, Accepted;
      var n := |chunks| - 1;
      T.FlattenNext(chunks[..n], chunks[n]);
      assert chunks[..n] + [chunks[n]] == chunks;
      AnsweredBefore(chunks, statuses, n, 0, capacity, grants);
      AllAccepted(chunks[..n], statuses[..n], capacity, grants);
      LastAccepted(chunks, statuses, n, capacity, grants);
    }
  }

  lemma LastAccepted(chunks: seq<seq<byte>>, statuses: seq<Status>, n: nat, capacity: nat, grants: nat)
    requires |statuses| == |chunks| == n + 1 && Answered(chunks, statuses, 0, capacity, grants)
    requires grants > 0 && |T.Flatten(chunks[..n])| + |chunks[n]| < SIZE_LIMIT
    requires Accepted(chunks[..n], statuses[..n]) == chunks[..n]
    ensures Accepted(chunks, statuses) == chunks[..n] + [chunks[n]]
  {
    hide T.Flatten;
    assert statuses[n] == AppendStatus(LengthBefore(chunks, statuses, n), chunks[n], 0, capacity);
  }

  lemma AnsweredBefore(chunks: seq<seq<byte>>, statuses: seq<Status>, n: nat, maxResponseBytes: nat, capacity: nat, grants: nat)
    requires n <= |statuses| <= |chunks| && Answered(chunks, statuses, maxResponseBytes, capacity, grants)
    ensures Answered(chunks[..n], statuses[..n], maxResponseBytes, capacity, grants)
  {
    forall j | 0 <= j < n
      ensures LengthBefore(chunks[..n], statuses[..n], j) == LengthBefore(chunks, statuses, j)
    {
      assert chunks[..n][..j] == chunks[..j] && statuses[..n][..j] == statuses[..j];
    }
  }
}
