/** The log of semaphore and transport calls that WriteAndReadAsync makes,
    and what it means for that log to be serialized: the semaphore is
    never held twice, the transport is only used while it is held, every
    write directly follows an acquisition and every read directly follows
    a write. */
module CallLog {
  import opened DeviceTypes

  /** How an event changes the number of holders of the semaphore. */
  function Delta(e: CallEvent): int
  {
    match e
    case LockAcquired => 1
    case LockReleased => -1
    case _ => 0
  }

  /** Acquisitions minus releases over a log. */
  function Depth(log: seq<CallEvent>): int
    decreases |log|
  {
    if log == [] then 0 else Depth(log[..|log| - 1]) + Delta(log[|log| - 1])
  }

  /** The semaphore is never held by more than one caller, nor released
      more often than acquired. */
  ghost predicate Exclusive(log: seq<CallEvent>)
  {
    forall k :: 0 <= k <= |log| ==> 0 <= Depth(log[..k]) <= 1
  }

  /** The transport is only used while the semaphore is held. */
  ghost predicate TransportUnderLock(log: seq<CallEvent>)
  {
    forall i :: 0 <= i < |log| && log[i].IsTransport() ==> Depth(log[..i]) == 1
  }

  /** Every write directly follows an acquisition of the semaphore. */
  ghost predicate WriteAfterAcquire(log: seq<CallEvent>)
  {
    forall i :: 0 <= i < |log| && log[i].WriteCalled? ==> 0 < i && log[i - 1] == LockAcquired
  }

  /** Every read directly follows a write. */
  ghost predicate ReadAfterWrite(log: seq<CallEvent>)
  {
    forall i :: 0 <= i < |log| && log[i] == ReadCalled ==> 0 < i && log[i - 1].WriteCalled?
  }

  /** A log of calls made by transactions that never overlapped: while
      the semaphore is held the transport sees one write, then at most one
      read, and the next write needs a new acquisition. */
  ghost predicate Serialized(log: seq<CallEvent>)
  {
    Exclusive(log) && TransportUnderLock(log) && WriteAfterAcquire(log) && ReadAfterWrite(log)
  }

  /** The calls one WriteAndReadAsync makes: acquire, write, the read only
      when the write succeeded, and release on every path. */
  function TransactionTrace(writeBuffer: seq<byte>, t: Transport): (r: seq<CallEvent>)
    ensures |r| == (if t.write.Pass? then 4 else 3)
    ensures r[0] == LockAcquired && r[1] == WriteCalled(writeBuffer) && r[|r| - 1] == LockReleased
    ensures ReadCalled in r <==> t.write.Pass?
    ensures Depth(r) == 0 && Serialized(r)
  {
    var r := [LockAcquired, WriteCalled(writeBuffer)] + (if t.write.Pass? then [ReadCalled] else []) + [LockReleased];
    TransactionSerialized(writeBuffer, t.write.Pass?);
    r
  }

  lemma TransactionSerialized(writeBuffer: seq<byte>, readIssued: bool)
    ensures var r := [LockAcquired, WriteCalled(writeBuffer)] + (if readIssued then [ReadCalled] else []) + [LockReleased];
            Depth(r) == 0 && Serialized(r)
  {
    var r := [LockAcquired, WriteCalled(writeBuffer)] + (if readIssued then [ReadCalled] else []) + [LockReleased];
    var n := |r|;
    assert r[..0] == [];
    DepthSnoc([], LockAcquired);
    assert r[..1] == [] + [LockAcquired];
    DepthSnoc(r[..1], WriteCalled(writeBuffer));
    assert r[..2] == r[..1] + [WriteCalled(writeBuffer)];
    if readIssued {
      DepthSnoc(r[..2], ReadCalled);
      assert r[..3] == r[..2] + [ReadCalled];
    }
    DepthSnoc(r[..n - 1], LockReleased);
    assert r == r[..n - 1] + [LockReleased];
    assert Depth(r[..n - 1]) == 1;
    forall k | 0 <= k <= n ensures 0 <= Depth(r[..k]) <= 1 {
      if k == n { assert r[..k] == r; }
    }
  }

  /** Appending one event adds its effect on the semaphore. */
  lemma DepthSnoc(s: seq<CallEvent>, e: CallEvent)
    ensures Depth(s + [e]) == Depth(s) + Delta(e)
  {
    assert (s + [e])[..|s|] == s;
  }

  /** The depth of a concatenation is the sum of the depths. */
  lemma {:induction false} DepthAppend(a: seq<CallEvent>, b: seq<CallEvent>)
    ensures Depth(a + b) == Depth(a) + Depth(b)
    decreases |b|
  {
    if b == [] {
      assert a + b == a;
    } else {
      var b' := b[..|b| - 1];
      assert (a + b)[..|a + b| - 1] == a + b';
      DepthAppend(a, b');
    }
  }

  /** Two serialized logs that each leave the semaphore free concatenate
      to one. */
  lemma SerializedAppend(a: seq<CallEvent>, b: seq<CallEvent>)
    requires Serialized(a) && Depth(a) == 0
    requires Serialized(b) && Depth(b) == 0
    ensures Serialized(a + b) && Depth(a + b) == 0
  {
    DepthAppend(a, b);
    ExclusiveAppend(a, b);
    TransportUnderLockAppend(a, b);
    WriteAfterAcquireAppend(a, b);
    ReadAfterWriteAppend(a, b);
  }

  lemma ExclusiveAppend(a: seq<CallEvent>, b: seq<CallEvent>)
    requires Exclusive(a) && Depth(a) == 0 && Exclusive(b)
    ensures Exclusive(a + b)
  {
    forall k | 0 <= k <= |a + b|
      ensures 0 <= Depth((a + b)[..k]) <= 1
    {
      PrefixDepth(a, b, k);
    }
  }

  lemma TransportUnderLockAppend(a: seq<CallEvent>, b: seq<CallEvent>)
    requires TransportUnderLock(a) && Depth(a) == 0 && TransportUnderLock(b)
    ensures TransportUnderLock(a + b)
  {
    forall i | 0 <= i < |a + b| && (a + b)[i].IsTransport()
      ensures Depth((a + b)[..i]) == 1
    {
      PrefixDepth(a, b, i);
      if i >= |a| {
        assert (a + b)[i] == b[i - |a|];
      }
    }
  }

  lemma WriteAfterAcquireAppend(a: seq<CallEvent>, b: seq<CallEvent>)
    requires WriteAfterAcquire(a) && WriteAfterAcquire(b)
    ensures WriteAfterAcquire(a + b)
  {
    forall i | 0 <= i < |a + b| && (a + b)[i].WriteCalled?
      ensures 0 < i && (a + b)[i - 1] == LockAcquired
    {
      if i >= |a| {
        assert (a + b)[i] == b[i - |a|];
        if i > |a| {
          assert (a + b)[i - 1] == b[i - |a| - 1];
        }
      }
    }
  }

  lemma ReadAfterWriteAppend(a: seq<CallEvent>, b: seq<CallEvent>)
    requires ReadAfterWrite(a) && ReadAfterWrite(b)
    ensures ReadAfterWrite(a + b)
  {
    forall i | 0 <= i < |a + b| && (a + b)[i] == ReadCalled
      ensures 0 < i && (a + b)[i - 1].WriteCalled?
    {
      if i >= |a| {
        assert (a + b)[i] == b[i - |a|];
        if i > |a| {
          assert (a + b)[i - 1] == b[i - |a| - 1];
        }
      }
    }
  }

  lemma PrefixDepth(a: seq<CallEvent>, b: seq<CallEvent>, k: nat)
    requires k <= |a + b|
    requires Depth(a) == 0
    ensures k <= |a| ==> Depth((a + b)[..k]) == Depth(a[..k])
    ensures k > |a| ==> Depth((a + b)[..k]) == Depth(b[..k - |a|])
  {
    if k <= |a| {
      assert (a + b)[..k] == a[..k];
    } else {
      assert (a + b)[..k] == a + b[..k - |a|];
      DepthAppend(a, b[..k - |a|]);
    }
  }

  /** One request to WriteAndReadAsync: the buffer and what the transport
      does with it. */
  datatype Request = Request(writeBuffer: seq<byte>, transport: Transport)

  /** The calls made by a sequence of WriteAndReadAsync calls, one after
      the other. */
  function SessionTrace(requests: seq<Request>): seq<CallEvent>
    decreases |requests|
  {
    if requests == [] then []
    else
      var last := requests[|requests| - 1];
      SessionTrace(requests[..|requests| - 1]) + TransactionTrace(last.writeBuffer, last.transport)
  }

  /** Any sequence of transactions produces a serialized log that leaves
      the semaphore free: the transport sees write1, read1, write2, read2,
      ... and never two writes inside one held lock. On a device the same
      property is the invariant Valid() that WriteAndRead preserves. */
  lemma {:induction false} SessionSerialized(requests: seq<Request>)
    ensures Serialized(SessionTrace(requests)) && Depth(SessionTrace(requests)) == 0
    decreases |requests|
  {
    if requests != [] {
      var last := requests[|requests| - 1];
      SessionSerialized(requests[..|requests| - 1]);
      SerializedAppend(SessionTrace(requests[..|requests| - 1]), TransactionTrace(last.writeBuffer, last.transport));
    }
  }
}
