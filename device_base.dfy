/** The abstract base class of every device adapter: its identity
    accessor, its two events, the disposal guard and the serialized
    write-then-read entry point. */
module Devices {
  import opened DeviceTypes
  import opened CallLog

  /** The deliveries one Dispose call makes, given the disposal flag it
      starts with and the subscribers of Disconnected. */
  function DisposeDeliveries(disposing: bool, onDisconnected: Subscribers): (r: seq<Channel>)
    ensures |r| <= 1
    ensures r == [] <==> disposing || onDisconnected.NoSubscribers?
    ensures forall i :: 0 <= i < |r| ==> r[i] == Disconnected
  {
    if disposing || onDisconnected.NoSubscribers? then [] else [Disconnected]
  }

  /** The deliveries one raise of `ch` makes: none without subscribers;
      otherwise the handler's own, followed by those of the Dispose it may
      call re-entrantly. */
  function RaiseDeliveries(ch: Channel, subs: Subscribers, disposing: bool, onDisconnected: Subscribers): (r: seq<Channel>)
    ensures subs.NoSubscribers? ==> r == []
    ensures subs.Subscribed? ==> 1 <= |r| && r[0] == ch
    ensures disposing ==> |r| <= 1
  {
    match subs
    case NoSubscribers => []
    case Subscribed(h) => [ch] + (if h.disposesReentrantly then DisposeDeliveries(disposing, onDisconnected) else [])
  }

  /** What the invocation of an event returns to its raiser: a handler's
      exception propagates. */
  function RaiseOutcome(subs: Subscribers): (o: Outcome)
    ensures o.Fail? <==> subs.Subscribed? && subs.handler.throws
    ensures o.Fail? ==> o.error == HandlerFault
  {
    if subs.Subscribed? && subs.handler.throws then Fail(HandlerFault) else Pass
  }

  class DeviceBase {
    /** The count of _WriteAndReadLock, a SemaphoreSlim(1, 1). */
    var lockCount: int
    /** _IsDisposing. */
    var isDisposing: bool
    /** DeviceDefinition; `None` while it is null. */
    var definition: Option<DeviceDefinition>
    /** The subscribers of Connected and Disconnected. */
    var onConnected: Subscribers
    var onDisconnected: Subscribers
    /** Every event delivered to a subscriber, in order. */
    var notified: seq<Channel>
    /** Every semaphore and transport call, in order. */
    var calls: seq<CallEvent>

    /** Between calls the semaphore is free and every transaction so far
        ran alone. */
    ghost predicate Valid()
      reads this
    {
      lockCount == 1 && Depth(calls) == 0 && Serialized(calls)
    }

    constructor (definition: Option<DeviceDefinition>, onConnected: Subscribers, onDisconnected: Subscribers)
      ensures Valid() && !isDisposing
      ensures this.definition == definition
      ensures this.onConnected == onConnected && this.onDisconnected == onDisconnected
      ensures notified == [] && calls == []
    {
      lockCount := 1;
      isDisposing := false;
      this.definition := definition;
      this.onConnected := onConnected;
      this.onDisconnected := onDisconnected;
      notified := [];
      calls := [];
    }

    /** SerialNumber: the definition's serial number, or an exception when
        there is no definition or its serial number is null or empty. */
    function SerialNumber(): (r: Result<string>)
      reads this
      ensures r.Success? <==> definition.Some? && definition.value.serialNumber.Some? && definition.value.serialNumber.value != []
      ensures r.Success? ==> definition.value.serialNumber == Some(r.value)
      ensures r.Failure? ==> r.error == IdentityNotEstablished
    {
      match definition
      case Some(DeviceDefinition(Some(serial))) =>
        if serial == [] then Failure(IdentityNotEstablished) else Success(serial)
      case _ => Failure(IdentityNotEstablished)
    }

    /** The setter of DeviceDefinition, which subclasses call; `None`
        sets it back to null. */
    method SetDefinition(d: Option<DeviceDefinition>)
      modifies this`definition
      ensures definition == d
    {
      definition := d;
    }

    /** RaiseConnected: invokes the Connected subscribers, if any; their
        exception propagates. */
    method RaiseConnected() returns (outcome: Outcome)
      modifies this`isDisposing, this`notified
      decreases if isDisposing then 0 else 1, 2
      ensures isDisposing == old(isDisposing)
      ensures notified == old(notified) + RaiseDeliveries(Connected, onConnected, old(isDisposing), onDisconnected)
      ensures outcome == RaiseOutcome(onConnected)
    {
      match onConnected
      case NoSubscribers =>
        outcome := Pass;
      case Subscribed(h) =>
        notified := notified + [Connected];
        outcome := InvokeHandler(h);
    }

    /** RaiseDisconnected: invokes the Disconnected subscribers, if any;
        their exception propagates. */
    method RaiseDisconnected() returns (outcome: Outcome)
      modifies this`isDisposing, this`notified
      decreases if isDisposing then 0 else 1, 2
      ensures isDisposing == old(isDisposing)
      ensures notified == old(notified) + RaiseDeliveries(Disconnected, onDisconnected, old(isDisposing), onDisconnected)
      ensures outcome == RaiseOutcome(onDisconnected)
    {
      match onDisconnected
      case NoSubscribers =>
        outcome := Pass;
      case Subscribed(h) =>
        notified := notified + [Disconnected];
        outcome := InvokeHandler(h);
    }

    /** The subscriber's code: it may call Dispose on this device, then it
        returns or throws. */
    method InvokeHandler(h: Handler) returns (outcome: Outcome)
      modifies this`isDisposing, this`notified
      decreases if isDisposing then 0 else 1, 1
      ensures isDisposing == old(isDisposing)
      ensures notified == old(notified) + (if h.disposesReentrantly then DisposeDeliveries(old(isDisposing), onDisconnected) else [])
      ensures outcome == (if h.throws then Fail(HandlerFault) else Pass)
    {
      if h.disposesReentrantly {
        Dispose();
      }
      outcome := if h.throws then Fail(HandlerFault) else Pass;
    }

    /** Dispose: a no-op while a disposal is in progress; otherwise sets the
        flag, raises Disconnected, discards a subscriber's exception and
        clears the flag again, so it never throws and a later call runs
        again. */
    method Dispose()
      modifies this`isDisposing, this`notified
      decreases if isDisposing then 0 else 1, 0
      ensures isDisposing == old(isDisposing)
      ensures notified == old(notified) + DisposeDeliveries(old(isDisposing), onDisconnected)
    {
      if isDisposing {
        return;
      }
      isDisposing := true;
      var discarded := RaiseDisconnected();
      isDisposing := false;
    }

    /** WaitAsync on the semaphore; with no other caller it is free. */
    method Acquire()
      requires lockCount == 1
      modifies this`lockCount, this`calls
      ensures lockCount == 0 && calls == old(calls) + [LockAcquired]
    {
      lockCount := lockCount - 1;
      calls := calls + [LockAcquired];
    }

    /** Release on the semaphore, by its holder. */
    method Release()
      requires lockCount == 0
      modifies this`lockCount, this`calls
      ensures lockCount == 1 && calls == old(calls) + [LockReleased]
    {
      lockCount := lockCount + 1;
      calls := calls + [LockReleased];
    }

    /** The concrete device's WriteAsync. */
    method WriteAsync(data: seq<byte>, t: Transport) returns (outcome: Outcome)
      modifies this`calls
      ensures calls == old(calls) + [WriteCalled(data)] && outcome == t.write
    {
      calls := calls + [WriteCalled(data)];
      outcome := t.write;
    }

    /** The concrete device's ReadAsync. */
    method ReadAsync(t: Transport) returns (r: Result<seq<byte>>)
      modifies this`calls
      ensures calls == old(calls) + [ReadCalled] && r == t.read
    {
      calls := calls + [ReadCalled];
      r := t.read;
    }

    /** WriteAndReadAsync: holds the semaphore around a write and, when the
        write succeeds, a read; releases it on every path; returns what the
        read returned or the write's failure unchanged. */
    method WriteAndRead(writeBuffer: seq<byte>, t: Transport) returns (r: Result<seq<byte>>)
      requires Valid()
      modifies this`lockCount, this`calls
      ensures Valid()
      ensures calls == old(calls) + TransactionTrace(writeBuffer, t)
      ensures t.write.Fail? ==> r == Failure(t.write.error)
      ensures t.write.Pass? ==> r == t.read
    {
      Acquire();
      var written := WriteAsync(writeBuffer, t);
      if written.Fail? {
        r := Failure(written.error);
      } else {
        r := ReadAsync(t);
      }
      Release();
      assert calls == old(calls) + TransactionTrace(writeBuffer, t);
      SerializedAppend(old(calls), TransactionTrace(writeBuffer, t));
    }
  }
}
