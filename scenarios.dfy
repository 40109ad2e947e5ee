/** Clients of the device model that show, from the contracts alone, the
    behaviours of the base class. */
module DeviceScenarios {
  import opened DeviceTypes
  import opened CallLog
  import opened Buffers
  import opened Devices

  /** Disposal with any Disconnected handler (one that re-enters Dispose,
      throws, or both) delivers Disconnected once per completed call and
      never throws; since the flag is cleared at the end, a second call
      after the first has completed delivers it again. */
  method DisposeTwice(h: Handler) returns (delivered: seq<Channel>, disposing: bool)
    ensures delivered == [Disconnected, Disconnected]
    ensures !disposing
  {
    var device := new DeviceBase(None, NoSubscribers, Subscribed(h));
    device.Dispose();
    assert device.notified == [Disconnected];
    device.Dispose();
    delivered, disposing := device.notified, device.isDisposing;
  }

  /** Raising an event nobody subscribed to does nothing and does not
      fail; a subscriber's exception propagates out of RaiseConnected
      (only Dispose catches). */
  method RaiseConnectedOutcomes(h: Handler) returns (unsubscribed: Outcome, subscribed: Outcome, delivered: seq<Channel>)
    requires h.throws && !h.disposesReentrantly
    ensures unsubscribed == Pass
    ensures subscribed == Fail(HandlerFault)
    ensures delivered == [Connected]
  {
    var quiet := new DeviceBase(None, NoSubscribers, NoSubscribers);
    unsubscribed := quiet.RaiseConnected();
    assert quiet.notified == [];
    var observed := new DeviceBase(None, Subscribed(h), NoSubscribers);
    subscribed := observed.RaiseConnected();
    delivered := observed.notified;
  }

  /** A Connected handler that disposes the device while the device is not
      disposing runs a whole disposal, Disconnected included. */
  method ConnectedHandlerDisposes(h: Handler, g: Handler) returns (delivered: seq<Channel>, outcome: Outcome)
    requires h.disposesReentrantly && !h.throws
    ensures delivered == [Connected, Disconnected]
    ensures outcome == Pass
  {
    var device := new DeviceBase(None, Subscribed(h), Subscribed(g));
    outcome := device.RaiseConnected();
    delivered := device.notified;
  }

  /** A failing write skips the read, propagates its failure unchanged and
      releases the semaphore, so the next transaction runs and returns
      exactly what its read returned. The device's log is the log of that
      two-request session. */
  method FailedWriteReleasesLock(code: nat, request: seq<byte>, reply: seq<byte>)
    returns (first: Result<seq<byte>>, second: Result<seq<byte>>, log: seq<CallEvent>)
    ensures first == Failure(TransportFault(code))
    ensures second == Success(reply)
    ensures log == [LockAcquired, WriteCalled(request), LockReleased,
                    LockAcquired, WriteCalled(request), ReadCalled, LockReleased]
    ensures log == SessionTrace([Request(request, Transport(Fail(TransportFault(code)), Success(reply))),
                                 Request(request, Transport(Pass, Success(reply)))])
    ensures Serialized(log)
  {
    var failing := Transport(Fail(TransportFault(code)), Success(reply));
    var passing := Transport(Pass, Success(reply));
    var device := new DeviceBase(None, NoSubscribers, NoSubscribers);
    first := device.WriteAndRead(request, failing);
    second := device.WriteAndRead(request, passing);
    log := device.calls;
    var session := [Request(request, failing), Request(request, passing)];
    assert session[..1] == [Request(request, failing)];
    assert session[..1][..0] == [];
    assert SessionTrace(session[..1]) == [] + TransactionTrace(request, failing);
    assert SessionTrace(session) == SessionTrace(session[..1]) + TransactionTrace(request, passing);
  }

  /** The serial number fails until a definition with a serial number is
      set, then returns exactly that serial number, and fails again once
      the definition is set back to null. */
  method SerialNumberOnceDefined() returns (before: Result<string>, empty: Result<string>, after: Result<string>, reset: Result<string>)
    ensures before == Failure(IdentityNotEstablished)
    ensures empty == Failure(IdentityNotEstablished)
    ensures after == Success("ABC123")
    ensures reset == Failure(IdentityNotEstablished)
  {
    var device := new DeviceBase(None, NoSubscribers, NoSubscribers);
    before := device.SerialNumber();
    device.SetDefinition(Some(DeviceDefinition(Some(""))));
    empty := device.SerialNumber();
    device.SetDefinition(Some(DeviceDefinition(Some("ABC123"))));
    after := device.SerialNumber();
    device.SetDefinition(None);
    reset := device.SerialNumber();
  }

  /** RemoveFirstByte on [0x07, 0x01, 0x02] and on an empty array. */
  method RemoveFirstByteExamples() returns (trimmed: seq<byte>, emptyResult: Result<seq<byte>>)
    ensures trimmed == [0x01, 0x02]
    ensures emptyResult == Failure(NegativeArrayLength)
  {
    var bytes := new byte[3];
    bytes[0], bytes[1], bytes[2] := 0x07, 0x01, 0x02;
    var r := RemoveFirstByte(bytes);
    trimmed := r.value[..];
    var none := new byte[0];
    var e := RemoveFirstByte(none);
    emptyResult := Failure(e.error);
  }
}
