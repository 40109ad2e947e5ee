# Device.Net `DeviceBase` in Dafny

This project models `DeviceBase`, the abstract base class of every device
adapter in Device.Net (USB, HID, serial, ...). The model covers four parts of
that class:

- **Buffer trim.** `RemoveFirstByte` drops the extra leading byte that many
  HID devices on Windows report. It is modelled on arrays with its copy
  loop, against the specification function `DropFirst`.
- **Identity accessor.** `SerialNumber` returns the device definition's
  serial number. It fails when there is no definition, or when the serial is
  null or empty.
- **Events and the disposal guard.** `RaiseConnected` and `RaiseDisconnected`
  invoke the subscribers, if there are any. `Dispose` is guarded by
  `_IsDisposing`.
  - A subscriber is abstracted as a `Handler` that may call `Dispose` on the
    same device, and that may then throw.
  - `Dispose`, the raise methods and the handler call one another. They
    terminate because a re-entrant `Dispose` sees the flag set.
- **Serialized write-then-read.** `WriteAndReadAsync` is modelled
  sequentially as `WriteAndRead`.
  - The `SemaphoreSlim(1, 1)` becomes a count field.
  - Every semaphore and transport call is appended to a log.
  - The class invariant `Valid()` says the semaphore is free between calls and
    that the log is `Serialized`: the lock is never held twice, the transport
    is only used while the lock is held, every write directly follows an
    acquisition, and every read directly follows a write. So while the lock is
    held the transport sees one write and at most one read.
  - `SessionSerialized` shows that any sequence of transactions keeps that
    invariant.

Modules:
- `DeviceTypes` (`device_types.dfy`) holds the values.
- `Buffers` (`buffers.dfy`) holds the buffer trim.
- `CallLog` (`call_log.dfy`) holds the transaction log and its properties.
- `Devices` (`device_base.dfy`) holds the class.
- `DeviceScenarios` (`scenarios.dfy`) holds verified clients. They show the
  behaviours of the base class from the contracts alone.

Behaviours of the code that the model keeps as they are:
- An exception thrown by a subscriber propagates out of `RaiseConnected` and
  `RaiseDisconnected`. Only `Dispose` catches it.
- On an empty buffer, `RemoveFirstByte` fails because it allocates
  `new byte[-1]`. The model returns `Failure(NegativeArrayLength)` for that
  case.
- `Dispose` clears its flag at the end, so a call made after a completed
  disposal runs again and raises `Disconnected` again. See
  `DeviceScenarios.DisposeTwice`.

## Model

| member | source | states |
|---|---|---|
| `Buffers.DropFirst` | src/Device.Net/DeviceBase.cs:68-71 | the trimmed buffer is one byte shorter and its byte i is input byte i+1 |
| `Buffers.DropFirstRestores` | src/Device.Net/DeviceBase.cs:68-71 | only the first byte is removed: putting it back in front gives the input |
| `Buffers.RemoveFirstByte` | src/Device.Net/DeviceBase.cs:66-74 | fails exactly on an empty input (allocation of length -1); otherwise returns a fresh array whose contents are `DropFirst` of the input, and the input is unchanged |
| `DeviceScenarios.RemoveFirstByteExamples` | src/Device.Net/DeviceBase.cs:66-74 | `[0x07, 0x01, 0x02]` trims to `[0x01, 0x02]`; an empty array fails |
| `Devices.DeviceBase.SerialNumber` | src/Device.Net/DeviceBase.cs:27 | succeeds if and only if a definition exists and its serial number is neither null nor empty, and then returns exactly that serial number; otherwise fails with the identity error |
| `Devices.DeviceBase.SetDefinition` | src/Device.Net/DeviceBase.cs:26 | the protected setter stores the definition, null (`None`) included |
| `DeviceScenarios.SerialNumberOnceDefined` | src/Device.Net/DeviceBase.cs:26-27 | the serial number fails before a definition is set and with an empty serial, returns "ABC123" once that serial is set, and fails again after the definition is set back to null |
| `Devices.DeviceBase.constructor` | src/Device.Net/DeviceBase.cs:10-11 | a new device has a free semaphore (count 1), is not disposing, and has empty logs |
| `Devices.RaiseOutcome` | src/Device.Net/DeviceBase.cs:31-39 | raising an event fails if and only if it has a subscriber and that subscriber throws; the failure is the subscriber's |
| `Devices.RaiseDeliveries` | src/Device.Net/DeviceBase.cs:31-39 | with no subscribers a raise delivers nothing; otherwise it first delivers its own event; while disposing it delivers at most that one event |
| `Devices.DeviceBase.RaiseConnected` | src/Device.Net/DeviceBase.cs:31-34 | delivers Connected only if there is a subscriber, leaves the disposal flag as it was, and lets the subscriber's exception propagate |
| `Devices.DeviceBase.RaiseDisconnected` | src/Device.Net/DeviceBase.cs:36-39 | delivers Disconnected only if there is a subscriber, leaves the disposal flag as it was, and lets the subscriber's exception propagate |
| `Devices.DeviceBase.InvokeHandler` | src/Device.Net/DeviceBase.cs:33 | a subscriber's code: what its re-entrant Dispose delivers, then its return or its exception |
| `Devices.DisposeDeliveries` | src/Device.Net/DeviceBase.cs:76-92 | a Dispose delivers at most one event, always Disconnected; it delivers nothing exactly when a disposal is in progress or nobody subscribed |
| `Devices.DeviceBase.Dispose` | src/Device.Net/DeviceBase.cs:76-92 | a call made while the flag is set changes nothing; otherwise Disconnected is delivered exactly once (if subscribed), a subscriber's exception is swallowed, a re-entrant Dispose inside the handler delivers nothing, and the flag ends cleared |
| `DeviceScenarios.DisposeTwice` | src/Device.Net/DeviceBase.cs:78-91 | for any Disconnected handler, two disposals one after the other deliver Disconnected twice, never throw, and leave the flag cleared |
| `DeviceScenarios.RaiseConnectedOutcomes` | src/Device.Net/DeviceBase.cs:31-34 | raising Connected with no subscribers succeeds and delivers nothing; a throwing subscriber's exception comes out of RaiseConnected |
| `DeviceScenarios.ConnectedHandlerDisposes` | src/Device.Net/DeviceBase.cs:31-34 | a Connected subscriber that disposes the device causes a full disposal, so Disconnected follows Connected |
| `Devices.DeviceBase.Acquire` | src/Device.Net/DeviceBase.cs:50 | taking the free semaphore brings its count to 0 and is logged |
| `Devices.DeviceBase.Release` | src/Device.Net/DeviceBase.cs:59 | releasing brings the count back to 1 and is logged |
| `Devices.DeviceBase.WriteAsync` | src/Device.Net/DeviceBase.cs:44 | the transport write is logged with its buffer and returns the transport's outcome |
| `Devices.DeviceBase.ReadAsync` | src/Device.Net/DeviceBase.cs:43 | the transport read is logged and returns the transport's result |
| `Devices.DeviceBase.WriteAndRead` | src/Device.Net/DeviceBase.cs:48-61 | keeps the device valid (semaphore back to 1, log still serialized); logs exactly one transaction; a write failure is returned unchanged; otherwise the result is exactly the read's result |
| `CallLog.TransactionTrace` | src/Device.Net/DeviceBase.cs:50-59 | a transaction acquires, writes the given buffer, reads if and only if the write succeeded, and releases; it leaves the semaphore free and is serialized on its own (one write right after the acquisition, at most one read right after the write) |
| `CallLog.SerializedAppend` | src/Device.Net/DeviceBase.cs:50-59 | two serialized logs that each leave the semaphore free concatenate to a serialized log that leaves it free |
| `CallLog.SessionSerialized` | src/Device.Net/DeviceBase.cs:48-61 | any sequence of transactions yields a log in which the semaphore is never held twice, the transport is only used under the lock, every write directly follows an acquisition, every read directly follows a write, and the semaphore ends free: never two writes inside one held lock |
| `DeviceScenarios.FailedWriteReleasesLock` | src/Device.Net/DeviceBase.cs:52-60 | a failed write skips the read, returns the transport's failure unchanged and releases the lock, so the next transaction runs and returns its read's result; the device's log equals `SessionTrace` of those two requests |

## Left out

- Concurrency is not modelled. This covers `SemaphoreSlim` waiting, `async` suspension and interleavings of `WriteAndReadAsync`. Calls are sequential, and mutual exclusion is stated over the sequential call log.
- Devices.DeviceBase.Acquire: requires a free semaphore instead of modelling a caller that waits for it, because with sequential calls the semaphore is always free at that point.
- Devices.DeviceBase.Release: requires the semaphore to be held instead of modelling the `SemaphoreFullException` that `Release` throws on a free semaphore, because `WriteAndReadAsync` only releases what it acquired.
- Concrete `ReadAsync`/`WriteAsync` implementations are not modelled. Each call's outcome is given as a `Transport` parameter.
- `WriteBufferSize` and `ReadBufferSize` are not modelled. They are abstract properties that the subclasses supply.
- `Tracer` and the `DeviceDefinition` metadata other than the serial number are not modelled. Their types are not part of this model.
- Event subscription is not modelled. This covers `+=`/`-=` on events, multicast invocation order, the sender and `EventArgs`. An event's invocation list is one `Handler`. That handler may call `Dispose` on the device and may throw; it does nothing else.
- A null array passed to `RemoveFirstByte` is not modelled. The source throws `NullReferenceException` there, and Dafny arrays are never null.
- The type and message of each exception are not modelled. Errors are the `Error` datatype.
- The logging placeholder in `Dispose`'s catch block is not modelled, because it has no behaviour.
