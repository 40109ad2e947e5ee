/** Values shared by the device model: bytes, errors, identity and the
    behaviour of the collaborators (event handlers, transport) that a
    concrete device supplies. */
module DeviceTypes {

  /** A .NET `byte`. */
  newtype byte = b: int | 0 <= b < 256

  /** The exceptions the base class raises or lets through. */
  datatype Error =
    | IdentityNotEstablished   // no definition, or no serial number in it
    | NegativeArrayLength      // `new byte[-1]` on an empty input
    | HandlerFault             // an exception thrown by an event subscriber
    | TransportFault(code: nat) // whatever a concrete WriteAsync or ReadAsync threw

  datatype Result<T> = Success(value: T) | Failure(error: Error)

  datatype Outcome = Pass | Fail(error: Error)

  /** The part of a DeviceDefinition the base class reads: its serial
      number, which may be null (`None`) or empty. */
  datatype DeviceDefinition = DeviceDefinition(serialNumber: Option<string>)

  datatype Option<T> = None | Some(value: T)

  /** What the code subscribed to an event does when it is invoked: it may
      call Dispose on the same device, and it may then throw. */
  datatype Handler = Handler(disposesReentrantly: bool, throws: bool)

  /** The invocation list of an event: empty (the delegate is null) or a
      handler standing for the whole list. */
  datatype Subscribers = NoSubscribers | Subscribed(handler: Handler)

  /** The two events of the base class. */
  datatype Channel = Connected | Disconnected

  /** What a concrete device's WriteAsync and ReadAsync produce for one
      call of WriteAndReadAsync. */
  datatype Transport = Transport(write: Outcome, read: Result<seq<byte>>)

  /** One observable step of a transaction: the semaphore and the two
      transport primitives. */
  datatype CallEvent = LockAcquired | WriteCalled(data: seq<byte>) | ReadCalled | LockReleased
  {
    predicate IsTransport() { WriteCalled? || ReadCalled? }
  }
}
