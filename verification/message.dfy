/** Messages between agents (core/include/galculus/core/message.hpp, event.hpp and result.hpp). */
module Messages {
  import opened Bytes

  /** `MessageType` is a raw byte: nothing in the repository rejects a value outside the enumeration. */
  const EVENT: byte := 0

  datatype Event = Event(name: bytes, payload: bytes)

  datatype Message = Message(id: u64, kind: byte, source: bytes, target: bytes, event: Event)

  datatype ErrorCode = NoError | InvalidArgument | AgentAlreadyExists | AgentNotFound | RuntimeNotRunning | TransportError

  function EventMessage(id: u64, source: bytes, target: bytes, event: Event): Message {
    Message(id, EVENT, source, target, event)
  }
}
