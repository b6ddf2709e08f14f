/** The transports and the message-to-byte adapter as the C++ runs them (the transports and message_byte_adapter.cpp of core/src). */
module Transports {
  import opened Bytes
  import opened Messages
  import opened Envelopes
  import Frames
  import Protocols
  import TcpStream
  import opened TcpTransport

  class InMemoryTransport {
    var queue: seq<Message>

    constructor ()
      ensures queue == []
    {
      queue := [];
    }

    method Send(m: Message) returns (ok: bool)
      modifies this
      ensures ok && queue == old(queue) + [m]
    {
      queue := queue + [m];
      return true;
    }

    method Receive() returns (m: Option<Message>)
      modifies this
      ensures old(queue) == [] ==> m == None && queue == []
      ensures old(queue) != [] ==> m == Some(old(queue)[0]) && queue == old(queue)[1..]
    {
      if queue == [] {
        return None;
      }
      m := Some(queue[0]);
      queue := queue[1..];
    }

    predicate Empty()
      reads this
    {
      queue == []
    }
  }

  class InMemoryByteTransport {
    var queue: seq<bytes>

    constructor ()
      ensures queue == []
    {
      queue := [];
    }

    method SendBytes(data: bytes) returns (ok: bool)
      modifies this
      ensures ok && queue == old(queue) + [data]
    {
      queue := queue + [data];
      return true;
    }

    method ReceiveBytes() returns (data: Option<bytes>)
      modifies this
      ensures old(queue) == [] ==> data == None && queue == []
      ensures old(queue) != [] ==> data == Some(old(queue)[0]) && queue == old(queue)[1..]
    {
      if queue == [] {
        return None;
      }
      data := Some(queue[0]);
      queue := queue[1..];
    }

    predicate Empty()
      reads this
    {
      queue == []
    }
  }

  /** The two implementations of the `ByteTransport` interface. */
  datatype ByteTransport = Memory(memory: InMemoryByteTransport) | Tcp(tcp: TcpByteTransport) {
    ghost function Repr(): set<object> {
      match this
      case Memory(m) => {m}
      case Tcp(t) => {t.socket}
    }

    method SendBytes(data: bytes) returns (ok: bool)
      modifies Repr()
      ensures Memory? ==> ok && memory.queue == old(memory.queue) + [data]
      ensures Tcp? ==> (tcp.Now(), ok) == TcpStream.Write(old(tcp.Now()), data)
    {
      match this
      case Memory(m) => ok := m.SendBytes(data);
      case Tcp(t) => ok := t.SendBytes(data);
    }

    method ReceiveBytes() returns (data: Option<bytes>)
      modifies Repr()
      ensures Memory? ==>
              if old(memory.queue) == [] then data == None && memory.queue == []
              else data == Some(old(memory.queue)[0]) && memory.queue == old(memory.queue)[1..]
      ensures Tcp? ==> (tcp.Now(), data) == TcpStream.Read(old(tcp.Now()))
    {
      match this
      case Memory(m) => data := m.ReceiveBytes();
      case Tcp(t) => data := t.ReceiveBytes();
    }

    method Empty() returns (empty: bool)
      modifies Repr()
      ensures Memory? ==> empty == (memory.queue == []) && memory.queue == old(memory.queue)
      ensures Tcp? ==> (tcp.Now(), empty) == TcpStream.Poll(old(tcp.Now()))
    {
      match this
      case Memory(m) => empty := m.Empty();
      case Tcp(t) => empty := t.Empty();
    }
  }

  /** What `receive_message` makes of the bytes it got: the error of the layer that rejects them, or the message. */
  function Opened(data: Option<bytes>): (r: (ErrorCode, Option<Message>))
    ensures r.1.Some? ==> r.0 == NoError && data.Some? && r.1 == MessageOf(data.value)
    ensures r.1.None? && data.Some? ==> r.0 == InvalidArgument && MessageOf(data.value).None?
    ensures data.None? ==> r == (NoError, None)
  {
    match data
    case None => (NoError, None)
    case Some(d) => if MessageOf(d).Some? then (NoError, MessageOf(d)) else (InvalidArgument, None)
  }

  /** A frame of a message with one byte of magic number, packet or checksum changed is an error and no message. */
  lemma CorruptionReported(m: Message, i: nat, x: byte)
    requires Protocols.Size(m) < TWO32 && i < |FrameOf(m)| && x != FrameOf(m)[i]
    requires i < 4 || 8 <= i
    ensures Opened(Some(FrameOf(m)[i := x])) == (InvalidArgument, None)
  {
    hide FrameOf, MessageOf, Protocols.Size;
    Envelopes.OneByteChanged(m, i, x);
  }

  /** `MessageByteAdapter`: it only holds a reference to its transport. */
  datatype MessageByteAdapter = MessageByteAdapter(transport: ByteTransport) {
    method SendMessage(m: Message) returns (code: ErrorCode)
      modifies transport.Repr()
      ensures code == NoError || code == TransportError
      ensures transport.Memory? ==>
              code == NoError && transport.memory.queue == old(transport.memory.queue) + [FrameOf(m)]
      ensures transport.Tcp? ==>
              (transport.tcp.Now(), code == NoError) == TcpStream.Write(old(transport.tcp.Now()), FrameOf(m))
    {
      var packet := Protocols.EncodeMessage(m);
      var frame := Frames.EncodeFrame(packet);
      var ok := transport.SendBytes(frame);
      return if ok then NoError else TransportError;
    }

    method ReceiveMessage() returns (code: ErrorCode, m: Option<Message>)
      modifies transport.Repr()
      ensures transport.Memory? ==>
              var q := old(transport.memory.queue);
              if q == [] then (code, m) == Opened(None) && transport.memory.queue == []
              else (code, m) == Opened(Some(q[0])) && transport.memory.queue == q[1..]
      ensures transport.Tcp? ==>
              var (after, data) := TcpStream.Read(old(transport.tcp.Now()));
              transport.tcp.Now() == after && (code, m) == Opened(data)
    {
      var data := transport.ReceiveBytes();
      if data.None? {
        return NoError, None;
      }
      var packet := Frames.DecodeFrame(data.value);
      if packet.Err? {
        return InvalidArgument, None;
      }
      var message := Protocols.DecodeMessage(packet.value);
      if message.Err? {
        return InvalidArgument, None;
      }
      return NoError, Some(message.value);
    }
  }

  /** `FramedMessageTransport`: a corrupt frame is reported as no message. */
  datatype FramedMessageTransport = FramedMessageTransport(adapter: MessageByteAdapter) {
    method Send(m: Message) returns (ok: bool)
      modifies adapter.transport.Repr()
      ensures adapter.transport.Memory? ==>
              ok && adapter.transport.memory.queue == old(adapter.transport.memory.queue) + [FrameOf(m)]
      ensures adapter.transport.Tcp? ==>
              (adapter.transport.tcp.Now(), ok) == TcpStream.Write(old(adapter.transport.tcp.Now()), FrameOf(m))
    {
      var code := adapter.SendMessage(m);
      return code == NoError;
    }

    method Receive() returns (m: Option<Message>)
      modifies adapter.transport.Repr()
      ensures adapter.transport.Memory? ==>
              var q := old(adapter.transport.memory.queue);
              if q == [] then m == None && adapter.transport.memory.queue == []
              else m == MessageOf(q[0]) && adapter.transport.memory.queue == q[1..]
      ensures adapter.transport.Tcp? ==>
              var (after, data) := TcpStream.Read(old(adapter.transport.tcp.Now()));
              && adapter.transport.tcp.Now() == after
              && m == if data.Some? then MessageOf(data.value) else None
    {
      var code, received := adapter.ReceiveMessage();
      if code != NoError {
        return None;
      }
      return received;
    }
  }
}
