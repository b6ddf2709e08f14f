/** `TcpByteTransport` as the C++ runs it, over a socket whose partial transfers are scripted. */
module TcpTransport {
  import opened Bytes
  import TcpStream

  /** `b` with the bytes from `start` overwritten by `got`. */
  function Stored(b: bytes, start: nat, got: bytes): (r: bytes)
    requires start + |got| <= |b|
    ensures |r| == |b|
  {
    b[..start] + got + b[start + |got|..]
  }

  lemma StoredTwice(b: bytes, start: nat, g: bytes, h: bytes)
    requires start + |g| + |h| <= |b|
    ensures Stored(Stored(b, start, g), start + |g|, h) == Stored(b, start, g + h)
  {
  }

  /** One connected socket: what has arrived and is not read yet, what was sent, what the next calls return. */
  class Socket {
    var stream: bytes
    var wire: bytes
    var script: TcpStream.Script
    var polls: seq<int>

    constructor (stream: bytes, script: TcpStream.Script, polls: seq<int>)
      ensures this.stream == stream && this.script == script && this.polls == polls && wire == []
    {
      this.stream, this.script, this.polls, wire := stream, script, polls, [];
    }

    /** `select` on this socket alone, without waiting: above 0 if there is something to read. */
    method Select() returns (result: int)
      modifies this`polls
      ensures result == (if old(polls) == [] then 0 else old(polls)[0])
      ensures polls == if old(polls) == [] then [] else old(polls)[1..]
    {
      if polls == [] {
        return 0;
      }
      result := polls[0];
      polls := polls[1..];
    }

    /** `send`: some bytes from the front of `data` go out, or the call fails. */
    method Send(data: bytes) returns (sent: int)
      modifies this
      ensures sent == TcpStream.Grant(old(script), |data|)
      ensures script == TcpStream.Rest(old(script)) && stream == old(stream) && polls == old(polls)
      ensures wire == old(wire) + data[..Max(0, sent)]
    {
      sent := TcpStream.Grant(script, |data|);
      script := TcpStream.Rest(script);
      wire := wire + data[..Max(0, sent)];
    }

    /** `recv`: some bytes from the front of the stream are stored in `buffer` from `start`, or the call fails. */
    method Recv(buffer: array<byte>, start: nat, wanted: nat) returns (received: int)
      requires start + wanted <= buffer.Length
      modifies this, buffer
      ensures received == Min(TcpStream.Grant(old(script), wanted), |old(stream)|)
      ensures script == TcpStream.Rest(old(script)) && wire == old(wire) && polls == old(polls)
      ensures stream == old(stream)[Max(0, received)..]
      ensures buffer[..] == Stored(old(buffer[..]), start, old(stream)[..Max(0, received)])
    {
      received := Min(TcpStream.Grant(script, wanted), |stream|);
      script := TcpStream.Rest(script);
      forall i | 0 <= i < received {
        buffer[start + i] := stream[i];
      }
      stream := stream[Max(0, received)..];
    }
  }

  method SendAll(socket: Socket, data: bytes, size: int) returns (ok: bool)
    requires size <= |data|
    modifies socket
    ensures var r := TcpStream.SendAll(data[..Max(0, size)], old(socket.script));
            ok == r.ok && socket.script == r.script && socket.wire == old(socket.wire) + r.taken
    ensures socket.stream == old(socket.stream) && socket.polls == old(socket.polls)
  {
    var total: nat := 0;
    ghost var part := data[..Max(0, size)];
    ghost var whole := TcpStream.SendAll(part, socket.script);
    while total < size
      invariant total <= |part|
      invariant socket.stream == old(socket.stream) && socket.polls == old(socket.polls)
      invariant var r := TcpStream.SendAll(part[total..], socket.script);
                && r.ok == whole.ok && r.script == whole.script
                && socket.wire + r.taken == old(socket.wire) + whole.taken
      decreases size - total
    {
      ghost var rest := part[total..];
      assert rest == data[total..size];
      ghost var wire, script := socket.wire, socket.script;
      var sent := socket.Send(data[total..size]);
      if sent <= 0 {
        return false;
      }
      assert rest[sent..] == part[total + sent..];
      Assoc(wire, rest[..sent], TcpStream.SendAll(rest[sent..], TcpStream.Rest(script)).taken);
      total := total + sent;
    }
    return true;
  }

  /** One round of the loop: what `recv` returned, in front of what the rest of the loop will return. */
  lemma RecvAllRound(want: nat, stream: bytes, script: TcpStream.Script)
    requires want > 0
    ensures var n := Min(TcpStream.Grant(script, want), |stream|);
            var r := TcpStream.RecvAll(want, stream, script);
            && (n <= 0 ==> r == TcpStream.Received(false, [], stream, TcpStream.Rest(script)))
            && (n > 0 ==> var more := TcpStream.RecvAll(want - n, stream[n..], TcpStream.Rest(script));
                          && r.ok == more.ok && r.stream == more.stream && r.script == more.script
                          && r.got == stream[..n] + more.got)
  {
  }

  /** With a size of 0 or less the loop is not entered, and that counts as success. */
  method RecvAll(socket: Socket, buffer: array<byte>, start: nat, size: int) returns (ok: bool)
    requires size > 0 ==> start + size <= buffer.Length
    modifies socket, buffer
    ensures var r := TcpStream.RecvAll(Max(0, size), old(socket.stream), old(socket.script));
            && ok == r.ok && socket.script == r.script && socket.stream == r.stream && |r.got| <= Max(0, size)
            && (size > 0 ==> buffer[..] == Stored(old(buffer[..]), start, r.got))
    ensures size <= 0 ==> buffer[..] == old(buffer[..])
    ensures socket.wire == old(socket.wire) && socket.polls == old(socket.polls)
  {
    hide TcpStream.RecvAll, TcpStream.Grant, TcpStream.Rest, Stored;
    var total := 0;
    ghost var want := Max(0, size);
    ghost var whole := TcpStream.RecvAll(want, socket.stream, socket.script);
    ghost var before, got := buffer[..], [];
    TcpStream.RecvAllConserves(want, socket.stream, socket.script);
    if size > 0 {
      StoredNothing(before, start);
    }
    while total < size
      invariant 0 <= total <= want && total == |got|
      invariant if size > 0 then buffer[..] == Stored(before, start, got) else buffer[..] == before
      invariant socket.wire == old(socket.wire) && socket.polls == old(socket.polls)
      invariant var r := TcpStream.RecvAll(want - total, socket.stream, socket.script);
                && r.ok == whole.ok && r.script == whole.script && r.stream == whole.stream
                && got + r.got == whole.got
      decreases size - total
    {
      ghost var stream, script := socket.stream, socket.script;
      RecvAllRound(size - total, stream, script);
      var received := socket.Recv(buffer, start + total, size - total);
      if received <= 0 {
        StoredTwice(before, start, got, []);
        assert got + [] == got;
        return false;
      }
      StoredTwice(before, start, got, stream[..received]);
      Assoc(got, stream[..received], TcpStream.RecvAll(size - total - received, socket.stream, socket.script).got);
      got := got + stream[..received];
      total := total + received;
    }
    RecvNothing(socket.stream, socket.script);
    assert got + [] == got;
    return true;
  }

  lemma RecvNothing(stream: bytes, script: TcpStream.Script)
    ensures TcpStream.RecvAll(0, stream, script) == TcpStream.Received(true, [], stream, script)
  {
  }

  lemma StoredNothing(b: bytes, start: nat)
    requires start <= |b|
    ensures Stored(b, start, []) == b
  {
  }

  lemma StoredWhole(b: bytes, got: bytes)
    requires |got| == |b|
    ensures Stored(b, 0, got) == got
  {
  }

  /** Storing the body behind the header of a resized buffer gives header and body. */
  lemma HeaderAndBody(header: bytes, body: bytes)
    requires |header| == 8
    ensures Stored(TcpStream.Resize(header, 8 + |body|), 8, body) == header + body
  {
    var b := TcpStream.Resize(header, 8 + |body|);
    assert b[..8] == header && b[8 + |body|..] == [];
  }

  method ReadU32BE(data: bytes) returns (value: nat)
    requires |data| == 4
    ensures value == FromBigEndian(data)
  {
    WeighedDigits(data);
    return Join4(data[0], data[1], data[2], data[3]);
  }

  lemma PositiveSize(remaining: u32)
    ensures TcpStream.Int32(remaining) > 0 ==>
            TcpStream.Int32(remaining) == remaining && U32(8 + remaining) == 8 + remaining
  {
  }

  /** The header copied into a vector that is then resized. */
  method HeaderResized(header: array<byte>, size: nat) returns (buffer: array<byte>)
    requires header.Length == 8
    ensures fresh(buffer) && buffer[..] == TcpStream.Resize(header[..], size)
  {
    buffer := new byte[size](_ => 0);
    forall i | 0 <= i < Min(8, size) {
      buffer[i] := header[i];
    }
  }

  class TcpByteTransport {
    /** `socket_handle_`, 0 when there is no connection. */
    var handle: nat
    const socket: Socket

    constructor (handle: nat, socket: Socket)
      ensures this.handle == handle && this.socket == socket
    {
      this.handle, this.socket := handle, socket;
    }

    ghost function Now(): TcpStream.Link
      reads this, socket
    {
      TcpStream.Link(handle != 0, socket.stream, socket.wire, socket.script, socket.polls)
    }

    method SendBytes(data: bytes) returns (ok: bool)
      modifies socket
      ensures (Now(), ok) == TcpStream.Write(old(Now()), data)
    {
      if handle == 0 || data == [] {
        assert socket.wire + [] == socket.wire;
        return false;
      }
      ok := SendAll(socket, data, TcpStream.Int32(|data|));
    }

    method ReceiveBody(header: array<byte>) returns (frame: Option<bytes>)
      requires header.Length == 8
      modifies socket
      ensures TcpStream.Incoming(frame, socket.stream, socket.script)
           == TcpStream.ReceiveBody(header[..], old(socket.stream), old(socket.script))
      ensures socket.wire == old(socket.wire) && socket.polls == old(socket.polls)
    {
      hide TcpStream.RecvAll, FromBigEndian, Stored, TcpStream.Resize, TcpStream.Int32, U32;
      var payloadSize := ReadU32BE(header[4..8]);
      var remaining: nat := U32(payloadSize + 4);
      var buffer := HeaderResized(header, U32(8 + remaining));
      var size := TcpStream.Int32(remaining);
      PositiveSize(remaining);
      ghost var body := TcpStream.RecvAll(Max(0, size), socket.stream, socket.script);
      TcpStream.RecvAllConserves(Max(0, size), socket.stream, socket.script);
      RecvNothing(socket.stream, socket.script);
      var bodyOk := RecvAll(socket, buffer, 8, size);
      if !bodyOk {
        return None;
      }
      if size > 0 {
        HeaderAndBody(header[..], body.got);
      }
      return Some(buffer[..]);
    }

    method ReceiveBytes() returns (frame: Option<bytes>)
      modifies socket
      ensures (Now(), frame) == TcpStream.Read(old(Now()))
    {
      hide TcpStream.RecvAll, TcpStream.ReceiveBody, Stored;
      if handle == 0 {
        return None;
      }
      var header := new byte[8](_ => 0);
      ghost var zeros := header[..];
      ghost var head := TcpStream.RecvAll(8, socket.stream, socket.script);
      TcpStream.RecvAllConserves(8, socket.stream, socket.script);
      var headOk := RecvAll(socket, header, 0, 8);
      if !headOk {
        return None;
      }
      StoredWhole(zeros, head.got);
      frame := ReceiveBody(header);
    }

    method Empty() returns (empty: bool)
      modifies socket
      ensures (Now(), empty) == TcpStream.Poll(old(Now()))
    {
      if handle == 0 {
        return true;
      }
      var result := socket.Select();
      return result <= 0;
    }
  }
}
