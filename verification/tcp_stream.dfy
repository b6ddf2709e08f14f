/**
 The TCP segmenter (core/src/tcp_byte_transport.cpp) as functions of a byte stream and of what the
 operating system answers. `script` lists the return values of the coming `send` or `recv` calls, cut
 down to what was asked for and what is there: a value of 0 or less is a failed call, and when the
 script is used up every call is served in full.
 */
module TcpStream {
  import opened Bytes
  import opened Messages
  import opened Envelopes
  import Frames
  import Protocols

  type Script = seq<int>

  /** `static_cast<int>`. */
  function Int32(n: int): (r: int)
    ensures 0 <= n < TWO31 ==> r == n
    ensures r < TWO31
  {
    (n + TWO31) % TWO32 - TWO31
  }

  function Grant(script: Script, wanted: nat): (n: int)
    ensures n <= wanted
  {
    if script == [] then wanted else Min(script[0], wanted)
  }

  function Rest(script: Script): Script {
    if script == [] then [] else script[1..]
  }

  /** No call fails. */
  predicate Healthy(script: Script) {
    forall i | 0 <= i < |script| :: script[i] > 0
  }

  datatype Sent = Sent(ok: bool, taken: bytes, script: Script)

  function SendAll(data: bytes, script: Script): Sent {
    if data == [] then Sent(true, [], script) else
    var n := Grant(script, |data|);
    if n <= 0 then Sent(false, [], Rest(script)) else
    var r := SendAll(data[n..], Rest(script));
    Sent(r.ok, data[..n] + r.taken, r.script)
  }

  datatype Received = Received(ok: bool, got: bytes, stream: bytes, script: Script)

  function RecvAll(want: nat, stream: bytes, script: Script): Received
    decreases want
  {
    if want == 0 then Received(true, [], stream, script) else
    var n := Min(Grant(script, want), |stream|);
    if n <= 0 then Received(false, [], stream, Rest(script)) else
    var r := RecvAll(want - n, stream[n..], Rest(script));
    Received(r.ok, stream[..n] + r.got, r.stream, r.script)
  }

  /** `send_bytes` on an open socket. */
  function SendBytes(data: bytes, script: Script): Sent {
    if data == [] then Sent(false, [], script)
    else SendAll(data[..Max(0, Int32(|data|))], script)
  }

  /** `std::vector::resize`. */
  function Resize(s: bytes, n: nat): (r: bytes)
    ensures |r| == n
  {
    if n <= |s| then s[..n] else s + seq(n - |s|, _ => 0)
  }

  datatype Incoming = Incoming(frame: Option<bytes>, stream: bytes, script: Script)

  /** The number of bytes still to come after a header, in 32-bit unsigned arithmetic. */
  function Remaining(header: bytes): u32
    requires |header| == 8
  {
    U32(FromBigEndian(header[4..8]) + 4)
  }

  /** The part of `receive_bytes` after the header has come in. */
  function ReceiveBody(header: bytes, stream: bytes, script: Script): Incoming
    requires |header| == 8
  {
    var n := Int32(Remaining(header));
    if n <= 0 then Incoming(Some(Resize(header, U32(8 + Remaining(header)))), stream, script) else
    var body := RecvAll(n, stream, script);
    Incoming(if body.ok then Some(header + body.got) else None, body.stream, body.script)
  }

  /** `receive_bytes` on an open socket. */
  function ReceiveBytes(stream: bytes, script: Script): Incoming {
    var head := RecvAll(8, stream, script);
    RecvAllConserves(8, stream, script);
    if head.ok then ReceiveBody(head.got, head.stream, head.script) else Incoming(None, head.stream, head.script)
  }

  /**
   A transport object: whether it is connected, what is still to be read, what was written, what the next `send`
   or `recv` calls return, and what the next `select` calls return, which is 0 once `polls` is used up.
   */
  datatype Link = Link(up: bool, stream: bytes, wire: bytes, script: Script, polls: seq<int>)

  /** `send_bytes`. */
  function Write(l: Link, data: bytes): (Link, bool) {
    if !l.up then (l, false) else
    var r := SendBytes(data, l.script);
    (l.(wire := l.wire + r.taken, script := r.script), r.ok)
  }

  /** `receive_bytes`. */
  function Read(l: Link): (Link, Option<bytes>) {
    if !l.up then (l, None) else
    var r := ReceiveBytes(l.stream, l.script);
    (l.(stream := r.stream, script := r.script), r.frame)
  }

  /** `empty`. */
  function Poll(l: Link): (Link, bool) {
    if !l.up || l.polls == [] then (l, true) else (l.(polls := l.polls[1..]), l.polls[0] <= 0)
  }

  // ---------------------------------------------------------------------------------------------
  // One transfer

  /** Success means everything was taken; failure leaves a strict prefix on the wire. */
  lemma {:induction false} SendAllTakes(data: bytes, script: Script)
    ensures var r := SendAll(data, script);
            && r.taken <= data && (r.ok <==> r.taken == data)
            && (Healthy(script) ==> r.ok && Healthy(r.script))
    decreases |data|
  {
    if data != [] {
      var n := Grant(script, |data|);
      if n > 0 {
        SendAllTakes(data[n..], Rest(script));
        assert data == data[..n] + data[n..];
      }
    }
  }

  lemma Glue(stream: bytes, n: nat, got: bytes, left: bytes)
    requires n <= |stream| && got + left == stream[n..]
    ensures stream[..n] + got + left == stream
  {
    Assoc(stream[..n], got, left);
  }

  lemma HealthyRest(script: Script, wanted: nat)
    ensures Healthy(script) ==> Healthy(Rest(script)) && (wanted > 0 ==> Grant(script, wanted) > 0)
  {
  }

  /** However the bytes arrive, none is lost, doubled or moved; success means all were there. */
  lemma {:induction false} RecvAllConserves(want: nat, stream: bytes, script: Script)
    ensures var r := RecvAll(want, stream, script);
            && r.got + r.stream == stream && |r.got| <= want && (r.ok <==> |r.got| == want)
            && (Healthy(script) ==> Healthy(r.script) && (r.ok <==> want <= |stream|))
    decreases want
  {
    hide Healthy, Rest;
    HealthyRest(script, want);
    if want > 0 {
      var n := Min(Grant(script, want), |stream|);
      if n > 0 {
        var r := RecvAll(want - n, stream[n..], Rest(script));
        RecvAllConserves(want - n, stream[n..], Rest(script));
        Glue(stream, n, r.got, r.stream);
      }
    }
  }

  /**
   A successful `send_bytes` has written everything exactly when the size fits the `int` it is cast
   to; from 2^31 bytes on it reports success having written less.
   */
  lemma SendBytesComplete(data: bytes, script: Script)
    ensures var r := SendBytes(data, script);
            && r.taken <= data
            && (r.ok ==> (r.taken == data <==> |data| < TWO31))
            && (Healthy(script) ==> Healthy(r.script) && (r.ok <==> data != []))
            && (|data| < TWO31 && !r.ok && data != [] ==> r.taken < data)
  {
    var part := data[..Max(0, Int32(|data|))];
    SendAllTakes(part, script);
    if |data| < TWO31 {
      assert part == data;
    }
  }

  /** The cast keeps the low 32 bits and takes them as signed. */
  lemma Int32Exact(n: int)
    ensures 0 - TWO31 <= Int32(n) < TWO31 && Int32(n) % TWO32 == n % TWO32
  {
  }

  /** A successful `send_bytes` has written as many bytes from the front as the cast of their number says. */
  lemma SendBytesExact(data: bytes, script: Script)
    ensures var r := SendBytes(data, script);
            var n := Int32(|data|);
            && (r.ok ==> data != [] && r.taken == if n > 0 then data[..n] else [])
            && (data == [] ==> r == Sent(false, [], script))
            && (data != [] && n <= 0 ==> r == Sent(true, [], script))
  {
    hide Int32;
    SendAllTakes(data[..Max(0, Int32(|data|))], script);
  }

  /**
   What `receive_bytes` hands over, whatever stands on the stream: if the size in bytes 4 to 7, with 4 more in 32 bits,
   casts to a positive number, the first eight bytes and so many more; otherwise the first eight alone, in a buffer
   of eight and that many, in 32 bits, the rest of it zero. Without failures just a stream that is too short yields nothing.
   */
  lemma ReceivedExactly(stream: bytes, script: Script)
    ensures var r := ReceiveBytes(stream, script);
            && (r.frame.Some? ==> |stream| >= 8)
            && (|stream| >= 8 ==>
                var rest := (FromBigEndian(stream[4..8]) + 4) % TWO32;
                var n := Int32(rest);
                && (r.frame.Some? && n > 0 ==>
                    8 + n <= |stream| && r.frame.value == stream[..8 + n] && r.stream == stream[8 + n..])
                && (r.frame.Some? && n <= 0 ==>
                    && r.stream == stream[8..] && |r.frame.value| == (8 + rest) % TWO32
                    && forall i | 0 <= i < |r.frame.value| :: r.frame.value[i] == if i < 8 then stream[i] else 0)
                && (Healthy(script) ==> (r.frame.Some? <==> |stream| >= 8 + Max(0, n))))
            && (Healthy(script) && |stream| < 8 ==> r.frame.None?)
  {
    hide RecvAll, FromBigEndian, Int32;
    RecvAllConserves(8, stream, script);
    var head := RecvAll(8, stream, script);
    if |stream| >= 8 && head.ok {
      Fronts(stream, head.got, head.stream);
      assert head.got[4..8] == stream[4..8];
      var n := Int32(Remaining(head.got));
      if n > 0 {
        RecvAllConserves(n, head.stream, head.script);
        var body := RecvAll(n, head.stream, head.script);
        if body.ok {
          Fronts(head.stream, body.got, body.stream);
          assert stream[..8 + n] == stream[..8] + stream[8..][..n];
        }
      }
    }
  }

  lemma Fronts(stream: bytes, got: bytes, left: bytes)
    requires got + left == stream
    ensures got == stream[..|got|] && left == stream[|got|..]
  {
  }

  /** The first eight bytes of a frame announce how many follow, up to the 32-bit wrap. */
  lemma HeaderAnnounces(p: bytes)
    ensures |Frames.Encode(p)| == |p| + 12
    ensures FromBigEndian(Frames.Encode(p)[4..8]) == U32(|p|) && U32(U32(|p|) + 4) == U32(|p| + 4)
  {
    hide Frames.Encode, BigEndian, FromBigEndian, Frames.Checksum;
    var f := Frames.Encode(p);
    Frames.Layout(f, p);
    Widths();
    BigEndianExact(f[4..8], U32(|p|));
  }

  lemma FrontOf(f: bytes, rest: bytes, got: bytes, left: bytes)
    requires got + left == f + rest && |got| <= |f|
    ensures got == f[..|got|] && left == f[|got|..] + rest
  {
    assert got == (got + left)[..|got|] && left == (got + left)[|got|..];
  }

  lemma HeaderReceived(p: bytes, rest: bytes, script: Script)
    ensures var f := Frames.Encode(p);
            var head := RecvAll(8, f + rest, script);
            && |f| == |p| + 12
            && (head.ok ==> |head.got| == 8 && head.got == f[..8] && head.stream == f[8..] + rest
                            && Remaining(head.got) == U32(|p| + 4))
  {
    hide Frames.Encode, RecvAll, FromBigEndian;
    var f := Frames.Encode(p);
    HeaderAnnounces(p);
    var head := RecvAll(8, f + rest, script);
    RecvAllConserves(8, f + rest, script);
    if head.ok {
      FrontOf(f, rest, head.got, head.stream);
      assert head.got[4..8] == f[4..8];
    }
  }

  /** Where a frame of TCP size stands at the front of the stream, it is what `receive_bytes` returns. */
  lemma FrameReceived(p: bytes, rest: bytes, script: Script)
    requires |p| + 4 < TWO31
    ensures var r := ReceiveBytes(Frames.Encode(p) + rest, script);
            && (r.frame.Some? ==> r.frame.value == Frames.Encode(p) && r.stream == rest)
            && (Healthy(script) ==> r.frame.Some? && Healthy(r.script))
  {
    hide Frames.Encode, RecvAll, FromBigEndian;
    var f := Frames.Encode(p);
    HeaderReceived(p, rest, script);
    RecvAllConserves(8, f + rest, script);
    var head := RecvAll(8, f + rest, script);
    if head.ok {
      var body := RecvAll(|p| + 4, head.stream, head.script);
      RecvAllConserves(|p| + 4, head.stream, head.script);
      if body.ok {
        FrontOf(f[8..], rest, body.got, body.stream);
      }
    }
  }

  /** Whatever comes in, what is handed over is shorter than 2^32 bytes and no shorter than what was read. */
  lemma ReceivedLength(stream: bytes, script: Script)
    ensures var r := ReceiveBytes(stream, script);
            r.frame.Some? ==>
              && |r.frame.value| < TWO32 && |r.stream| <= |stream|
              && (|r.frame.value| >= 8 ==> |stream| <= |r.frame.value| + |r.stream|)
  {
    hide RecvAll, FromBigEndian;
    RecvAllConserves(8, stream, script);
    var head := RecvAll(8, stream, script);
    if head.ok {
      var n := Int32(Remaining(head.got));
      if n > 0 {
        RecvAllConserves(n, head.stream, head.script);
      }
    }
  }

  /** A frame whose size after the header does not fit an `int` is cut short, or taken without being read. */
  lemma LongFrameMissed(p: bytes, rest: bytes, script: Script)
    requires TWO31 <= |p| + 4
    ensures var r := ReceiveBytes(Frames.Encode(p) + rest, script);
            && (r.frame.Some? ==> r.frame.value != Frames.Encode(p) || r.stream != rest)
            && (Healthy(script) ==> r.frame.Some? && Healthy(r.script))
  {
    hide Frames.Encode, RecvAll, FromBigEndian;
    var f := Frames.Encode(p);
    HeaderReceived(p, rest, script);
    RecvAllConserves(8, f + rest, script);
    var head := RecvAll(8, f + rest, script);
    var n := Int32(U32(|p| + 4));
    assert n < |p| + 4;
    if head.ok && n > 0 {
      RecvAllConserves(n, head.stream, head.script);
    }
  }

  /**
   What a completed `receive_bytes` hands over is the frame at the front of the stream, ending on its
   boundary, exactly when the part after the header fits an `int`.
   */
  lemma ReceiveBytesExact(p: bytes, rest: bytes, script: Script)
    ensures var r := ReceiveBytes(Frames.Encode(p) + rest, script);
            && (r.frame.Some? ==> (r.frame.value == Frames.Encode(p) && r.stream == rest <==> |p| + 4 < TWO31))
            && (Healthy(script) ==> r.frame.Some? && Healthy(r.script))
  {
    hide ReceiveBytes, Frames.Encode;
    if |p| + 4 < TWO31 {
      FrameReceived(p, rest, script);
    } else {
      LongFrameMissed(p, rest, script);
    }
  }

  /** A frame that breaks off is never handed over. */
  lemma BrokenFrameNotReceived(p: bytes, k: nat, script: Script)
    requires |p| + 4 < TWO31 && k < |p| + 12 == |Frames.Encode(p)|
    ensures ReceiveBytes(Frames.Encode(p)[..k], script).frame.None?
  {
    hide Frames.Encode, RecvAll, FromBigEndian;
    var f := Frames.Encode(p);
    var head := RecvAll(8, f[..k], script);
    HeaderAnnounces(p);
    RecvAllConserves(8, f[..k], script);
    RecvAllConserves(|p| + 4, head.stream, head.script);
    if head.ok {
      assert head.got == f[..k][..8];
      assert head.got[4..8] == f[4..8];
    }
  }

  /** A long frame is handed over though its last byte is missing. */
  lemma LongFrameBroken(p: bytes)
    requires TWO31 <= |p| + 4 && |Frames.Encode(p)| == |p| + 12
    ensures ReceiveBytes(Frames.Encode(p)[..|p| + 11], []).frame.Some?
  {
    hide Frames.Encode, RecvAll, FromBigEndian;
    var f := Frames.Encode(p);
    var k := |p| + 11;
    var head := RecvAll(8, f[..k], []);
    HeaderAnnounces(p);
    RecvAllConserves(8, f[..k], []);
    assert head.got == f[..k][..8];
    assert head.got[4..8] == f[4..8];
    var n := Int32(U32(|p| + 4));
    if n > 0 {
      assert n <= |p| + 3;
      RecvAllConserves(n, head.stream, head.script);
    }
  }

  /** That a frame is never handed over after breaking off holds exactly when the part after the header fits an `int`. */
  lemma BrokenFrameExact(p: bytes)
    ensures |Frames.Encode(p)| == |p| + 12
    ensures (forall k: nat, script: Script | k < |p| + 12 :: ReceiveBytes(Frames.Encode(p)[..k], script).frame.None?) <==>
            |p| + 4 < TWO31
  {
    hide ReceiveBytes, Frames.Encode;
    Frames.Layout([], p);
    if |p| + 4 < TWO31 {
      forall k: nat, script: Script | k < |p| + 12
        ensures ReceiveBytes(Frames.Encode(p)[..k], script).frame.None?
      {
        BrokenFrameNotReceived(p, k, script);
      }
    } else {
      LongFrameBroken(p);
    }
  }

  // ---------------------------------------------------------------------------------------------
  // Many frames over one stream

  function Concat(ss: seq<bytes>): bytes {
    if ss == [] then [] else ss[0] + Concat(ss[1..])
  }

  /** Frames sent one after the other, up to the first failure. */
  function SendMany(fs: seq<bytes>, script: Script): Sent {
    if fs == [] then Sent(true, [], script) else
    var first := SendBytes(fs[0], script);
    if !first.ok then first else
    var r := SendMany(fs[1..], first.script);
    Sent(r.ok, first.taken + r.taken, r.script)
  }

  /** The same over a link, which may be down. */
  function WriteAll(l: Link, fs: seq<bytes>): (Link, bool)
    decreases |fs|
  {
    if fs == [] then (l, true) else
    var (next, ok) := Write(l, fs[0]);
    if ok then WriteAll(next, fs[1..]) else (next, false)
  }

  lemma {:induction false} WriteAllSends(l: Link, fs: seq<bytes>)
    requires l.up
    ensures var s := SendMany(fs, l.script);
            WriteAll(l, fs) == (l.(wire := l.wire + s.taken, script := s.script), s.ok)
    decreases |fs|
  {
    hide SendBytes;
    if fs == [] {
      assert l.wire + [] == l.wire;
    } else {
      var first := SendBytes(fs[0], l.script);
      if first.ok {
        WriteAllSends(Write(l, fs[0]).0, fs[1..]);
        Assoc(l.wire, first.taken, SendMany(fs[1..], first.script).taken);
      }
    }
  }

  lemma {:induction false} WriteAllLast(l: Link, fs: seq<bytes>, f: bytes)
    requires WriteAll(l, fs).1
    ensures WriteAll(l, fs + [f]) == Write(WriteAll(l, fs).0, f)
    decreases |fs|
  {
    hide Write;
    if fs == [] {
      assert fs + [f] == [f] && [f][1..] == [];
    } else {
      WriteAllLast(Write(l, fs[0]).0, fs[1..], f);
      assert (fs + [f])[1..] == fs[1..] + [f];
    }
  }

  /** Without a connection nothing is sent, received or waited for, and nothing changes. */
  lemma DownIsInert(l: Link, data: bytes)
    requires !l.up
    ensures Write(l, data) == (l, false) && Read(l) == (l, None) && Poll(l) == (l, true)
  {
  }

  datatype Inbox = Inbox(frames: seq<bytes>, stream: bytes)

  /** Up to `n` frames received one after the other, up to the first failure. */
  function ReceiveMany(n: nat, stream: bytes, script: Script): Inbox
    decreases n
  {
    if n == 0 then Inbox([], stream) else
    var r := ReceiveBytes(stream, script);
    if r.frame.None? then Inbox([], r.stream) else
    var more := ReceiveMany(n - 1, r.stream, r.script);
    Inbox([r.frame.value] + more.frames, more.stream)
  }

  function Framed(ps: seq<bytes>): (fs: seq<bytes>)
    ensures |fs| == |ps|
  {
    seq(|ps|, i requires 0 <= i < |ps| => Frames.Encode(ps[i]))
  }

  /** Every frame is shorter than 2^31 bytes. */
  predicate TcpSized(ps: seq<bytes>) {
    forall i | 0 <= i < |ps| :: |ps[i]| + 12 < TWO31
  }

  /** A frame of 2^31 bytes or more whose size, cast to `int`, is not above 0, so that nothing of it is sent. */
  predicate Dropped(p: bytes) {
    TWO31 <= |p| + 12 && Int32(|p| + 12) <= 0
  }

  /** Every frame is either shorter than 2^31 bytes or leaves nothing on the wire. */
  predicate Traceless(ps: seq<bytes>) {
    forall i | 0 <= i < |ps| :: |ps[i]| + 12 < TWO31 || Dropped(ps[i])
  }

  /** The part of every frame after its header is shorter than 2^31 bytes. */
  predicate Receivable(ps: seq<bytes>) {
    forall i | 0 <= i < |ps| :: |ps[i]| + 4 < TWO31
  }

  /** The payloads whose frames are shorter than 2^31 bytes. */
  function SizedOf(ps: seq<bytes>): seq<bytes> {
    if ps == [] then [] else (if |ps[0]| + 12 < TWO31 then [ps[0]] else []) + SizedOf(ps[1..])
  }

  lemma {:induction false} SizedOfExact(ps: seq<bytes>)
    ensures |SizedOf(ps)| <= |ps| && Receivable(SizedOf(ps))
    ensures |SizedOf(ps)| == |ps| <==> TcpSized(ps)
    ensures TcpSized(ps) ==> SizedOf(ps) == ps
  {
    if ps != [] {
      SizedOfExact(ps[1..]);
      var first: seq<bytes> := if |ps[0]| + 12 < TWO31 then [ps[0]] else [];
      var rest := SizedOf(ps[1..]);
      assert ps == [ps[0]] + ps[1..];
      forall i | 0 <= i < |first + rest|
        ensures |(first + rest)[i]| + 4 < TWO31
      {
        assert (first + rest)[i] == if i < |first| then first[i] else rest[i - |first|];
      }
    }
  }

  lemma SizesStep(ps: seq<bytes>)
    requires ps != []
    ensures TcpSized(ps) <==> |ps[0]| + 12 < TWO31 && TcpSized(ps[1..])
    ensures Traceless(ps) <==> (|ps[0]| + 12 < TWO31 || Dropped(ps[0])) && Traceless(ps[1..])
    ensures Receivable(ps) <==> |ps[0]| + 4 < TWO31 && Receivable(ps[1..])
  {
    assert ps == [ps[0]] + ps[1..];
  }

  lemma FramedStep(ps: seq<bytes>)
    requires ps != []
    ensures Framed(ps) == [Frames.Encode(ps[0])] + Framed(ps[1..])
    ensures Concat(Framed(ps)) == Frames.Encode(ps[0]) + Concat(Framed(ps[1..]))
    ensures |Frames.Encode(ps[0])| == |ps[0]| + 12
    ensures TcpSized(ps) <==> |ps[0]| + 12 < TWO31 && TcpSized(ps[1..])
    ensures Traceless(ps) <==> (|ps[0]| + 12 < TWO31 || Dropped(ps[0])) && Traceless(ps[1..])
    ensures Receivable(ps) <==> |ps[0]| + 4 < TWO31 && Receivable(ps[1..])
  {
    hide TcpSized, Traceless, Receivable, Frames.Encode;
    SizesStep(ps);
    Frames.Layout([], ps[0]);
    assert Framed(ps)[1..] == Framed(ps[1..]);
  }

  lemma NothingSized()
    ensures TcpSized([]) && Receivable([]) && Traceless([]) && SizedOf([]) == []
  {
  }

  lemma SizedStep(ps: seq<bytes>)
    requires ps != []
    ensures Concat(Framed(SizedOf(ps))) ==
            (if |ps[0]| + 12 < TWO31 then Frames.Encode(ps[0]) else []) + Concat(Framed(SizedOf(ps[1..])))
  {
    hide Frames.Encode, Framed;
    var rest := SizedOf(ps[1..]);
    if |ps[0]| + 12 < TWO31 {
      assert SizedOf(ps)[0] == ps[0] && SizedOf(ps)[1..] == rest;
      FramedStep(SizedOf(ps));
    } else {
      assert SizedOf(ps) == rest;
    }
  }

  /** A send of 2^31 bytes or more that succeeds takes nothing exactly when its size, cast to `int`, is not above 0. */
  lemma LongFrameTaken(f: bytes, script: Script)
    requires TWO31 <= |f|
    ensures SendBytes(f, script).ok ==> (SendBytes(f, script).taken == [] <==> Int32(|f|) <= 0)
    ensures Int32(|f|) <= 0 ==> SendBytes(f, script) == Sent(true, [], script)
  {
    SendAllTakes(f[..Max(0, Int32(|f|))], script);
  }

  /** Two byte strings that are no longer than two others make up as much as these only if each is as long. */
  lemma Splits(a: bytes, b: bytes, f: bytes, g: bytes)
    requires a <= f && |b| <= |g|
    ensures |a + b| <= |f + g|
    ensures a + b == f + g <==> a == f && b == g
  {
    if a + b == f + g {
      assert a == (a + b)[..|a|] && b == (a + b)[|a|..];
      assert g == (f + g)[|f|..];
    }
  }

  /**
   Whatever the sizes of the partial sends: when every send succeeds, the wire carries the frames end to end
   exactly if all are shorter than 2^31 bytes.
   */
  lemma {:induction false} WireExact(ps: seq<bytes>, script: Script)
    ensures var s := SendMany(Framed(ps), script);
            && |s.taken| <= |Concat(Framed(ps))|
            && (s.ok ==> (s.taken == Concat(Framed(ps)) <==> TcpSized(ps)))
            && (Healthy(script) ==> s.ok)
  {
    hide Frames.Encode, SendBytes, Framed, Healthy, TcpSized, Traceless, Receivable;
    if ps == [] {
      NothingSized();
    } else {
      var f := Frames.Encode(ps[0]);
      FramedStep(ps);
      SendBytesComplete(f, script);
      WireExact(ps[1..], SendBytes(f, script).script);
      Splits(SendBytes(f, script).taken, SendMany(Framed(ps[1..]), SendBytes(f, script).script).taken,
             f, Concat(Framed(ps[1..])));
    }
  }

  /**
   Whether or not a call fails: if every frame of 2^31 bytes or more leaves nothing on the wire, though its send
   succeeds, then the wire carries a prefix of the others end to end, all of them when every send succeeds.
   */
  lemma {:induction false} WireHoldsFrames(ps: seq<bytes>, script: Script)
    requires Traceless(ps)
    ensures var s := SendMany(Framed(ps), script);
            var whole := Concat(Framed(SizedOf(ps)));
            && s.taken <= whole && (s.ok ==> s.taken == whole) && (Healthy(script) ==> s.ok)
  {
    hide Frames.Encode, SendBytes, Framed, Healthy, TcpSized, Traceless, Receivable, SizedOf;
    if ps == [] {
      NothingSized();
    } else {
      var f := Frames.Encode(ps[0]);
      FramedStep(ps);
      SizedStep(ps);
      SendBytesComplete(f, script);
      WireHoldsFrames(ps[1..], SendBytes(f, script).script);
      if |f| >= TWO31 {
        LongFrameTaken(f, script);
      }
    }
  }

  /** A frame that is neither short nor dropped leaves more on the wire than the short ones make up. */
  lemma {:induction false} WireLength(ps: seq<bytes>, script: Script)
    ensures var s := SendMany(Framed(ps), script);
            s.ok ==>
              && |s.taken| >= |Concat(Framed(SizedOf(ps)))|
              && (|s.taken| == |Concat(Framed(SizedOf(ps)))| ==> Traceless(ps))
  {
    hide Frames.Encode, SendBytes, Framed, Healthy, TcpSized, Traceless, Receivable, SizedOf, Int32;
    if ps == [] {
      NothingSized();
    } else {
      var f := Frames.Encode(ps[0]);
      FramedStep(ps);
      SizedStep(ps);
      SendBytesComplete(f, script);
      WireLength(ps[1..], SendBytes(f, script).script);
      if |f| >= TWO31 {
        LongFrameTaken(f, script);
      }
    }
  }

  /**
   When every send succeeds, the wire carries just the frames shorter than 2^31 bytes, end to end, exactly if
   every other frame has a size that, cast to `int`, is not above 0.
   */
  lemma WireHoldsExact(ps: seq<bytes>, script: Script)
    ensures var s := SendMany(Framed(ps), script);
            s.ok ==> (s.taken == Concat(Framed(SizedOf(ps))) <==> Traceless(ps))
  {
    hide SendMany, Framed, Concat, SizedOf, Traceless;
    WireLength(ps, script);
    if Traceless(ps) {
      WireHoldsFrames(ps, script);
    }
  }

  /**
   Whatever the sizes of the partial reads, and whether or not a call fails: from any prefix of the
   frames end to end, the frames received are the first of those sent, in order; if the stream is
   complete and no read fails, they are all of them, and nothing is left.
   */
  lemma {:induction false} FramesReceived(ps: seq<bytes>, stream: bytes, script: Script, n: nat)
    requires Receivable(ps) && stream <= Concat(Framed(ps))
    ensures ReceiveMany(n, stream, script).frames <= Framed(ps)
    ensures Healthy(script) && stream == Concat(Framed(ps)) && n >= |ps| ==>
            ReceiveMany(n, stream, script) == Inbox(Framed(ps), [])
    decreases |ps|
  {
    hide Frames.Encode, RecvAll, ReceiveBytes, Framed, Healthy, TcpSized, Traceless, Receivable;
    if ps == [] {
      NothingReceived(script);
    } else if n > 0 {
      var f := Frames.Encode(ps[0]);
      FramedStep(ps);
      if |stream| < |f| {
        assert stream == f[..|stream|];
        BrokenFrameNotReceived(ps[0], |stream|, script);
      } else {
        var rest := stream[|f|..];
        assert stream == f + rest;
        FrameReceived(ps[0], rest, script);
        var r := ReceiveBytes(stream, script);
        if r.frame.Some? {
          FramesReceived(ps[1..], rest, r.script, n - 1);
        }
      }
    }
  }

  lemma NothingReceived(script: Script)
    ensures ReceiveBytes([], script).frame.None? && ReceiveBytes([], script).stream == []
  {
    RecvAllConserves(8, [], script);
  }

  /** Frames received are no shorter than what was read for them. */
  lemma {:induction false} ReceivedAtLeastRead(ps: seq<bytes>, stream: bytes, script: Script, n: nat)
    requires ReceiveMany(n, stream, script).frames == Framed(ps)
    ensures n >= |ps|
    ensures ReceiveMany(n, stream, script).stream == [] && n == |ps| ==> |stream| <= |Concat(Framed(ps))|
    decreases |ps|
  {
    hide Frames.Encode, ReceiveBytes, Framed, TcpSized, Traceless, Receivable;
    if ps != [] {
      FramedStep(ps);
      var r := ReceiveBytes(stream, script);
      ReceivedLength(stream, script);
      assert ReceiveMany(n - 1, r.stream, r.script).frames == Framed(ps)[1..];
      ReceivedAtLeastRead(ps[1..], r.stream, r.script, n - 1);
    }
  }

  /** From the whole stream, exactly the frames are received if and only if the part of each after its header fits an `int`. */
  lemma {:induction false} FramesReceivedExact(ps: seq<bytes>, script: Script)
    requires Healthy(script)
    ensures ReceiveMany(|ps|, Concat(Framed(ps)), script) == Inbox(Framed(ps), []) <==> Receivable(ps)
    decreases |ps|
  {
    hide Frames.Encode, ReceiveBytes, Framed, Healthy, TcpSized, Traceless, Receivable;
    var stream := Concat(Framed(ps));
    NothingSized();
    if Receivable(ps) {
      FramesReceived(ps, stream, script, |ps|);
    } else if ReceiveMany(|ps|, stream, script) == Inbox(Framed(ps), []) {
      var f := Frames.Encode(ps[0]);
      var rest := Concat(Framed(ps[1..]));
      var r := ReceiveBytes(stream, script);
      FramedStep(ps);
      ReceiveBytesExact(ps[0], rest, script);
      ReceivedLength(stream, script);
      assert ReceiveMany(|ps| - 1, r.stream, r.script).frames == Framed(ps)[1..];
      ReceivedAtLeastRead(ps[1..], r.stream, r.script, |ps| - 1);
      StreamLeft(stream, f, rest, script);
      FramesReceivedExact(ps[1..], r.script);
    }
  }

  /** What is left after a frame is an end of the stream. */
  lemma StreamLeft(stream: bytes, f: bytes, rest: bytes, script: Script)
    requires stream == f + rest && |ReceiveBytes(stream, script).stream| == |rest|
    ensures ReceiveBytes(stream, script).stream == rest
  {
    hide RecvAll, FromBigEndian;
    RecvAllConserves(8, stream, script);
    var head := RecvAll(8, stream, script);
    SameEnd(head.got, head.stream, f, rest);
    if head.ok {
      var n := Int32(Remaining(head.got));
      if n > 0 {
        var body := RecvAll(n, head.stream, head.script);
        RecvAllConserves(n, head.stream, head.script);
        Assoc(head.got, body.got, body.stream);
        SameEnd(head.got + body.got, body.stream, f, rest);
      }
    }
  }

  lemma SameEnd(a: bytes, b: bytes, c: bytes, d: bytes)
    requires a + b == c + d
    ensures |b| == |d| ==> b == d
  {
    if |b| == |d| {
      assert b == (a + b)[|a|..] && d == (c + d)[|c|..];
    }
  }

  /** Frames that were received are shorter than 2^32 bytes, so a long one among them would have left no trace. */
  lemma {:induction false} ReceivedTraceless(ps: seq<bytes>, stream: bytes, script: Script, n: nat)
    requires ReceiveMany(n, stream, script).frames == Framed(ps)
    ensures Traceless(ps)
    decreases |ps|
  {
    hide Frames.Encode, ReceiveBytes, Framed, TcpSized, Traceless, Receivable;
    if ps == [] {
      NothingSized();
    } else {
      FramedStep(ps);
      var r := ReceiveBytes(stream, script);
      ReceivedLength(stream, script);
      assert ReceiveMany(n - 1, r.stream, r.script).frames == Framed(ps)[1..];
      ReceivedTraceless(ps[1..], r.stream, r.script, n - 1);
    }
  }

  /**
   Stream reassembly. However the sends and the receives are chopped up, and wherever one fails, the receiver
   gets the first of the frames sent that are shorter than 2^31 bytes, unchanged and in order, and without
   failures all of these, if the others leave nothing on the wire.
   */
  lemma ReassemblesSized(ps: seq<bytes>, sends: Script, receives: Script, n: nat)
    requires Traceless(ps)
    ensures var sent := SendMany(Framed(ps), sends);
            && ReceiveMany(n, sent.taken, receives).frames <= Framed(SizedOf(ps))
            && (Healthy(sends) ==> sent.ok)
            && (sent.ok && Healthy(receives) && n >= |SizedOf(ps)| ==>
                ReceiveMany(n, sent.taken, receives) == Inbox(Framed(SizedOf(ps)), []))
  {
    hide Framed, SendMany, ReceiveMany, SizedOf, Healthy, Traceless, Receivable;
    SizedOfExact(ps);
    WireHoldsFrames(ps, sends);
    FramesReceived(SizedOf(ps), SendMany(Framed(ps), sends).taken, receives, n);
  }

  /**
   Without failures, just the frames shorter than 2^31 bytes come in and use up the stream exactly when the others
   leave nothing on it.
   */
  lemma ReassemblesSizedExact(ps: seq<bytes>, sends: Script, receives: Script)
    requires SendMany(Framed(ps), sends).ok && Healthy(receives)
    ensures ReceiveMany(|SizedOf(ps)|, SendMany(Framed(ps), sends).taken, receives) == Inbox(Framed(SizedOf(ps)), []) <==>
            Traceless(ps)
  {
    hide Framed, SendMany, ReceiveMany, SizedOf, Healthy, Traceless, Concat;
    var wire := SendMany(Framed(ps), sends).taken;
    var sized := SizedOf(ps);
    WireLength(ps, sends);
    if Traceless(ps) {
      ReassemblesSized(ps, sends, receives, |sized|);
    } else if ReceiveMany(|sized|, wire, receives) == Inbox(Framed(sized), []) {
      ReceivedAtLeastRead(sized, wire, receives, |sized|);
    }
  }

  /**
   The receiver can only ever get all the frames, and without failures does get them with nothing left over,
   exactly when each is shorter than 2^31 bytes; then what it gets is always the first of those sent.
   */
  lemma StreamReassembly(ps: seq<bytes>, sends: Script, receives: Script, n: nat)
    ensures var sent := SendMany(Framed(ps), sends);
            var inbox := ReceiveMany(n, sent.taken, receives);
            && (TcpSized(ps) ==> inbox.frames <= Framed(ps))
            && (inbox.frames == Framed(ps) ==> TcpSized(ps))
            && (Healthy(sends) && Healthy(receives) && n >= |ps| ==>
                sent.ok && (inbox == Inbox(Framed(ps), []) <==> TcpSized(ps)))
  {
    hide Frames.Encode, Framed, SendMany, ReceiveMany, SizedOf, Healthy, Receivable, Int32;
    var inbox := ReceiveMany(n, SendMany(Framed(ps), sends).taken, receives);
    SizedOfExact(ps);
    WireExact(ps, sends);
    if inbox.frames == Framed(ps) {
      ReceivedTraceless(ps, SendMany(Framed(ps), sends).taken, receives, n);
    }
    if Traceless(ps) {
      ReassemblesSized(ps, sends, receives, n);
    }
  }

  // ---------------------------------------------------------------------------------------------
  // Messages end to end

  function Packets(ms: seq<Message>): (ps: seq<bytes>)
    ensures |ps| == |ms|
  {
    seq(|ms|, i requires 0 <= i < |ms| => Protocols.Encode(ms[i]))
  }

  /** The frame of every message is shorter than 2^31 bytes. */
  predicate MessagesSized(ms: seq<Message>) {
    forall i | 0 <= i < |ms| :: Protocols.Size(ms[i]) + 12 < TWO31
  }

  /** The frames decode to the first of the messages. */
  ghost predicate Delivers(frames: seq<bytes>, ms: seq<Message>) {
    |frames| <= |ms| && forall i | 0 <= i < |frames| :: MessageOf(frames[i]) == Some(ms[i])
  }

  lemma PacketsSized(ms: seq<Message>)
    ensures MessagesSized(ms) <==> TcpSized(Packets(ms))
    ensures forall i | 0 <= i < |ms| :: |Packets(ms)[i]| == Protocols.Size(ms[i])
    ensures forall i | 0 <= i < |ms| && Protocols.Size(ms[i]) < TWO32 :: MessageOf(Framed(Packets(ms))[i]) == Some(ms[i])
  {
    hide Protocols.Encode, MessageOf, Protocols.Size;
    forall i | 0 <= i < |ms|
      ensures |Packets(ms)[i]| == Protocols.Size(ms[i])
      ensures Protocols.Size(ms[i]) < TWO32 ==> MessageOf(Framed(Packets(ms))[i]) == Some(ms[i])
    {
      Protocols.EncodedSize(ms[i]);
      Carried(ms[i]);
      assert Framed(Packets(ms))[i] == FrameOf(ms[i]);
    }
  }

  /** A frame is longer than the message that it decodes to. */
  lemma DecodedIsShorter(frame: bytes)
    ensures MessageOf(frame).Some? ==> Protocols.Size(MessageOf(frame).value) + 12 <= |frame|
  {
    hide Frames.Decode, Protocols.Decode, Frames.Encode, Protocols.Encode, Protocols.Size;
    Frames.AcceptedIsEncoded(frame);
    if Frames.Decode(frame).Got? {
      Protocols.AcceptedIsEncoded(Frames.Decode(frame).value);
    }
  }

  /** Every frame handed over is shorter than 2^32 bytes. */
  lemma {:induction false} ReceivedFrameLength(stream: bytes, script: Script, n: nat)
    ensures forall frame | frame in ReceiveMany(n, stream, script).frames :: |frame| < TWO32
    decreases n
  {
    hide ReceiveBytes;
    if n > 0 {
      var r := ReceiveBytes(stream, script);
      ReceivedLength(stream, script);
      ReceivedFrameLength(r.stream, r.script, n - 1);
    }
  }

  /**
   Messages end to end: any list of messages, sent as frames over one stream, chopped up in any way on both
   sides, can come out whole and in order, and without failures does come out so with nothing left over, exactly
   when each frame is shorter than 2^31 bytes. If then a call fails somewhere, the messages received are still
   the first of those sent.
   */
  lemma MessagesEndToEnd(ms: seq<Message>, sends: Script, receives: Script, n: nat)
    ensures var wire := SendMany(Framed(Packets(ms)), sends).taken;
            var inbox := ReceiveMany(n, wire, receives);
            && (MessagesSized(ms) ==> Delivers(inbox.frames, ms))
            && (|inbox.frames| == |ms| && Delivers(inbox.frames, ms) ==> MessagesSized(ms))
            && (Healthy(sends) && Healthy(receives) && n >= |ms| ==>
                (|inbox.frames| == |ms| && Delivers(inbox.frames, ms) && inbox.stream == [] <==> MessagesSized(ms)))
  {
    hide Packets, Framed, SendMany, ReceiveMany, MessageOf, Protocols.Size, Healthy, TcpSized;
    var ps := Packets(ms);
    var wire := SendMany(Framed(ps), sends).taken;
    var inbox := ReceiveMany(n, wire, receives);
    PacketsSized(ms);
    StreamReassembly(ps, sends, receives, n);
    if |inbox.frames| == |ms| && Delivers(inbox.frames, ms) {
      ReceivedFrameLength(wire, receives, n);
      forall i | 0 <= i < |ms|
        ensures |ps[i]| + 12 < TWO32
      {
        assert inbox.frames[i] in inbox.frames;
        DecodedIsShorter(inbox.frames[i]);
      }
      ReassemblesSized(ps, sends, receives, n);
      SizedOfExact(ps);
    }
  }
}
