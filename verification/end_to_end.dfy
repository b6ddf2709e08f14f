/** LLM requests through all four layers: codec, packet, frame, and a chopped-up TCP stream. */
module EndToEnd {
  import opened Bytes
  import opened Messages
  import opened Envelopes
  import opened LlmCodec
  import opened LlmCodecLaws
  import opened TcpStream
  import Protocols

  function RequestMessages(rs: seq<Request>, source: bytes, target: bytes): (ms: seq<Message>)
    ensures |ms| == |rs|
  {
    seq(|rs|, i requires 0 <= i < |rs| => EncodeRequest(rs[i], source, target))
  }

  /** The request that the bytes handed over by `receive_bytes` hold, if any. */
  function RequestIn(frame: bytes): Option<Request> {
    match MessageOf(frame)
    case None => None
    case Some(m) =>
      match DecodeRequest(m)
      case Fail(_) => None
      case Got(r, _) => Some(r)
  }

  /** The frame of every request is shorter than 2^31 bytes. */
  predicate RequestsSized(rs: seq<Request>, source: bytes, target: bytes) {
    forall i | 0 <= i < |rs| :: 54 + |source| + |target| + RequestSize(rs[i]) < TWO31
  }

  /** The frames hold the first of the requests, each in the message that was made of it. */
  ghost predicate DeliversRequests(frames: seq<bytes>, rs: seq<Request>, source: bytes, target: bytes) {
    && |frames| <= |rs|
    && forall i | 0 <= i < |frames| ::
         RequestIn(frames[i]) == Some(rs[i]) && MessageOf(frames[i]) == Some(EncodeRequest(rs[i], source, target))
  }

  lemma RequestMessagesSized(rs: seq<Request>, source: bytes, target: bytes)
    ensures MessagesSized(RequestMessages(rs, source, target)) <==> RequestsSized(rs, source, target)
    ensures RequestsSized(rs, source, target) ==>
            forall i | 0 <= i < |rs| :: DecodeRequest(EncodeRequest(rs[i], source, target)) == Got(rs[i], RequestSize(rs[i]))
  {
    hide DecodeRequest, EncodeRequest, RequestSize, MessageOf, FrameOf, RequestFits, Protocols.Size;
    var ms := RequestMessages(rs, source, target);
    forall i | 0 <= i < |rs|
      ensures Protocols.Size(ms[i]) + 12 == 54 + |source| + |target| + RequestSize(rs[i])
      ensures RequestSize(rs[i]) < TWO32 ==>
              DecodeRequest(EncodeRequest(rs[i], source, target)) == Got(rs[i], RequestSize(rs[i]))
    {
      RequestCarried(rs[i], source, target);
      RequestRoundTrip(rs[i], source, target);
      SmallRequestFits(rs[i]);
    }
  }

  /**
   Any list of requests, each with any list of messages, sent over one stream that is chopped up in any way on
   either side, can come out as the same requests in the same order, and without failures does come out so with
   nothing left over, exactly when each frame is shorter than 2^31 bytes. If then a call fails somewhere, what
   comes out is still the first of what went in.
   */
  lemma RequestsEndToEnd(rs: seq<Request>, source: bytes, target: bytes, sends: Script, receives: Script, n: nat)
    ensures var wire := SendMany(Framed(Packets(RequestMessages(rs, source, target))), sends).taken;
            var inbox := ReceiveMany(n, wire, receives);
            && (RequestsSized(rs, source, target) ==> DeliversRequests(inbox.frames, rs, source, target))
            && (|inbox.frames| == |rs| && DeliversRequests(inbox.frames, rs, source, target) ==>
                RequestsSized(rs, source, target))
            && (Healthy(sends) && Healthy(receives) && n >= |rs| ==>
                (|inbox.frames| == |rs| && DeliversRequests(inbox.frames, rs, source, target) && inbox.stream == [] <==>
                 RequestsSized(rs, source, target)))
  {
    hide SendMany, ReceiveMany, MessageOf, DecodeRequest, EncodeRequest, Framed, Packets, Healthy, MessagesSized, RequestsSized;
    var ms := RequestMessages(rs, source, target);
    var inbox := ReceiveMany(n, SendMany(Framed(Packets(ms)), sends).taken, receives);
    RequestMessagesSized(rs, source, target);
    MessagesEndToEnd(ms, sends, receives, n);
    assert DeliversRequests(inbox.frames, rs, source, target) ==> Delivers(inbox.frames, ms);
    assert RequestsSized(rs, source, target) && Delivers(inbox.frames, ms) ==>
        DeliversRequests(inbox.frames, rs, source, target);
  }
}
