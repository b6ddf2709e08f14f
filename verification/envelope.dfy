/** A message inside a packet inside a frame, as `MessageByteAdapter` sends and receives it. */
module Envelopes {
  import opened Bytes
  import opened Messages
  import Frames
  import Protocols

  /** A message as a frame, the way `MessageByteAdapter` sends it. */
  function FrameOf(m: Message): bytes {
    Frames.Encode(Protocols.Encode(m))
  }

  /** A frame as a message, the way `MessageByteAdapter` receives it. */
  function MessageOf(frame: bytes): Option<Message> {
    match Frames.Decode(frame)
    case Fail(_) => None
    case Got(packet, _) =>
      match Protocols.Decode(packet)
      case Fail(_) => None
      case Got(m, _) => Some(m)
  }

  /** A message survives packet and frame exactly when the packet is shorter than 2^32 bytes. */
  lemma Carried(m: Message)
    ensures MessageOf(FrameOf(m)) == Some(m) <==> Protocols.Size(m) < TWO32
    ensures |FrameOf(m)| == Protocols.Size(m) + 12
  {
    var p := Protocols.Encode(m);
    Frames.Layout(FrameOf(m), p);
    Frames.RoundTrip(p);
    Protocols.RoundTrip(m);
    if Frames.Decode(FrameOf(m)).Got? {
      var q := Frames.Decode(FrameOf(m)).value;
      Frames.AcceptedIsEncoded(FrameOf(m));
      Protocols.AcceptedIsEncoded(q);
      hide Frames.Encode, Frames.Decode, Protocols.Encode, Protocols.Decode;
    }
  }

  /**
   A byte string is taken for a message exactly when it starts with the frame of a payload that starts with the
   packet of that message.
   */
  lemma MessageOfExact(f: bytes, m: Message)
    ensures MessageOf(f) == Some(m) <==>
            exists p :: |p| < TWO32 && Frames.Encode(p) <= f && Protocols.Bounded(m) && Protocols.Encode(m) <= p
  {
    hide Frames.Encode, Frames.Decode, Protocols.Encode, Protocols.Decode, Protocols.Size, Protocols.Bounded;
    if Frames.Decode(f).Got? {
      var p := Frames.Decode(f).value;
      Frames.AcceptedIsEncoded(f);
      Protocols.AcceptedIsEncoded(p);
      Protocols.ExactAcceptance(p, m, Protocols.Size(m));
    }
    if p :| |p| < TWO32 && Frames.Encode(p) <= f && Protocols.Bounded(m) && Protocols.Encode(m) <= p {
      Frames.ExactAcceptance(f, p, |p| + 12);
      Protocols.ExactAcceptance(p, m, Protocols.Size(m));
    }
  }

  /** The frame of a message with one byte of magic number, packet or checksum changed is no message. */
  lemma OneByteChanged(m: Message, i: nat, x: byte)
    requires Protocols.Size(m) < TWO32 && i < |FrameOf(m)| && x != FrameOf(m)[i]
    requires i < 4 || 8 <= i
    ensures MessageOf(FrameOf(m)[i := x]) == None
  {
    Protocols.EncodedSize(m);
    hide Frames.Encode, Frames.Decode, Protocols.Encode, Protocols.Decode, Protocols.Size;
    Frames.OneByteChanged(Protocols.Encode(m), i, x);
  }
}
