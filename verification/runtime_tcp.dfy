/** The agent runtime (core/src/runtime.cpp) over a TCP connection, and messages from one runtime to another. */
module AgentsOverTcp {
  import opened Bytes
  import opened Messages
  import opened Envelopes
  import opened AgentSystem
  import opened AgentSystemLaws
  import Frames
  import Protocols
  import TcpStream

  /** The message in what `receive_bytes` handed over, if any. */
  function MessageIn(data: Option<bytes>): Option<Message> {
    match data
    case None => None
    case Some(f) => MessageOf(f)
  }

  /** `run_once`. */
  function Turn(st: State, l: TcpStream.Link): (State, TcpStream.Link, ErrorCode)
    requires st.Valid()
  {
    if !st.running then (st, l, RuntimeNotRunning) else
    var (after, data) := TcpStream.Read(l);
    var m := MessageIn(data);
    if m.None? then (st, after, NoError) else
    var (next, code) := Dispatch(st, m.value);
    (next, after, code)
  }

  lemma TurnStep(st: State, l: TcpStream.Link)
    requires st.Valid()
    ensures Turn(st, l).0.Valid() && Turn(st, l).1.polls == l.polls
  {
    var m := MessageIn(TcpStream.Read(l).1);
    if m.Some? {
      DispatchValid(st, m.value);
    }
  }

  /** `drain`. */
  function DrainLink(st: State, l: TcpStream.Link): (State, TcpStream.Link)
    requires st.Valid()
    decreases |l.polls|
  {
    var (polled, empty) := TcpStream.Poll(l);
    if empty then (st, polled) else
    var (next, after, code) := Turn(st, polled);
    TurnStep(st, polled);
    if code != NoError then (next, after) else DrainLink(next, after)
  }

  /** The rest of `drain` from where the connection has something to read. */
  function AfterPoll(st: State, l: TcpStream.Link): (State, TcpStream.Link)
    requires st.Valid()
  {
    var (next, after, code) := Turn(st, l);
    TurnStep(st, l);
    if code != NoError then (next, after) else DrainLink(next, after)
  }

  lemma DrainLinkStep(st: State, l: TcpStream.Link)
    requires st.Valid()
    ensures var (polled, empty) := TcpStream.Poll(l);
            && DrainLink(st, l) == (if empty then (st, polled) else AfterPoll(st, polled))
            && (!empty ==> |polled.polls| < |l.polls|)
  {
  }

  lemma AfterPollStep(st: State, l: TcpStream.Link)
    requires st.Valid()
    ensures var (next, after, code) := Turn(st, l);
            && next.Valid() && after.polls == l.polls
            && AfterPoll(st, l) == if code != NoError then (next, after) else DrainLink(next, after)
  {
    TurnStep(st, l);
  }

  /** The frames that a broadcast sends. */
  ghost function FramesFor(id: u64, source: bytes, event: Event, order: seq<bytes>): seq<bytes> {
    TcpStream.Framed(TcpStream.Packets(MadeByBroadcast(id, source, event, order)))
  }

  /** One turn: refused when stopped; otherwise what the connection hands over, if it is a message, is dispatched. */
  lemma TurnEffect(st: State, l: TcpStream.Link)
    requires st.Valid()
    ensures var (next, after, code) := Turn(st, l);
            && (code == RuntimeNotRunning <==> !st.running) && (!st.running ==> (next, after) == (st, l))
            && (st.running ==>
                && after == TcpStream.Read(l).0
                && var data := TcpStream.Read(l).1;
                   (next, code) == if data.Some? && MessageOf(data.value).Some? then Dispatch(st, MessageOf(data.value).value)
                                   else (st, NoError))
  {
    hide TcpStream.Read, MessageOf;
  }

  // ---------------------------------------------------------------------------------------------
  // Draining a connection is draining the frames that come in over it

  /** What comes in while there is something to read. */
  function Arriving(l: TcpStream.Link): seq<bytes>
    decreases |l.polls|
  {
    var (polled, empty) := TcpStream.Poll(l);
    if empty then [] else
    var (after, data) := TcpStream.Read(polled);
    (match data case None => [] case Some(f) => [f]) + Arriving(after)
  }

  /** The state as if the byte strings were waiting in memory. */
  function Queued(st: State, fs: seq<bytes>): State {
    st.(backlog := Framed(fs))
  }

  lemma QueuedValid(st: State, fs: seq<bytes>)
    requires st.Valid()
    ensures Queued(st, fs).Valid()
  {
  }

  lemma DrainNothing(st: State)
    requires st.Valid() && st.backlog.Framed?
    ensures !st.running || st.backlog.Empty() ==> Drain(st) == st
  {
    DrainStep(st);
    DrainLeaves(st);
  }

  /** One byte string in front of others. */
  lemma DrainFirst(st: State, f: bytes, fs: seq<bytes>)
    requires st.Valid() && st.running
    ensures var m := MessageOf(f);
            && (m.None? ==> Drain(Queued(st, [f] + fs)) == Drain(Queued(st, fs)))
            && (m.Some? ==>
                var (next, code) := Dispatch(st, m.value);
                && next.Valid() && next.running == st.running && next.backlog == st.backlog
                && Drain(Queued(st, [f] + fs)) == if code == NoError then Drain(Queued(next, fs)) else Queued(next, fs))
  {
    hide MessageOf;
    var q := Queued(st, [f] + fs);
    assert ([f] + fs)[1..] == fs;
    DrainStep(q);
    if MessageOf(f).Some? {
      DispatchValid(st, MessageOf(f).value);
    }
  }

  /** `drain` over a connection does to the agents what `drain` does with the frames that arrive waiting in memory. */
  lemma {:induction false} DrainLinkIsDrain(st: State, l: TcpStream.Link)
    requires st.Valid()
    ensures DrainLink(st, l).0 == Drain(Queued(st, Arriving(l))).(backlog := st.backlog)
    decreases |l.polls|
  {
    hide Drain, Dispatch, MessageOf, TcpStream.ReceiveBytes, State.Valid;
    QueuedValid(st, Arriving(l));
    DrainNothing(Queued(st, Arriving(l)));
    var (polled, empty) := TcpStream.Poll(l);
    if !empty && st.running {
      var (after, data) := TcpStream.Read(polled);
      if data.None? {
        assert Arriving(l) == Arriving(after);
        DrainLinkIsDrain(st, after);
      } else {
        DrainFirst(st, data.value, Arriving(after));
        var next := Turn(st, polled).0;
        TurnStep(st, polled);
        DrainLinkIsDrain(next, after);
      }
    }
  }

  /**
   On a connection whose stream is used up, as after the peer has closed it, every poll that reports something to
   read is a turn that changes nothing, and `drain` ends only when a poll reports nothing.
   */
  lemma {:induction false} ExhaustedSpins(st: State, l: TcpStream.Link)
    requires st.Valid() && st.running && l.up && l.stream == []
    ensures DrainLink(st, l).0 == st && DrainLink(st, l).1.stream == []
    ensures var left := DrainLink(st, l).1.polls;
            && |left| <= |l.polls| && left == l.polls[|l.polls| - |left|..]
            && (left != [] ==> |left| < |l.polls| && l.polls[|l.polls| - |left| - 1] <= 0)
            && (forall i | 0 <= i < |l.polls| - |left| - 1 :: l.polls[i] > 0)
    decreases |l.polls|
  {
    hide TcpStream.ReceiveBytes, Dispatch, State.Valid;
    var (polled, empty) := TcpStream.Poll(l);
    TcpStream.NothingReceived(polled.script);
    if !empty {
      ExhaustedSpins(st, TcpStream.Read(polled).0);
    }
  }

  // ---------------------------------------------------------------------------------------------
  // From one runtime to another

  /** There is something to read at each of the next `n` polls. */
  predicate Ready(l: TcpStream.Link, n: nat) {
    n <= |l.polls| && forall i | 0 <= i < n :: l.polls[i] > 0
  }

  lemma {:induction false} ArrivingNothing(l: TcpStream.Link)
    requires l.stream == []
    ensures Arriving(l) == []
    decreases |l.polls|
  {
    hide TcpStream.ReceiveBytes;
    var (polled, empty) := TcpStream.Poll(l);
    if !empty {
      TcpStream.NothingReceived(polled.script);
      ArrivingNothing(TcpStream.Read(polled).0);
    }
  }

  /** Frames that make up the whole stream arrive as they are. */
  lemma {:induction false} ArrivingFrames(ps: seq<bytes>, l: TcpStream.Link)
    requires TcpStream.Receivable(ps) && l.stream == TcpStream.Concat(TcpStream.Framed(ps))
    requires l.up && TcpStream.Healthy(l.script) && Ready(l, |ps|)
    ensures Arriving(l) == TcpStream.Framed(ps)
    decreases |ps|
  {
    hide TcpStream.ReceiveBytes, TcpStream.Framed, TcpStream.Receivable, TcpStream.Healthy, Frames.Encode, TcpStream.TcpSized,
      TcpStream.Traceless;
    if ps == [] {
      ArrivingNothing(l);
    } else {
      TcpStream.FramedStep(ps);
      var (polled, empty) := TcpStream.Poll(l);
      TcpStream.FrameReceived(ps[0], TcpStream.Concat(TcpStream.Framed(ps[1..])), l.script);
      ArrivingFrames(ps[1..], TcpStream.Read(polled).0);
    }
  }

  /** The messages whose frames are shorter than 2^31 bytes. */
  function SizedMessages(ms: seq<Message>): (r: seq<Message>)
    ensures |r| <= |ms|
  {
    if ms == [] then []
    else (if Protocols.Size(ms[0]) + 12 < TWO31 then [ms[0]] else []) + SizedMessages(ms[1..])
  }

  lemma PacketsStep(ms: seq<Message>)
    requires ms != []
    ensures TcpStream.Packets(ms) == [Protocols.Encode(ms[0])] + TcpStream.Packets(ms[1..])
    ensures |Protocols.Encode(ms[0])| == Protocols.Size(ms[0])
    ensures Protocols.Size(ms[0]) < TWO32 ==> Held(Frames.Encode(Protocols.Encode(ms[0]))) == [ms[0]]
  {
    hide Protocols.Encode, Protocols.Size, MessageOf;
    Protocols.EncodedSize(ms[0]);
    Carried(ms[0]);
  }

  lemma {:induction false} SizedPackets(ms: seq<Message>)
    ensures TcpStream.SizedOf(TcpStream.Packets(ms)) == TcpStream.Packets(SizedMessages(ms))
    ensures Decodable(TcpStream.Framed(TcpStream.Packets(SizedMessages(ms)))) == SizedMessages(ms)
  {
    hide Protocols.Encode, Protocols.Size, Frames.Encode, TcpStream.Packets, TcpStream.Framed, Held, TcpStream.TcpSized,
      TcpStream.Traceless, TcpStream.Receivable;
    if ms == [] {
      assert TcpStream.Packets([]) == [] && TcpStream.Framed([]) == [];
    } else {
      PacketsStep(ms);
      SizedPackets(ms[1..]);
      var rest := SizedMessages(ms[1..]);
      assert TcpStream.Packets(ms)[1..] == TcpStream.Packets(ms[1..]);
      if Protocols.Size(ms[0]) + 12 < TWO31 {
        var some := [ms[0]] + rest;
        assert SizedMessages(ms) == some && some[1..] == rest;
        PacketsStep(some);
        var ps := TcpStream.Packets(some);
        assert ps[1..] == TcpStream.Packets(rest);
        TcpStream.FramedStep(ps);
        assert TcpStream.Framed(ps)[1..] == TcpStream.Framed(TcpStream.Packets(rest));
      } else {
        assert SizedMessages(ms) == rest;
      }
    }
  }

  lemma SizedArrive(ms: seq<Message>, sender: TcpStream.Link, receiver: TcpStream.Link)
    requires TcpStream.Traceless(TcpStream.Packets(ms))
    requires sender.up && sender.wire == [] && TcpStream.Healthy(sender.script)
    requires receiver.up && TcpStream.Healthy(receiver.script) && Ready(receiver, |SizedMessages(ms)|)
    requires receiver.stream == TcpStream.WriteAll(sender, TcpStream.Framed(TcpStream.Packets(ms))).0.wire
    ensures TcpStream.WriteAll(sender, TcpStream.Framed(TcpStream.Packets(ms))).1
    ensures Arriving(receiver) == TcpStream.Framed(TcpStream.Packets(SizedMessages(ms)))
  {
    hide TcpStream.WriteAll, TcpStream.SendMany, TcpStream.Packets, TcpStream.Framed, TcpStream.Healthy, TcpStream.Concat,
      TcpStream.SizedOf, TcpStream.Traceless, TcpStream.Receivable, Ready, Decodable, Arriving, SizedMessages;
    var ps := TcpStream.Packets(ms);
    TcpStream.WriteAllSends(sender, TcpStream.Framed(ps));
    TcpStream.WireHoldsFrames(ps, sender.script);
    TcpStream.SizedOfExact(ps);
    SizedPackets(ms);
    ArrivingFrames(TcpStream.Packets(SizedMessages(ms)), receiver);
  }

  /**
   From one runtime to another: messages sent over a connection that does not fail, and whose other end is
   drained by a running runtime, reach its agents. Just those whose frames are shorter than 2^31 bytes come in,
   and of these the ones before the first unknown target are delivered, in order, to the agents they name.
   */
  lemma MessagesBetweenRuntimes(ms: seq<Message>, sender: TcpStream.Link, peer: State, receiver: TcpStream.Link)
    requires TcpStream.Traceless(TcpStream.Packets(ms))
    requires sender.up && sender.wire == [] && TcpStream.Healthy(sender.script)
    requires receiver.up && TcpStream.Healthy(receiver.script) && Ready(receiver, |SizedMessages(ms)|)
    requires receiver.stream == TcpStream.WriteAll(sender, TcpStream.Framed(TcpStream.Packets(ms))).0.wire
    requires peer.Valid() && peer.running
    ensures TcpStream.WriteAll(sender, TcpStream.Framed(TcpStream.Packets(ms))).1
    ensures var arrived := SizedMessages(ms);
            var k := FirstUnknown(arrived, peer.agents.Keys);
            var r := DrainLink(peer, receiver).0;
            && r.agents == peer.agents && r.running && r.nextId == peer.nextId && r.backlog == peer.backlog
            && DeliveredTo(r, peer, arrived[..k])
  {
    hide TcpStream.WriteAll, TcpStream.SendMany, TcpStream.Packets, TcpStream.Framed, TcpStream.Healthy, TcpStream.Concat,
      TcpStream.SizedOf, Protocols.Size, Decodable, Drain, DrainLink, Arriving, SizedMessages, DeliveredTo, State.Valid,
      TcpStream.Traceless, Ready;
    var fs := TcpStream.Framed(TcpStream.Packets(SizedMessages(ms)));
    SizedArrive(ms, sender, receiver);
    SizedPackets(ms);
    DrainLinkIsDrain(peer, receiver);
    QueuedValid(peer, fs);
    FramedDrainDelivers(Queued(peer, fs));
    SameDeliveries(DrainLink(peer, receiver).0, Drain(Queued(peer, fs)), peer, Queued(peer, fs),
                   SizedMessages(ms)[..FirstUnknown(SizedMessages(ms), peer.agents.Keys)]);
  }
}
