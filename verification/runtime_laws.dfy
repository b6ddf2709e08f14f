/** What the agent runtime keeps, over single calls and over whole runs. */
module AgentSystemLaws {
  import opened Bytes
  import opened Messages
  import opened Envelopes
  import opened AgentSystem
  import Protocols

  // ---------------------------------------------------------------------------------------------
  // What each operation does

  /** A new runtime has no agents and no logs, is stopped, and numbers from 1. */
  lemma FreshIsIdle()
    ensures FRESH.agents == map[] && FRESH.journal == [] && !FRESH.running && FRESH.nextId == 1 && FRESH.backlog.Empty()
  {
  }

  /**
   An agent is registered exactly when it is one, has a name and the name is not taken. It then has an empty log of
   its own, and every other name and log stays as it was; otherwise nothing changes.
   */
  lemma RegisterEffect(st: State, agent: Option<bytes>)
    requires st.Valid()
    ensures var (r, code) := Register(st, agent);
            && (code == NoError <==> agent.Some? && agent.value != [] && agent.value !in st.agents)
            && (code == InvalidArgument <==> agent.None? || agent.value == [])
            && (code == AgentAlreadyExists <==> agent.Some? && agent.value != [] && agent.value in st.agents)
            && (code != NoError ==> r == st)
            && (code == NoError ==>
                && r.agents.Keys == st.agents.Keys + {agent.value} && r.agents[agent.value] == |st.journal|
                && (forall n | n in st.agents :: r.agents[n] == st.agents[n])
                && |r.journal| == |st.journal| + 1 && r.journal[|st.journal|] == []
                && (forall id: nat | id < |st.journal| :: r.journal[id] == st.journal[id])
                && r.running == st.running && r.nextId == st.nextId && r.backlog == st.backlog)
  {
  }

  /**
   Only a registered agent can be unregistered. Its name goes, the other names stay, and it gets a stop if the
   runtime runs; no other log changes.
   */
  lemma UnregisterEffect(st: State, name: bytes)
    requires st.Valid()
    ensures var (r, code) := Unregister(st, name);
            && (code == NoError <==> name in st.agents) && (code == AgentNotFound <==> name !in st.agents)
            && (code != NoError ==> r == st)
            && (code == NoError ==>
                && r.agents.Keys == st.agents.Keys - {name} && (forall n | n in r.agents :: r.agents[n] == st.agents[n])
                && |r.journal| == |st.journal|
                && (forall id: nat | id < |st.journal| ::
                      r.journal[id] == st.journal[id] + if id == st.agents[name] && st.running then [Stopped] else [])
                && r.running == st.running && r.nextId == st.nextId && r.backlog == st.backlog)
  {
  }

  /** Every registered agent has had `c` on top of `before`, and nobody else anything; all but the logs is as it was. */
  ghost predicate Notified(st: State, before: State, c: Callback) {
    && |st.journal| == |before.journal|
    && (forall id: nat | id < |before.journal| ::
          st.journal[id] == before.journal[id] + if before.Live(id) then [c] else [])
    && st.agents == before.agents && st.nextId == before.nextId && st.backlog == before.backlog
  }

  /** A stopped runtime starts and tells every registered agent; a running one stays as it is. */
  lemma StartEffect(st: State)
    requires st.Valid()
    ensures Start(st).running
    ensures !st.running ==> Notified(Start(st), st, Started)
    ensures st.running ==> Start(st) == st
  {
  }

  /** A running runtime stops and tells every registered agent; a stopped one stays as it is. */
  lemma StopEffect(st: State)
    requires st.Valid()
    ensures !Stop(st).running
    ensures st.running ==> Notified(Stop(st), st, Stopped)
    ensures !st.running ==> Stop(st) == st
  {
  }

  /** A message is delivered to the agent that it names, and to no other; without such an agent nothing changes. */
  lemma DispatchEffect(st: State, m: Message)
    requires st.Valid()
    ensures var (r, code) := Dispatch(st, m);
            && (code == NoError <==> m.target in st.agents) && (code == AgentNotFound <==> m.target !in st.agents)
            && (code != NoError ==> r == st)
            && (code == NoError ==>
                && |r.journal| == |st.journal|
                && (forall id: nat | id < |st.journal| ::
                      r.journal[id] == st.journal[id] + if id == st.agents[m.target] then [Delivered(m)] else [])
                && r.agents == st.agents && r.running == st.running && r.nextId == st.nextId && r.backlog == st.backlog)
  {
  }

  /**
   A published message carries the next number, the event type, and source, target and event as given; it is the
   last that waits. The number is used up, and no agent notices.
   */
  lemma PublishEffect(st: State, source: bytes, target: bytes, event: Event)
    ensures var r := Publish(st, source, target, event);
            var m := Message(st.nextId, 0, source, target, event);
            && (st.backlog.Plain? ==> r.backlog == Plain(st.backlog.messages + [m]))
            && (st.backlog.Framed? ==> r.backlog == Framed(st.backlog.frames + [FrameOf(m)]))
            && r.nextId == (st.nextId + 1) % TWO64
            && r.agents == st.agents && r.journal == st.journal && r.running == st.running
  {
    hide FrameOf;
  }

  /** A message that is sent is the last that waits, and nothing else changes. */
  lemma SendEffect(st: State, m: Message)
    ensures st.backlog.Plain? ==> Send(st, m) == st.(backlog := Plain(st.backlog.messages + [m]))
    ensures st.backlog.Framed? ==> Send(st, m) == st.(backlog := Framed(st.backlog.frames + [FrameOf(m)]))
  {
    hide FrameOf;
  }

  /**
   One turn: refused when stopped; otherwise the first that waits is taken off, and if it is a message, that is
   dispatched, and the turn succeeds unless its target is unknown.
   */
  lemma TurnEffect(st: State)
    requires st.Valid()
    ensures var (r, code) := RunOnce(st);
            && (code == RuntimeNotRunning <==> !st.running) && (!st.running ==> r == st)
            && (st.running && st.backlog.Empty() ==> (r, code) == (st, NoError))
            && (st.running && st.backlog.Plain? && !st.backlog.Empty() ==>
                var ms := st.backlog.messages;
                (r, code) == Dispatch(st.(backlog := Plain(ms[1..])), ms[0]))
            && (st.running && st.backlog.Framed? && !st.backlog.Empty() ==>
                var fs := st.backlog.frames;
                var rest := st.(backlog := Framed(fs[1..]));
                if MessageOf(fs[0]).None? then (r, code) == (rest, NoError)
                else (r, code) == Dispatch(rest, MessageOf(fs[0]).value))
  {
    hide MessageOf;
  }

  // ---------------------------------------------------------------------------------------------
  // Draining, in terms of the queue alone

  /** How many messages stand before the first one whose target is not registered. */
  function FirstUnknown(ms: seq<Message>, names: set<bytes>): (k: nat)
    ensures k <= |ms|
    ensures forall i | 0 <= i < k :: ms[i].target in names
    ensures k < |ms| ==> ms[k].target !in names
  {
    if ms == [] || ms[0].target !in names then 0 else 1 + FirstUnknown(ms[1..], names)
  }

  /** The callbacks that delivering `ms` causes at the agent called `name`. */
  function AddressedTo(name: bytes, ms: seq<Message>): seq<Callback> {
    if ms == [] then []
    else (if ms[0].target == name then [Delivered(ms[0])] else []) + AddressedTo(name, ms[1..])
  }

  /** Every registered agent has had, on top of `before`, just the messages of `ms` addressed to it; the others nothing. */
  ghost predicate DeliveredTo(st: State, before: State, ms: seq<Message>)
    requires before.Valid()
  {
    && |st.journal| == |before.journal|
    && (forall n | n in before.agents ::
          st.journal[before.agents[n]] == before.journal[before.agents[n]] + AddressedTo(n, ms))
    && (forall id: nat | id < |before.journal| && !before.Live(id) :: st.journal[id] == before.journal[id])
  }

  /**
   `drain` on a running runtime hands over, in order, exactly the messages before the first unknown target,
   drops that one and leaves the rest; on a stopped one it changes nothing.
   */
  lemma {:induction false} DrainDelivers(st: State)
    requires st.Valid() && st.backlog.Plain?
    ensures !st.running ==> Drain(st) == st
    ensures st.running ==>
            var ms := st.backlog.messages;
            var k := FirstUnknown(ms, st.agents.Keys);
            var r := Drain(st);
            && r.backlog == Plain(if k < |ms| then ms[k + 1..] else [])
            && r.agents == st.agents && r.running && r.nextId == st.nextId
            && DeliveredTo(r, st, ms[..k])
    decreases st.backlog.Size()
  {
    hide RunOnce, Dispatch, DeliveredTo, AddressedTo, MessageOf;
    var ms := st.backlog.messages;
    DeliveredNothing(st, st);
    RunOncePlain(st);
    if st.running && ms != [] {
      RunOnceValid(st);
      var next := RunOnce(st).0;
      if ms[0].target !in st.agents {
        DeliveredNothing(next, st);
      } else {
        DrainDelivers(next);
        var k := FirstUnknown(ms[1..], st.agents.Keys);
        DeliveredMore(Drain(next), next, st, ms[0], ms[1..][..k]);
        FirstAndRest(ms, k);
      }
    }
    assert ms[..0] == [];
  }

  lemma FirstAndRest(ms: seq<Message>, k: nat)
    requires ms != [] && k < |ms|
    ensures ms[..k + 1] == [ms[0]] + ms[1..][..k]
    ensures k + 1 < |ms| ==> ms[1..][k + 1..] == ms[k + 2..]
  {
  }

  lemma DeliveredNothing(st: State, before: State)
    requires before.Valid() && st.journal == before.journal
    ensures DeliveredTo(st, before, [])
  {
    forall n | n in before.agents
      ensures st.journal[before.agents[n]] == before.journal[before.agents[n]] + AddressedTo(n, [])
    {
    }
  }

  lemma RunOncePlain(st: State)
    requires st.Valid() && st.backlog.Plain?
    ensures !st.running ==> RunOnce(st) == (st, RuntimeNotRunning)
    ensures st.running && !st.backlog.Empty() ==>
            var ms := st.backlog.messages;
            RunOnce(st) ==
            if ms[0].target in st.agents
            then (st.(journal := Note(st.journal, st.agents[ms[0].target], Delivered(ms[0])), backlog := Plain(ms[1..])), NoError)
            else (st.(backlog := Plain(ms[1..])), AgentNotFound)
  {
  }

  /** One delivery in front of others. */
  lemma DeliveredMore(last: State, next: State, st: State, m: Message, ms: seq<Message>)
    requires st.Valid() && next.Valid() && next.agents == st.agents && m.target in st.agents
    requires next.journal == Note(st.journal, st.agents[m.target], Delivered(m))
    requires DeliveredTo(last, next, ms)
    ensures DeliveredTo(last, st, [m] + ms)
  {
    forall n | n in st.agents
      ensures last.journal[st.agents[n]] == st.journal[st.agents[n]] + AddressedTo(n, [m] + ms)
    {
      assert ([m] + ms)[1..] == ms;
      assert next.journal[st.agents[n]] ==
             st.journal[st.agents[n]] + if m.target == n then [Delivered(m)] else [];
    }
    forall id: nat | id < |st.journal| && !st.Live(id)
      ensures last.journal[id] == st.journal[id]
    {
      assert !next.Live(id);
    }
  }

  // ---------------------------------------------------------------------------------------------
  // The framed transport refines the plain one

  /** The message that a byte string holds, if any. */
  function Held(f: bytes): seq<Message> {
    match MessageOf(f)
    case None => []
    case Some(m) => [m]
  }

  /** The messages that a queue of byte strings holds. */
  function Decodable(fs: seq<bytes>): seq<Message> {
    if fs == [] then [] else Held(fs[0]) + Decodable(fs[1..])
  }

  function Visible(b: Backlog): Backlog {
    match b
    case Plain(_) => b
    case Framed(fs) => Plain(Decodable(fs))
  }

  /** The state of the same runtime over a plain queue of just the messages that can be decoded. */
  function Abs(st: State): State {
    st.(backlog := Visible(st.backlog))
  }

  lemma {:induction false} DecodableConcat(fs: seq<bytes>, gs: seq<bytes>)
    ensures Decodable(fs + gs) == Decodable(fs) + Decodable(gs)
  {
    hide Held;
    if fs == [] {
      assert fs + gs == gs && [] + Decodable(gs) == Decodable(gs);
    } else {
      DecodableConcat(fs[1..], gs);
      assert (fs + gs)[1..] == fs[1..] + gs && (fs + gs)[0] == fs[0];
      AssocMessages(Held(fs[0]), Decodable(fs[1..]), Decodable(gs));
    }
  }

  lemma AssocMessages(a: seq<Message>, b: seq<Message>, c: seq<Message>)
    ensures a + b + c == a + (b + c)
  {
  }

  /** Taking an item that decodes is a step of the plain queue; taking a corrupt one is none. */
  lemma TakeVisible(b: Backlog)
    requires !b.Empty()
    ensures var (m, rest) := b.Take();
            && (m.Some? ==> !Visible(b).Empty() && Visible(b).Take() == (m, Visible(rest)))
            && (m.None? ==> Visible(rest) == Visible(b))
  {
  }

  lemma DecodableOne(f: bytes)
    ensures Decodable([f]) == Held(f)
  {
    hide Held;
    assert Decodable([f][1..]) == [];
  }

  /** Sending through frames is sending a message exactly when the packet fits a frame. */
  lemma SendVisible(b: Backlog, m: Message)
    requires b.Framed?
    ensures Visible(b.Put(m)) == Visible(b).Put(m) <==> Protocols.Size(m) < TWO32
  {
    hide MessageOf, FrameOf;
    DecodableConcat(b.frames, [FrameOf(m)]);
    Carried(m);
    DecodableOne(FrameOf(m));
    var ds := Decodable(b.frames);
    if ds + Decodable([FrameOf(m)]) == ds + [m] {
      assert Decodable([FrameOf(m)]) == (ds + [m])[|ds|..];
    }
  }

  lemma RunOnceRefines(st: State)
    requires st.Valid()
    ensures var (m, _) := st.backlog.Take();
            if st.running && !st.backlog.Empty() && m.None?
            then RunOnce(st).1 == NoError && Abs(RunOnce(st).0) == Abs(st)
            else Abs(RunOnce(st).0) == RunOnce(Abs(st)).0 && RunOnce(st).1 == RunOnce(Abs(st)).1
  {
    if !st.backlog.Empty() {
      TakeVisible(st.backlog);
    }
  }

  /** Draining frames, with corrupt ones anywhere among them, is draining the messages that decode. */
  lemma {:induction false} DrainRefines(st: State)
    requires st.Valid()
    ensures Abs(Drain(st)) == Drain(Abs(st))
    decreases st.backlog.Size()
  {
    if !st.backlog.Empty() {
      var (next, code) := RunOnce(st);
      RunOnceRefines(st);
      RunOnceValid(st);
      if code == NoError {
        DrainRefines(next);
      }
      if !st.running && Visible(st.backlog).Empty() {
        assert Drain(Abs(st)) == Abs(st);
      }
    }
  }

  /** How many byte strings stand up to and including the first that holds a message with an unknown target. */
  function Consumed(fs: seq<bytes>, names: set<bytes>): (k: nat)
    ensures k <= |fs|
  {
    if fs == [] then 0
    else if MessageOf(fs[0]).Some? && MessageOf(fs[0]).value.target !in names then 1
    else 1 + Consumed(fs[1..], names)
  }

  /** What a turn does to a queue of frames. */
  lemma RunOnceFrames(st: State)
    requires st.Valid() && st.backlog.Framed?
    ensures !st.running ==> RunOnce(st) == (st, RuntimeNotRunning)
    ensures st.running && !st.backlog.Empty() ==>
            var fs := st.backlog.frames;
            var next := RunOnce(st).0;
            && next.backlog == Framed(fs[1..]) && next.agents == st.agents && next.running
            && (RunOnce(st).1 == NoError <==>
                (MessageOf(fs[0]).Some? ==> MessageOf(fs[0]).value.target in st.agents))
  {
    hide MessageOf;
  }

  lemma {:induction false} DrainLeaves(st: State)
    requires st.Valid() && st.backlog.Framed?
    ensures !st.running ==> Drain(st) == st
    ensures st.running ==> Drain(st).backlog == Framed(st.backlog.frames[Consumed(st.backlog.frames, st.agents.Keys)..])
    decreases st.backlog.Size()
  {
    hide RunOnce, MessageOf;
    RunOnceFrames(st);
    if st.running && !st.backlog.Empty() {
      RunOnceValid(st);
      if RunOnce(st).1 == NoError {
        DrainLeaves(RunOnce(st).0);
      }
    }
  }

  /**
   `drain` over frames: corrupt ones are skipped, the messages before the first unknown target are delivered
   in order, the frame that holds that target is dropped, and just the frames after it are left. On a stopped
   runtime nothing changes.
   */
  lemma FramedDrainDelivers(st: State)
    requires st.Valid() && st.backlog.Framed?
    ensures !st.running ==> Drain(st) == st
    ensures st.running ==>
            var fs := st.backlog.frames;
            var ms := Decodable(fs);
            var k := FirstUnknown(ms, st.agents.Keys);
            var r := Drain(st);
            && r.backlog == Framed(fs[Consumed(fs, st.agents.Keys)..])
            && Decodable(r.backlog.frames) == (if k < |ms| then ms[k + 1..] else [])
            && r.agents == st.agents && r.running && r.nextId == st.nextId
            && DeliveredTo(r, st, ms[..k])
  {
    hide Drain, Decodable, DeliveredTo, Consumed;
    DrainLeaves(st);
    DrainRefines(st);
    DrainDelivers(Abs(st));
    if st.running {
      SameDeliveries(Drain(st), Drain(Abs(st)), st, Abs(st),
                     Decodable(st.backlog.frames)[..FirstUnknown(Decodable(st.backlog.frames), st.agents.Keys)]);
    }
  }

  lemma SameDeliveries(later: State, later': State, st: State, st': State, ms: seq<Message>)
    requires st.Valid() && st'.Valid() && st.agents == st'.agents && st.journal == st'.journal
    requires later.journal == later'.journal && DeliveredTo(later', st', ms)
    ensures DeliveredTo(later, st, ms)
  {
    forall id: nat | id < |st.journal| && !st.Live(id)
      ensures later.journal[id] == st.journal[id]
    {
      assert !st'.Live(id);
    }
  }

  /** Every message that the operation sends fits a frame. */
  ghost predicate Fits(op: Op) {
    match op
    case DoSend(m) => Protocols.Size(m) < TWO32
    case DoPublish(source, target, event) => Protocols.Size(EventMessage(0, source, target, event)) < TWO32
    case DoBroadcast(source, event, order) =>
      forall n | n in order :: Protocols.Size(EventMessage(0, source, n, event)) < TWO32
    case _ => true
  }

  /** What the runtime over a plain queue does while the one over frames does `op`. */
  function Shadow(st: State, op: Op): seq<Op> {
    match op
    case DoRunOnce => if st.running && !st.backlog.Empty() && st.backlog.Take().0.None? then [] else [op]
    case Arrive(frame) => (match MessageOf(frame) case None => [] case Some(m) => [DoSend(m)])
    case _ => [op]
  }

  /** A broadcast only adds to a queue, at most one visible message for each name. */
  lemma {:induction false} BroadcastGrows(st: State, source: bytes, event: Event, order: seq<bytes>)
    ensures var before := Visible(st.backlog).messages;
            var after := Visible(Broadcast(st, source, event, order).backlog).messages;
            before <= after && |after| <= |before| + |order|
    decreases |order|
  {
    hide MessageOf, FrameOf, Decodable;
    if order != [] {
      var m := NewMessage(st, source, order[0], event);
      BroadcastGrows(Publish(st, source, order[0], event), source, event, order[1..]);
      if st.backlog.Framed? {
        DecodableConcat(st.backlog.frames, [FrameOf(m)]);
        DecodableOne(FrameOf(m));
      }
    }
  }

  /** A broadcast over frames is one over a plain queue exactly when every message of it fits a frame. */
  lemma {:induction false} BroadcastRefines(st: State, source: bytes, event: Event, order: seq<bytes>)
    requires st.backlog.Framed?
    ensures Abs(Broadcast(st, source, event, order)) == Broadcast(Abs(st), source, event, order) <==>
            Fits(DoBroadcast(source, event, order))
    decreases |order|
  {
    hide MessageOf, FrameOf, Publish, Visible, Protocols.Size;
    if order != [] {
      var n := order[0];
      var next := Publish(st, source, n, event);
      PublishRefines(st, source, n, event);
      FitsStep(source, event, order);
      if Protocols.Size(EventMessage(0, source, n, event)) < TWO32 {
        BroadcastRefines(next, source, event, order[1..]);
      } else {
        MisfitStays(st, source, event, order);
      }
    }
  }

  lemma FitsStep(source: bytes, event: Event, order: seq<bytes>)
    requires order != []
    ensures Fits(DoBroadcast(source, event, order)) <==>
            && Protocols.Size(EventMessage(0, source, order[0], event)) < TWO32
            && Fits(DoBroadcast(source, event, order[1..]))
  {
    hide Protocols.Size;
    assert order == [order[0]] + order[1..];
  }

  /** What a message that does not fit leaves in the queue of frames is never made up for by the messages after it. */
  lemma MisfitStays(st: State, source: bytes, event: Event, order: seq<bytes>)
    requires st.backlog.Framed? && order != []
    requires Protocols.Size(EventMessage(0, source, order[0], event)) >= TWO32
    ensures Abs(Broadcast(st, source, event, order)) != Broadcast(Abs(st), source, event, order)
  {
    hide MessageOf, FrameOf, Decodable, Broadcast, Protocols.Size;
    var n, m := order[0], NewMessage(st, source, order[0], event);
    var next, next' := Publish(st, source, n, event), Publish(Abs(st), source, n, event);
    SizeOfNew(st, source, n, event);
    SendVisible(st.backlog, m);
    DecodableConcat(st.backlog.frames, [FrameOf(m)]);
    DecodableOne(FrameOf(m));
    BroadcastGrows(next, source, event, order[1..]);
    BroadcastGrows(next', source, event, order[1..]);
    PlainGrows(next', source, event, order[1..]);
    BroadcastStep(st, source, event, order);
    BroadcastStep(Abs(st), source, event, order);
    var ds := Decodable(st.backlog.frames);
    CannotCatchUp(ds, Held(FrameOf(m)), m, Visible(Broadcast(st, source, event, order).backlog).messages,
                  Broadcast(Abs(st), source, event, order).backlog.messages, |order| - 1);
  }

  lemma CannotCatchUp(ds: seq<Message>, held: seq<Message>, m: Message, last: seq<Message>, last': seq<Message>, k: nat)
    requires held != [m] && |held| <= 1
    requires ds + held <= last && |last| <= |ds + held| + k
    requires ds + [m] <= last' && |last'| == |ds| + 1 + k
    ensures last != last'
  {
    if |held| == 1 {
      assert last[|ds|] == (ds + held)[|ds|] && last'[|ds|] == (ds + [m])[|ds|];
    }
  }

  lemma BroadcastStep(st: State, source: bytes, event: Event, order: seq<bytes>)
    requires order != []
    ensures Broadcast(st, source, event, order) ==
            Broadcast(Publish(st, source, order[0], event), source, event, order[1..])
  {
  }

  lemma {:induction false} PlainGrows(st: State, source: bytes, event: Event, order: seq<bytes>)
    requires st.backlog.Plain?
    ensures var r := Broadcast(st, source, event, order);
            r.backlog.Plain? && |r.backlog.messages| == |st.backlog.messages| + |order|
    decreases |order|
  {
    if order != [] {
      PlainGrows(Publish(st, source, order[0], event), source, event, order[1..]);
    }
  }

  /**
   Each operation on the runtime over frames is the same operation, or none, on the runtime over a plain
   queue of the decodable messages - same agents, same callbacks, same ids, same waiting messages - exactly
   when every message that it sends has a packet shorter than 2^32 bytes.
   */
  lemma StepRefines(st: State, op: Op)
    requires st.Valid() && st.backlog.Framed? && Possible(st, op)
    ensures Step(st, op).Valid() && Step(st, op).backlog.Framed?
    ensures PossibleRun(Abs(st), Shadow(st, op))
    ensures Abs(Step(st, op)) == Run(Abs(st), Shadow(st, op)) <==> Fits(op)
  {
    hide Register, Unregister, Send, Publish, Broadcast, Start, Stop, RunOnce, Drain, Visible, MessageOf, Run, PossibleRun,
      Protocols.Size;
    NoSteps(Abs(st));
    StepValid(st, op);
    AbsPossible(st, op);
    match op
    case DoSend(m) => SendRefines(st, m); OneStep(Abs(st), op);
    case DoPublish(source, target, event) => PublishRefines(st, source, target, event); OneStep(Abs(st), op);
    case DoBroadcast(source, event, order) =>
      BroadcastRefines(st, source, event, order);
      BroadcastFramed(st, source, event, order);
      OneStep(Abs(st), op);
    case DoRunOnce => RunOnceRefines(st); RunOnceFramed(st); OneStep(Abs(st), op);
    case DoDrain => DrainRefines(st); DrainFramed(st); OneStep(Abs(st), op);
    case Arrive(frame) => ArriveRefines(st, frame);
    case _ => LocalRefines(st, op); OneStep(Abs(st), op);
  }

  lemma AbsPossible(st: State, op: Op)
    requires st.Valid()
    ensures Abs(st).Valid()
    ensures Possible(st, op) && !op.Arrive? ==> Possible(Abs(st), op)
  {
  }

  /** Operations that do not touch the transport. */
  lemma LocalRefines(st: State, op: Op)
    requires st.Valid() && (op.DoRegister? || op.DoUnregister? || op.DoStart? || op.DoStop?)
    ensures Abs(st).Valid() && Abs(Step(st, op)) == Step(Abs(st), op)
    ensures Step(st, op).backlog == st.backlog
  {
    hide Visible, NoteAll, Note;
  }

  lemma SendRefines(st: State, m: Message)
    requires st.backlog.Framed?
    ensures Abs(Send(st, m)) == Send(Abs(st), m) <==> Protocols.Size(m) < TWO32
    ensures Send(st, m).backlog.Framed?
  {
    SendVisible(st.backlog, m);
    hide Visible, Protocols.Size;
  }

  lemma PublishRefines(st: State, source: bytes, target: bytes, event: Event)
    requires st.backlog.Framed?
    ensures Abs(Publish(st, source, target, event)) == Publish(Abs(st), source, target, event) <==>
            Protocols.Size(EventMessage(0, source, target, event)) < TWO32
    ensures Publish(st, source, target, event).backlog.Framed?
  {
    hide Visible, Protocols.Size;
    SizeOfNew(st, source, target, event);
    SendVisible(st.backlog, NewMessage(st, source, target, event));
  }

  lemma SizeOfNew(st: State, source: bytes, target: bytes, event: Event)
    ensures Protocols.Size(NewMessage(st, source, target, event)) == Protocols.Size(EventMessage(0, source, target, event))
  {
  }

  lemma ArriveRefines(st: State, frame: bytes)
    requires st.Valid() && st.backlog.Framed?
    ensures var shadow := Shadow(st, Arrive(frame));
            PossibleRun(Abs(st), shadow) && Abs(Step(st, Arrive(frame))) == Run(Abs(st), shadow)
  {
    hide MessageOf;
    DecodableConcat(st.backlog.frames, [frame]);
    DecodableOne(frame);
    assert Decodable(st.backlog.frames) + [] == Decodable(st.backlog.frames);
    if MessageOf(frame).Some? {
      OneStep(Abs(st), DoSend(MessageOf(frame).value));
    }
  }

  lemma RunOnceFramed(st: State)
    requires st.Valid() && st.backlog.Framed?
    ensures RunOnce(st).0.backlog.Framed?
  {
  }

  lemma NoSteps(st: State)
    ensures st.Valid() ==> PossibleRun(st, []) && Run(st, []) == st
  {
  }

  lemma OneStep(st: State, op: Op)
    requires st.Valid()
    ensures Possible(st, op) ==> PossibleRun(st, [op]) && Run(st, [op]) == Step(st, op)
  {
    if Possible(st, op) {
      StepValid(st, op);
      assert [op][1..] == [];
    }
  }

  lemma {:induction false} BroadcastFramed(st: State, source: bytes, event: Event, order: seq<bytes>)
    requires st.backlog.Framed?
    ensures Broadcast(st, source, event, order).backlog.Framed?
    decreases |order|
  {
    if order != [] {
      BroadcastFramed(Publish(st, source, order[0], event), source, event, order[1..]);
    }
  }

  lemma {:induction false} DrainFramed(st: State)
    requires st.Valid() && st.backlog.Framed?
    ensures Drain(st).backlog.Framed?
    decreases st.backlog.Size()
  {
    if !st.backlog.Empty() {
      RunOnceValid(st);
      if RunOnce(st).1 == NoError {
        DrainFramed(RunOnce(st).0);
      }
    }
  }

  ghost predicate AllFit(ops: seq<Op>) {
    forall i | 0 <= i < |ops| :: Fits(ops[i])
  }

  ghost function ShadowRun(st: State, ops: seq<Op>): seq<Op>
    requires st.Valid() && st.backlog.Framed? && PossibleRun(st, ops)
    decreases |ops|
  {
    if ops == [] then [] else
    StepRefines(st, ops[0]);
    Shadow(st, ops[0]) + ShadowRun(Step(st, ops[0]), ops[1..])
  }

  lemma {:induction false} RunConcat(st: State, ops: seq<Op>, more: seq<Op>)
    requires st.Valid() && PossibleRun(st, ops) && PossibleRun(Run(st, ops), more)
    ensures PossibleRun(st, ops + more) && Run(st, ops + more) == Run(Run(st, ops), more)
    decreases |ops|
  {
    hide Step;
    if ops == [] {
      assert ops + more == more;
    } else {
      StepValid(st, ops[0]);
      RunConcat(Step(st, ops[0]), ops[1..], more);
      assert (ops + more)[1..] == ops[1..] + more;
    }
  }

  /**
   Refinement over whole runs: whatever is registered, sent, broadcast, started, stopped and drained, and
   whatever corrupt byte strings arrive in between, as long as the packets sent are shorter than 2^32 bytes, the
   runtime over frames ends up where the runtime over a plain queue of the decodable messages ends up.
   */
  lemma {:induction false} RunRefines(st: State, ops: seq<Op>)
    requires st.Valid() && st.backlog.Framed? && PossibleRun(st, ops) && AllFit(ops)
    ensures PossibleRun(Abs(st), ShadowRun(st, ops)) && Abs(Run(st, ops)) == Run(Abs(st), ShadowRun(st, ops))
    decreases |ops|
  {
    hide Step, Shadow, Fits;
    if ops != [] {
      StepRefines(st, ops[0]);
      RunRefines(Step(st, ops[0]), ops[1..]);
      RunConcat(Abs(st), Shadow(st, ops[0]), ShadowRun(Step(st, ops[0]), ops[1..]));
    }
  }

  /** Each operation of the run is matched over the plain queue, and not only where the run ends up. */
  ghost predicate RefinesThroughout(st: State, ops: seq<Op>)
    requires st.Valid() && st.backlog.Framed? && PossibleRun(st, ops)
    decreases |ops|
  {
    ops == [] ||
    (StepRefines(st, ops[0]);
     && Abs(Step(st, ops[0])) == Run(Abs(st), Shadow(st, ops[0]))
     && RefinesThroughout(Step(st, ops[0]), ops[1..]))
  }

  /** A run is matched throughout exactly when every packet sent in it is shorter than 2^32 bytes. */
  lemma {:induction false} ThroughoutExact(st: State, ops: seq<Op>)
    requires st.Valid() && st.backlog.Framed? && PossibleRun(st, ops)
    ensures RefinesThroughout(st, ops) <==> AllFit(ops)
    decreases |ops|
  {
    hide Step, Shadow, Fits, Run, Abs;
    if ops != [] {
      StepRefines(st, ops[0]);
      if Fits(ops[0]) {
        ThroughoutExact(Step(st, ops[0]), ops[1..]);
      }
      assert AllFit(ops) <==> Fits(ops[0]) && AllFit(ops[1..]) by {
        assert forall i | 0 <= i < |ops[1..]| :: ops[1..][i] == ops[i + 1];
      }
    }
  }
}
