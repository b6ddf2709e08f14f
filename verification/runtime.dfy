/**
 The agent runtime (core/src/runtime.cpp) over either in-memory transport, as a state machine.
 Agents are numbered in the order in which they are registered; `journal[id]` lists the callbacks agent
 `id` has had, which outlives its registration. Handlers do nothing but note that they were called.
 */
module AgentSystem {
  import opened Bytes
  import opened Messages
  import opened Envelopes

  datatype Callback = Started | Delivered(message: Message) | Stopped

  /** What waits in the transport: messages, or byte strings that may or may not be frames of messages. */
  datatype Backlog = Plain(messages: seq<Message>) | Framed(frames: seq<bytes>) {
    predicate Empty() {
      match this
      case Plain(ms) => ms == []
      case Framed(fs) => fs == []
    }

    function Size(): nat {
      match this
      case Plain(ms) => |ms|
      case Framed(fs) => |fs|
    }

    function Put(m: Message): Backlog {
      match this
      case Plain(ms) => Plain(ms + [m])
      case Framed(fs) => Framed(fs + [FrameOf(m)])
    }

    /** `receive`: the first item goes; a byte string that is no frame of a message counts as no message. */
    function Take(): (r: (Option<Message>, Backlog))
      ensures !Empty() ==> r.1.Size() == Size() - 1
    {
      if Empty() then (None, this) else
      match this
      case Plain(ms) => (Some(ms[0]), Plain(ms[1..]))
      case Framed(fs) => (MessageOf(fs[0]), Framed(fs[1..]))
    }
  }

  datatype State = State(
    agents: map<bytes, nat>, journal: seq<seq<Callback>>, running: bool, nextId: u64, backlog: Backlog)
  {
    /** Every registered name has its own agent. */
    ghost predicate Valid() {
      && (forall n | n in agents :: n != [] && agents[n] < |journal|)
      && (forall n, k | n in agents && k in agents && agents[n] == agents[k] :: n == k)
    }

    predicate Live(id: nat) {
      id in agents.Values
    }
  }

  const FRESH: State := State(map[], [], false, 1, Plain([]))

  function Note(journal: seq<seq<Callback>>, id: nat, c: Callback): seq<seq<Callback>>
    requires id < |journal|
  {
    journal[id := journal[id] + [c]]
  }

  function NoteAll(journal: seq<seq<Callback>>, ids: set<nat>, c: Callback): (r: seq<seq<Callback>>)
    ensures |r| == |journal|
  {
    seq(|journal|, id requires 0 <= id < |journal| => if id in ids then journal[id] + [c] else journal[id])
  }

  /** `agent` is the name of the agent handed over, or `None` for a null pointer. */
  function Register(st: State, agent: Option<bytes>): (State, ErrorCode) {
    if agent.None? then (st, InvalidArgument)
    else if agent.value == [] then (st, InvalidArgument)
    else if agent.value in st.agents then (st, AgentAlreadyExists)
    else (st.(agents := st.agents[agent.value := |st.journal|], journal := st.journal + [[]]), NoError)
  }

  function Unregister(st: State, name: bytes): (State, ErrorCode)
    requires st.Valid()
  {
    if name !in st.agents then (st, AgentNotFound) else
    var journal := if st.running then Note(st.journal, st.agents[name], Stopped) else st.journal;
    (st.(agents := st.agents - {name}, journal := journal), NoError)
  }

  function Send(st: State, m: Message): State {
    st.(backlog := st.backlog.Put(m))
  }

  /** The message `publish_event` creates. */
  function NewMessage(st: State, source: bytes, target: bytes, event: Event): Message {
    EventMessage(st.nextId, source, target, event)
  }

  function Publish(st: State, source: bytes, target: bytes, event: Event): State {
    Send(st, NewMessage(st, source, target, event)).(nextId := U64(st.nextId + 1))
  }

  /** The messages that `broadcast_event` creates, the first with number `id`. */
  function MadeByBroadcast(id: u64, source: bytes, event: Event, order: seq<bytes>): (r: seq<Message>)
    ensures |r| == |order|
  {
    seq(|order|, i requires 0 <= i < |order| => EventMessage(U64(id + i), source, order[i], event))
  }

  /** One message to each name in `order`. */
  function Broadcast(st: State, source: bytes, event: Event, order: seq<bytes>): State
    decreases |order|
  {
    if order == [] then st
    else Broadcast(Publish(st, source, order[0], event), source, event, order[1..])
  }

  /** An order in which the map of agents can be walked through. */
  ghost predicate IsOrder(order: seq<bytes>, names: set<bytes>) {
    && (forall n :: n in order <==> n in names)
    && (forall i, j | 0 <= i < j < |order| :: order[i] != order[j])
  }

  function Start(st: State): State {
    if st.running then st
    else st.(running := true, journal := NoteAll(st.journal, st.agents.Values, Started))
  }

  function Stop(st: State): State {
    if !st.running then st
    else st.(running := false, journal := NoteAll(st.journal, st.agents.Values, Stopped))
  }

  function Dispatch(st: State, m: Message): (State, ErrorCode)
    requires st.Valid()
  {
    if m.target !in st.agents then (st, AgentNotFound)
    else (st.(journal := Note(st.journal, st.agents[m.target], Delivered(m))), NoError)
  }

  function RunOnce(st: State): (State, ErrorCode)
    requires st.Valid()
  {
    if !st.running then (st, RuntimeNotRunning) else
    var (m, rest) := st.backlog.Take();
    var next := st.(backlog := rest);
    if m.None? then (next, NoError) else Dispatch(next, m.value)
  }

  function Drain(st: State): State
    requires st.Valid()
    decreases st.backlog.Size()
  {
    if st.backlog.Empty() then st else
    var (next, code) := RunOnce(st);
    if code != NoError then next else Drain(next)
  }

  // ---------------------------------------------------------------------------------------------
  // Runs

  datatype Op =
    | DoRegister(agent: Option<bytes>)
    | DoUnregister(name: bytes)
    | DoSend(message: Message)
    | DoPublish(source: bytes, target: bytes, event: Event)
    | DoBroadcast(source: bytes, event: Event, order: seq<bytes>)
    | DoStart
    | DoStop
    | DoRunOnce
    | DoDrain
    | Arrive(frame: bytes) // a byte string put into the byte transport by someone else

  ghost predicate Possible(st: State, op: Op) {
    match op
    case DoBroadcast(_, _, order) => IsOrder(order, st.agents.Keys)
    case Arrive(_) => st.backlog.Framed?
    case _ => true
  }

  ghost function Step(st: State, op: Op): State
    requires st.Valid() && Possible(st, op)
  {
    match op
    case DoRegister(agent) => Register(st, agent).0
    case DoUnregister(name) => Unregister(st, name).0
    case DoSend(m) => Send(st, m)
    case DoPublish(source, target, event) => Publish(st, source, target, event)
    case DoBroadcast(source, event, order) => Broadcast(st, source, event, order)
    case DoStart => Start(st)
    case DoStop => Stop(st)
    case DoRunOnce => RunOnce(st).0
    case DoDrain => Drain(st)
    case Arrive(frame) => st.(backlog := Framed(st.backlog.frames + [frame]))
  }

  /** Every successful `run_once` on a queue that is not empty takes an item off it, so `drain` ends. */
  lemma RunOnceStep(st: State)
    requires st.Valid()
    ensures RunOnce(st).1 == NoError && !st.backlog.Empty() ==> RunOnce(st).0.backlog.Size() < st.backlog.Size()
  {
  }

  lemma DispatchValid(st: State, m: Message)
    requires st.Valid()
    ensures Dispatch(st, m).0.Valid()
  {
  }

  lemma {:induction false} DrainValid(st: State)
    requires st.Valid()
    ensures Drain(st).Valid()
    decreases st.backlog.Size()
  {
    if !st.backlog.Empty() {
      var (next, code) := RunOnce(st);
      RunOnceValid(st);
      if code == NoError {
        DrainValid(next);
      }
    }
  }

  lemma DrainStep(st: State)
    requires st.Valid()
    ensures RunOnce(st).0.Valid()
    ensures Drain(st) == if st.backlog.Empty() then st
                         else if RunOnce(st).1 != NoError then RunOnce(st).0 else Drain(RunOnce(st).0)
  {
    RunOnceValid(st);
  }

  lemma RunOnceValid(st: State)
    requires st.Valid()
    ensures RunOnce(st).0.Valid()
  {
    if st.running {
      var (m, rest) := st.backlog.Take();
      assert st.(backlog := rest).Valid();
      if m.Some? {
        DispatchValid(st.(backlog := rest), m.value);
      }
    }
  }

  lemma {:induction false} BroadcastFrame(st: State, source: bytes, event: Event, order: seq<bytes>)
    ensures var r := Broadcast(st, source, event, order);
            r.agents == st.agents && r.journal == st.journal && r.running == st.running
    ensures st.Valid() ==> Broadcast(st, source, event, order).Valid()
    decreases |order|
  {
    if order != [] {
      BroadcastFrame(Publish(st, source, order[0], event), source, event, order[1..]);
    }
  }

  /** Every operation keeps names and agents matched one to one. */
  lemma StepValid(st: State, op: Op)
    requires st.Valid() && Possible(st, op)
    ensures Step(st, op).Valid()
  {
    match op
    case DoBroadcast(source, event, order) => BroadcastFrame(st, source, event, order);
    case DoDrain => DrainValid(st);
    case DoRunOnce => RunOnceValid(st);
    case DoRegister(agent) =>
      if Register(st, agent).1 == NoError {
        var r := Register(st, agent).0;
        forall n, k | n in r.agents && k in r.agents && r.agents[n] == r.agents[k]
          ensures n == k
        {
        }
      }
    case _ =>
  }

  ghost predicate PossibleRun(st: State, ops: seq<Op>)
    requires st.Valid()
    decreases |ops|
  {
    ops == [] || (Possible(st, ops[0]) && (StepValid(st, ops[0]); PossibleRun(Step(st, ops[0]), ops[1..])))
  }

  ghost function Run(st: State, ops: seq<Op>): (r: State)
    requires st.Valid() && PossibleRun(st, ops)
    ensures r.Valid()
    decreases |ops|
  {
    if ops == [] then st else
    StepValid(st, ops[0]);
    Run(Step(st, ops[0]), ops[1..])
  }
}
