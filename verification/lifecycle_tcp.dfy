/** The callbacks of agents and the numbering of messages over every run of a runtime over TCP. */
module AgentLifecycleOverTcp {
  import opened Bytes
  import opened Messages
  import opened AgentSystem
  import opened AgentSystemLaws
  import opened AgentsOverTcp
  import opened AgentLifecycle
  import Envelopes
  import TcpStream

  /** What is done with a runtime over TCP, and whatever else happens to the connection. */
  datatype LinkOp =
    | Local(op: Op) // registering, unregistering, starting and stopping
    | SendOver(message: Message)
    | PublishOver(source: bytes, target: bytes, event: Event)
    | BroadcastOver(source: bytes, event: Event, order: seq<bytes>) // to the names that were tried
    | TurnOver
    | DrainOver
    | Becomes(link: TcpStream.Link)

  ghost predicate PossibleOver(st: State, op: LinkOp) {
    match op
    case Local(o) => o.DoRegister? || o.DoUnregister? || o.DoStart? || o.DoStop?
    case BroadcastOver(_, _, order) => exists names | names <= st.agents.Keys :: IsOrder(order, names)
    case _ => true
  }

  ghost function StepOver(st: State, l: TcpStream.Link, op: LinkOp): (State, TcpStream.Link)
    requires st.Valid() && PossibleOver(st, op)
  {
    match op
    case Local(o) => (Step(st, o), l)
    case SendOver(m) => (st, TcpStream.Write(l, Envelopes.FrameOf(m)).0)
    case PublishOver(source, target, event) =>
      (st.(nextId := U64(st.nextId + 1)), TcpStream.Write(l, Envelopes.FrameOf(NewMessage(st, source, target, event))).0)
    case BroadcastOver(source, event, order) =>
      (st.(nextId := U64(st.nextId + |order|)), TcpStream.WriteAll(l, FramesFor(st.nextId, source, event, order)).0)
    case TurnOver => var (next, after, _) := Turn(st, l); (next, after)
    case DrainOver => DrainLink(st, l)
    case Becomes(link) => (st, link)
  }

  lemma StepOverValid(st: State, l: TcpStream.Link, op: LinkOp)
    requires st.Valid() && PossibleOver(st, op)
    ensures StepOver(st, l, op).0.Valid()
  {
    match op
    case Local(o) => StepValid(st, o);
    case TurnOver => TurnStep(st, l);
    case DrainOver => DrainLinkValid(st, l);
    case _ =>
  }

  lemma DrainLinkValid(st: State, l: TcpStream.Link)
    requires st.Valid()
    ensures DrainLink(st, l).0.Valid()
  {
    DrainLinkIsDrain(st, l);
    QueuedValid(st, Arriving(l));
    DrainValid(Queued(st, Arriving(l)));
  }

  ghost predicate PossibleRunOver(st: State, l: TcpStream.Link, ops: seq<LinkOp>)
    requires st.Valid()
    decreases |ops|
  {
    ops == [] ||
    (PossibleOver(st, ops[0])
     && (StepOverValid(st, l, ops[0]);
         var (next, after) := StepOver(st, l, ops[0]); PossibleRunOver(next, after, ops[1..])))
  }

  ghost function RunOver(st: State, l: TcpStream.Link, ops: seq<LinkOp>): (State, TcpStream.Link)
    requires st.Valid() && PossibleRunOver(st, l, ops)
    decreases |ops|
  {
    if ops == [] then (st, l) else
    StepOverValid(st, l, ops[0]);
    var (next, after) := StepOver(st, l, ops[0]);
    RunOver(next, after, ops[1..])
  }

  // ---------------------------------------------------------------------------------------------
  // Callbacks

  /** Two states that differ at most in the counter and in what waits in memory. */
  predicate SameAgents(st: State, other: State) {
    st.agents == other.agents && st.journal == other.journal && st.running == other.running
  }

  lemma SameInOrder(st: State, other: State, id: nat, born: bool)
    requires SameAgents(st, other) && InOrder(st, id, born)
    ensures InOrder(other, id, born)
  {
    assert st.Live(id) == other.Live(id);
  }

  lemma DrainLinkInOrder(st: State, l: TcpStream.Link, id: nat, born: bool)
    requires st.Valid() && InOrder(st, id, born)
    ensures InOrder(DrainLink(st, l).0, id, born)
  {
    hide InOrder, DrainLink, Drain;
    var q := Queued(st, Arriving(l));
    QueuedValid(st, Arriving(l));
    SameInOrder(st, q, id, born);
    DrainInOrder(q, id, born);
    DrainLinkIsDrain(st, l);
    SameInOrder(Drain(q), DrainLink(st, l).0, id, born);
  }

  lemma StepOverInOrder(st: State, l: TcpStream.Link, op: LinkOp, id: nat, born: bool)
    requires st.Valid() && PossibleOver(st, op) && InOrder(st, id, born)
    ensures InOrder(StepOver(st, l, op).0, id, born)
  {
    hide InOrder, Step, Dispatch, TcpStream.Read, TcpStream.Write, TcpStream.WriteAll, DrainLink;
    match op
    case Local(o) => StepInOrder(st, o, id, born);
    case TurnOver =>
      var m := MessageIn(TcpStream.Read(l).1);
      if st.running && m.Some? {
        DispatchInOrder(st, m.value, id, born);
      }
    case DrainOver => DrainLinkInOrder(st, l, id, born);
    case _ => SameInOrder(st, StepOver(st, l, op).0, id, born);
  }

  lemma {:induction false} RunOverInOrder(st: State, l: TcpStream.Link, ops: seq<LinkOp>, id: nat, born: bool)
    requires st.Valid() && PossibleRunOver(st, l, ops) && InOrder(st, id, born)
    ensures InOrder(RunOver(st, l, ops).0, id, born)
    decreases |ops|
  {
    hide InOrder, StepOver;
    if ops != [] {
      StepOverValid(st, l, ops[0]);
      StepOverInOrder(st, l, ops[0], id, born);
      var (next, after) := StepOver(st, l, ops[0]);
      RunOverInOrder(next, after, ops[1..], id, born);
    }
  }

  /** The life of an agent over every run over TCP, whatever comes in, fails or changes on the connection: as in memory. */
  lemma LifecycleOverTcp(st: State, l: TcpStream.Link, name: bytes, ops: seq<LinkOp>)
      returns (sessions: seq<seq<Message>>, open: Option<seq<Message>>)
    requires st.Valid() && Register(st, Some(name)).1 == NoError
    requires PossibleRunOver(st, l, [Local(DoRegister(Some(name)))] + ops)
    ensures var id := |st.journal|;
            var last := RunOver(st, l, [Local(DoRegister(Some(name)))] + ops).0;
            && id < |last.journal|
            && (if st.running then [Started] else []) + last.journal[id] == Word(sessions, open)
            && (open.Some? <==> last.Live(id) && last.running)
  {
    var op := Local(DoRegister(Some(name)));
    var born := StepOver(st, l, op).0;
    assert ([op] + ops)[1..] == ops;
    BornInOrder(st, name);
    RunOverInOrder(born, l, ops, |st.journal|, st.running);
    sessions, open := InOrderIsWord(RunOver(born, l, ops).0, |st.journal|, st.running);
  }

  lemma DrainLinkSilent(st: State, l: TcpStream.Link, id: nat)
    requires st.Valid() && id < |st.journal| && !st.Live(id)
    ensures Silent(st, DrainLink(st, l).0, id)
  {
    hide DrainLink, Drain;
    var q := Queued(st, Arriving(l));
    QueuedValid(st, Arriving(l));
    assert !q.Live(id);
    DrainSilent(q, id);
    DrainLinkIsDrain(st, l);
    assert DrainLink(st, l).0.agents == Drain(q).agents;
  }

  lemma DispatchSilent(st: State, m: Message, id: nat)
    requires st.Valid() && id < |st.journal| && !st.Live(id)
    ensures Silent(st, Dispatch(st, m).0, id)
  {
  }

  lemma StepOverSilent(st: State, l: TcpStream.Link, op: LinkOp, id: nat)
    requires st.Valid() && PossibleOver(st, op) && id < |st.journal| && !st.Live(id)
    ensures Silent(st, StepOver(st, l, op).0, id)
  {
    hide Step, Dispatch, TcpStream.Read, TcpStream.Write, TcpStream.WriteAll, DrainLink;
    match op
    case Local(o) => StepSilent(st, o, id);
    case TurnOver =>
      var m := MessageIn(TcpStream.Read(l).1);
      if st.running && m.Some? {
        DispatchSilent(st, m.value, id);
      }
    case DrainOver => DrainLinkSilent(st, l, id);
    case _ => assert !StepOver(st, l, op).0.Live(id);
  }

  /** Nothing is logged for an unregistered agent over TCP either. */
  lemma {:induction false} SilentOverTcp(st: State, l: TcpStream.Link, ops: seq<LinkOp>, id: nat)
    requires st.Valid() && PossibleRunOver(st, l, ops) && id < |st.journal| && !st.Live(id)
    ensures Silent(st, RunOver(st, l, ops).0, id)
    decreases |ops|
  {
    hide StepOver;
    if ops != [] {
      StepOverValid(st, l, ops[0]);
      StepOverSilent(st, l, ops[0], id);
      var (next, after) := StepOver(st, l, ops[0]);
      SilentOverTcp(next, after, ops[1..], id);
    }
  }

  // ---------------------------------------------------------------------------------------------
  // Message ids

  /** The messages that the runtime makes in one operation, whether or not it gets to send them. */
  function MadeOver(st: State, op: LinkOp): seq<Message> {
    match op
    case PublishOver(source, target, event) => [NewMessage(st, source, target, event)]
    case BroadcastOver(source, event, order) => MadeByBroadcast(st.nextId, source, event, order)
    case _ => []
  }

  ghost function MadeByRunOver(st: State, l: TcpStream.Link, ops: seq<LinkOp>): seq<Message>
    requires st.Valid() && PossibleRunOver(st, l, ops)
    decreases |ops|
  {
    if ops == [] then [] else
    StepOverValid(st, l, ops[0]);
    var (next, after) := StepOver(st, l, ops[0]);
    MadeOver(st, ops[0]) + MadeByRunOver(next, after, ops[1..])
  }

  lemma LocalKeepsCount(st: State, op: Op)
    requires st.Valid() && PossibleOver(st, Local(op))
    ensures Step(st, op).nextId == st.nextId
  {
    hide NoteAll, Note;
  }

  lemma TurnKeepsCount(st: State, l: TcpStream.Link)
    requires st.Valid()
    ensures Turn(st, l).0.nextId == st.nextId
  {
    hide TcpStream.Read, MessageIn;
  }

  lemma DrainLinkKeepsCount(st: State, l: TcpStream.Link)
    requires st.Valid()
    ensures DrainLink(st, l).0.nextId == st.nextId
  {
    hide DrainLink, Drain, State.Valid;
    DrainLinkIsDrain(st, l);
    QueuedValid(st, Arriving(l));
    DrainKeepsCount(Queued(st, Arriving(l)));
  }

  lemma StepOverCounts(st: State, l: TcpStream.Link, op: LinkOp)
    requires st.Valid() && PossibleOver(st, op)
    ensures Numbered(MadeOver(st, op), st.nextId)
    ensures StepOver(st, l, op).0.nextId == U64(st.nextId + |MadeOver(st, op)|)
  {
    hide MadeByBroadcast, Numbered, DrainLink, Turn, Step, FramesFor, Envelopes.FrameOf, TcpStream.Write, TcpStream.WriteAll,
      U64, IsOrder, State.Valid;
    NoneNumbered(st.nextId);
    match op
    case Local(o) => LocalKeepsCount(st, o);
    case TurnOver => TurnKeepsCount(st, l);
    case PublishOver(source, target, event) => OneNumbered(NewMessage(st, source, target, event), st.nextId);
    case BroadcastOver(source, event, order) => MadeNumbered(st.nextId, source, event, order);
    case DrainOver => DrainLinkKeepsCount(st, l);
    case _ =>
  }

  /** Over any run over TCP, the messages made are numbered from the counter on, sent or not. */
  lemma {:induction false} RunOverNumbers(st: State, l: TcpStream.Link, ops: seq<LinkOp>)
    requires st.Valid() && PossibleRunOver(st, l, ops)
    ensures Numbered(MadeByRunOver(st, l, ops), st.nextId)
    ensures RunOver(st, l, ops).0.nextId == U64(st.nextId + |MadeByRunOver(st, l, ops)|)
    decreases |ops|
  {
    hide StepOver, MadeOver, Numbered;
    NoneNumbered(st.nextId);
    if ops != [] {
      StepOverValid(st, l, ops[0]);
      StepOverCounts(st, l, ops[0]);
      var (next, after) := StepOver(st, l, ops[0]);
      RunOverNumbers(next, after, ops[1..]);
      NumberedConcat(MadeOver(st, ops[0]), MadeByRunOver(next, after, ops[1..]), st.nextId);
    }
  }
}
