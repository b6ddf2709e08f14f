/** The language of an agent's callbacks, and the numbering of messages, over every run of the runtime. */
module AgentLifecycle {
  import opened Bytes
  import opened Messages
  import opened Envelopes
  import opened AgentSystem
  import opened AgentSystemLaws

  /** Whether the agent is started after `log`, if `log` is in order for an agent that was so before. */
  function Follow(started: bool, log: seq<Callback>): Option<bool>
    decreases |log|
  {
    if log == [] then Some(started) else
    var before := Follow(started, log[..|log| - 1]);
    if before.None? then None else
    match log[|log| - 1]
    case Started => if before.value then None else Some(true)
    case Delivered(_) => if before.value then before else None
    case Stopped => if before.value then Some(false) else None
  }

  // ---------------------------------------------------------------------------------------------
  // The language as a regular expression

  function Deliveries(ms: seq<Message>): (r: seq<Callback>)
    ensures |r| == |ms|
  {
    seq(|ms|, i requires 0 <= i < |ms| => Delivered(ms[i]))
  }

  /** Closed sessions `start msg* stop`, one after another. */
  function Closed(sessions: seq<seq<Message>>): seq<Callback> {
    if sessions == [] then []
    else Closed(sessions[..|sessions| - 1]) + [Started] + Deliveries(sessions[|sessions| - 1]) + [Stopped]
  }

  /** `(start msg* stop)*`, followed by an open `start msg*` if there is one. */
  function Word(sessions: seq<seq<Message>>, open: Option<seq<Message>>): seq<Callback> {
    match open
    case None => Closed(sessions)
    case Some(ms) => Closed(sessions) + [Started] + Deliveries(ms)
  }

  /** A log that is in order from a stopped beginning is a word `(start msg* stop)* (start msg*)?`. */
  lemma {:induction false} FollowedIsWord(log: seq<Callback>) returns (sessions: seq<seq<Message>>, open: Option<seq<Message>>)
    requires Follow(false, log).Some?
    ensures log == Word(sessions, open) && open.Some? == Follow(false, log).value
    decreases |log|
  {
    if log == [] {
      return [], None;
    }
    var front, last := log[..|log| - 1], log[|log| - 1];
    assert log == front + [last];
    var s, o := FollowedIsWord(front);
    match last
    case Started =>
      assert log == Closed(s) + [Started] + Deliveries([]);
      return s, Some([]);
    case Delivered(m) =>
      assert Deliveries(o.value + [m]) == Deliveries(o.value) + [Delivered(m)];
      assert log == Closed(s) + [Started] + Deliveries(o.value + [m]);
      return s, Some(o.value + [m]);
    case Stopped =>
      assert (s + [o.value])[..|s|] == s;
      return s + [o.value], None;
  }

  lemma FollowOne(started: bool, log: seq<Callback>, c: Callback)
    requires Follow(started, log).Some?
    ensures Follow(started, log + [c]) ==
            match c
            case Started => if Follow(started, log).value then None else Some(true)
            case Delivered(_) => if Follow(started, log).value then Some(true) else None
            case Stopped => if Follow(started, log).value then Some(false) else None
  {
    assert (log + [c])[..|log|] == log;
  }

  lemma {:induction false} FollowDeliveries(started: bool, log: seq<Callback>, ms: seq<Message>)
    requires Follow(started, log) == Some(true)
    ensures Follow(started, log + Deliveries(ms)) == Some(true)
    decreases |ms|
  {
    if ms == [] {
      assert log + Deliveries(ms) == log;
    } else {
      var front := ms[..|ms| - 1];
      FollowDeliveries(started, log, front);
      FollowOne(started, log + Deliveries(front), Delivered(ms[|ms| - 1]));
      assert log + Deliveries(ms) == log + Deliveries(front) + [Delivered(ms[|ms| - 1])];
    }
  }

  lemma {:induction false} ClosedFollows(sessions: seq<seq<Message>>)
    ensures Follow(false, Closed(sessions)) == Some(false)
    decreases |sessions|
  {
    if sessions != [] {
      var front, last := sessions[..|sessions| - 1], sessions[|sessions| - 1];
      ClosedFollows(front);
      FollowOne(false, Closed(front), Started);
      FollowDeliveries(false, Closed(front) + [Started], last);
      FollowOne(false, Closed(front) + [Started] + Deliveries(last), Stopped);
    }
  }

  /** And every such word is in order: the two descriptions of the language agree. */
  lemma WordFollows(sessions: seq<seq<Message>>, open: Option<seq<Message>>)
    ensures Follow(false, Word(sessions, open)) == Some(open.Some?)
  {
    ClosedFollows(sessions);
    if open.Some? {
      FollowOne(false, Closed(sessions), Started);
      FollowDeliveries(false, Closed(sessions) + [Started], open.value);
    }
  }

  /** A log in order from a started beginning lacks only the first start. */
  lemma {:induction false} LacksFirstStart(log: seq<Callback>)
    ensures Follow(true, log) == Follow(false, [Started] + log)
    decreases |log|
  {
    if log == [] {
      FollowOne(false, [], Started);
      assert [] + [Started] == [Started] + log;
    } else {
      LacksFirstStart(log[..|log| - 1]);
      assert ([Started] + log)[..|log|] == [Started] + log[..|log| - 1];
    }
  }

  // ---------------------------------------------------------------------------------------------
  // Every run

  /**
   The log of agent `id`, whose runtime was running or not when it was registered as `born` says, is in
   order, and says that the agent is started just when it is registered with a running runtime.
   */
  ghost predicate InOrder(st: State, id: nat, born: bool) {
    id < |st.journal| && Follow(born, st.journal[id]) == Some(st.Live(id) && st.running)
  }

  lemma NotedInOrder(st: State, id: nat, born: bool, other: nat, c: Callback)
    requires InOrder(st, id, born) && other < |st.journal|
    requires c.Delivered? && st.running && st.Live(other)
    ensures Follow(born, Note(st.journal, other, c)[id]) == Follow(born, st.journal[id])
  {
    FollowOne(born, st.journal[id], c);
  }

  lemma DispatchInOrder(st: State, m: Message, id: nat, born: bool)
    requires st.Valid() && st.running && InOrder(st, id, born)
    ensures InOrder(Dispatch(st, m).0, id, born)
  {
    if m.target in st.agents {
      NotedInOrder(st, id, born, st.agents[m.target], Delivered(m));
    }
  }

  lemma RunOnceInOrder(st: State, id: nat, born: bool)
    requires st.Valid() && InOrder(st, id, born)
    ensures InOrder(RunOnce(st).0, id, born)
  {
    if st.running {
      var (m, rest) := st.backlog.Take();
      var next := st.(backlog := rest);
      assert InOrder(next, id, born);
      if m.Some? {
        DispatchInOrder(next, m.value, id, born);
      }
    }
  }

  lemma {:induction false} DrainInOrder(st: State, id: nat, born: bool)
    requires st.Valid() && InOrder(st, id, born)
    ensures InOrder(Drain(st), id, born)
    decreases st.backlog.Size()
  {
    hide InOrder, RunOnce;
    RunOnceStep(st);
    if !st.backlog.Empty() {
      RunOnceInOrder(st, id, born);
      RunOnceValid(st);
      if RunOnce(st).1 == NoError {
        DrainInOrder(RunOnce(st).0, id, born);
      }
    }
  }

  lemma UnregisterInOrder(st: State, name: bytes, id: nat, born: bool)
    requires st.Valid() && InOrder(st, id, born)
    ensures InOrder(Unregister(st, name).0, id, born)
  {
    if name in st.agents {
      var r := Unregister(st, name).0;
      if st.agents[name] == id {
        FollowOne(born, st.journal[id], Stopped);
        assert !r.Live(id);
      } else {
        assert forall n | n in st.agents && n != name :: n in r.agents && r.agents[n] == st.agents[n];
        assert r.Live(id) == st.Live(id);
      }
    }
  }

  lemma StartStopInOrder(st: State, id: nat, born: bool)
    requires st.Valid() && InOrder(st, id, born)
    ensures InOrder(Start(st), id, born) && InOrder(Stop(st), id, born)
  {
    FollowOne(born, st.journal[id], Started);
    FollowOne(born, st.journal[id], Stopped);
  }

  lemma RegisterInOrder(st: State, agent: Option<bytes>, id: nat, born: bool)
    requires st.Valid() && InOrder(st, id, born)
    ensures InOrder(Register(st, agent).0, id, born)
  {
    if Register(st, agent).1 == NoError {
      var r := Register(st, agent).0;
      assert forall n | n in st.agents :: n in r.agents && r.agents[n] == st.agents[n];
      assert r.agents[agent.value] == |st.journal|;
      assert r.Live(id) == st.Live(id);
    }
  }

  lemma StepInOrder(st: State, op: Op, id: nat, born: bool)
    requires st.Valid() && Possible(st, op) && InOrder(st, id, born)
    ensures InOrder(Step(st, op), id, born)
  {
    match op
    case DoRegister(agent) => RegisterInOrder(st, agent, id, born);
    case DoUnregister(name) => UnregisterInOrder(st, name, id, born);
    case DoBroadcast(source, event, order) => BroadcastFrame(st, source, event, order);
    case DoStart => StartStopInOrder(st, id, born);
    case DoStop => StartStopInOrder(st, id, born);
    case DoRunOnce => RunOnceInOrder(st, id, born);
    case DoDrain => DrainInOrder(st, id, born);
    case _ =>
  }

  lemma {:induction false} RunInOrder(st: State, ops: seq<Op>, id: nat, born: bool)
    requires st.Valid() && PossibleRun(st, ops) && InOrder(st, id, born)
    ensures InOrder(Run(st, ops), id, born)
    decreases |ops|
  {
    hide InOrder, Step;
    if ops != [] {
      StepValid(st, ops[0]);
      StepInOrder(st, ops[0], id, born);
      RunInOrder(Step(st, ops[0]), ops[1..], id, born);
    }
  }

  /** A log in order is a word, once a start that was missed is put in front. */
  lemma InOrderIsWord(st: State, id: nat, born: bool) returns (sessions: seq<seq<Message>>, open: Option<seq<Message>>)
    requires InOrder(st, id, born)
    ensures (if born then [Started] else []) + st.journal[id] == Word(sessions, open)
    ensures open.Some? <==> st.Live(id) && st.running
  {
    var log := st.journal[id];
    if born {
      LacksFirstStart(log);
      sessions, open := FollowedIsWord([Started] + log);
    } else {
      assert [] + log == log;
      sessions, open := FollowedIsWord(log);
    }
  }

  lemma BornInOrder(st: State, name: bytes)
    requires st.Valid() && Register(st, Some(name)).1 == NoError
    ensures Register(st, Some(name)).0.Valid() && InOrder(Register(st, Some(name)).0, |st.journal|, st.running)
  {
    var born := Register(st, Some(name)).0;
    StepValid(st, DoRegister(Some(name)));
    assert born.agents[name] == |st.journal|;
  }

  /**
   The life of an agent, over every run that follows its registration: registered while the runtime is
   stopped, its callbacks form a word `(start msg* stop)* (start msg*)?`; registered while it runs, they do
   once the start it missed is put in front. The last session is open exactly while the agent is
   registered and the runtime runs.
   */
  lemma Lifecycle(st: State, name: bytes, ops: seq<Op>) returns (sessions: seq<seq<Message>>, open: Option<seq<Message>>)
    requires st.Valid() && Register(st, Some(name)).1 == NoError
    requires PossibleRun(st, [DoRegister(Some(name))] + ops)
    ensures var id := |st.journal|;
            var last := Run(st, [DoRegister(Some(name))] + ops);
            && id < |last.journal|
            && (if st.running then [Started] else []) + last.journal[id] == Word(sessions, open)
            && (open.Some? <==> last.Live(id) && last.running)
  {
    var op := DoRegister(Some(name));
    var born := Step(st, op);
    assert ([op] + ops)[1..] == ops;
    BornInOrder(st, name);
    RunInOrder(born, ops, |st.journal|, st.running);
    sessions, open := InOrderIsWord(Run(born, ops), |st.journal|, st.running);
  }

  /** An agent that is not registered is never called again. */
  ghost predicate Silent(st: State, later: State, id: nat) {
    id < |st.journal| <= |later.journal| && !later.Live(id) && later.journal[id] == st.journal[id]
  }

  lemma RunOnceSilent(st: State, id: nat)
    requires st.Valid() && id < |st.journal| && !st.Live(id)
    ensures Silent(st, RunOnce(st).0, id)
  {
  }

  lemma {:induction false} DrainSilent(st: State, id: nat)
    requires st.Valid() && id < |st.journal| && !st.Live(id)
    ensures Silent(st, Drain(st), id)
    decreases st.backlog.Size()
  {
    hide RunOnce;
    RunOnceStep(st);
    if !st.backlog.Empty() {
      RunOnceSilent(st, id);
      RunOnceValid(st);
      if RunOnce(st).1 == NoError {
        DrainSilent(RunOnce(st).0, id);
      }
    }
  }

  lemma StepSilent(st: State, op: Op, id: nat)
    requires st.Valid() && Possible(st, op) && id < |st.journal| && !st.Live(id)
    ensures Silent(st, Step(st, op), id)
  {
    match op
    case DoBroadcast(source, event, order) => BroadcastFrame(st, source, event, order);
    case DoRunOnce => RunOnceSilent(st, id);
    case DoDrain => DrainSilent(st, id);
    case _ =>
  }

  /** After an agent is unregistered nothing is logged for it, whatever happens next. */
  lemma {:induction false} SilentAfterUnregister(st: State, ops: seq<Op>, id: nat)
    requires st.Valid() && PossibleRun(st, ops) && id < |st.journal| && !st.Live(id)
    ensures Silent(st, Run(st, ops), id)
    decreases |ops|
  {
    hide Step;
    if ops != [] {
      StepValid(st, ops[0]);
      StepSilent(st, ops[0], id);
      SilentAfterUnregister(Step(st, ops[0]), ops[1..], id);
    }
  }

  // ---------------------------------------------------------------------------------------------
  // Message ids

  /** The messages that the runtime itself makes in one operation, in the order in which it sends them. */
  function Made(st: State, op: Op): seq<Message> {
    match op
    case DoPublish(source, target, event) => [NewMessage(st, source, target, event)]
    case DoBroadcast(source, event, order) => MadeByBroadcast(st.nextId, source, event, order)
    case _ => []
  }

  ghost function MadeByRun(st: State, ops: seq<Op>): seq<Message>
    requires st.Valid() && PossibleRun(st, ops)
    decreases |ops|
  {
    if ops == [] then [] else
    StepValid(st, ops[0]);
    Made(st, ops[0]) + MadeByRun(Step(st, ops[0]), ops[1..])
  }

  /** Numbered from `id` on, without gap or repeat, up to the wrap of the 64-bit counter. */
  predicate Numbered(ms: seq<Message>, id: nat) {
    forall i | 0 <= i < |ms| :: ms[i].id == U64(id + i)
  }

  lemma MadeNothing(id: u64, source: bytes, event: Event)
    ensures MadeByBroadcast(id, source, event, []) == []
  {
  }

  lemma MadeStep(id: u64, source: bytes, event: Event, order: seq<bytes>)
    requires order != []
    ensures MadeByBroadcast(id, source, event, order) ==
            [EventMessage(id, source, order[0], event)] + MadeByBroadcast(U64(id + 1), source, event, order[1..])
  {
    var all := MadeByBroadcast(id, source, event, order);
    var rest := MadeByBroadcast(U64(id + 1), source, event, order[1..]);
    forall i | 0 <= i < |rest|
      ensures all[i + 1] == rest[i]
    {
      NextId(id, i);
    }
  }

  lemma NextId(id: u64, i: nat)
    ensures U64(U64(id + 1) + i) == U64(id + (i + 1))
  {
  }

  lemma {:induction false} BroadcastSends(st: State, source: bytes, event: Event, order: seq<bytes>)
    requires st.backlog.Plain?
    ensures Broadcast(st, source, event, order).backlog ==
            Plain(st.backlog.messages + MadeByBroadcast(st.nextId, source, event, order))
    decreases |order|
  {
    hide MadeByBroadcast;
    MadeNothing(st.nextId, source, event);
    if order == [] {
      assert st.backlog.messages + [] == st.backlog.messages;
    } else {
      var next := Publish(st, source, order[0], event);
      BroadcastSends(next, source, event, order[1..]);
      MadeStep(st.nextId, source, event, order);
      Assocs(st.backlog.messages, NewMessage(st, source, order[0], event),
             MadeByBroadcast(next.nextId, source, event, order[1..]));
    }
  }

  lemma Assocs(ms: seq<Message>, m: Message, rest: seq<Message>)
    ensures ms + [m] + rest == ms + ([m] + rest)
  {
  }

  lemma {:induction false} BroadcastCounts(st: State, source: bytes, event: Event, order: seq<bytes>)
    ensures Broadcast(st, source, event, order).nextId == U64(st.nextId + |order|)
    decreases |order|
  {
    hide FrameOf, U64;
    if order == [] {
      NoneNumbered(st.nextId);
    } else {
      BroadcastCounts(Publish(st, source, order[0], event), source, event, order[1..]);
      NextId(st.nextId, |order| - 1);
    }
  }

  lemma RunOnceKeepsCount(st: State)
    requires st.Valid()
    ensures RunOnce(st).0.nextId == st.nextId
  {
  }

  lemma {:induction false} DrainKeepsCount(st: State)
    requires st.Valid()
    ensures Drain(st).nextId == st.nextId
    decreases st.backlog.Size()
  {
    hide RunOnce;
    RunOnceStep(st);
    if !st.backlog.Empty() {
      RunOnceKeepsCount(st);
      RunOnceValid(st);
      if RunOnce(st).1 == NoError {
        DrainKeepsCount(RunOnce(st).0);
      }
    }
  }

  lemma NoneNumbered(id: u64)
    ensures Numbered([], id) && U64(id) == id
  {
  }

  lemma MadeNumbered(id: u64, source: bytes, event: Event, order: seq<bytes>)
    ensures Numbered(MadeByBroadcast(id, source, event, order), id)
  {
  }

  lemma StepCounts(st: State, op: Op)
    requires st.Valid() && Possible(st, op)
    ensures Numbered(Made(st, op), st.nextId) && Step(st, op).nextId == U64(st.nextId + |Made(st, op)|)
  {
    hide Broadcast, RunOnce, Drain, MadeByBroadcast, FrameOf, U64, IsOrder;
    NoneNumbered(st.nextId);
    match op
    case DoPublish(source, target, event) => OneNumbered(NewMessage(st, source, target, event), st.nextId);
    case DoBroadcast(source, event, order) =>
      BroadcastCounts(st, source, event, order);
      MadeNumbered(st.nextId, source, event, order);
    case DoRunOnce => RunOnceKeepsCount(st);
    case DoDrain => DrainKeepsCount(st);
    case _ =>
  }

  lemma OneNumbered(m: Message, id: u64)
    requires m.id == id
    ensures Numbered([m], id)
  {
  }

  lemma NumberedConcat(a: seq<Message>, b: seq<Message>, id: nat)
    requires Numbered(a, id) && Numbered(b, U64(id + |a|))
    ensures Numbered(a + b, id) && U64(U64(id + |a|) + |b|) == U64(id + |a + b|)
  {
    hide U64;
    CountedTwice(id, |a|, |b|);
    forall i | 0 <= i < |a + b|
      ensures (a + b)[i].id == U64(id + i)
    {
      if i >= |a| {
        CountedTwice(id, |a|, i - |a|);
        assert (a + b)[i] == b[i - |a|];
      }
    }
  }

  lemma CountedTwice(id: nat, k: nat, i: nat)
    ensures U64(U64(id + k) + i) == U64(id + (k + i))
  {
  }

  /**
   Over any run, whatever else happens in it, the messages that the runtime makes are numbered in the order
   in which they are made, from the counter on, without gap or repeat.
   */
  lemma {:induction false} RunNumbers(st: State, ops: seq<Op>)
    requires st.Valid() && PossibleRun(st, ops)
    ensures Numbered(MadeByRun(st, ops), st.nextId)
    ensures Run(st, ops).nextId == U64(st.nextId + |MadeByRun(st, ops)|)
    decreases |ops|
  {
    hide Step, Made, Numbered;
    NoneNumbered(st.nextId);
    if ops != [] {
      StepValid(st, ops[0]);
      StepCounts(st, ops[0]);
      var made, next := Made(st, ops[0]), Step(st, ops[0]);
      var rest := MadeByRun(next, ops[1..]);
      RunNumbers(next, ops[1..]);
      NumberedConcat(made, rest, st.nextId);
    }
  }

  /** In a new runtime the ids are 1, 2, 3 and so on exactly if there are fewer than 2^64 messages. */
  lemma FreshRunNumbers(ops: seq<Op>)
    requires PossibleRun(FRESH, ops)
    ensures var made := MadeByRun(FRESH, ops);
            (forall i | 0 <= i < |made| :: made[i].id == i + 1) <==> |made| < TWO64
  {
    hide MadeByRun;
    var made := MadeByRun(FRESH, ops);
    RunNumbers(FRESH, ops);
    if |made| >= TWO64 {
      assert made[TWO64 - 1].id == 0;
    }
  }

  /** While only `publish_event` and `broadcast_event` are called, the queue holds just what was made. */
  lemma {:induction false} MadeIsQueued(st: State, ops: seq<Op>)
    requires st.Valid() && st.backlog.Plain? && PossibleRun(st, ops)
    requires forall i | 0 <= i < |ops| :: ops[i].DoPublish? || ops[i].DoBroadcast?
    ensures Run(st, ops).backlog == Plain(st.backlog.messages + MadeByRun(st, ops))
    decreases |ops|
  {
    if ops == [] {
      assert st.backlog.messages + [] == st.backlog.messages;
    } else {
      assert ops[0].DoPublish? || ops[0].DoBroadcast?;
      StepValid(st, ops[0]);
      match ops[0] {
        case DoBroadcast(source, event, order) => BroadcastSends(st, source, event, order);
        case DoPublish(_, _, _) =>
      }
      MadeIsQueued(Step(st, ops[0]), ops[1..]);
      AssocMany(st.backlog.messages, Made(st, ops[0]), MadeByRun(Step(st, ops[0]), ops[1..]));
    }
  }

  lemma AssocMany(a: seq<Message>, b: seq<Message>, c: seq<Message>)
    ensures a + b + c == a + (b + c)
  {
  }

  // ---------------------------------------------------------------------------------------------
  // Broadcast and drain

  lemma {:induction false} AddressedOnce(ms: seq<Message>, n: bytes, k: nat)
    requires k < |ms| && ms[k].target == n
    requires forall i | 0 <= i < |ms| && i != k :: ms[i].target != n
    ensures AddressedTo(n, ms) == [Delivered(ms[k])]
    decreases |ms|
  {
    if k == 0 {
      NotAddressed(ms[1..], n);
    } else {
      AddressedOnce(ms[1..], n, k - 1);
    }
  }

  lemma {:induction false} NotAddressed(ms: seq<Message>, n: bytes)
    requires forall i | 0 <= i < |ms| :: ms[i].target != n
    ensures AddressedTo(n, ms) == []
  {
    if ms != [] {
      NotAddressed(ms[1..], n);
    }
  }

  /** Each name in the order is addressed by exactly one of the messages made. */
  lemma MadeAddressesOnce(id: u64, source: bytes, event: Event, order: seq<bytes>, names: set<bytes>, n: bytes)
    returns (own: u64)
    requires IsOrder(order, names) && n in names
    ensures AddressedTo(n, MadeByBroadcast(id, source, event, order)) == [Delivered(EventMessage(own, source, n, event))]
  {
    assert n in order;
    var k :| 0 <= k < |order| && order[k] == n;
    var ms := MadeByBroadcast(id, source, event, order);
    AddressedOnce(ms, n, k);
    own := U64(id + k);
  }

  /** Agent `n` has had the event, once, on top of what it had had before. */
  ghost predicate GotEventOnce(later: State, st: State, n: bytes, source: bytes, event: Event)
    requires st.Valid() && n in st.agents && |later.journal| == |st.journal|
  {
    exists own: u64 ::
      later.journal[st.agents[n]] == st.journal[st.agents[n]] + [Delivered(EventMessage(own, source, n, event))]
  }

  /**
   A broadcast into an empty queue, followed by `drain` while running, reaches every registered agent exactly
   once with the event, whatever order the map of agents is walked through, and leaves nothing queued.
   */
  lemma BroadcastReachesAll(st: State, source: bytes, event: Event, order: seq<bytes>)
    requires st.Valid() && st.running && st.backlog == Plain([]) && IsOrder(order, st.agents.Keys)
    ensures var sent := Broadcast(st, source, event, order);
            && sent.Valid() && Drain(sent).backlog == Plain([])
            && |Drain(sent).journal| == |st.journal|
            && (forall n | n in st.agents :: GotEventOnce(Drain(sent), st, n, source, event))
            && (forall id: nat | id < |st.journal| && !st.Live(id) :: Drain(sent).journal[id] == st.journal[id])
  {
    hide Broadcast, Drain, MadeByBroadcast, IsOrder, GotEventOnce, FirstUnknown;
    var sent := Broadcast(st, source, event, order);
    var ms := MadeByBroadcast(st.nextId, source, event, order);
    BroadcastFrame(st, source, event, order);
    BroadcastSends(st, source, event, order);
    MadeKnown(st.nextId, source, event, order, st.agents.Keys);
    assert [] + ms == ms && ms[..|ms|] == ms;
    DrainDelivers(sent);
    forall n | n in st.agents
      ensures GotEventOnce(Drain(sent), st, n, source, event)
    {
      var own := MadeAddressesOnce(st.nextId, source, event, order, st.agents.Keys, n);
      GotItOnce(Drain(sent), st, n, source, event, own);
    }
  }

  lemma GotItOnce(later: State, st: State, n: bytes, source: bytes, event: Event, own: u64)
    requires st.Valid() && n in st.agents && |later.journal| == |st.journal|
    requires later.journal[st.agents[n]] == st.journal[st.agents[n]] + [Delivered(EventMessage(own, source, n, event))]
    ensures GotEventOnce(later, st, n, source, event)
  {
  }

  lemma MadeKnown(id: u64, source: bytes, event: Event, order: seq<bytes>, names: set<bytes>)
    requires IsOrder(order, names)
    ensures FirstUnknown(MadeByBroadcast(id, source, event, order), names) == |order|
  {
    AllKnown(MadeByBroadcast(id, source, event, order), names);
  }

  lemma AllKnown(ms: seq<Message>, names: set<bytes>)
    requires forall i | 0 <= i < |ms| :: ms[i].target in names
    ensures FirstUnknown(ms, names) == |ms|
  {
  }
}
