/** `AgentRuntime` as the C++ runs it, proved against the state machine. */
module AgentRuntimeCode {
  import opened Bytes
  import opened Messages
  import opened Envelopes
  import opened AgentSystem
  import opened AgentsOverTcp
  import opened Transports
  import Frames
  import Protocols
  import TcpStream

  /** The two implementations of the `Transport` interface; frames go through memory or over TCP. */
  datatype Transport = Direct(direct: InMemoryTransport) | OverBytes(framed: FramedMessageTransport) {
    ghost predicate InMemory() {
      OverBytes? ==> framed.adapter.transport.Memory?
    }

    ghost function Repr(): set<object> {
      match this
      case Direct(d) => {d}
      case OverBytes(f) => f.adapter.transport.Repr()
    }

    /** What waits in memory: over TCP, nothing ever does. */
    ghost function Waiting(): Backlog
      reads Repr()
    {
      match this
      case Direct(d) => Plain(d.queue)
      case OverBytes(f) =>
        match f.adapter.transport
        case Memory(m) => Framed(m.queue)
        case Tcp(_) => Framed([])
    }

    /** The TCP connection; without one, a link that is down. */
    ghost function Link(): TcpStream.Link
      reads Repr(), if InMemory() then {} else {framed.adapter.transport.tcp}
    {
      if InMemory() then TcpStream.Link(false, [], [], [], []) else framed.adapter.transport.tcp.Now()
    }

    method Send(m: Message) returns (ok: bool)
      modifies Repr()
      ensures InMemory() ==> ok && Waiting() == old(Waiting()).Put(m)
      ensures !InMemory() ==> (Link(), ok) == TcpStream.Write(old(Link()), FrameOf(m))
    {
      match this
      case Direct(d) => ok := d.Send(m);
      case OverBytes(f) => ok := f.Send(m);
    }

    method Receive() returns (m: Option<Message>)
      modifies Repr()
      ensures InMemory() ==> (m, Waiting()) == old(Waiting()).Take()
      ensures !InMemory() ==>
              var (after, data) := TcpStream.Read(old(Link()));
              Link() == after && m == MessageIn(data)
    {
      match this
      case Direct(d) => m := d.Receive();
      case OverBytes(f) => m := f.Receive();
    }

    method Empty() returns (empty: bool)
      modifies Repr()
      ensures InMemory() ==> empty == Waiting().Empty() && Waiting() == old(Waiting())
      ensures !InMemory() ==> (Link(), empty) == TcpStream.Poll(old(Link()))
    {
      match this
      case Direct(d) => empty := d.Empty();
      case OverBytes(f) => empty := f.adapter.transport.Empty();
    }
  }

  class AgentRuntime {
    var agents: map<bytes, nat>
    const transport: Transport
    var running: bool
    var nextMessageId: u64
    /** The callbacks the agents have had. */
    var journal: seq<seq<Callback>>

    constructor (transport: Transport)
      ensures this.transport == transport && Valid() && fresh(this)
      ensures Now() == FRESH.(backlog := transport.Waiting())
    {
      this.transport := transport;
      agents, running, nextMessageId, journal := map[], false, 1, [];
    }

    ghost function Now(): State
      reads this, transport.Repr()
    {
      State(agents, journal, running, nextMessageId, transport.Waiting())
    }

    ghost predicate Valid()
      reads this, transport.Repr()
    {
      this !in transport.Repr() && Now().Valid()
    }

    method RegisterAgent(agent: Option<bytes>) returns (code: ErrorCode)
      requires Valid()
      modifies this
      ensures Valid() && (Now(), code) == Register(old(Now()), agent)
    {
      StepValid(Now(), DoRegister(agent));
      if agent.None? {
        return InvalidArgument;
      }
      if agent.value == [] {
        return InvalidArgument;
      }
      if agent.value in agents {
        return AgentAlreadyExists;
      }
      agents := agents[agent.value := |journal|];
      journal := journal + [[]];
      return NoError;
    }

    method UnregisterAgent(name: bytes) returns (code: ErrorCode)
      requires Valid()
      modifies this
      ensures Valid() && (Now(), code) == Unregister(old(Now()), name)
    {
      StepValid(Now(), DoUnregister(name));
      if name !in agents {
        return AgentNotFound;
      }
      if running {
        journal := Note(journal, agents[name], Stopped);
      }
      agents := agents - {name};
      return NoError;
    }

    method SendMessage(m: Message) returns (code: ErrorCode)
      requires Valid()
      modifies transport.Repr()
      ensures Valid() && (code == NoError || code == TransportError)
      ensures transport.InMemory() ==> Now() == AgentSystem.Send(old(Now()), m) && code == NoError
      ensures !transport.InMemory() ==>
              Now() == old(Now()) && (transport.Link(), code == NoError) == TcpStream.Write(old(transport.Link()), FrameOf(m))
    {
      var ok := transport.Send(m);
      return if ok then NoError else TransportError;
    }

    method NextMessageId() returns (id: u64)
      modifies this`nextMessageId
      ensures id == old(nextMessageId) && nextMessageId == U64(old(nextMessageId) + 1)
    {
      id := nextMessageId;
      nextMessageId := U64(id + 1);
    }

    method PublishEvent(source: bytes, target: bytes, event: Event) returns (code: ErrorCode)
      requires Valid()
      modifies this`nextMessageId, transport.Repr()
      ensures Valid() && (code == NoError || code == TransportError)
      ensures transport.InMemory() ==> Now() == Publish(old(Now()), source, target, event) && code == NoError
      ensures !transport.InMemory() ==>
              && Now() == old(Now()).(nextId := U64(old(nextMessageId) + 1))
              && (transport.Link(), code == NoError)
                 == TcpStream.Write(old(transport.Link()), FrameOf(NewMessage(old(Now()), source, target, event)))
    {
      hide TcpStream.Write, FrameOf, U64, MessageOf;
      var id := NextMessageId();
      code := SendMessage(EventMessage(id, source, target, event));
    }

    /**
     The map of agents is walked through in some order; the caller learns the part of it that was walked through as
     a ghost. Over TCP a send can fail: that one is the last that is tried, and its number is used up.
     */
    method BroadcastEvent(source: bytes, event: Event) returns (code: ErrorCode, ghost order: seq<bytes>)
      requires Valid()
      modifies this`nextMessageId, transport.Repr()
      ensures Valid() && (code == NoError || code == TransportError)
      ensures exists names | names <= agents.Keys :: IsOrder(order, names)
      ensures code == NoError ==> IsOrder(order, agents.Keys)
      ensures transport.InMemory() ==> code == NoError && Now() == Broadcast(old(Now()), source, event, order)
      ensures !transport.InMemory() ==>
              && Now() == old(Now()).(nextId := U64(old(nextMessageId) + |order|))
              && (transport.Link(), code == NoError)
                 == TcpStream.WriteAll(old(transport.Link()), FramesFor(old(nextMessageId), source, event, order))
      ensures code != NoError ==>
              && order != []
              && TcpStream.WriteAll(old(transport.Link()), FramesFor(old(nextMessageId), source, event, order[..|order| - 1])).1
    {
      hide TcpStream.Write, TcpStream.WriteAll, FramesFor, Broadcast, Publish, NewMessage, FrameOf, IsOrder, U64, State.Valid;
      ghost var before, link := Now(), transport.Link();
      var names := agents.Keys;
      order := [];
      NoFrames(nextMessageId, source, event, link);
      OrderNothing();
      assert agents.Keys - names == {};
      BroadcastNothing(before, source, event);
      while names != {}
        invariant Valid() && names <= agents.Keys
        invariant IsOrder(order, agents.Keys - names)
        invariant transport.InMemory() ==> Now() == Broadcast(before, source, event, order)
        invariant !transport.InMemory() ==>
                  && Now() == before.(nextId := U64(before.nextId + |order|))
                  && (transport.Link(), true) == TcpStream.WriteAll(link, FramesFor(before.nextId, source, event, order))
        decreases names
      {
        var name :| name in names;
        BroadcastLast(before, source, event, order, name);
        FramesLast(link, Now(), before.nextId, source, event, order, name);
        OrderMore(order, agents.Keys - names, name);
        assert agents.Keys - names + {name} == agents.Keys - (names - {name});
        code := PublishEvent(source, name, event);
        order := order + [name];
        names := names - {name};
        if code != NoError {
          return;
        }
      }
      assert agents.Keys - names == agents.Keys;
      code := NoError;
    }

    /** `on_start` or `on_stop` of every agent, in some order of the map. */
    method NotifyAgents(c: Callback)
      requires Valid()
      modifies this`journal
      ensures Valid() && journal == NoteAll(old(journal), agents.Values, c)
    {
      var names := agents.Keys;
      ghost var done: set<nat> := {};
      hide Note, NoteAll;
      NoteAllNobody(journal, c);
      while names != {}
        invariant Valid() && names <= agents.Keys
        invariant done == set n | n in agents && n !in names :: agents[n]
        invariant journal == NoteAll(old(journal), done, c)
        decreases names
      {
        var name :| name in names;
        assert agents[name] !in done;
        NoteAllStep(old(journal), done, agents[name], c);
        journal := Note(journal, agents[name], c);
        done := done + {agents[name]};
        names := names - {name};
      }
      assert done == agents.Values;
    }

    method StartAgents()
      requires Valid()
      modifies this
      ensures Valid() && Now() == Start(old(Now()))
    {
      if running {
        return;
      }
      running := true;
      NotifyAgents(Started);
    }

    method StopAgents()
      requires Valid()
      modifies this
      ensures Valid() && Now() == Stop(old(Now()))
    {
      if !running {
        return;
      }
      NotifyAgents(Stopped);
      running := false;
    }

    method DispatchMessage(m: Message) returns (code: ErrorCode)
      requires Valid()
      modifies this`journal
      ensures Valid() && (Now(), code) == Dispatch(old(Now()), m)
    {
      DispatchValid(Now(), m);
      if m.target !in agents {
        return AgentNotFound;
      }
      journal := Note(journal, agents[m.target], Delivered(m));
      return NoError;
    }

    method RunOne() returns (code: ErrorCode)
      requires Valid()
      modifies this, transport.Repr()
      ensures Valid()
      ensures transport.InMemory() ==> (Now(), code) == RunOnce(old(Now()))
      ensures !transport.InMemory() ==>
              (Now(), transport.Link(), code) == Turn(old(Now()), old(transport.Link()))
    {
      hide TcpStream.Read, MessageOf, Note;
      if !running {
        return RuntimeNotRunning;
      }
      var m := transport.Receive();
      if m.None? {
        return NoError;
      }
      code := DispatchMessage(m.value);
    }

    method DrainAll()
      requires Valid()
      modifies this, transport.Repr()
      ensures Valid()
      ensures transport.InMemory() ==> Now() == Drain(old(Now()))
      ensures !transport.InMemory() ==> (Now(), transport.Link()) == DrainLink(old(Now()), old(transport.Link()))
    {
      hide RunOnce, Drain, Turn, DrainLink, State.Valid;
      ghost var before, link := Now(), transport.Link();
      DrainStep(before);
      DrainLinkStep(before, link);
      var empty := transport.Empty();
      while !empty
        invariant Valid()
        invariant transport.InMemory() ==> empty == Now().backlog.Empty() && Drain(Now()) == Drain(before)
        invariant !transport.InMemory() ==>
                  (if empty then (Now(), transport.Link()) else AfterPoll(Now(), transport.Link())) == DrainLink(before, link)
        decreases if empty then 0 else 1 + if transport.InMemory() then Now().backlog.Size() else |transport.Link().polls|
      {
        ghost var now, l := Now(), transport.Link();
        DrainStep(now);
        RunOnceStep(now);
        var code := RunOne();
        AfterPollStep(now, l);
        if code != NoError {
          return;
        }
        DrainLinkStep(Now(), transport.Link());
        empty := transport.Empty();
      }
      DrainStep(Now());
    }
  }

  lemma OrderNothing()
    ensures IsOrder([], {})
  {
  }

  lemma BroadcastNothing(st: State, source: bytes, event: Event)
    ensures Broadcast(st, source, event, []) == st
  {
  }

  lemma OrderMore(order: seq<bytes>, names: set<bytes>, name: bytes)
    requires IsOrder(order, names) && name !in names
    ensures IsOrder(order + [name], names + {name})
  {
  }

  lemma NoFrames(id: u64, source: bytes, event: Event, l: TcpStream.Link)
    ensures TcpStream.WriteAll(l, FramesFor(id, source, event, [])) == (l, true)
    ensures U64(id + 0) == id
  {
  }

  /** One more name in a broadcast that has gone well so far. */
  lemma FramesLast(l: TcpStream.Link, st: State, id: u64, source: bytes, event: Event, order: seq<bytes>, name: bytes)
    ensures U64(U64(id + |order|) + 1) == U64(id + |order + [name]|)
    ensures st.nextId == U64(id + |order|) && TcpStream.WriteAll(l, FramesFor(id, source, event, order)).1 ==>
            TcpStream.WriteAll(l, FramesFor(id, source, event, order + [name]))
            == TcpStream.Write(TcpStream.WriteAll(l, FramesFor(id, source, event, order)).0,
                               FrameOf(NewMessage(st, source, name, event)))
    ensures (order + [name])[..|order + [name]| - 1] == order
  {
    hide TcpStream.Write, TcpStream.WriteAll, Frames.Encode, Protocols.Encode;
    var fs := FramesFor(id, source, event, order);
    if st.nextId == U64(id + |order|) && TcpStream.WriteAll(l, fs).1 {
      assert FramesFor(id, source, event, order + [name]) == fs + [FrameOf(NewMessage(st, source, name, event))];
      TcpStream.WriteAllLast(l, fs, FrameOf(NewMessage(st, source, name, event)));
    }
  }

  lemma NoteAllNobody(journal: seq<seq<Callback>>, c: Callback)
    ensures NoteAll(journal, {}, c) == journal
  {
  }

  lemma NoteAllStep(journal: seq<seq<Callback>>, done: set<nat>, id: nat, c: Callback)
    requires id < |journal| && id !in done
    ensures Note(NoteAll(journal, done, c), id, c) == NoteAll(journal, done + {id}, c)
  {
  }

  lemma {:induction false} BroadcastLast(st: State, source: bytes, event: Event, order: seq<bytes>, name: bytes)
    ensures Broadcast(st, source, event, order + [name]) ==
            Publish(Broadcast(st, source, event, order), source, name, event)
    decreases |order|
  {
    if order == [] {
      assert order + [name] == [name] && [name][1..] == [];
    } else {
      BroadcastLast(Publish(st, source, order[0], event), source, event, order[1..], name);
      assert (order + [name])[1..] == order[1..] + [name];
    }
  }
}
