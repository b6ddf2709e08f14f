/** The wrappers' `generate` as the C++ runs it, on one memory manager, one scheduler and one backend. */
module LlmStackCode {
  import opened Bytes
  import opened LlmTypes
  import opened TokenScheduling
  import opened MemoryManagers
  import opened LlmStacks
  import Arenas
  import Budgets

  /** A backend whose answers are scripted; it may use scratch memory while it answers. */
  class Model {
    var answers: seq<Answer>
    var calls: seq<Call>

    constructor (answers: seq<Answer>)
      ensures this.answers == answers && calls == []
    {
      this.answers, calls := answers, [];
    }
  }

  /** Sums may be cut to the word at every step. */
  lemma CountedOn(sum: nat, more: nat)
    ensures U32(U32(sum) + U32(more)) == U32(sum + more)
    ensures U64(U64(sum) + more) == U64(sum + more)
  {
  }

  method PromptTokens(p: Prompt) returns (tokens: u32)
    ensures tokens == EstimatePromptTokens(p)
  {
    hide U32;
    var chars: u32 := 0;
    for i := 0 to |p|
      invariant chars == U32(ContentSize(p[..i]))
    {
      assert p[..i + 1][..i] == p[..i];
      CountedOn(ContentSize(p[..i]), |p[i].content|);
      chars := U32(chars + U32(|p[i].content|));
    }
    assert p[..|p|] == p;
    return if chars / 4 <= 1 then 1 else chars / 4;
  }

  method MemoryBytes(p: Prompt, c: Config) returns (count: u64)
    ensures count == EstimateMemory(p, c)
  {
    hide U64;
    var promptBytes: u64 := 0;
    for i := 0 to |p|
      invariant promptBytes == U64(ContentSize(p[..i]))
    {
      assert p[..i + 1][..i] == p[..i];
      CountedOn(ContentSize(p[..i]), |p[i].content|);
      promptBytes := U64(promptBytes + |p[i].content|);
    }
    assert p[..|p|] == p;
    CountedOn(ContentSize(p), c.maxTokens * 8 + 1024);
    var completionBytes := U64(c.maxTokens * 8);
    return U64(promptBytes + completionBytes + 1024);
  }

  class Deployment {
    const memory: MemoryManager
    const scheduler: TokenScheduler
    const model: Model
    ghost var grants: seq<Grant>

    ghost predicate Valid()
      reads this, memory, memory.Parts(), scheduler, model
    {
      && memory.Valid()
      && this as object !in memory.Parts() && scheduler as object !in memory.Parts() && model as object !in memory.Parts()
    }

    ghost function View(): World
      reads this, memory, memory.Parts(), scheduler, model
    {
      World(memory.View(), scheduler.budget, model.answers, model.calls, grants)
    }

    constructor (memory: MemoryManager, scheduler: TokenScheduler, model: Model)
      requires memory.Valid()
      requires scheduler as object !in memory.Parts() && model as object !in memory.Parts()
      ensures Valid() && View() == World(memory.View(), scheduler.budget, model.answers, model.calls, [])
    {
      this.memory, this.scheduler, this.model := memory, scheduler, model;
      grants := [];
    }

    method Scratch(requests: seq<(u64, u64)>)
      requires Valid()
      modifies memory.scratchArena
      ensures Valid()
      ensures View() == old(View()).(memory := old(View()).memory.(scratch := UseScratch(old(View()).memory.scratch, requests)))
    {
      assert requests[0..] == requests;
      for i := 0 to |requests|
        invariant Valid()
        invariant View() == old(View()).(memory := old(View()).memory.(scratch := View().memory.scratch))
        invariant UseScratch(View().memory.scratch, requests[i..]) == UseScratch(old(View()).memory.scratch, requests)
      {
        assert requests[i..][1..] == requests[i + 1..];
        var _ := memory.AllocateScratch(requests[i].0, requests[i].1);
      }
    }

    method Ask(p: Prompt, c: Config) returns (reply: Reply)
      requires Valid()
      modifies memory.scratchArena, model
      ensures Valid() && (reply, View()) == CallBackend(p, c, old(View()))
    {
      var a := NextAnswer(model.answers);
      Scratch(a.scratch);
      model.calls := model.calls + [Call(p, c)];
      model.answers := if model.answers == [] then [] else model.answers[1..];
      return a.reply;
    }

    /** `generate` of the runtime at the top of the stack. */
    method Run(s: Stack, p: Prompt, c: Config) returns (reply: Reply)
      requires Valid()
      modifies this`grants, memory.scratchArena, memory.agentBudgets.Values, scheduler, model
      ensures Valid() && (reply, View()) == Generate(s, p, c, old(View()))
      decreases s, 0
    {
      hide Generate, CallBackend;
      BackendSteps(p, c, View());
      match s
      case Backend => reply := Ask(p, c);
      case MemoryAware(inner, agent) => reply := RunMemoryAware(inner, agent, p, c);
      case Scheduled(inner) => reply := RunScheduled(inner, p, c);
    }

    method RunMemoryAware(inner: Stack, agent: bytes, p: Prompt, c: Config) returns (reply: Reply)
      requires Valid()
      modifies this`grants, memory.scratchArena, memory.agentBudgets.Values, scheduler, model
      ensures Valid() && (reply, View()) == Generate(MemoryAware(inner, agent), p, c, old(View()))
      decreases inner, 1
    {
      hide Generate, EstimateMemory, Budgets.Open, Budgets.Close, MemoryRefused, Arenas.Reset, BlockPools.Pool.Agrees;
      ghost var w := View();
      var count := MemoryBytes(p, c);
      ghost var opening := Budgets.Open(w.memory.book, agent, count);
      var reservation := new ScopedMemoryReservation(memory, agent, count);
      ghost var begun := View();
      MemoryAwareSteps(inner, agent, p, c, w);
      assert begun == w.(memory := w.memory.(book := opening.0));
      if !reservation.reserved {
        reservation.Destroy();
        ClosedUnreserved(begun.memory.book, opening.1);
        return MemoryRefused(agent);
      }
      reply := Run(inner, p, c);
      ghost var done := View();
      memory.ResetScratch();
      reservation.Destroy();
      assert View() == Cleaned(done, opening.1);
    }

    method RunScheduled(inner: Stack, p: Prompt, c: Config) returns (reply: Reply)
      requires Valid()
      modifies this`grants, memory.scratchArena, memory.agentBudgets.Values, scheduler, model
      ensures Valid() && (reply, View()) == Generate(Scheduled(inner), p, c, old(View()))
      decreases inner, 1
    {
      hide Generate, Schedule, EstimatePromptTokens, FallbackReply, ReasonText, TextReply, Settled;
      ghost var w := View();
      var estimate := PromptTokens(p);
      var task := Task(estimate, c.maxTokens, true, true);
      var d := Admit(task);
      ScheduledSteps(inner, p, c, w);
      assert View() == w.(tokens := Schedule(w.tokens, task).0);
      AdmittedOrNot(d);
      if d.verdict == Reject {
        return TextReply([], ReasonText(d.reason));
      }
      if d.verdict == UseFallback {
        return FallbackReply();
      }
      var adjusted := c;
      if d.verdict == ReduceTokens {
        adjusted := adjusted.(maxTokens := d.allowed);
      }
      reply := Run(inner, p, adjusted);
      Settle(task, d, reply);
    }

    /** The scheduler's decision on a call. */
    method Admit(task: Task) returns (d: Decision)
      requires Valid()
      modifies scheduler
      ensures Valid() && d == Schedule(old(View()).tokens, task).1
      ensures View() == old(View()).(tokens := Schedule(old(View()).tokens, task).0)
    {
      d := scheduler.ScheduleTask(task);
    }

    /** The reported tokens go back to the scheduler. */
    method Settle(task: Task, d: Decision, reply: Reply)
      requires Valid()
      modifies this`grants, scheduler
      ensures Valid() && View() == Settled(old(View()), task, d, reply)
    {
      hide BlockPools.Pool.Agrees, U32, ReleaseTokens;
      var used: u32 := 0;
      if reply.promptTokens > 0 || reply.completionTokens > 0 {
        used := U32(reply.promptTokens + reply.completionTokens);
      }
      scheduler.Release(used);
      grants := grants + [Grant(task.estimate + d.allowed, used)];
    }
  }

  lemma BackendSteps(p: Prompt, c: Config, w: World)
    ensures Generate(Backend, p, c, w) == CallBackend(p, c, w)
  {
  }

  lemma ClosedUnreserved(book: Budgets.Book, r: Budgets.Reservation)
    requires !r.reserved
    ensures Budgets.Close(book, r) == book
  {
  }

  lemma AdmittedOrNot(d: Decision)
    ensures d.Admitted() <==> d.verdict != Reject && d.verdict != UseFallback
  {
  }
}
