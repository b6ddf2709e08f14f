/**
 LLM runtimes stacked on one another (llm_memory/src/MemoryAwareLLMRuntime.cpp and
 llm_scheduled/src/ScheduledLLMRuntime.cpp): any nesting of memory-aware and scheduled wrappers around a
 backend, sharing one memory manager and one token scheduler.
 */
module LlmStacks {
  import opened Bytes
  import opened LlmTypes
  import opened Budgets
  import opened TokenScheduling
  import opened MemoryManagers
  import Arenas

  /** The wrappers, outermost first. */
  datatype Stack = Backend | MemoryAware(inner: Stack, agent: bytes) | Scheduled(inner: Stack)

  /** What the backend answers to a call, and what scratch memory it asks for on the way. */
  datatype Answer = Answer(reply: Reply, scratch: seq<(u64, u64)>)

  datatype Call = Call(prompt: Prompt, config: Config)

  /** What a scheduled wrapper reserved for a call, and what it released after it. */
  datatype Grant = Grant(reserved: nat, reported: nat)

  datatype World = World(memory: Memory, tokens: TokenBudget, answers: seq<Answer>, calls: seq<Call>, grants: seq<Grant>)

  function ContentSize(p: Prompt): nat {
    if p == [] then 0 else ContentSize(p[..|p| - 1]) + |p[|p| - 1].content|
  }

  /** `estimate_prompt_tokens`: a quarter of the characters, counted in 32 bits, but at least 1. */
  function EstimatePromptTokens(p: Prompt): u32 {
    if U32(ContentSize(p)) / 4 <= 1 then 1 else U32(ContentSize(p)) / 4
  }

  /** The bytes that a call needs: prompt, eight per completion token, and overhead. */
  function Need(p: Prompt, c: Config): nat {
    ContentSize(p) + c.maxTokens * 8 + 1024
  }

  /** `estimate_memory_bytes`, counted in 64 bits. */
  function EstimateMemory(p: Prompt, c: Config): u64 {
    U64(Need(p, c))
  }

  function TaskFor(p: Prompt, c: Config): Task {
    Task(EstimatePromptTokens(p), c.maxTokens, true, true)
  }

  function Ascii(s: string): bytes {
    seq(|s|, i requires 0 <= i < |s| => (s[i] as int) % 256)
  }

  function ReasonText(reason: Reason): bytes {
    match reason
    case PromptTooLong => Ascii("prompt token estimate exceeds maximum prompt budget")
    case CompletionTooLong => Ascii("requested completion exceeds maximum completion budget")
    case Granted => Ascii("task allowed")
    case CappedToMaximum => Ascii("completion tokens reduced to max completion budget")
    case BudgetUsedUp => Ascii("not enough remaining budget for prompt and completion")
    case CappedToRemaining => Ascii("completion tokens reduced due to remaining token budget")
    case NoTruncation => Ascii("token budget too low and truncation disabled")
  }

  /** A reply with default fields but for its two texts. */
  function TextReply(text: bytes, error: bytes): Reply {
    Reply(Ready, text, 0, 0, 0, error)
  }

  function MemoryRefused(agent: bytes): Reply {
    TextReply([], Ascii("memory budget exceeded for agent: ") + agent)
  }

  function FallbackReply(): Reply {
    TextReply(
      Ascii("tool=send_alert\nreason=LLM request used fallback because token budget was unavailable\nconfidence=0.50\n"), [])
  }

  /** The tokens released after a reply. */
  function Reported(r: Reply): u32 {
    if r.promptTokens > 0 || r.completionTokens > 0 then U32(r.promptTokens + r.completionTokens) else 0
  }

  function UseScratch(a: Arenas.Arena, requests: seq<(u64, u64)>): Arenas.Arena
    decreases |requests|
  {
    if requests == [] then a else UseScratch(Arenas.Allocate(a, requests[0].0, requests[0].1).0, requests[1..])
  }

  function NextAnswer(answers: seq<Answer>): Answer {
    if answers == [] then Answer(TextReply([], []), []) else answers[0]
  }

  function CallBackend(p: Prompt, c: Config, w: World): (Reply, World) {
    var a := NextAnswer(w.answers);
    (a.reply,
     w.(answers := if w.answers == [] then [] else w.answers[1..], calls := w.calls + [Call(p, c)],
        memory := w.memory.(scratch := UseScratch(w.memory.scratch, a.scratch))))
  }

  /** The configuration passed on below a scheduler. */
  function Adjusted(c: Config, d: Decision): Config {
    if d.verdict == ReduceTokens then c.(maxTokens := d.allowed) else c
  }

  /** Scratch memory reset, then the reservation given back. */
  function Cleaned(done: World, r: Reservation): World {
    done.(memory := done.memory.(scratch := Arenas.Reset(done.memory.scratch), book := Close(done.memory.book, r)))
  }

  /** The reported tokens released. */
  function Settled(done: World, t: Task, d: Decision, reply: Reply): World {
    done.(tokens := ReleaseTokens(done.tokens, Reported(reply)),
          grants := done.grants + [Grant(t.estimate + d.allowed, Reported(reply))])
  }

  function Generate(s: Stack, p: Prompt, c: Config, w: World): (Reply, World) {
    match s
    case Backend => CallBackend(p, c, w)
    case MemoryAware(inner, agent) =>
      var (book, r) := Open(w.memory.book, agent, EstimateMemory(p, c));
      var begun := w.(memory := w.memory.(book := book));
      if !r.reserved then (MemoryRefused(agent), begun) else
      var (reply, done) := Generate(inner, p, c, begun);
      (reply, Cleaned(done, r))
    case Scheduled(inner) =>
      var task := TaskFor(p, c);
      var (tokens, d) := Schedule(w.tokens, task);
      var charged := w.(tokens := tokens);
      if d.verdict == Reject then (TextReply([], ReasonText(d.reason)), charged)
      else if d.verdict == UseFallback then (FallbackReply(), charged) else
      var (reply, done) := Generate(inner, p, Adjusted(c, d), charged);
      (reply, Settled(done, task, d, reply))
  }

  // ---------------------------------------------------------------------------------------------
  // What is estimated and reported

  /** The contents of all messages, end to end. */
  function AllContent(p: Prompt): bytes {
    if p == [] then [] else p[0].content + AllContent(p[1..])
  }

  lemma {:induction false} ContentLast(p: Prompt, t: Turn)
    ensures AllContent(p + [t]) == AllContent(p) + t.content
  {
    if p == [] {
      assert p + [t] == [t] && [t][1..] == [];
      assert AllContent([]) == [];
    } else {
      ContentLast(p[1..], t);
      assert (p + [t])[1..] == p[1..] + [t];
      Assoc(p[0].content, AllContent(p[1..]), t.content);
    }
  }

  lemma {:induction false} ContentSizeExact(p: Prompt)
    ensures ContentSize(p) == |AllContent(p)|
    decreases |p|
  {
    if p != [] {
      ContentSizeExact(p[..|p| - 1]);
      ContentLast(p[..|p| - 1], p[|p| - 1]);
      assert p[..|p| - 1] + [p[|p| - 1]] == p;
    }
  }

  /**
   A prompt is estimated at a quarter of its characters as tokens, rounded down, but at least one, its characters
   counted in 32 bits; a call at its characters, eight bytes for each completion token and 1024 more, in 64 bits.
   */
  lemma EstimatesExact(p: Prompt, c: Config)
    ensures var n, e := |AllContent(p)| % TWO32, EstimatePromptTokens(p);
            if n < 8 then e == 1 else 4 * e <= n < 4 * e + 4
    ensures EstimateMemory(p, c) == (|AllContent(p)| + 8 * c.maxTokens + 1024) % TWO64
  {
    ContentSizeExact(p);
    hide AllContent, ContentSize;
  }

  /** The tokens that a reply reports, of prompt and completion together, in 32 bits. */
  function TokensIn(r: Reply): u32 {
    (r.promptTokens + r.completionTokens) % TWO32
  }

  lemma ReportedExact(r: Reply)
    ensures Reported(r) == TokensIn(r)
  {
  }

  // ---------------------------------------------------------------------------------------------
  // One layer at a time

  /** The backend is called once as it is, and its answer is the reply; only answers, calls and scratch memory change. */
  lemma BackendCall(p: Prompt, c: Config, w: World)
    ensures var (reply, last) := Generate(Backend, p, c, w);
            && last.calls == w.calls + [Call(p, c)]
            && (w.answers != [] ==> reply == w.answers[0].reply && last.answers == w.answers[1..])
            && last.memory.book == w.memory.book && last.memory.global == w.memory.global
            && last.memory.pool == w.memory.pool && last.tokens == w.tokens && last.grants == w.grants
            && (w.answers != [] ==>
                forall blocks ::
                  last.memory.scratch == Arenas.RunUse(Arenas.Use(w.memory.scratch, blocks), Requests(w.answers[0].scratch)).arena)
  {
    hide UseScratch;
    if w.answers != [] {
      forall blocks
        ensures UseScratch(w.memory.scratch, w.answers[0].scratch) ==
                Arenas.RunUse(Arenas.Use(w.memory.scratch, blocks), Requests(w.answers[0].scratch)).arena
      {
        ScratchRun(w.memory.scratch, w.answers[0].scratch, blocks);
      }
    }
  }

  /** What a backend asks of the scratch arena, as a run of requests. */
  function Requests(asked: seq<(u64, u64)>): (ops: seq<Arenas.Op>)
    ensures |ops| == |asked|
  {
    seq(|asked|, i requires 0 <= i < |asked| => Arenas.Request(asked[i].0, asked[i].1))
  }

  lemma {:induction false} ScratchRun(a: Arenas.Arena, asked: seq<(u64, u64)>, blocks: seq<Arenas.Grant>)
    ensures UseScratch(a, asked) == Arenas.RunUse(Arenas.Use(a, blocks), Requests(asked)).arena
    decreases |asked|
  {
    hide Arenas.Allocate;
    if asked != [] {
      var next := Arenas.StepUse(Arenas.Use(a, blocks), Arenas.Request(asked[0].0, asked[0].1));
      assert Requests(asked)[1..] == Requests(asked[1..]);
      ScratchRun(next.arena, asked[1..], next.blocks);
    }
  }

  /** The bytes that a call is estimated to need, in 64 bits. */
  function NeedOf(p: Prompt, c: Config): u64 {
    (|AllContent(p)| + 8 * c.maxTokens + 1024) % TWO64
  }

  /** The book with `need` bytes of the agent's budget more in use. */
  function Held(book: Book, agent: bytes, need: u64): Book
    requires agent in book && book[agent].used + need <= book[agent].limit
  {
    var b := book[agent];
    book[agent := Budget(b.limit, b.used + need, if b.used + need > b.peak then b.used + need else b.peak)]
  }

  /** Scratch memory emptied and `need` bytes given back. */
  function GivenBack(done: World, agent: bytes, need: u64): World {
    done.(memory := done.memory.(scratch := done.memory.scratch.(offset := 0),
                                 book := ReleaseFor(done.memory.book, agent, need)))
  }

  /**
   What a memory-aware wrapper is for: a call goes through exactly if the agent has a budget in which the estimate fits.
   The inner runtime then runs with that much reserved; afterwards the scratch arena is empty and as much is given
   back. Otherwise nothing changes.
   */
  function MemoryAwareOutcome(inner: Stack, agent: bytes, p: Prompt, c: Config, w: World): (Reply, World) {
    var book, need := w.memory.book, NeedOf(p, c);
    if agent in book && book[agent].used + need <= book[agent].limit then
      var (reply, done) := Generate(inner, p, c, w.(memory := w.memory.(book := Held(book, agent, need))));
      (reply, GivenBack(done, agent, need))
    else
      (MemoryRefused(agent), w)
  }

  /** And that is what it does, exactly if the sum does not wrap past the limit. */
  lemma MemoryAwareCall(inner: Stack, agent: bytes, p: Prompt, c: Config, w: World)
    requires AllSane(w.memory.book)
    ensures Generate(MemoryAware(inner, agent), p, c, w) == MemoryAwareOutcome(inner, agent, p, c, w) <==>
            Budgets.Honest(w.memory.book, agent, NeedOf(p, c))
  {
    hide Generate, AllContent, EstimateMemory, NeedOf, Open, Cleaned, GivenBack, Held, MemoryRefused, Budgets.Honest;
    NeedIsEstimate(p, c);
    var need := NeedOf(p, c);
    if Budgets.Honest(w.memory.book, agent, need) {
      OpenHeld(w.memory.book, agent, need);
      MemoryAwareSteps(inner, agent, p, c, w);
      var begun := w.(memory := w.memory.(book := Open(w.memory.book, agent, need).0));
      CleanedWorld(Generate(inner, p, c, begun).1, agent, need);
    } else {
      WrapClears(inner, agent, p, c, w);
      WrapsOver(w.memory.book, agent, need);
      WrapRefused(w.memory.book, agent, need);
      assert MemoryAwareOutcome(inner, agent, p, c, w).1 == w;
    }
  }

  lemma NeedIsEstimate(p: Prompt, c: Config)
    ensures NeedOf(p, c) == EstimateMemory(p, c)
  {
    hide AllContent, EstimateMemory;
    EstimatesExact(p, c);
  }

  /** A reservation that wraps would be refused if the sum were not cut. */
  lemma WrapRefused(book: Book, agent: bytes, count: u64)
    requires AllSane(book) && !Budgets.Honest(book, agent, count)
    ensures agent in book && book[agent].used + count > book[agent].limit
  {
  }

  lemma WrapClears(inner: Stack, agent: bytes, p: Prompt, c: Config, w: World)
    requires AllSane(w.memory.book) && !Budgets.Honest(w.memory.book, agent, EstimateMemory(p, c))
    ensures var last := Generate(MemoryAware(inner, agent), p, c, w).1.memory.book;
            agent in w.memory.book ==> agent in last && last[agent].used == 0
  {
    hide Generate, EstimateMemory, Open, Budgets.Honest;
    UsageAfterCall(MemoryAware(inner, agent), p, c, w);
    assert agent in Wrapped(MemoryAware(inner, agent), p, c, w);
  }

  /** The book while a reservation is open. */
  lemma OpenHeld(book: Book, agent: bytes, need: u64)
    requires AllSane(book) && Budgets.Honest(book, agent, need)
    ensures Open(book, agent, need) ==
            if agent in book && book[agent].used + need <= book[agent].limit
            then (Held(book, agent, need), Reservation(agent, need, true))
            else (book, Reservation(agent, need, false))
  {
    OpenExact(book, agent, need);
  }

  lemma MemoryAwareSteps(inner: Stack, agent: bytes, p: Prompt, c: Config, w: World)
    ensures var (book, r) := Open(w.memory.book, agent, EstimateMemory(p, c));
            var begun := w.(memory := w.memory.(book := book));
            var (reply, done) := Generate(inner, p, c, begun);
            Generate(MemoryAware(inner, agent), p, c, w) ==
            if r.reserved then (reply, Cleaned(done, r)) else (MemoryRefused(agent), begun)
  {
    hide Open, EstimateMemory, Cleaned, MemoryRefused, Settled, CallBackend, Adjusted, TaskFor, Schedule;
  }

  lemma CleanedWorld(done: World, agent: bytes, need: u64)
    ensures Cleaned(done, Reservation(agent, need, true)) == GivenBack(done, agent, need)
  {
    hide ReleaseFor;
  }

  /**
   What a scheduled wrapper is for: a call goes through exactly if the prompt's estimate is within the prompt maximum
   and leaves something of the remaining tokens, or just nothing for a call that may produce none. The inner runtime
   then runs with the least of the tokens asked for, the maximum and what remains, and with these and the estimate
   taken; afterwards the tokens that the reply reports are released. Otherwise the reply is the fallback and nothing
   changes.
   */
  function ScheduledOutcome(inner: Stack, p: Prompt, c: Config, w: World): (Reply, World) {
    var e, b := EstimatePromptTokens(p), w.tokens;
    var capped := if c.maxTokens < b.maxCompletion then c.maxTokens else b.maxCompletion;
    if e <= b.maxPrompt && (e < b.remaining || (e == b.remaining && capped == 0)) then
      var allowed := if capped < b.remaining - e then capped else b.remaining - e;
      var (reply, done) :=
        Generate(inner, p, c.(maxTokens := allowed), w.(tokens := b.(remaining := b.remaining - e - allowed)));
      (reply, done.(tokens := ReleaseTokens(done.tokens, TokensIn(reply)),
                    grants := done.grants + [Grant(e + allowed, TokensIn(reply))]))
    else
      (FallbackReply(), w)
  }

  /** And that is what it does, exactly if the total does not wrap, or does not decide. */
  lemma ScheduledCall(inner: Stack, p: Prompt, c: Config, w: World)
    ensures Generate(Scheduled(inner), p, c, w) == ScheduledOutcome(inner, p, c, w) <==>
            TokenScheduling.Honest(w.tokens, Task(EstimatePromptTokens(p), c.maxTokens, true, true))
  {
    hide Generate, EstimatePromptTokens, ScheduledOutcome, TokenScheduling.Honest;
    if TokenScheduling.Honest(w.tokens, TaskFor(p, c)) {
      HonestScheduledCall(inner, p, c, w);
    } else {
      WrappedScheduledCall(inner, p, c, w);
    }
  }

  lemma HonestScheduledCall(inner: Stack, p: Prompt, c: Config, w: World)
    requires TokenScheduling.Honest(w.tokens, TaskFor(p, c))
    ensures Generate(Scheduled(inner), p, c, w) == ScheduledOutcome(inner, p, c, w)
  {
    hide Generate, EstimatePromptTokens, ReleaseTokens, FallbackReply, TokensIn, Schedule, Settled, Adjusted,
      TokenScheduling.Honest;
    ScheduledSteps(inner, p, c, w);
    ScheduleTakes(w.tokens, EstimatePromptTokens(p), c);
    var task := TaskFor(p, c);
    var (tokens, d) := Schedule(w.tokens, task);
    var (reply, done) := Generate(inner, p, Adjusted(c, d), w.(tokens := tokens));
    SettledWorld(done, task, d, reply);
  }

  /** A wrapped total leaves a grant of 2^32 tokens or more, which there should never be. */
  lemma WrappedScheduledCall(inner: Stack, p: Prompt, c: Config, w: World)
    requires !TokenScheduling.Honest(w.tokens, TaskFor(p, c))
    ensures Generate(Scheduled(inner), p, c, w).1 != ScheduledOutcome(inner, p, c, w).1
  {
    hide Generate, EstimatePromptTokens, ReleaseTokens, FallbackReply, TokensIn, Schedule, Settled, Adjusted,
      TokenScheduling.Honest, ScheduledOutcome, TaskFor, Accounts;
    ScheduledSteps(inner, p, c, w);
    var task := TaskFor(p, c);
    var (tokens, d) := Schedule(w.tokens, task);
    var charged := w.(tokens := tokens);
    var (reply, done) := Generate(inner, p, Adjusted(c, d), charged);
    SettledWorld(done, task, d, reply);
    WrappedTakes(w.tokens, task);
    var gs := CallAccounts(inner, p, Adjusted(c, d), charged);
    MoreGrants(done, charged, gs, NeverCut(inner, p, Adjusted(c, d), charged), Grant(task.estimate + d.allowed, TokensIn(reply)));
    ScheduledGrants(inner, p, c, w);
  }

  /** A total that wraps is admitted with 2^32 tokens or more. */
  lemma WrappedTakes(b: TokenBudget, t: Task)
    requires !TokenScheduling.Honest(b, t)
    ensures Schedule(b, t).1.Admitted() && t.estimate + Schedule(b, t).1.allowed >= TWO32
  {
  }

  lemma MoreGrants(done: World, w: World, gs: seq<Grant>, uncut: bool, g: Grant)
    requires Accounts(done, w, gs, uncut)
    ensures done.grants + [g] != w.grants
  {
    assert |done.grants + [g]| > |w.grants|;
  }

  /** The last grant that should be there is of less than 2^32 tokens. */
  lemma ScheduledGrants(inner: Stack, p: Prompt, c: Config, w: World)
    ensures var grants := ScheduledOutcome(inner, p, c, w).1.grants;
            grants == w.grants || (grants != [] && grants[|grants| - 1].reserved < TWO32)
  {
    hide Generate, EstimatePromptTokens, ReleaseTokens, TokensIn;
  }

  lemma SettledWorld(done: World, t: Task, d: Decision, reply: Reply)
    ensures Settled(done, t, d, reply) ==
            done.(tokens := ReleaseTokens(done.tokens, TokensIn(reply)),
                  grants := done.grants + [Grant(t.estimate + d.allowed, TokensIn(reply))])
  {
    hide ReleaseTokens;
    ReportedExact(reply);
  }

  /** What the decision on a call takes, and the configuration that is passed on. */
  lemma ScheduleTakes(b: TokenBudget, e: u32, c: Config)
    requires TokenScheduling.Honest(b, Task(e, c.maxTokens, true, true))
    ensures var capped := if c.maxTokens < b.maxCompletion then c.maxTokens else b.maxCompletion;
            var (next, d) := Schedule(b, Task(e, c.maxTokens, true, true));
            if e <= b.maxPrompt && (e < b.remaining || (e == b.remaining && capped == 0)) then
              && d.Admitted() && d.allowed == Min(capped, b.remaining - e)
              && next == b.(remaining := b.remaining - e - d.allowed)
              && Adjusted(c, d) == c.(maxTokens := d.allowed)
            else
              d.verdict == UseFallback && next == b
  {
    var task := Task(e, c.maxTokens, true, true);
    hide TokenScheduling.Honest;
    DecisionExact(b, task);
    DecisionConserves(b, task);
    SameMaxima(b, task);
    hide Schedule;
  }

  lemma SameMaxima(b: TokenBudget, t: Task)
    ensures var next := Schedule(b, t).0; next == b.(remaining := next.remaining)
  {
  }

  lemma ScheduledSteps(inner: Stack, p: Prompt, c: Config, w: World)
    ensures var task := TaskFor(p, c);
            var (tokens, d) := Schedule(w.tokens, task);
            var charged := w.(tokens := tokens);
            var (reply, done) := Generate(inner, p, Adjusted(c, d), charged);
            Generate(Scheduled(inner), p, c, w) ==
            if d.Admitted() then (reply, Settled(done, task, d, reply))
            else if d.verdict == UseFallback then (FallbackReply(), charged)
            else (TextReply([], ReasonText(d.reason)), charged)
  {
    hide Schedule, EstimatePromptTokens, Settled, FallbackReply, ReasonText, TextReply, CallBackend, Cleaned, Open,
      EstimateMemory, MemoryRefused, Adjusted;
  }

  /** A refusal is a reply like one of the backend's that reports no tokens; one for want of memory names the agent. */
  lemma RefusalsReportNothing(agent: bytes)
    ensures var r := MemoryRefused(agent);
            && r.status == Ready && r.text == [] && TokensIn(r) == 0
            && |r.errorMessage| == 34 + |agent| && r.errorMessage[34..] == agent
    ensures FallbackReply().status == Ready && FallbackReply().errorMessage == [] && TokensIn(FallbackReply()) == 0
  {
    hide Ascii;
    TextSize("memory budget exceeded for agent: ");
    assert |"memory budget exceeded for agent: "| == 34;
  }

  lemma TextSize(s: string)
    ensures |Ascii(s)| == |s|
  {
  }

  // ---------------------------------------------------------------------------------------------
  // Memory

  /** The same agents with the same limits, and usage as it was but for `cleared`, who have none; peaks may have grown. */
  ghost predicate UsageBut(book: Book, before: Book, cleared: set<bytes>) {
    && book.Keys == before.Keys && AllSane(book)
    && (forall a | a in book ::
          && book[a].limit == before[a].limit && book[a].peak >= before[a].peak
          && book[a].used == if a in cleared then 0 else before[a].used)
  }

  /** The same agents with the same limits and usage; peaks may have grown. */
  ghost predicate SameUsage(book: Book, before: Book) {
    UsageBut(book, before, {})
  }

  /** Every agent that was there has the usage that it had. */
  ghost predicate Restored(book: Book, before: Book) {
    forall a | a in before :: a in book && book[a].used == before[a].used
  }

  /** Clearing the `cleared` restores usage exactly when they used nothing. */
  lemma RestoredExact(book: Book, before: Book, cleared: set<bytes>)
    requires UsageBut(book, before, cleared)
    ensures Restored(book, before) <==> forall a | a in before && a in cleared :: before[a].used == 0
  {
    if Restored(book, before) {
      forall a | a in before && a in cleared
        ensures before[a].used == 0
      {
        assert book[a].used == before[a].used;
      }
    }
  }

  /** The agent of a reservation that wraps past its limit. */
  function Wraps(book: Book, agent: bytes, count: u64): set<bytes> {
    if Budgets.Honest(book, agent, count) then {} else {agent}
  }

  /** The agents for whom a reservation made on the way wraps past its limit. */
  ghost function Wrapped(s: Stack, p: Prompt, c: Config, w: World): set<bytes>
    decreases s
  {
    match s
    case Backend => {}
    case MemoryAware(inner, agent) =>
      var (book, r) := Open(w.memory.book, agent, EstimateMemory(p, c));
      Wraps(w.memory.book, agent, EstimateMemory(p, c))
      + if r.reserved then Wrapped(inner, p, c, w.(memory := w.memory.(book := book))) else {}
    case Scheduled(inner) =>
      var (tokens, d) := Schedule(w.tokens, TaskFor(p, c));
      if d.Admitted() then Wrapped(inner, p, Adjusted(c, d), w.(tokens := tokens)) else {}
  }

  /**
   Closing a reservation gives back what opening it took, unless the sum wrapped: then usage is below what is
   released, and nothing is left of it.
   */
  lemma CloseAfter(book: Book, agent: bytes, count: u64, done: Book, cleared: set<bytes>)
    requires AllSane(book) && Open(book, agent, count).1.reserved
    requires UsageBut(done, Open(book, agent, count).0, cleared)
    ensures UsageBut(Close(done, Open(book, agent, count).1), book, Wraps(book, agent, count) + cleared)
  {
    hide Open, Close, Budgets.Honest, Release;
    var (next, r) := Open(book, agent, count);
    OpenExact(book, agent, count);
    OpenReserves(book, agent, count);
    assert agent in done && done[agent].Sane();
    ReleaseAfter(done[agent], count);
    CloseOne(done, r);
  }

  lemma CloseOne(done: Book, r: Reservation)
    requires r.reserved && r.agent in done
    ensures Close(done, r) == done[r.agent := Release(done[r.agent], r.count)]
  {
  }

  lemma ReleaseAfter(b: Budget, count: u64)
    requires b.Sane()
    ensures var r := Release(b, count);
            && r.Sane() && r.limit == b.limit && r.peak == b.peak
            && r.used == if b.used <= count then 0 else b.used - count
  {
  }

  /** A reservation that wraps leaves less than it will give back. */
  lemma OpenReserves(book: Book, agent: bytes, count: u64)
    requires AllSane(book) && Open(book, agent, count).1.reserved
    ensures var (next, r) := Open(book, agent, count);
            && r == Reservation(agent, count, true) && agent in book && agent in next
            && next[agent].peak >= book[agent].peak
            && (!Budgets.Honest(book, agent, count) ==> next[agent].used < count)
  {
  }

  lemma NothingCleared(book: Book)
    requires AllSane(book)
    ensures UsageBut(book, book, {})
  {
  }

  /** A refused reservation does not wrap. */
  lemma RefusedIsHonest(book: Book, agent: bytes, count: u64)
    requires !Open(book, agent, count).1.reserved
    ensures Wraps(book, agent, count) == {}
  {
  }

  /**
   `generate` through any nesting of wrappers, whether it is admitted or refused at any of them, leaves every
   agent's memory usage as it was but for those whose reservation wrapped on the way: these are left with none.
   */
  lemma {:induction false} UsageAfterCall(s: Stack, p: Prompt, c: Config, w: World)
    requires AllSane(w.memory.book)
    ensures UsageBut(Generate(s, p, c, w).1.memory.book, w.memory.book, Wrapped(s, p, c, w))
    decreases s
  {
    hide Open, Close, UsageBut, Wraps, Schedule, ReleaseTokens, EstimateMemory, Reported, UseScratch, Adjusted, TaskFor;
    NothingCleared(w.memory.book);
    match s
    case Backend =>
    case MemoryAware(inner, agent) =>
      var count := EstimateMemory(p, c);
      var (book, r) := Open(w.memory.book, agent, count);
      OpenExact(w.memory.book, agent, count);
      if r.reserved {
        var begun := w.(memory := w.memory.(book := book));
        UsageAfterCall(inner, p, c, begun);
        CloseAfter(w.memory.book, agent, count, Generate(inner, p, c, begun).1.memory.book, Wrapped(inner, p, c, begun));
      } else {
        RefusedIsHonest(w.memory.book, agent, count);
        assert Wrapped(s, p, c, w) == {};
      }
    case Scheduled(inner) =>
      var (tokens, d) := Schedule(w.tokens, TaskFor(p, c));
      if d.Admitted() {
        UsageAfterCall(inner, p, Adjusted(c, d), w.(tokens := tokens));
      }
  }

  /** A call restores every agent's usage exactly when the agents whose reservation wraps on the way used nothing. */
  lemma RestoresExact(s: Stack, p: Prompt, c: Config, w: World)
    requires AllSane(w.memory.book)
    ensures Restored(Generate(s, p, c, w).1.memory.book, w.memory.book) <==>
            forall a | a in w.memory.book && a in Wrapped(s, p, c, w) :: w.memory.book[a].used == 0
  {
    hide *;
    UsageAfterCall(s, p, c, w);
    RestoredExact(Generate(s, p, c, w).1.memory.book, w.memory.book, Wrapped(s, p, c, w));
  }

  /** None of the reservations made on the way wraps past its limit. */
  ghost predicate HonestCall(s: Stack, p: Prompt, c: Config, w: World)
    decreases s
  {
    match s
    case Backend => true
    case MemoryAware(inner, agent) =>
      var (book, r) := Open(w.memory.book, agent, EstimateMemory(p, c));
      && Budgets.Honest(w.memory.book, agent, EstimateMemory(p, c))
      && (r.reserved ==> HonestCall(inner, p, c, w.(memory := w.memory.(book := book))))
    case Scheduled(inner) =>
      var (tokens, d) := Schedule(w.tokens, TaskFor(p, c));
      d.Admitted() ==> HonestCall(inner, p, Adjusted(c, d), w.(tokens := tokens))
  }

  lemma {:induction false} HonestNoneWrapped(s: Stack, p: Prompt, c: Config, w: World)
    ensures HonestCall(s, p, c, w) <==> Wrapped(s, p, c, w) == {}
    decreases s
  {
    hide Open, Schedule, EstimateMemory, Adjusted, TaskFor, Budgets.Honest;
    match s
    case Backend =>
    case MemoryAware(inner, agent) =>
      HonestNoneWrapped(inner, p, c, w.(memory := w.memory.(book := Open(w.memory.book, agent, EstimateMemory(p, c)).0)));
    case Scheduled(inner) =>
      var (tokens, d) := Schedule(w.tokens, TaskFor(p, c));
      HonestNoneWrapped(inner, p, Adjusted(c, d), w.(tokens := tokens));
  }

  /** When no reservation wraps on the way, a call leaves every agent's memory usage as it was. */
  lemma RestoresUsage(s: Stack, p: Prompt, c: Config, w: World)
    requires AllSane(w.memory.book) && HonestCall(s, p, c, w)
    ensures SameUsage(Generate(s, p, c, w).1.memory.book, w.memory.book)
  {
    hide Generate, Wrapped, HonestCall, UsageBut;
    UsageAfterCall(s, p, c, w);
    HonestNoneWrapped(s, p, c, w);
  }

  /** No budget's limit is so near 2^64 that a call like this one could wrap past it. */
  ghost predicate Roomy(book: Book, p: Prompt, c: Config) {
    forall a | a in book :: book[a].limit + Need(p, c) < TWO64
  }

  lemma OpenRoomy(book: Book, agent: bytes, p: Prompt, c: Config)
    requires AllSane(book) && Roomy(book, p, c)
    ensures Budgets.Honest(book, agent, EstimateMemory(p, c))
    ensures Roomy(Open(book, agent, EstimateMemory(p, c)).0, p, c)
  {
    OpenExact(book, agent, EstimateMemory(p, c));
  }

  lemma AdjustedRoomy(book: Book, p: Prompt, c: Config, b: TokenBudget)
    requires Roomy(book, p, c)
    ensures var d := Schedule(b, TaskFor(p, c)).1; d.Admitted() ==> Roomy(book, p, Adjusted(c, d))
  {
    NeverMoreThanCapped(b, TaskFor(p, c));
  }

  /** With limits that leave room for the call, no reservation on the way can wrap. */
  lemma {:induction false} RoomyIsHonest(s: Stack, p: Prompt, c: Config, w: World)
    requires AllSane(w.memory.book) && Roomy(w.memory.book, p, c)
    ensures HonestCall(s, p, c, w)
    decreases s
  {
    hide Open, Budgets.Honest, Schedule, EstimateMemory, Adjusted, TaskFor, Roomy;
    match s
    case Backend =>
    case MemoryAware(inner, agent) =>
      var (book, r) := Open(w.memory.book, agent, EstimateMemory(p, c));
      OpenExact(w.memory.book, agent, EstimateMemory(p, c));
      OpenRoomy(w.memory.book, agent, p, c);
      if r.reserved {
        RoomyIsHonest(inner, p, c, w.(memory := w.memory.(book := book)));
      }
    case Scheduled(inner) =>
      var (tokens, d) := Schedule(w.tokens, TaskFor(p, c));
      AdjustedRoomy(w.memory.book, p, c, w.tokens);
      if d.Admitted() {
        RoomyIsHonest(inner, p, Adjusted(c, d), w.(tokens := tokens));
      }
  }

  /** Around a backend, one wrapper restores usage exactly when its reservation does not wrap past the limit. */
  lemma OneWrapperExact(agent: bytes, p: Prompt, c: Config, w: World)
    requires AllSane(w.memory.book)
    ensures var last := Generate(MemoryAware(Backend, agent), p, c, w).1.memory.book;
            && last.Keys == w.memory.book.Keys
            && ((forall a | a in w.memory.book :: last[a].used == w.memory.book[a].used) <==>
                Budgets.Honest(w.memory.book, agent, EstimateMemory(p, c)))
  {
    hide Generate, EstimateMemory, UsageBut, Budgets.Honest;
    var s := MemoryAware(Backend, agent);
    UsageAfterCall(s, p, c, w);
    RestoresExact(s, p, c, w);
    UsageKeys(Generate(s, p, c, w).1.memory.book, w.memory.book, Wrapped(s, p, c, w));
    WrapsOver(w.memory.book, agent, EstimateMemory(p, c));
  }

  lemma UsageKeys(book: Book, before: Book, cleared: set<bytes>)
    requires UsageBut(book, before, cleared)
    ensures book.Keys == before.Keys
  {
  }

  /** A reservation wraps only over bytes that are in use. */
  lemma WrapsOver(book: Book, agent: bytes, count: u64)
    ensures !Budgets.Honest(book, agent, count) ==> agent in book && book[agent].used > 0
  {
  }

  /**
   An outermost memory-aware wrapper that admits a call leaves the scratch arena empty; one that refuses it
   changes nothing and never calls the backend.
   */
  lemma ScratchEmptied(inner: Stack, agent: bytes, p: Prompt, c: Config, w: World)
    requires AllSane(w.memory.book)
    ensures var (reply, last) := Generate(MemoryAware(inner, agent), p, c, w);
            if Open(w.memory.book, agent, EstimateMemory(p, c)).1.reserved
            then last.memory.scratch.offset == 0
            else last == w && reply == MemoryRefused(agent)
  {
    hide Generate, Open, EstimateMemory, MemoryRefused, Close;
    OpenExact(w.memory.book, agent, EstimateMemory(p, c));
    MemoryAwareSteps(inner, agent, p, c, w);
  }

  // ---------------------------------------------------------------------------------------------
  // What the backend gets to see

  predicate HasScheduler(s: Stack) {
    match s
    case Backend => false
    case MemoryAware(inner, _) => HasScheduler(inner)
    case Scheduled(_) => true
  }

  /** At most one call, with the prompt `p` and the configuration `c` but for a token limit of at most `max`. */
  ghost predicate Sees(calls: seq<Call>, before: seq<Call>, p: Prompt, c: Config, max: u32) {
    || calls == before
    || exists limit: u32 :: limit <= max && calls == before + [Call(p, c.(maxTokens := limit))]
  }

  lemma SeesLess(calls: seq<Call>, before: seq<Call>, p: Prompt, adjusted: Config, max: u32, c: Config, more: u32)
    requires adjusted == c.(maxTokens := adjusted.maxTokens) && max <= more
    ensures Sees(calls, before, p, adjusted, max) ==> Sees(calls, before, p, c, more)
  {
    if Sees(calls, before, p, adjusted, max) && calls != before {
      var limit: u32 :| limit <= max && calls == before + [Call(p, adjusted.(maxTokens := limit))];
      assert adjusted.(maxTokens := limit) == c.(maxTokens := limit);
    }
  }

  /** The most tokens that a call with configuration `c` can ask of the backend. */
  function Limit(s: Stack, c: Config, b: TokenBudget): u32 {
    if HasScheduler(s) && b.maxCompletion < c.maxTokens then b.maxCompletion else c.maxTokens
  }

  lemma BackendSeesIt(p: Prompt, c: Config, w: World)
    ensures Sees(CallBackend(p, c, w).1.calls, w.calls, p, c, c.maxTokens)
  {
    assert c == c.(maxTokens := c.maxTokens);
  }

  lemma AdjustedLess(s: Stack, c: Config, b: TokenBudget, t: Task)
    requires t.requested == c.maxTokens
    ensures var d := Schedule(b, t).1;
            d.Admitted() ==>
              && Adjusted(c, d).maxTokens == d.allowed && Adjusted(c, d) == c.(maxTokens := d.allowed)
              && Limit(s, Adjusted(c, d), Schedule(b, t).0) <= Limit(Scheduled(s), c, b)
  {
    NeverMoreThanCapped(b, t);
  }

  /**
   The backend is called at most once, with the prompt as given and the configuration as given but for the
   token limit, which is at most the one asked for and, below a scheduler, at most its completion maximum.
   */
  lemma {:induction false} BackendSees(s: Stack, p: Prompt, c: Config, w: World)
    ensures Sees(Generate(s, p, c, w).1.calls, w.calls, p, c, Limit(s, c, w.tokens))
    decreases s
  {
    hide Open, Close, Schedule, ReleaseTokens, EstimateMemory, Reported, UseScratch, Sees, Limit, CallBackend, Adjusted,
      MemoryRefused, FallbackReply, ReasonText;
    LimitSteps(s, c, w.tokens);
    NoCall(w.calls, p, c, Limit(s, c, w.tokens));
    match s
    case Backend => BackendSeesIt(p, c, w);
    case MemoryAware(inner, agent) =>
      var (book, r) := Open(w.memory.book, agent, EstimateMemory(p, c));
      BackendSees(inner, p, c, w.(memory := w.memory.(book := book)));
    case Scheduled(inner) =>
      var task := TaskFor(p, c);
      var (tokens, d) := Schedule(w.tokens, task);
      AdjustedLess(inner, c, w.tokens, task);
      if d.Admitted() {
        var adjusted := Adjusted(c, d);
        BackendSees(inner, p, adjusted, w.(tokens := tokens));
        SeesLess(Generate(inner, p, adjusted, w.(tokens := tokens)).1.calls, w.calls, p,
                 adjusted, Limit(inner, adjusted, tokens), c, Limit(s, c, w.tokens));
      }
  }

  lemma NoCall(calls: seq<Call>, p: Prompt, c: Config, max: u32)
    ensures Sees(calls, calls, p, c, max)
  {
  }

  lemma LimitSteps(s: Stack, c: Config, b: TokenBudget)
    ensures s.Backend? ==> Limit(s, c, b) == c.maxTokens
    ensures s.MemoryAware? ==> Limit(s, c, b) == Limit(s.inner, c, b)
    ensures Limit(s, c, b) <= c.maxTokens && (HasScheduler(s) ==> Limit(s, c, b) <= b.maxCompletion)
  {
  }

  // ---------------------------------------------------------------------------------------------
  // Tokens

  /** Reserved less reported, over all grants. */
  function Spent(gs: seq<Grant>): int {
    if gs == [] then 0 else Spent(gs[..|gs| - 1]) + gs[|gs| - 1].reserved - gs[|gs| - 1].reported
  }

  /** What the scheduler took, in 32 bits, less what was reported, over all grants. */
  function Taken(gs: seq<Grant>): int {
    if gs == [] then 0 else Taken(gs[..|gs| - 1]) + U32(gs[|gs| - 1].reserved) - gs[|gs| - 1].reported
  }

  /** The backend never reported more than was taken for it. */
  predicate Modest(gs: seq<Grant>) {
    forall i | 0 <= i < |gs| :: gs[i].reported <= U32(gs[i].reserved)
  }

  /** No reserved total left 32 bits. */
  predicate Unwrapped(gs: seq<Grant>) {
    forall i | 0 <= i < |gs| :: gs[i].reserved < TWO32
  }

  /** What was taken is what was reserved exactly when no reserved total left 32 bits. */
  lemma {:induction false} TakenExact(gs: seq<Grant>)
    ensures Taken(gs) <= Spent(gs)
    ensures Taken(gs) == Spent(gs) <==> Unwrapped(gs)
  {
    if gs != [] {
      var front, g := gs[..|gs| - 1], gs[|gs| - 1];
      TakenExact(front);
      assert gs == front + [g];
      assert Unwrapped(gs) <==> Unwrapped(front) && g.reserved < TWO32;
    }
  }

  /** No more is left than the ceiling. */
  predicate Under(b: TokenBudget) {
    b.remaining <= b.Ceiling()
  }

  /**
   What a call did to the tokens: `gs` are the grants it added, and `uncut` says whether what is gone is exactly
   what was taken less what was reported. No less can be gone. Where no more than the ceiling was left and the
   backend reports no more than was taken, nothing is cut; with maxima below 2^32 no total wraps.
   */
  ghost predicate Accounts(last: World, w: World, gs: seq<Grant>, uncut: bool) {
    && last.grants == w.grants + gs
    && last.tokens.maxPrompt == w.tokens.maxPrompt && last.tokens.maxCompletion == w.tokens.maxCompletion
    && (Under(w.tokens) ==> Under(last.tokens))
    && w.tokens.remaining - last.tokens.remaining >= Taken(gs)
    && (w.tokens.remaining - last.tokens.remaining == Taken(gs) <==> uncut)
    && (Under(w.tokens) && Modest(gs) ==> uncut && Taken(gs) >= 0)
    && (w.tokens.maxPrompt + w.tokens.maxCompletion < TWO32 ==> Unwrapped(gs))
  }

  /** The release of `reported` tokens stays under the ceiling. */
  predicate Fits(b: TokenBudget, reported: u32) {
    b.remaining + reported <= b.Ceiling()
  }

  /** Every release made on the way stays under the ceiling. */
  ghost predicate NeverCut(s: Stack, p: Prompt, c: Config, w: World)
    decreases s
  {
    match s
    case Backend => true
    case MemoryAware(inner, agent) =>
      var (book, r) := Open(w.memory.book, agent, EstimateMemory(p, c));
      r.reserved ==> NeverCut(inner, p, c, w.(memory := w.memory.(book := book)))
    case Scheduled(inner) =>
      var (tokens, d) := Schedule(w.tokens, TaskFor(p, c));
      var charged := w.(tokens := tokens);
      d.Admitted() ==>
        && NeverCut(inner, p, Adjusted(c, d), charged)
        && var (reply, done) := Generate(inner, p, Adjusted(c, d), charged); Fits(done.tokens, Reported(reply))
  }

  lemma NothingSpent(last: World, w: World)
    requires last.grants == w.grants && last.tokens == w.tokens
    ensures Accounts(last, w, [], true)
  {
    assert w.grants + [] == w.grants;
  }

  lemma TakenOneMore(gs: seq<Grant>, g: Grant)
    ensures Taken(gs + [g]) == Taken(gs) + U32(g.reserved) - g.reported
    ensures Modest(gs + [g]) <==> Modest(gs) && g.reported <= U32(g.reserved)
    ensures Unwrapped(gs + [g]) <==> Unwrapped(gs) && g.reserved < TWO32
  {
    hide U32;
    var all := gs + [g];
    assert all[..|gs|] == gs && all[|gs|] == g;
    assert forall i | 0 <= i < |gs| :: all[i] == gs[i];
  }

  /** A release adds the tokens back if they fit, and otherwise adds less. */
  lemma ReleaseWithin(b: TokenBudget, reported: u32)
    ensures Under(ReleaseTokens(b, reported))
    ensures ReleaseTokens(b, reported).remaining <= b.remaining + reported
    ensures ReleaseTokens(b, reported).remaining == b.remaining + reported <==> Fits(b, reported)
  {
    ReleaseExact(b, reported);
  }

  /** An admitted task takes its estimate and what it is allowed, in 32 bits. */
  lemma AdmittedTakes(b: TokenBudget, t: Task)
    ensures var (next, d) := Schedule(b, t);
            && next.maxPrompt == b.maxPrompt && next.maxCompletion == b.maxCompletion
            && (d.Admitted() ==>
                && b.remaining - next.remaining == U32(t.estimate + d.allowed)
                && t.estimate + d.allowed <= b.maxPrompt + b.maxCompletion)
  {
  }

  /** One scheduled call around whatever the inner runtime did. */
  lemma OneGrant(w: World, task: Task, charged: World, done: World, gs: seq<Grant>, uncut: bool, reported: u32, last: World)
    requires Schedule(w.tokens, task).1.Admitted()
    requires charged == w.(tokens := Schedule(w.tokens, task).0) && Accounts(done, charged, gs, uncut)
    requires last.tokens == ReleaseTokens(done.tokens, reported)
    requires last.grants == done.grants + [Grant(task.estimate + Schedule(w.tokens, task).1.allowed, reported)]
    ensures Accounts(last, w, gs + [Grant(task.estimate + Schedule(w.tokens, task).1.allowed, reported)],
                     uncut && Fits(done.tokens, reported))
  {
    hide Schedule, Taken, Modest, Unwrapped, U32;
    AdmittedTakes(w.tokens, task);
    ReleaseWithin(done.tokens, reported);
    var g := Grant(task.estimate + Schedule(w.tokens, task).1.allowed, reported);
    TakenOneMore(gs, g);
    assert last.grants == w.grants + (gs + [g]);
  }

  /**
   The token ledger of one call through any nesting of wrappers: the tokens gone are at least those taken less
   those reported at every scheduler passed, and exactly those if and only if every release on the way stays under
   the ceiling. What is reported there is what the call's own reply reports.
   */
  lemma {:induction false} CallAccounts(s: Stack, p: Prompt, c: Config, w: World) returns (gs: seq<Grant>)
    ensures Accounts(Generate(s, p, c, w).1, w, gs, NeverCut(s, p, c, w))
    ensures forall g | g in gs :: g.reported == TokensIn(Generate(s, p, c, w).0)
    decreases s
  {
    hide Open, Close, Schedule, ReleaseTokens, EstimateMemory, Reported, UseScratch, Adjusted, MemoryRefused,
      FallbackReply, ReasonText, Accounts, TaskFor, Fits, TokensIn;
    gs := [];
    match s
    case Backend => NothingSpent(Generate(s, p, c, w).1, w);
    case MemoryAware(inner, agent) =>
      var (book, r) := Open(w.memory.book, agent, EstimateMemory(p, c));
      var begun := w.(memory := w.memory.(book := book));
      if r.reserved {
        gs := CallAccounts(inner, p, c, begun);
        SameAccounts(Generate(inner, p, c, begun).1, begun, gs, NeverCut(inner, p, c, begun), Generate(s, p, c, w).1, w);
      } else {
        NothingSpent(Generate(s, p, c, w).1, w);
      }
    case Scheduled(inner) =>
      var task := TaskFor(p, c);
      var (tokens, d) := Schedule(w.tokens, task);
      var charged := w.(tokens := tokens);
      if d.Admitted() {
        var (reply, done) := Generate(inner, p, Adjusted(c, d), charged);
        gs := CallAccounts(inner, p, Adjusted(c, d), charged);
        OneGrant(w, task, charged, done, gs, NeverCut(inner, p, Adjusted(c, d), charged), Reported(reply),
                 Generate(s, p, c, w).1);
        ReportedExact(reply);
        gs := gs + [Grant(task.estimate + d.allowed, Reported(reply))];
      } else {
        RefusalSpendsNothing(w.tokens, task);
        NothingSpent(Generate(s, p, c, w).1, w);
      }
  }

  lemma RefusalSpendsNothing(b: TokenBudget, t: Task)
    ensures !Schedule(b, t).1.Admitted() ==> Schedule(b, t).0 == b
  {
  }

  lemma SameAccounts(last: World, w: World, gs: seq<Grant>, uncut: bool, last': World, w': World)
    requires Accounts(last, w, gs, uncut)
    requires last'.grants == last.grants && last'.tokens == last.tokens && w'.grants == w.grants && w'.tokens == w.tokens
    ensures Accounts(last', w', gs, uncut)
  {
  }

  /**
   Around a backend, an admitted call costs exactly what was taken less what was reported unless the ceiling cuts
   it; with a total that does not wrap, what was taken is what was reserved.
   */
  lemma OneSchedulerExact(p: Prompt, c: Config, w: World)
    requires Schedule(w.tokens, TaskFor(p, c)).1.Admitted()
    ensures var task := TaskFor(p, c);
            var reserved := task.estimate + Schedule(w.tokens, task).1.allowed;
            var (reply, last) := Generate(Scheduled(Backend), p, c, w);
            && (last.tokens.remaining == w.tokens.remaining - U32(reserved) + TokensIn(reply) <==>
                w.tokens.remaining - U32(reserved) + TokensIn(reply) <= w.tokens.Ceiling())
            && (U32(reserved) == reserved <==> TokenScheduling.Honest(w.tokens, task))
  {
    hide Generate, TaskFor, Reported, TokensIn, Schedule, ReleaseTokens, TokenScheduling.Honest;
    var task := TaskFor(p, c);
    OneSchedulerSteps(p, c, w);
    AdmittedTakes(w.tokens, task);
    DecisionConserves(w.tokens, task);
    ReportedExact(Generate(Scheduled(Backend), p, c, w).0);
    ReleaseExact(Schedule(w.tokens, task).0, Reported(Generate(Scheduled(Backend), p, c, w).0));
  }

  lemma OneSchedulerSteps(p: Prompt, c: Config, w: World)
    requires Schedule(w.tokens, TaskFor(p, c)).1.Admitted()
    ensures var (reply, last) := Generate(Scheduled(Backend), p, c, w);
            last.tokens == ReleaseTokens(Schedule(w.tokens, TaskFor(p, c)).0, Reported(reply))
  {
    hide TaskFor, Reported, UseScratch, ReasonText, FallbackReply, Schedule, ReleaseTokens, NextAnswer, Adjusted;
  }

  // ---------------------------------------------------------------------------------------------
  // Runs

  function GenerateAll(s: Stack, cs: seq<Call>, w: World): World
    decreases |cs|
  {
    if cs == [] then w else GenerateAll(s, cs[1..], Generate(s, cs[0].prompt, cs[0].config, w).1)
  }

  /** The agents for whom a reservation made in the run wraps past its limit. */
  ghost function WrappedInRun(s: Stack, cs: seq<Call>, w: World): set<bytes>
    decreases |cs|
  {
    if cs == [] then {}
    else Wrapped(s, cs[0].prompt, cs[0].config, w)
         + WrappedInRun(s, cs[1..], Generate(s, cs[0].prompt, cs[0].config, w).1)
  }

  lemma UsageTwice(last: Book, next: Book, book: Book, later: set<bytes>, first: set<bytes>)
    requires UsageBut(next, book, first) && UsageBut(last, next, later)
    ensures UsageBut(last, book, first + later)
  {
  }

  lemma UsageSane(next: Book, book: Book, cleared: set<bytes>)
    requires UsageBut(next, book, cleared)
    ensures AllSane(next)
  {
  }

  /** Over any run of calls, usage is back where it was but for the agents whose reservation wrapped in the run. */
  lemma {:induction false} UsageAfterRun(s: Stack, cs: seq<Call>, w: World)
    requires AllSane(w.memory.book)
    ensures UsageBut(GenerateAll(s, cs, w).memory.book, w.memory.book, WrappedInRun(s, cs, w))
    decreases |cs|
  {
    hide Generate, Wrapped, UsageBut;
    if cs == [] {
      NothingCleared(w.memory.book);
    } else {
      var next := Generate(s, cs[0].prompt, cs[0].config, w).1;
      var first := Wrapped(s, cs[0].prompt, cs[0].config, w);
      UsageAfterCall(s, cs[0].prompt, cs[0].config, w);
      UsageSane(next.memory.book, w.memory.book, first);
      UsageAfterRun(s, cs[1..], next);
      UsageTwice(GenerateAll(s, cs, w).memory.book, next.memory.book, w.memory.book, WrappedInRun(s, cs[1..], next), first);
    }
  }

  /** A run restores every agent's usage exactly when the agents whose reservation wraps in it used nothing. */
  lemma RunRestoresExact(s: Stack, cs: seq<Call>, w: World)
    requires AllSane(w.memory.book)
    ensures Restored(GenerateAll(s, cs, w).memory.book, w.memory.book) <==>
            forall a | a in w.memory.book && a in WrappedInRun(s, cs, w) :: w.memory.book[a].used == 0
  {
    hide *;
    UsageAfterRun(s, cs, w);
    RestoredExact(GenerateAll(s, cs, w).memory.book, w.memory.book, WrappedInRun(s, cs, w));
  }

  /** None of the reservations made in the run wraps past its limit. */
  ghost predicate HonestCalls(s: Stack, cs: seq<Call>, w: World)
    decreases |cs|
  {
    cs == [] ||
    (HonestCall(s, cs[0].prompt, cs[0].config, w)
     && HonestCalls(s, cs[1..], Generate(s, cs[0].prompt, cs[0].config, w).1))
  }

  lemma {:induction false} HonestRunNoneWrapped(s: Stack, cs: seq<Call>, w: World)
    ensures HonestCalls(s, cs, w) <==> WrappedInRun(s, cs, w) == {}
    decreases |cs|
  {
    hide Generate, Wrapped, HonestCall;
    if cs != [] {
      HonestNoneWrapped(s, cs[0].prompt, cs[0].config, w);
      HonestRunNoneWrapped(s, cs[1..], Generate(s, cs[0].prompt, cs[0].config, w).1);
    }
  }

  /** When no reservation wraps in a run of calls, every agent's memory usage is back where it was. */
  lemma RunRestoresUsage(s: Stack, cs: seq<Call>, w: World)
    requires AllSane(w.memory.book) && HonestCalls(s, cs, w)
    ensures SameUsage(GenerateAll(s, cs, w).memory.book, w.memory.book)
  {
    hide GenerateAll, WrappedInRun, HonestCalls, UsageBut;
    UsageAfterRun(s, cs, w);
    HonestRunNoneWrapped(s, cs, w);
  }

  /** Every release made in the run stays under the ceiling. */
  ghost predicate NeverCutInRun(s: Stack, cs: seq<Call>, w: World)
    decreases |cs|
  {
    cs == [] ||
    (NeverCut(s, cs[0].prompt, cs[0].config, w)
     && NeverCutInRun(s, cs[1..], Generate(s, cs[0].prompt, cs[0].config, w).1))
  }

  /** The token ledger over any run of calls. */
  lemma {:induction false} RunAccounts(s: Stack, cs: seq<Call>, w: World) returns (gs: seq<Grant>)
    ensures Accounts(GenerateAll(s, cs, w), w, gs, NeverCutInRun(s, cs, w))
    decreases |cs|
  {
    hide Generate, Accounts, NeverCut;
    if cs == [] {
      NothingSpent(w, w);
      gs := [];
    } else {
      var next := Generate(s, cs[0].prompt, cs[0].config, w).1;
      var first := CallAccounts(s, cs[0].prompt, cs[0].config, w);
      var uncut := NeverCut(s, cs[0].prompt, cs[0].config, w);
      var rest := RunAccounts(s, cs[1..], next);
      AccountsAdd(GenerateAll(s, cs, w), next, w, first, uncut, rest, NeverCutInRun(s, cs[1..], next));
      gs := first + rest;
    }
  }

  lemma {:induction false} TakenConcat(a: seq<Grant>, b: seq<Grant>)
    ensures Taken(a + b) == Taken(a) + Taken(b)
    decreases |b|
  {
    if b == [] {
      assert a + b == a;
    } else {
      TakenConcat(a, b[..|b| - 1]);
      assert (a + b)[..|a + b| - 1] == a + b[..|b| - 1];
    }
  }

  lemma GrantsConcat(a: seq<Grant>, b: seq<Grant>)
    ensures Modest(a + b) ==> Modest(a) && Modest(b)
    ensures Unwrapped(a) && Unwrapped(b) ==> Unwrapped(a + b)
  {
    assert forall i | 0 <= i < |a| :: (a + b)[i] == a[i];
    assert forall i | 0 <= i < |b| :: (a + b)[|a| + i] == b[i];
  }

  lemma AccountsAdd(last: World, next: World, w: World, a: seq<Grant>, early: bool, b: seq<Grant>, late: bool)
    requires Accounts(next, w, a, early) && Accounts(last, next, b, late)
    ensures Accounts(last, w, a + b, early && late)
  {
    hide Taken, Modest, Unwrapped, Under;
    TakenConcat(a, b);
    GrantsConcat(a, b);
    assert last.grants == w.grants + (a + b);
  }
}
