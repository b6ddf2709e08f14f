/**
 Per-agent memory budgets and scoped reservations (memory/src/AgentMemoryBudget.cpp, MemoryManager.cpp,
 ScopedMemoryReservation.cpp) as functions. Byte counts are 64-bit words and sums wrap.
 */
module Budgets {
  import opened Bytes

  datatype Budget = Budget(limit: u64, used: u64, peak: u64) {
    predicate Sane() { used <= peak <= limit }
  }

  type Book = map<bytes, Budget>

  predicate CanReserve(b: Budget, count: u64) {
    U64(b.used + count) <= b.limit
  }

  function Reserve(b: Budget, count: u64): (Budget, bool) {
    if !CanReserve(b, count) then (b, false) else
    var used := U64(b.used + count);
    (b.(used := used, peak := if b.peak >= used then b.peak else used), true)
  }

  function Release(b: Budget, count: u64): Budget {
    if count >= b.used then b.(used := 0) else b.(used := b.used - count)
  }

  /** `set_agent_budget`: a new budget, whatever was used of an old one. */
  function SetBudget(book: Book, agent: bytes, limit: u64): Book {
    book[agent := Budget(limit, 0, 0)]
  }

  function ReserveFor(book: Book, agent: bytes, count: u64): (Book, bool) {
    if agent !in book then (book, false) else
    var (b, ok) := Reserve(book[agent], count);
    (book[agent := b], ok)
  }

  function ReleaseFor(book: Book, agent: bytes, count: u64): Book {
    if agent !in book then book else book[agent := Release(book[agent], count)]
  }

  /** `ScopedMemoryReservation`. */
  datatype Reservation = Reservation(agent: bytes, count: u64, reserved: bool)

  function Open(book: Book, agent: bytes, count: u64): (Book, Reservation) {
    var (next, ok) := ReserveFor(book, agent, count);
    (next, Reservation(agent, count, ok))
  }

  function Close(book: Book, r: Reservation): Book {
    if r.reserved then ReleaseFor(book, r.agent, r.count) else book
  }

  // ---------------------------------------------------------------------------------------------
  // One reservation

  /** The sum that is compared with the limit does not wrap, or is refused all the same. */
  predicate Honest(book: Book, agent: bytes, count: u64) {
    agent in book ==> book[agent].used + count < TWO64 || U64(book[agent].used + count) > book[agent].limit
  }

  ghost predicate AllSane(book: Book) {
    forall a | a in book :: book[a].Sane()
  }

  lemma OpenExact(book: Book, agent: bytes, count: u64)
    requires AllSane(book)
    ensures var (next, r) := Open(book, agent, count);
            && AllSane(next) && next.Keys == book.Keys
            && (forall a | a in book && a != agent :: next[a] == book[a])
            && (!r.reserved ==> next == book)
            && (r.reserved ==> agent in book && next[agent].limit == book[agent].limit && next[agent].peak >= next[agent].used)
            && ((r.reserved ==> next[agent].used == book[agent].used + count) <==> Honest(book, agent, count))
            && (Honest(book, agent, count) ==>
                (r.reserved <==> agent in book && book[agent].used + count <= book[agent].limit))
  {
    var (next, r) := Open(book, agent, count);
    if agent in book && !r.reserved {
      assert next == book;
    }
  }

  /** Opening and closing a reservation leaves usage as it was exactly when the reservation is honest. */
  lemma OpenCloseExact(book: Book, agent: bytes, count: u64)
    requires AllSane(book)
    ensures var (next, r) := Open(book, agent, count);
            var last := Close(next, r);
            && last.Keys == book.Keys && AllSane(last)
            && ((forall a | a in book :: last[a].used == book[a].used) <==> Honest(book, agent, count))
  {
    OpenExact(book, agent, count);
    var (next, r) := Open(book, agent, count);
    var last := Close(next, r);
    if r.reserved && !Honest(book, agent, count) {
      assert last[agent].used != book[agent].used;
    }
  }

  /** With a limit near 2^64 a wrapped sum passes: usage goes down, and the release clears what was left. */
  lemma WrappedReservation()
    ensures var book: Book := map[[1] := Budget(TWO64 - 1, 10, 10)];
            var (next, r) := Open(book, [1], TWO64 - 1);
            && r.reserved && next[[1]].used == 9 && Close(next, r)[[1]].used == 0
  {
  }

  /** A budget set anew has the given limit and nothing used; the others stay. */
  lemma SetBudgetEffect(book: Book, agent: bytes, limit: u64)
    ensures var next := SetBudget(book, agent, limit);
            && next.Keys == book.Keys + {agent} && next[agent].limit == limit
            && next[agent].used == 0 && next[agent].peak == 0
            && (forall a | a in book && a != agent :: next[a] == book[a])
  {
  }

  /** A release takes its bytes off what is used, but not below nothing; limit, peak and the other budgets stay. */
  lemma ReleaseEffect(book: Book, agent: bytes, count: u64)
    ensures var next := ReleaseFor(book, agent, count);
            && next.Keys == book.Keys && (forall a | a in book && a != agent :: next[a] == book[a])
            && (agent in book ==>
                next[agent] == Budget(book[agent].limit, Max(0, book[agent].used - count), book[agent].peak))
  {
  }

  // ---------------------------------------------------------------------------------------------
  // The ledger

  /** A book and the reservations that are open, in any order. */
  datatype Ledger = Ledger(book: Book, open: seq<Reservation>)

  datatype Op = DoOpen(agent: bytes, count: u64) | DoClose(index: nat) | DoSet(agent: bytes, limit: u64)

  function Outstanding(open: seq<Reservation>, agent: bytes): nat {
    if open == [] then 0
    else (if open[0].reserved && open[0].agent == agent then open[0].count else 0) + Outstanding(open[1..], agent)
  }

  /** Every budget's usage is the sum of its open reservations, and used <= peak <= limit. */
  ghost predicate Balanced(l: Ledger) {
    && AllSane(l.book)
    && (forall a | a in l.book :: l.book[a].used == Outstanding(l.open, a))
    && (forall i | 0 <= i < |l.open| && l.open[i].reserved :: l.open[i].agent in l.book)
  }

  function Without(open: seq<Reservation>, i: nat): seq<Reservation>
    requires i < |open|
  {
    open[..i] + open[i + 1..]
  }

  function Step(l: Ledger, op: Op): Ledger {
    match op
    case DoOpen(agent, count) =>
      var (book, r) := Open(l.book, agent, count);
      Ledger(book, l.open + [r])
    case DoClose(i) =>
      if i < |l.open| then Ledger(Close(l.book, l.open[i]), Without(l.open, i)) else l
    case DoSet(agent, limit) => Ledger(SetBudget(l.book, agent, limit), l.open)
  }

  /** A reservation is honest; a budget is not set anew while bytes of it are reserved. */
  predicate Fair(l: Ledger, op: Op) {
    match op
    case DoOpen(agent, count) => Honest(l.book, agent, count)
    case DoSet(agent, _) => Outstanding(l.open, agent) == 0
    case DoClose(_) => true
  }

  lemma {:induction false} OutstandingConcat(a: seq<Reservation>, b: seq<Reservation>, agent: bytes)
    ensures Outstanding(a + b, agent) == Outstanding(a, agent) + Outstanding(b, agent)
  {
    if a == [] {
      assert a + b == b;
    } else {
      OutstandingConcat(a[1..], b, agent);
      assert (a + b)[1..] == a[1..] + b;
    }
  }

  function Share(r: Reservation, agent: bytes): nat {
    if r.reserved && r.agent == agent then r.count else 0
  }

  lemma OutstandingOne(r: Reservation, agent: bytes)
    ensures Outstanding([r], agent) == Share(r, agent)
  {
    assert [r][1..] == [];
  }

  lemma OutstandingWithout(open: seq<Reservation>, i: nat, agent: bytes)
    requires i < |open|
    ensures Outstanding(open, agent) == Outstanding(Without(open, i), agent) + Share(open[i], agent)
  {
    hide Outstanding;
    OutstandingConcat(open[..i], open[i..], agent);
    OutstandingConcat([open[i]], open[i + 1..], agent);
    OutstandingConcat(open[..i], open[i + 1..], agent);
    OutstandingOne(open[i], agent);
    assert open == open[..i] + open[i..] && open[i..] == [open[i]] + open[i + 1..];
  }

  lemma OpenBalanced(l: Ledger, agent: bytes, count: u64)
    requires Balanced(l)
    ensures Balanced(Step(l, DoOpen(agent, count))) <==> Honest(l.book, agent, count)
  {
    hide Outstanding, Honest;
    OpenExact(l.book, agent, count);
    var (book, r) := Open(l.book, agent, count);
    hide Open;
    forall a
      ensures Outstanding(l.open + [r], a) == Outstanding(l.open, a) + Share(r, a)
    {
      OutstandingConcat(l.open, [r], a);
      OutstandingOne(r, a);
    }
    if r.reserved {
      assert Share(r, agent) == count;
    }
  }

  lemma CloseBalanced(l: Ledger, i: nat)
    requires Balanced(l) && i < |l.open|
    ensures Balanced(Step(l, DoClose(i)))
  {
    hide Outstanding;
    forall a
      ensures Outstanding(l.open, a) == Outstanding(Without(l.open, i), a) + Share(l.open[i], a)
    {
      OutstandingWithout(l.open, i, a);
    }
  }

  /** Among balanced states, an operation leads to a balanced one exactly when it is fair. */
  lemma StepBalanced(l: Ledger, op: Op)
    requires Balanced(l)
    ensures Balanced(Step(l, op)) <==> Fair(l, op)
  {
    match op
    case DoOpen(agent, count) => OpenBalanced(l, agent, count);
    case DoClose(i) => if i < |l.open| { CloseBalanced(l, i); }
    case DoSet(agent, limit) =>
      if Outstanding(l.open, agent) != 0 {
        assert Step(l, op).book[agent].used != Outstanding(l.open, agent);
      }
  }

  function Run(l: Ledger, ops: seq<Op>): Ledger
    decreases |ops|
  {
    if ops == [] then l else Run(Step(l, ops[0]), ops[1..])
  }

  predicate FairRun(l: Ledger, ops: seq<Op>)
    decreases |ops|
  {
    ops == [] || (Fair(l, ops[0]) && FairRun(Step(l, ops[0]), ops[1..]))
  }

  /**
   The ledger over every run: reservations of any agents, opened and closed in any order, leave each budget's
   usage equal to the sum of its open reservations, with used <= peak <= limit.
   */
  lemma {:induction false} RunBalanced(l: Ledger, ops: seq<Op>)
    requires Balanced(l) && FairRun(l, ops)
    ensures Balanced(Run(l, ops))
    decreases |ops|
  {
    hide Balanced, Step, Fair;
    if ops != [] {
      StepBalanced(l, ops[0]);
      RunBalanced(Step(l, ops[0]), ops[1..]);
    }
  }

  /** The ledger is balanced after each operation of the run, not only at its end. */
  ghost predicate BalancedThroughout(l: Ledger, ops: seq<Op>)
    decreases |ops|
  {
    Balanced(l) && (ops == [] || BalancedThroughout(Step(l, ops[0]), ops[1..]))
  }

  /** A run keeps the ledger balanced throughout exactly when each of its operations is fair. */
  lemma {:induction false} ThroughoutExact(l: Ledger, ops: seq<Op>)
    requires Balanced(l)
    ensures BalancedThroughout(l, ops) <==> FairRun(l, ops)
    decreases |ops|
  {
    hide Balanced, Step, Fair;
    if ops != [] {
      StepBalanced(l, ops[0]);
      if Fair(l, ops[0]) {
        ThroughoutExact(Step(l, ops[0]), ops[1..]);
      }
    }
  }

  /** The most of `agent` that is used at any point of the run since its budget was last set, or `seen` if that is more. */
  function MostUsed(l: Ledger, ops: seq<Op>, agent: bytes, seen: nat): nat
    requires agent in l.book
    decreases |ops|
  {
    if ops == [] then seen else
    var next := Step(l, ops[0]);
    StepKeeps(l, ops[0]);
    MostUsed(next, ops[1..], agent,
             if ops[0].DoSet? && ops[0].agent == agent then 0 else Max(seen, next.book[agent].used))
  }

  lemma StepKeeps(l: Ledger, op: Op)
    ensures forall a | a in l.book :: a in Step(l, op).book
  {
  }

  /** Over every run, fair or not, the peak of a budget is the most that was used of it since it was set. */
  lemma {:induction false} PeakExact(l: Ledger, ops: seq<Op>, agent: bytes)
    requires AllSane(l.book) && agent in l.book
    ensures agent in Run(l, ops).book
    ensures Run(l, ops).book[agent].peak == MostUsed(l, ops, agent, l.book[agent].peak)
    decreases |ops|
  {
    hide Step;
    if ops != [] {
      StepKeeps(l, ops[0]);
      StepPeak(l, ops[0], agent);
      PeakExact(Step(l, ops[0]), ops[1..], agent);
    }
  }

  lemma StepPeak(l: Ledger, op: Op, agent: bytes)
    requires AllSane(l.book) && agent in l.book
    ensures AllSane(Step(l, op).book) && agent in Step(l, op).book
    ensures var b := Step(l, op).book[agent];
            b.peak == if op.DoSet? && op.agent == agent then 0 else Max(l.book[agent].peak, b.used)
  {
    match op
    case DoOpen(a, count) => OpenExact(l.book, a, count);
    case DoClose(i) => if i < |l.open| { ReleaseEffect(l.book, l.open[i].agent, l.open[i].count); }
    case DoSet(a, limit) =>
  }

  /** Once everything is closed, nothing is used. */
  lemma AllClosed(l: Ledger, ops: seq<Op>)
    requires Balanced(l) && FairRun(l, ops) && Run(l, ops).open == []
    ensures forall a | a in Run(l, ops).book :: Run(l, ops).book[a].used == 0
  {
    RunBalanced(l, ops);
  }
}
