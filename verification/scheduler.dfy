/** Token scheduling (scheduler/src/TokenScheduler.cpp). Counts are 32-bit words and sums wrap. */
module TokenScheduling {
  import opened Bytes

  datatype TokenBudget = TokenBudget(maxPrompt: u32, maxCompletion: u32, remaining: u32) {
    /** `max_prompt_tokens + max_completion_tokens`, as computed. */
    function Ceiling(): u32 {
      U32(maxPrompt + maxCompletion)
    }
  }

  datatype Task = Task(estimate: u32, requested: u32, allowTruncation: bool, allowFallback: bool)

  datatype Verdict = Allow | ReduceTokens | Reject | UseFallback

  datatype Reason =
    | PromptTooLong | CompletionTooLong | Granted | CappedToMaximum | BudgetUsedUp | CappedToRemaining | NoTruncation

  datatype Decision = Decision(verdict: Verdict, allowed: u32, reason: Reason) {
    predicate Admitted() { verdict.Allow? || verdict.ReduceTokens? }
  }

  function Refusal(t: Task, reason: Reason): Decision {
    Decision(if t.allowFallback then UseFallback else Reject, 0, reason)
  }

  /** The requested completion, cut down to the maximum. */
  function Capped(b: TokenBudget, t: Task): u32 {
    if t.requested <= b.maxCompletion then t.requested else b.maxCompletion
  }

  function Schedule(b: TokenBudget, t: Task): (TokenBudget, Decision) {
    if t.estimate > b.maxPrompt then (b, Refusal(t, PromptTooLong))
    else if t.requested > b.maxCompletion && !t.allowTruncation then (b, Refusal(t, CompletionTooLong)) else
    var total := U32(t.estimate + Capped(b, t));
    if total <= b.remaining then
      (b.(remaining := b.remaining - total),
       if Capped(b, t) < t.requested then Decision(ReduceTokens, Capped(b, t), CappedToMaximum)
       else Decision(Allow, Capped(b, t), Granted))
    else if b.remaining <= t.estimate then (b, Refusal(t, BudgetUsedUp)) else
    var available := b.remaining - t.estimate;
    if t.allowTruncation && available > 0 then (b.(remaining := 0), Decision(ReduceTokens, available, CappedToRemaining))
    else (b, Refusal(t, NoTruncation))
  }

  function ReleaseTokens(b: TokenBudget, used: u32): TokenBudget {
    var sum := U32(b.remaining + used);
    b.(remaining := if sum <= b.Ceiling() then sum else b.Ceiling())
  }

  // ---------------------------------------------------------------------------------------------
  // One decision

  /** What a decision takes from the budget. */
  function Charge(t: Task, d: Decision): nat {
    if d.Admitted() then t.estimate + d.allowed else 0
  }

  /** The total that is compared with the remaining tokens does not wrap, or is not what admits the task. */
  predicate Honest(b: TokenBudget, t: Task) {
    || t.estimate > b.maxPrompt
    || (t.requested > b.maxCompletion && !t.allowTruncation)
    || t.estimate + Capped(b, t) < TWO32
    || U32(t.estimate + Capped(b, t)) > b.remaining
  }

  /** A decision takes exactly estimate plus allowed tokens, and nothing when it refuses, exactly when the total is honest. */
  lemma DecisionConserves(b: TokenBudget, t: Task)
    ensures var (next, d) := Schedule(b, t);
            && b.remaining <= next.remaining + Charge(t, d)
            && (b.remaining == next.remaining + Charge(t, d) <==> Honest(b, t))
            && (!d.Admitted() ==> next == b)
            && next.maxPrompt == b.maxPrompt && next.maxCompletion == b.maxCompletion
  {
  }

  /** With maxima that add up to less than 2^32, every total is honest. */
  lemma SmallMaximaHonest(b: TokenBudget, t: Task)
    requires b.maxPrompt + b.maxCompletion < TWO32
    ensures Honest(b, t)
  {
  }

  /** With larger maxima a total can wrap to nothing: the task is admitted and charged less than it may use. */
  lemma WrappedTotalAdmitted()
    ensures var b := TokenBudget(TWO32 - 1, 16, 0);
            var t := Task(TWO32 - 16, 16, true, true);
            && Schedule(b, t) == (b, Decision(Allow, 16, Granted)) && !Honest(b, t)
  {
  }

  /**
   Which tasks are admitted, with how many tokens, and how the others are refused. An admitted task gets
   the smallest of what it requests, the maximum and what the budget has left after its prompt.
   */
  lemma DecisionExact(b: TokenBudget, t: Task)
    requires Honest(b, t)
    ensures var d := Schedule(b, t).1;
            && (t.allowTruncation ==>
                (d.Admitted() <==> t.estimate <= b.maxPrompt
                                   && (t.estimate < b.remaining || (t.estimate == b.remaining && Capped(b, t) == 0))))
            && (!t.allowTruncation ==>
                (d.Admitted() <==> t.estimate <= b.maxPrompt && t.requested <= b.maxCompletion
                                   && t.estimate + t.requested <= b.remaining))
            && (d.Admitted() ==> t.estimate <= b.remaining && d.allowed == Min(Capped(b, t), b.remaining - t.estimate))
            && (d.verdict == Allow <==> d.Admitted() && d.allowed == t.requested)
            && (!d.Admitted() ==> d.allowed == 0 && d.verdict == if t.allowFallback then UseFallback else Reject)
  {
  }

  /**
   An admitted task gets the smallest of what it requests, the maximum and what the budget has left after its
   prompt, exactly when the total is honest: one that wraps admits a task with more than is left.
   */
  lemma AllowanceExact(b: TokenBudget, t: Task)
    ensures var d := Schedule(b, t).1;
            (d.Admitted() ==> t.estimate <= b.remaining && d.allowed == Min(Capped(b, t), b.remaining - t.estimate)) <==>
            Honest(b, t)
  {
  }

  /** Even where the total wraps, no task gets more than it requests or than the maximum. */
  lemma NeverMoreThanCapped(b: TokenBudget, t: Task)
    ensures Schedule(b, t).1.allowed <= Capped(b, t)
    ensures Schedule(b, t).1.verdict == Allow ==> Schedule(b, t).1.allowed == t.requested
  {
  }

  /** The reason that is given for each decision, in the order of the checks. */
  lemma ReasonExact(b: TokenBudget, t: Task)
    ensures var d := Schedule(b, t).1;
            && (d.reason == PromptTooLong <==> t.estimate > b.maxPrompt)
            && (d.reason == CompletionTooLong <==>
                t.estimate <= b.maxPrompt && t.requested > b.maxCompletion && !t.allowTruncation)
            && (d.reason == Granted <==> d.verdict == Allow)
            && (d.verdict == ReduceTokens ==>
                (d.reason == CappedToMaximum <==> d.allowed == b.maxCompletion && t.requested > b.maxCompletion)
                && (d.reason == CappedToRemaining <==> !(d.allowed == b.maxCompletion && t.requested > b.maxCompletion)))
            && (d.reason == BudgetUsedUp ==> b.remaining <= t.estimate)
            && (d.reason == NoTruncation ==> b.remaining > t.estimate && !t.allowTruncation)
  {
  }

  /** What `release` leaves: the sum, or the ceiling if that is less, each in 32 bits; the maxima stay. */
  lemma ReleaseEffect(b: TokenBudget, used: u32)
    ensures var sum, ceiling := (b.remaining + used) % TWO32, (b.maxPrompt + b.maxCompletion) % TWO32;
            ReleaseTokens(b, used) == TokenBudget(b.maxPrompt, b.maxCompletion, if sum < ceiling then sum else ceiling)
  {
  }

  /** `release` adds the tokens back exactly when that does not pass the ceiling. */
  lemma ReleaseExact(b: TokenBudget, used: u32)
    ensures ReleaseTokens(b, used).remaining == b.remaining + used <==> b.remaining + used <= b.Ceiling()
    ensures ReleaseTokens(b, used).remaining <= b.Ceiling()
  {
  }

  // ---------------------------------------------------------------------------------------------
  // Runs

  function ScheduleAll(b: TokenBudget, ts: seq<Task>): TokenBudget
    decreases |ts|
  {
    if ts == [] then b else ScheduleAll(Schedule(b, ts[0]).0, ts[1..])
  }

  /** What the admitted tasks of the run take together. */
  function Charges(b: TokenBudget, ts: seq<Task>): nat
    decreases |ts|
  {
    if ts == [] then 0
    else Charge(ts[0], Schedule(b, ts[0]).1) + Charges(Schedule(b, ts[0]).0, ts[1..])
  }

  /** Every total that is compared on the way is honest. */
  predicate HonestRun(b: TokenBudget, ts: seq<Task>)
    decreases |ts|
  {
    ts == [] || (Honest(b, ts[0]) && HonestRun(Schedule(b, ts[0]).0, ts[1..]))
  }

  /**
   Over any run of `schedule`, what is left and what the admitted tasks took add up to what there was,
   exactly when no admitted task's total wrapped; otherwise the tasks took more than there was.
   */
  lemma {:induction false} TokensConserved(b: TokenBudget, ts: seq<Task>)
    ensures b.remaining <= ScheduleAll(b, ts).remaining + Charges(b, ts)
    ensures b.remaining == ScheduleAll(b, ts).remaining + Charges(b, ts) <==> HonestRun(b, ts)
    decreases |ts|
  {
    hide Schedule, Charge, Honest;
    if ts != [] {
      DecisionConserves(b, ts[0]);
      TokensConserved(Schedule(b, ts[0]).0, ts[1..]);
    }
  }

  /** So with maxima that add up to less than 2^32, tokens are conserved over every run. */
  lemma {:induction false} SmallMaximaConserve(b: TokenBudget, ts: seq<Task>)
    requires b.maxPrompt + b.maxCompletion < TWO32
    ensures b.remaining == ScheduleAll(b, ts).remaining + Charges(b, ts)
    decreases |ts|
  {
    hide Schedule, Charge, Honest;
    if ts != [] {
      DecisionConserves(b, ts[0]);
      SmallMaximaHonest(b, ts[0]);
      SmallMaximaConserve(Schedule(b, ts[0]).0, ts[1..]);
    }
  }

  // ---------------------------------------------------------------------------------------------
  // The code

  class TokenScheduler {
    var budget: TokenBudget

    constructor (budget: TokenBudget)
      ensures this.budget == budget
    {
      this.budget := budget;
    }

    method ScheduleTask(t: Task) returns (d: Decision)
      modifies this
      ensures (budget, d) == Schedule(old(budget), t)
    {
      if t.estimate > budget.maxPrompt {
        if t.allowFallback {
          return Decision(UseFallback, 0, PromptTooLong);
        }
        return Decision(Reject, 0, PromptTooLong);
      }
      var requested: u32 := if t.requested <= budget.maxCompletion then t.requested else budget.maxCompletion;
      if t.requested > budget.maxCompletion && !t.allowTruncation {
        if t.allowFallback {
          return Decision(UseFallback, 0, CompletionTooLong);
        }
        return Decision(Reject, 0, CompletionTooLong);
      }
      var total := U32(t.estimate + requested);
      if total <= budget.remaining {
        budget := budget.(remaining := budget.remaining - total);
        if requested < t.requested {
          return Decision(ReduceTokens, requested, CappedToMaximum);
        }
        return Decision(Allow, requested, Granted);
      }
      if budget.remaining <= t.estimate {
        if t.allowFallback {
          return Decision(UseFallback, 0, BudgetUsedUp);
        }
        return Decision(Reject, 0, BudgetUsedUp);
      }
      var available := budget.remaining - t.estimate;
      if t.allowTruncation && available > 0 {
        budget := budget.(remaining := 0);
        return Decision(ReduceTokens, available, CappedToRemaining);
      }
      if t.allowFallback {
        return Decision(UseFallback, 0, NoTruncation);
      }
      return Decision(Reject, 0, NoTruncation);
    }

    method Release(used: u32)
      modifies this
      ensures budget == ReleaseTokens(old(budget), used)
    {
      var sum := U32(budget.remaining + used);
      var ceiling := U32(budget.maxPrompt + budget.maxCompletion);
      budget := budget.(remaining := if sum <= ceiling then sum else ceiling);
    }
  }
}
