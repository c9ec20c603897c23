/** What the broker's answers tell a caller: whose budget, how much is used, and what can still be spent. */
module Answers {
  import opened Prelude
  import opened Contract
  import opened Accounts
  import opened Memory
  import opened Policies
  import opened Pacing
  import opened Broker

  /** The counter that the store keeps for a policy, a budget and a window, as a policy sees it. */
  function Held(s: Ledger, p: Policy, key: BudgetKey, window: Window): nat {
    var counter := Usage(s.books, CounterKey(StoreKey(p.name, key, p.unit), window));
    if counter.committed + counter.reserved <= U64_MAX then counter.committed + counter.reserved else U64_MAX
  }

  /** What is left of `used` below a bound. */
  function Left(bound: int, used: nat): int {
    if bound <= used then 0 else bound - used
  }

  // ---------------------------------------------------------------- no answer about usage

  /** Without a policy, or with another unit than the policy's, nothing is read and nothing is cleaned up. */
  lemma RefusedEarly(warden: Warden, s: Ledger, request: Request, window: Window, now: int)
    ensures
      var asked := AuthorizeBudget(warden, s, request, window, now);
      var made := ReserveBudget(warden, s, request, window, now);
      var found := Find(warden.policies, request.key);
      && (asked.result == Ok(NoPolicy) <==> found.None?)
      && (asked.result.Err? <==> found.Some? && found.value.unit != request.unit)
      && (asked.result.Err? ==> asked.result.error == InvalidRequest("request unit does not match policy unit"))
      && (found.None? || found.value.unit != request.unit ==> made == asked && asked.state == s)
      && (made.result == Ok(NoPolicy) ==> found.None?)
  {
  }

  /** Nor does a usage query read anything without a policy. */
  lemma QueryRefused(warden: Warden, s: Ledger, key: BudgetKey, window: Window, now: int)
    ensures
      var seen := QueryUsage(warden, s, key, window, now);
      && (seen.result.Err? <==> Find(warden.policies, key).None?)
      && (seen.result.Err? ==> seen == Outcome(s, Err(NoMatchingPolicyError)))
  {
  }

  // ---------------------------------------------------------------- authorize

  /** What a decision leaves: nothing at the hard limit, else what is left below the bound that decided. */
  function LeftNow(p: Policy, d: Decision, priority: Priority, used: nat, window: Window, now: int): int
    requires !d.NoPolicy?
  {
    if d.DenyLive? && d.reason == HardLimitReached then 0
    else match p.strategy
      case HardLimitOnly => Left(p.hardLimit, used)
      case PreserveForWindow(_, emergency, _) =>
        if priority == Critical then Left(p.hardLimit, used)
        else if d.DenyLive? && d.reason == ReservedForHigherPriority
        then Left(p.hardLimit - p.hardLimit * emergency / 100, used)
        else Left(PacedLimit(p, window, now), used)
      case ReserveCapacity(units, _) =>
        if d.DenyLive? then Left(p.hardLimit - units, used) else Left(p.hardLimit, used)
  }

  lemma AheadIsDenied(p: Policy, used: u64, amount: u64, priority: Priority, window: Window, now: int)
    requires p.Valid()
    ensures
      var e := Evaluate(p, used, amount, priority, window, now);
      e.aheadOfPace <==> e.denial == Some(AheadOfBudgetPace)
  {
  }

  lemma AuthorizeReads(warden: Warden, s: Ledger, request: Request, window: Window, now: int)
    requires Find(warden.policies, request.key).Some? && Find(warden.policies, request.key).value.unit == request.unit
    ensures
      var p := Find(warden.policies, request.key).value;
      AuthorizeBudget(warden, s, request, window, now)
      == Outcome(CleanedLedger(s, now),
                 Ok(AuthorizeAnswer(p, Held(CleanedLedger(s, now), p, request.key, window), warden.ttl, request, window, now)))
  {
  }

  /** The answer of `authorize` on a usage, in full. */
  lemma AnswerShows(p: Policy, used: u64, ttl: int, request: Request, window: Window, now: int)
    requires p.Valid()
    ensures
      var d := AuthorizeAnswer(p, used, ttl, request, window, now);
      var e := Evaluate(p, used, request.amount, request.priority, window, now);
      && !d.NoPolicy?
      && d.usage.policyName == p.name && d.usage.key == request.key && d.usage.used == used
      && d.usage.hardLimit == p.hardLimit && d.usage.window == window
      && d.usage.reservedRemaining == e.reservedRemaining
      && d.usage.safeToSpendNow == LeftNow(p, d, request.priority, used, window, now)
      && (d.usage.aheadOfPace <==> d.DenyLive? && d.reason == AheadOfBudgetPace)
      && (if e.denial.Some? then d.DenyLive? && d.reason == e.denial.value
          else d.AllowLive? && d.reservation == Handle(0, request.amount, now + ttl))
  {
    EvaluationExact(p, used, request.amount, request.priority, window, now);
    AheadIsDenied(p, used, request.amount, request.priority, window, now);
  }

  /**
   * `authorize` reports the budget, limit and window it decided by and the counter as the store holds it. It gives the
   * reason of the evaluation, and what is left below the bound that reason names.
   */
  lemma AuthorizeShows(warden: Warden, s: Ledger, request: Request, window: Window, now: int)
    requires warden.WellFormed()
    requires Find(warden.policies, request.key).Some? && Find(warden.policies, request.key).value.unit == request.unit
    ensures
      var p := Find(warden.policies, request.key).value;
      var asked := AuthorizeBudget(warden, s, request, window, now);
      && asked.state == CleanedLedger(s, now)
      && asked.result.Ok? && !asked.result.value.NoPolicy?
      && var d := asked.result.value;
         var e := Evaluate(p, Held(asked.state, p, request.key, window), request.amount, request.priority, window, now);
      && d.usage.policyName == p.name && d.usage.key == request.key
      && d.usage.used == Held(asked.state, p, request.key, window)
      && d.usage.hardLimit == p.hardLimit && d.usage.window == window
      && d.usage.reservedRemaining == e.reservedRemaining
      && d.usage.safeToSpendNow == LeftNow(p, d, request.priority, d.usage.used, window, now)
      && (d.usage.aheadOfPace <==> d.DenyLive? && d.reason == AheadOfBudgetPace)
      && (if e.denial.Some? then d.DenyLive? && d.reason == e.denial.value
          else d.AllowLive? && d.reservation == Handle(0, request.amount, now + warden.ttl))
  {
    var p := Find(warden.policies, request.key).value;
    FindSelects(warden.policies, request.key);
    AuthorizeReads(warden, s, request, window, now);
    AnswerShows(p, Held(CleanedLedger(s, now), p, request.key, window), warden.ttl, request, window, now);
  }

  // ---------------------------------------------------------------- reserve

  /** The limit that an allowed request was held to. */
  function LimitFor(p: Policy, priority: Priority, window: Window, now: int): int {
    if p.strategy.PreserveForWindow? && priority != Critical then PacedLimit(p, window, now) else p.hardLimit
  }

  /** A counter that passed with some amount passes with none, and the rest of its limit is left. */
  lemma PassedLeaves(p: Policy, before: u64, amount: u64, priority: Priority, window: Window, now: int, used: u64)
    requires p.Valid() && p.hardLimit < U64_MAX && Allowed(p, before, amount, priority, window, now)
    requires used == before || used == before + amount
    ensures Evaluate(p, used, 0, priority, window, now).safeToSpendNow == LimitFor(p, priority, window, now) - used
    ensures !Evaluate(p, used, 0, priority, window, now).aheadOfPace
  {
    AllowedExactly(p, before, amount, priority, window, now);
    AllowedExactly(p, used, 0, priority, window, now);
    EffectiveLimitCovers(p, before, amount, priority, window, now);
    EvaluationExact(p, used, 0, priority, window, now);
    AheadIsDenied(p, used, 0, priority, window, now);
  }

  /** What passes on some usage passes on none, and leaves the whole limit. */
  lemma UnusedLeaves(p: Policy, used: u64, amount: u64, priority: Priority, window: Window, now: int)
    requires p.Valid() && p.hardLimit < U64_MAX && Allowed(p, used, amount, priority, window, now)
    ensures Evaluate(p, 0, amount, priority, window, now).safeToSpendNow == LimitFor(p, priority, window, now)
  {
    AllowedExactly(p, used, amount, priority, window, now);
    AllowedExactly(p, 0, amount, priority, window, now);
    EffectiveLimitCovers(p, 0, amount, priority, window, now);
    EvaluationExact(p, 0, amount, priority, window, now);
  }

  /** What the store is asked for: the request's own terms, under the policy's name, unit and limits. */
  lemma SubmittedTerms(warden: Warden, s: Ledger, request: Request, window: Window, now: int)
    requires warden.WellFormed() && ReachesStore(warden, s, request, window, now)
    ensures
      var p := Find(warden.policies, request.key).value;
      Submitted(warden, s, request, window, now)
      == ReserveRequest(StoreKey(p.name, request.key, request.unit), request.amount, p.hardLimit,
                        LimitFor(p, request.priority, window, now), warden.ttl, window, request.idempotencyKey, now)
  {
    var p := Find(warden.policies, request.key).value;
    var used := Usage(CleanedLedger(s, now).books, CounterOf(p, request.key, window)).Used();
    FindSelects(warden.policies, request.key);
    EffectiveLimitCovers(p, used, request.amount, request.priority, window, now);
  }

  /** What a decision shows of a store answer that is no error. */
  lemma DecisionShows(p: Policy, request: Request, window: Window, now: int, result: ReservationResult)
    ensures
      var d := ReserveDecision(p, request, window, now, Ok(result));
      && d.Ok? && !d.value.NoPolicy?
      && d.value.usage.policyName == p.name && d.value.usage.key == request.key
      && d.value.usage.used == result.usage.Used()
      && d.value.usage.hardLimit == p.hardLimit && d.value.usage.window == window
      && d.value.usage.safeToSpendNow == Evaluate(p, result.usage.Used(), 0, request.priority, window, now).safeToSpendNow
      && d.value.usage.aheadOfPace == Evaluate(p, result.usage.Used(), 0, request.priority, window, now).aheadOfPace
  {
  }

  lemma ReachedShows(warden: Warden, s: Ledger, request: Request, window: Window, now: int)
    requires warden.WellFormed() && request.amount > 0 && s.nextId < U64_MAX && ReachesStore(warden, s, request, window, now)
    ensures
      var p := Find(warden.policies, request.key).value;
      var made := ReserveBudget(warden, s, request, window, now);
      && made.result.Ok? && !made.result.value.NoPolicy?
      && var usage := made.result.value.usage;
      && usage.policyName == p.name && usage.key == request.key
      && usage.used == Held(made.state, p, request.key, window)
      && usage.hardLimit == p.hardLimit && usage.window == window
      && usage.safeToSpendNow == Evaluate(p, usage.used, 0, request.priority, window, now).safeToSpendNow
      && usage.aheadOfPace == Evaluate(p, usage.used, 0, request.priority, window, now).aheadOfPace
  {
    var out := ReserveCleaned(CleanedLedger(s, now), Submitted(warden, s, request, window, now));
    SubmittedAnswer(warden, s, request, window, now);
    MadeByStore(warden, s, request, window, now);
    SubmittedUsage(warden, s, request, window, now);
    DecisionShows(Find(warden.policies, request.key).value, request, window, now, out.result.value);
  }

  /**
   * `reserve` reports the budget, limit and window, and the counter as its store call left it. An allowed request is
   * told what is left below the limit it was held to.
   */
  lemma ReserveShows(warden: Warden, s: Ledger, request: Request, window: Window, now: int)
    requires warden.WellFormed() && request.amount > 0 && s.nextId < U64_MAX
    requires Find(warden.policies, request.key).Some? && Find(warden.policies, request.key).value.unit == request.unit
    ensures
      var p := Find(warden.policies, request.key).value;
      var made := ReserveBudget(warden, s, request, window, now);
      && made.result.Ok? && !made.result.value.NoPolicy?
      && var usage := made.result.value.usage;
      && usage.policyName == p.name && usage.key == request.key
      && usage.used == Held(made.state, p, request.key, window)
      && usage.hardLimit == p.hardLimit && usage.window == window
      && (Allows(made.result) && p.hardLimit < U64_MAX ==>
            usage.safeToSpendNow == LimitFor(p, request.priority, window, now) - usage.used && !usage.aheadOfPace)
  {
    if ReachesStore(warden, s, request, window, now) {
      ReachedShows(warden, s, request, window, now);
      if Find(warden.policies, request.key).value.hardLimit < U64_MAX
         && Allows(ReserveBudget(warden, s, request, window, now).result) {
        AllowedLeaves(warden, s, request, window, now);
      }
    } else {
      Refused(warden, s, request, window, now);
      AuthorizeShows(warden, s, request, window, now);
    }
  }

  lemma AllowedLeaves(warden: Warden, s: Ledger, request: Request, window: Window, now: int)
    requires warden.WellFormed() && request.amount > 0 && s.nextId < U64_MAX && ReachesStore(warden, s, request, window, now)
    requires Allows(ReserveBudget(warden, s, request, window, now).result)
    requires Find(warden.policies, request.key).value.hardLimit < U64_MAX
    ensures
      var p := Find(warden.policies, request.key).value;
      var used := ReserveBudget(warden, s, request, window, now).result.value.usage.used;
      var e := Evaluate(p, used, 0, request.priority, window, now);
      e.safeToSpendNow == LimitFor(p, request.priority, window, now) - used && !e.aheadOfPace
  {
    var p := Find(warden.policies, request.key).value;
    var before := Usage(CleanedLedger(s, now).books, CounterOf(p, request.key, window)).Used();
    var used := ReserveBudget(warden, s, request, window, now).result.value.usage.used;
    FindSelects(warden.policies, request.key);
    ReachedUsage(warden, s, request, window, now);
    AllowedExactly(p, before, request.amount, request.priority, window, now);
    assert used == before || used == before + request.amount;
    PassedLeaves(p, before, request.amount, request.priority, window, now, used);
  }

  /**
   * With no ids left the store fails a fresh request that passed evaluation. A policy that fails open lets it pass all
   * the same, on a preview good for one second that no ledger knows; any other policy gives the store's error.
   */
  lemma FailsOpenExactly(warden: Warden, s: Ledger, request: Request, window: Window, now: int)
    requires warden.WellFormed() && request.amount > 0 && s.nextId == U64_MAX && ReachesStore(warden, s, request, window, now)
    requires KeyFree(warden, s, request, window)
    ensures
      var p := Find(warden.policies, request.key).value;
      var made := ReserveBudget(warden, s, request, window, now);
      && made.state == CleanedLedger(s, now)
      && (Allows(made.result) <==> p.failOpen)
      && (!p.failOpen ==> made.result == Err(StoreFailed(Other("reservation id overflow"))))
      && (p.failOpen ==>
            && made.result.value.reservation == Handle(0, request.amount, now + 1_000_000_000)
            && var usage := made.result.value.usage;
               usage.policyName == p.name && usage.key == request.key && usage.used == 0
               && usage.hardLimit == p.hardLimit && usage.window == window
               && (p.hardLimit < U64_MAX ==> usage.safeToSpendNow == LimitFor(p, request.priority, window, now)))
  {
    var p := Find(warden.policies, request.key).value;
    var used := Usage(CleanedLedger(s, now).books, CounterOf(p, request.key, window)).Used();
    FindSelects(warden.policies, request.key);
    if p.hardLimit < U64_MAX {
      UnusedLeaves(p, used, request.amount, request.priority, window, now);
    }
    SubmittedFails(warden, s, request, window, now);
    MadeByStore(warden, s, request, window, now);
  }

  lemma SubmittedFails(warden: Warden, s: Ledger, request: Request, window: Window, now: int)
    requires warden.WellFormed() && request.amount > 0 && s.nextId == U64_MAX && ReachesStore(warden, s, request, window, now)
    requires KeyFree(warden, s, request, window)
    ensures
      var req := Submitted(warden, s, request, window, now);
      req.Validate().Ok?
      && ReserveCleaned(CleanedLedger(s, now), req) == Outcome(CleanedLedger(s, now), Err(Other("reservation id overflow")))
  {
    var p := Find(warden.policies, request.key).value;
    var used := Usage(CleanedLedger(s, now).books, CounterOf(p, request.key, window)).Used();
    FindSelects(warden.policies, request.key);
    EffectiveLimitCovers(p, used, request.amount, request.priority, window, now);
  }

  // ---------------------------------------------------------------- usage

  /** A usage query reports the budget, limit and window, and the counter, on a store that is cleaned and no more. */
  lemma QueryShows(warden: Warden, s: Ledger, key: BudgetKey, window: Window, now: int)
    requires warden.WellFormed() && Find(warden.policies, key).Some?
    ensures
      var p := Find(warden.policies, key).value;
      var seen := QueryUsage(warden, s, key, window, now);
      && seen.state == CleanedLedger(s, now) && seen.result.Ok?
      && var usage := seen.result.value;
      && usage.policyName == p.name && usage.key == key && usage.used == Held(seen.state, p, key, window)
      && usage.hardLimit == p.hardLimit && usage.window == window
      && usage.safeToSpendNow == SafeToSpend(p, usage.used, window, now)
      && usage.reservedRemaining == Evaluate(p, usage.used, 0, Normal, window, now).reservedRemaining
      && (usage.aheadOfPace <==> Evaluate(p, usage.used, 0, Normal, window, now).denial == Some(AheadOfBudgetPace))
  {
    var p := Find(warden.policies, key).value;
    FindSelects(warden.policies, key);
    AheadIsDenied(p, Held(CleanedLedger(s, now), p, key, window), 0, Normal, window, now);
  }

  /** Requests that the number is about: of the policy's unit, for something, at normal priority. */
  predicate Ordinary(p: Policy, request: Request, key: BudgetKey) {
    request.key == key && request.unit == p.unit && request.amount > 0 && request.priority == Normal
  }

  lemma AuthorizeAfterQuery(warden: Warden, s: Ledger, request: Request, window: Window, now: int)
    requires Find(warden.policies, request.key).Some? && Find(warden.policies, request.key).value.unit == request.unit
    ensures
      var p := Find(warden.policies, request.key).value;
      var seen := QueryUsage(warden, s, request.key, window, now);
      && seen.result.Ok?
      && (Allows(AuthorizeBudget(warden, seen.state, request, window, now).result)
          <==> Allowed(p, seen.result.value.used, request.amount, request.priority, window, now))
  {
    CleanupIdempotent(s.books, now, now);
    assert CleanedLedger(CleanedLedger(s, now), now) == CleanedLedger(s, now);
  }

  ghost predicate QueryAnswers(warden: Warden, p: Policy, key: BudgetKey) {
    forall s: Ledger, request: Request, window: Window, now: int :: Ordinary(p, request, key) ==>
      var seen := QueryUsage(warden, s, key, window, now);
      seen.result.Ok?
      && (Allows(AuthorizeBudget(warden, seen.state, request, window, now).result)
          <==> request.amount <= seen.result.value.safeToSpendNow)
  }

  /** So the number a usage query reports answers every ordinary request exactly for the policies listed. */
  lemma QueryAnswersExactly(warden: Warden, p: Policy, key: BudgetKey)
    requires warden.WellFormed() && Find(warden.policies, key) == Some(p)
    ensures QueryAnswers(warden, p, key) <==> ReportsExactly(p)
  {
    FindSelects(warden.policies, key);
    if ReportsExactly(p) {
      forall s: Ledger, request: Request, window: Window, now: int | Ordinary(p, request, key)
        ensures
          var seen := QueryUsage(warden, s, key, window, now);
          seen.result.Ok?
          && (Allows(AuthorizeBudget(warden, seen.state, request, window, now).result)
              <==> request.amount <= seen.result.value.safeToSpendNow)
      {
        QueryShows(warden, s, key, window, now);
        AuthorizeAfterQuery(warden, s, request, window, now);
        SafeToSpendSound(p, QueryUsage(warden, s, key, window, now).result.value.used, request.amount, window, now);
      }
    } else {
      var used, amount, window, now := SafeToSpendMisleads(p);
      var s := WithUsed(p, key, used, window);
      var request := Request(key, p.unit, amount, Normal, None);
      UsedIsSeen(warden, p, key, used, window, now);
      QueryShows(warden, s, key, window, now);
      AuthorizeAfterQuery(warden, s, request, window, now);
    }
  }

  /** A ledger with that much committed under one counter. */
  function WithUsed(p: Policy, key: BudgetKey, used: u64, window: Window): Ledger {
    Ledger(Books(map[CounterOf(p, key, window) := Counter(used, 0)], map[]), map[], 0)
  }

  lemma UsedIsSeen(warden: Warden, p: Policy, key: BudgetKey, used: u64, window: Window, now: int)
    requires Find(warden.policies, key) == Some(p)
    ensures QueryUsage(warden, WithUsed(p, key, used, window), key, window, now).result.value.used == used
  {
    var s := WithUsed(p, key, used, window);
    assert DueIds(s.books.records, now) == {};
    ExpireNone(s.books);
  }

  /** Nothing above the number is allowed, for the policies that stop normal requests short of `u64::MAX`. */
  lemma QueryBounds(warden: Warden, s: Ledger, request: Request, window: Window, now: int)
    requires warden.WellFormed() && Find(warden.policies, request.key).Some?
    requires Ordinary(Find(warden.policies, request.key).value, request, request.key)
    requires StopsShort(Find(warden.policies, request.key).value)
    ensures
      var seen := QueryUsage(warden, s, request.key, window, now);
      && seen.result.Ok?
      && (Allows(AuthorizeBudget(warden, seen.state, request, window, now).result) ==>
            request.amount <= seen.result.value.safeToSpendNow)
  {
    var p := Find(warden.policies, request.key).value;
    var seen := QueryUsage(warden, s, request.key, window, now);
    FindSelects(warden.policies, request.key);
    QueryShows(warden, s, request.key, window, now);
    AuthorizeAfterQuery(warden, s, request, window, now);
    if Allows(AuthorizeBudget(warden, seen.state, request, window, now).result) {
      AllowedWithinReport(p, seen.result.value.used, request.amount, window, now);
    }
  }
}
