/** What the broker protocol promises over Redis, and exactly up to which hard limits and for which policies. */
module RedisGuarantees {
  import opened Prelude
  import opened Doubles
  import opened Contract
  import opened Accounts
  import opened Policies
  import opened Pacing
  import opened Broker
  import opened Spending
  import opened Redis
  import opened RedisRuns
  import opened RedisProtocol
  import opened RedisCrowds

  // ---------------------------------------------------------------- pacing and the emergency reserve

  /** Under every interleaving of scripts, live units granted below critical stay within the pace, from then on. */
  lemma PacingHolds(warden: Warden, start: int, events: seq<Event>, p: Policy, key: CounterKey, t: int)
    requires warden.WellFormed() && Governed(warden, key, p) && p.strategy.PreserveForWindow? && p.hardLimit < TWO_53
    requires Play(warden, Start(start), events).clock <= t
    ensures
      Outstanding(ViewOf(Play(warden, Start(start), events)), key, Critical)
      <= Min(p.hardLimit - p.hardLimit * p.strategy.emergencyReservePercent / 100,
             p.hardLimit * (if t < key.window.start then 0 else (t - key.window.start) / 1_000_000)
             / (if key.window.end - key.window.start < 1_000_000 then 1 else (key.window.end - key.window.start) / 1_000_000)
             + p.hardLimit * p.strategy.maxSpendAheadPercent / 100)
  {
    PlayGoverned(warden, start, events, p, key);
    PacedFormula(warden, ViewOf(Play(warden, Start(start), events)), key, p, t);
  }

  /** A critical request under a pacing policy that fits the reserve still free. */
  ghost predicate FitsReserve(warden: Warden, w: Stage, p: Policy, request: Request, window: Window, now: int) {
    && Find(warden.policies, request.key) == Some(p)
    && p.strategy.PreserveForWindow? && request.priority.Critical? && Asks(warden, w, request, window, now)
    && request.amount + OutstandingFrom(ViewOf(w), CounterOf(p, request.key, window), Critical) <= EmergencyReserve(p)
  }

  lemma AskLeavesPending(warden: Warden, w: Stage, caller: nat, p: Policy, request: Request, window: Window, now: int)
    requires Asks(warden, w, request, window, now) && Find(warden.policies, request.key) == Some(p)
    requires Allowed(p, Seen(w.keys.books, CounterOf(p, request.key, window)).Used(), request.amount, request.priority, window, now)
    ensures caller in AskStep(warden, w, caller, request, window, now).pending
  {
  }

  lemma CriticalEvaluation(p: Policy, used: u64, amount: u64, window: Window, now: int)
    requires p.strategy.PreserveForWindow? && used + amount <= p.hardLimit
    ensures Allowed(p, used, amount, Critical, window, now)
  {
  }

  lemma CriticalAsk(warden: Warden, w: Stage, caller: nat, p: Policy, request: Request, window: Window, now: int)
    requires warden.WellFormed() && p.hardLimit < TWO_53 && FitsReserve(warden, w, p, request, window, now)
    requires StageInv(warden, w, CounterOf(p, request.key, window))
    ensures caller in AskStep(warden, w, caller, request, window, now).pending
  {
    var key := CounterOf(p, request.key, window);
    assert Governed(warden, key, p) by { FindSelects(warden.policies, request.key); }
    ReserveLeftOver(warden, ViewOf(w), key, p, request.amount);
    SeenExactly(w.keys.books, key);
    CriticalEvaluation(p, Seen(w.keys.books, key).Used(), request.amount, window, now);
    AskLeavesPending(warden, w, caller, p, request, window, now);
  }

  /** Under any interleaving, a critical request the emergency reserve covers passes its evaluation... */
  lemma CriticalPasses(warden: Warden, start: int, events: seq<Event>, caller: nat, p: Policy, request: Request, window: Window, now: int)
    requires warden.WellFormed() && p.hardLimit < TWO_53
    requires FitsReserve(warden, Play(warden, Start(start), events), p, request, window, now)
    ensures caller in Act(warden, Play(warden, Start(start), events), Ask(caller, request, window, now)).pending
  {
    FindSelects(warden.policies, request.key);
    PlayGoverned(warden, start, events, p, CounterOf(p, request.key, window));
    CriticalAsk(warden, Play(warden, Start(start), events), caller, p, request, window, now);
  }

  /** A pending critical request that fits the reserve still free and does not replay a live key. */
  ghost predicate CoveredByReserve(warden: Warden, w: Stage, caller: nat) {
    && caller in w.pending
    && var asked := w.pending[caller];
       && asked.policy.strategy.PreserveForWindow? && asked.request.priority.Critical? && asked.policy.hardLimit < TWO_53
       && asked.request.amount + OutstandingFrom(ViewOf(w), asked.Target(), Critical) <= EmergencyReserve(asked.policy)
       && !ReplaysLive(w.keys, asked.Target(), ScriptName(asked.request.idempotencyKey))
  }

  lemma CriticalLimit(asked: Pending)
    requires asked.policy.strategy.PreserveForWindow? && asked.request.priority.Critical? && asked.Evaluation().denial.None?
    ensures asked.Evaluation().effectiveLimit == asked.policy.hardLimit
  {
  }

  lemma FitsIsGranted(s: Keyspace, asked: Pending, ttl: int)
    requires Valid(s) && InUse(s.books, asked.Target()) < TWO_53 && asked.Evaluation().effectiveLimit < TWO_53
    requires asked.request.amount > 0 && asked.Evaluation().effectiveLimit <= asked.policy.hardLimit && ttl > 0
    requires InUse(s.books, asked.Target()) + asked.request.amount <= asked.Evaluation().effectiveLimit
    requires !ReplaysLive(s, asked.Target(), ScriptName(asked.request.idempotencyKey))
    ensures GrantsFresh(s, asked.Submission(ttl))
    ensures Reserving(s, asked.Submission(ttl)).sequence == s.sequence + 1
    ensures Double(asked.request.amount) == asked.request.amount
  {
    var req := asked.Submission(ttl);
    var t := Unpinned(s, req.Target(), ScriptName(req.idempotencyKey));
    GuardExactly(t, req.Target(), req.amount, req.effectiveLimit);
    DoubleExact(req.amount);
  }

  lemma CoveredIsGranted(warden: Warden, w: Stage, caller: nat)
    requires warden.WellFormed() && CoveredByReserve(warden, w, caller) && StageInv(warden, w, w.pending[caller].Target())
    ensures
      var asked := w.pending[caller];
      && GrantsFresh(w.keys, asked.Submission(warden.ttl))
      && Reserving(w.keys, asked.Submission(warden.ttl)).sequence == w.keys.sequence + 1
      && Double(asked.request.amount) == asked.request.amount
  {
    var asked := w.pending[caller];
    assert PendingOk(warden, w.clock, asked);
    assert Governed(warden, asked.Target(), asked.policy) by { FindSelects(warden.policies, asked.request.key); }
    ReserveLeftOver(warden, ViewOf(w), asked.Target(), asked.policy, asked.request.amount);
    CriticalLimit(asked);
    FitsIsGranted(w.keys, asked, warden.ttl);
  }

  lemma GrantedRecord(s: Keyspace, asked: Pending, ttl: int)
    requires Valid(s) && GrantsFresh(s, asked.Submission(ttl))
    ensures
      var t := Reserving(s, asked.Submission(ttl));
      t.sequence in t.books.records && t.books.records[t.sequence] == MadeRecord(asked, ttl)
  {
  }

  lemma CoveredRecord(warden: Warden, w: Stage, caller: nat)
    requires warden.WellFormed() && CoveredByReserve(warden, w, caller) && StageInv(warden, w, w.pending[caller].Target())
    ensures
      var t := Act(warden, w, Submit(caller)).keys;
      var req := w.pending[caller].Submission(warden.ttl);
      && t.sequence == w.keys.sequence + 1
      && t.sequence in t.books.records
      && t.books.records[t.sequence] == Record(req.Target(), req.amount, Timestamp(req.ExpiresAt()), Active)
  {
    CoveredIsGranted(warden, w, caller);
    SubmitCases(warden, w, caller);
    GrantedRecord(w.keys, w.pending[caller], warden.ttl);
  }

  lemma PendingGoverned(warden: Warden, w: Stage, caller: nat)
    requires warden.WellFormed() && AllPendingOk(warden, ViewOf(w)) && caller in w.pending
    ensures Governed(warden, w.pending[caller].Target(), w.pending[caller].policy)
  {
    assert PendingOk(warden, w.clock, w.pending[caller]);
    FindSelects(warden.policies, w.pending[caller].request.key);
  }

  /** ...and, however stale that evaluation has become, the reserve script grants it on the next id. */
  lemma CriticalGranted(warden: Warden, start: int, events: seq<Event>, caller: nat)
    requires warden.WellFormed() && CoveredByReserve(warden, Play(warden, Start(start), events), caller)
    ensures
      var w := Play(warden, Start(start), events);
      var t := Act(warden, w, Submit(caller)).keys;
      var req := w.pending[caller].Submission(warden.ttl);
      && t.sequence == w.keys.sequence + 1
      && t.sequence in t.books.records
      && t.books.records[t.sequence] == Record(req.Target(), req.amount, Timestamp(req.ExpiresAt()), Active)
  {
    var w := Play(warden, Start(start), events);
    EmptyValid();
    PlayPending(warden, Start(start), events);
    PendingGoverned(warden, w, caller);
    PlayGoverned(warden, start, events, w.pending[caller].policy, w.pending[caller].Target());
    CoveredRecord(warden, w, caller);
  }

  // ---------------------------------------------------------------- the hard limit, exactly

  /** The units of one policy's counters stay within its hard limit over every run. */
  ghost predicate AlwaysWithin(warden: Warden, p: Policy) {
    forall start, events, key :: Governed(warden, key, p) ==> WithinLimitAt(Play(warden, Start(start), events), key, p.hardLimit)
  }

  ghost predicate WithinLimitAt(w: Stage, key: CounterKey, limit: nat) {
    Sum(w.keys.books.records, key, Committed) + Sum(w.keys.books.records, key, Active) <= limit
  }

  /** Critical callers, whom every policy evaluates to its hard limit. */
  function CriticalCrowd(p: Policy, key: BudgetKey): Crowd {
    Crowd(p, key, Critical, p.hardLimit)
  }

  lemma EverythingPasses(p: Policy, key: BudgetKey, amount: nat)
    requires p.Valid() && 0 < amount <= TWO_53 <= p.hardLimit
    ensures Passing(CriticalCrowd(p, key), amount)
  {
  }

  lemma {:induction false} OverrunPasses(p: Policy, key: BudgetKey, amounts: seq<nat>, used: nat)
    requires p.Valid() && TWO_53 <= p.hardLimit && AllPass(used, amounts, p.hardLimit)
    ensures AllPassing(CriticalCrowd(p, key), amounts)
    decreases |amounts|
  {
    if amounts != [] {
      OverrunPasses(p, key, amounts[1..], used + amounts[0]);
      EverythingPasses(p, key, amounts[0]);
    }
  }

  /** Critical callers that all ask before any submits get one unit more than a hard limit from 2^53 on. */
  lemma OverrunWitness(warden: Warden, p: Policy, key: BudgetKey) returns (events: seq<Event>)
    requires warden.WellFormed() && Find(warden.policies, key) == Some(p) && TWO_53 <= p.hardLimit < I64_MAX
    ensures !WithinLimitAt(Play(warden, Start(INSTANT), events), CounterOf(p, key, WINDOW), p.hardLimit)
  {
    FindSelects(warden.policies, key);
    var amounts := Overrun(p.hardLimit);
    OverrunPasses(p, key, amounts, 0);
    events := AskThenSubmit(warden, CriticalCrowd(p, key), amounts, Background);
  }

  /** For hard limits below the largest of the backend's integers: they hold under every interleaving exactly when below 2^53. */
  lemma HardLimitExact(warden: Warden, p: Policy, key: BudgetKey)
    requires warden.WellFormed() && Find(warden.policies, key) == Some(p) && p.hardLimit < I64_MAX
    ensures AlwaysWithin(warden, p) <==> p.hardLimit < TWO_53
  {
    FindSelects(warden.policies, key);
    if p.hardLimit < TWO_53 {
      forall start, events, counter | Governed(warden, counter, p)
        ensures WithinLimitAt(Play(warden, Start(start), events), counter, p.hardLimit)
      {
        PlayGoverned(warden, start, events, p, counter);
      }
    } else {
      var events := OverrunWitness(warden, p, key);
      assert Governed(warden, CounterOf(p, key, WINDOW), p);
    }
  }

  // ---------------------------------------------------------------- capacity kept for higher priorities

  /** Only a submit can raise what is outstanding. */
  lemma OtherKept(warden: Warden, w: Stage, e: Event, p: Policy, key: CounterKey)
    requires StageInv(warden, w, key) && KeptAt(ViewOf(w), p, key) && !e.Submit?
    ensures KeptAt(ViewOf(Act(warden, w, e)), p, key)
  {
    match e {
      case Tick(to) =>
      case Clean(seconds, order) =>
        SweepFrees(w.keys, order, key);
        FreedOutstanding(ViewOf(w), Sweep(w.keys, order).books, key, Level(p));
      case Ask(caller, request, window, now) =>
        assert Outstanding(ViewOf(Act(warden, w, e)), key, Level(p)) == Outstanding(ViewOf(w), key, Level(p));
      case Settle(id, commit, seconds) =>
        FinishFrees(w.keys, id, commit, seconds, key);
        FreedOutstanding(ViewOf(w), Finish(w.keys, id, commit, seconds).state.books, key, Level(p));
    }
  }

  /** The caller was evaluated on the usage there still is, or there is no room below the level at all. */
  predicate CurrentOrShut(w: Stage, caller: nat, p: Policy, key: CounterKey)
    requires caller in w.pending
  {
    || w.pending[caller].Target() != key
    || Cap(p) == 0
    || w.pending[caller].used == InUse(w.keys.books, key)
  }

  lemma GrantKept(warden: Warden, w: Stage, asked: Pending, p: Policy, key: CounterKey)
    requires warden.WellFormed() && StageInv(warden, w, key) && PendingOk(warden, w.clock, asked)
    requires Governed(warden, key, p) && p.hardLimit < TWO_53 && KeptAt(ViewOf(w), p, key)
    requires GrantsFresh(w.keys, asked.Submission(warden.ttl))
    requires asked.Target() == key && Cap(p) != 0 ==> asked.used == InUse(w.keys.books, key)
    ensures KeptAt(ViewOf(GrantedStage(w, asked, warden.ttl)), p, key)
  {
    var t := Reserving(w.keys, asked.Submission(warden.ttl));
    if asked.Target() == key {
      GovernedBounded(warden, key, p);
      LimitBounded(warden, w.clock, asked, key);
    }
    GrantMakes(w.keys, asked, warden.ttl, key);
    MadeKept(warden, ViewOf(w), t.books, t.sequence, MadeRecord(asked, warden.ttl), asked, p, key);
  }

  lemma SubmitKept(warden: Warden, w: Stage, caller: nat, p: Policy, key: CounterKey)
    requires warden.WellFormed() && StageInv(warden, w, key) && KeptAt(ViewOf(w), p, key)
    requires Governed(warden, key, p) && p.hardLimit < TWO_53
    requires caller in w.pending && CurrentOrShut(w, caller, p, key)
    ensures KeptAt(ViewOf(SubmitStep(warden, w, caller)), p, key)
  {
    var asked := w.pending[caller];
    var ready := w.(pending := w.pending - {caller});
    assert PendingOk(warden, w.clock, asked);
    SubmitCases(warden, w, caller);
    ReadyInv(warden, w, caller, key);
    assert Outstanding(ViewOf(ready), key, Level(p)) == Outstanding(ViewOf(w), key, Level(p));
    if GrantsFresh(w.keys, asked.Submission(warden.ttl)) {
      GrantKept(warden, ready, asked, p, key);
    }
  }

  // ---------------------------------------------------------------- without interleaving

  /** A whole broker call is its four scripts with nothing in between, the first cleanup walking all that is in range. */
  datatype Call =
    | Whole(request: Request, window: Window, now: int, first: seq<nat>, second: seq<nat>)
    | Between(event: Event)

  ghost predicate Idle(warden: Warden, w: Stage, p: Policy, key: CounterKey) {
    StageInv(warden, w, key) && w.pending == map[] && KeptAt(ViewOf(w), p, key)
  }

  function CallStep(warden: Warden, w: Stage, call: Call): Stage {
    match call
    case Whole(request, window, now, first, second) =>
      var seconds := Timestamp(now);
      if !Lists(first, InRange(w.keys, seconds)) then w
      else
        Act(warden, Act(warden, Act(warden, Act(warden, w, Clean(seconds, first)), Ask(0, request, window, now)),
                        Clean(seconds, second)), Submit(0))
    case Between(e) => if e.Ask? || e.Submit? then w else Act(warden, w, e)
  }

  function CallRun(warden: Warden, w: Stage, calls: seq<Call>): Stage
    decreases |calls|
  {
    if calls == [] then w else CallRun(warden, CallStep(warden, w, calls[0]), calls[1..])
  }

  /** Nothing is in range of a second cleanup at the same instant, which therefore changes nothing. */
  lemma SecondCleanup(s: Keyspace, seconds: int, first: seq<nat>, second: seq<nat>)
    requires Lists(first, InRange(s, seconds))
    ensures CleanupBy(Sweep(s, first), seconds, second) == Sweep(s, first)
  {
    SweepRemoves(s, first);
    assert InRange(Sweep(s, first), seconds) == {};
    if Lists(second, {}) && second != [] {
      ListsSome(second, {});
      assert false;
    }
  }

  lemma ListsSome(order: seq<nat>, ids: set<nat>)
    requires Lists(order, ids) && order != []
    ensures ids != {}
  {
    assert order[0] in ids;
  }

  lemma {:induction false} SweepRemoves(s: Keyspace, order: seq<nat>)
    ensures Sweep(s, order).expirations == s.expirations - (set id | id in order)
    decreases |order|
  {
    if order == [] {
      assert s.expirations - {} == s.expirations;
    } else {
      SweepRemoves(SweepOne(s, order[0]), order[1..]);
      assert (set id | id in order) == {order[0]} + (set id | id in order[1..]);
      RemoveBoth(s.expirations, {order[0]}, set id | id in order[1..]);
    }
  }

  lemma RemoveBoth(members: map<nat, int>, a: set<nat>, b: set<nat>)
    ensures members - a - b == members - (a + b)
  {
  }

  lemma AskCurrent(warden: Warden, w: Stage, request: Request, window: Window, now: int, p: Policy, key: CounterKey)
    requires Tallies(w.keys.books, key) && InUse(w.keys.books, key) < TWO_53 && w.pending == map[]
    requires 0 in AskStep(warden, w, 0, request, window, now).pending
    ensures CurrentOrShut(AskStep(warden, w, 0, request, window, now), 0, p, key)
  {
    SeenExactly(w.keys.books, key);
  }

  lemma AskedAlone(warden: Warden, w: Stage, request: Request, window: Window, now: int)
    requires w.pending == map[]
    ensures AskStep(warden, w, 0, request, window, now).pending.Keys <= {0}
    ensures AskStep(warden, w, 0, request, window, now).keys == w.keys
  {
  }

  lemma SubmittedAlone(warden: Warden, w: Stage)
    requires w.pending.Keys <= {0}
    ensures SubmitStep(warden, w, 0).pending == map[]
  {
    assert w.pending - {0} == map[];
  }

  lemma SubmitAfterAsk(warden: Warden, w: Stage, request: Request, window: Window, now: int, p: Policy, key: CounterKey)
    requires warden.WellFormed() && Governed(warden, key, p) && p.hardLimit < TWO_53 && Idle(warden, w, p, key)
    ensures Idle(warden, SubmitStep(warden, AskStep(warden, w, 0, request, window, now), 0), p, key)
  {
    var v := AskStep(warden, w, 0, request, window, now);
    GovernedBounded(warden, key, p);
    AskInv(warden, w, 0, request, window, now, key);
    OtherKept(warden, w, Ask(0, request, window, now), p, key);
    AskedAlone(warden, w, request, window, now);
    SubmittedAlone(warden, v);
    SubmitInv(warden, v, 0, key);
    if 0 in v.pending {
      AskCurrent(warden, w, request, window, now, p, key);
      SubmitKept(warden, v, 0, p, key);
    }
  }

  lemma CleanIdle(warden: Warden, w: Stage, seconds: int, order: seq<nat>, p: Policy, key: CounterKey)
    requires warden.WellFormed() && Governed(warden, key, p) && p.hardLimit < TWO_53 && Idle(warden, w, p, key)
    ensures Idle(warden, Act(warden, w, Clean(seconds, order)), p, key)
  {
    GovernedBounded(warden, key, p);
    ActInv(warden, w, Clean(seconds, order), key);
    OtherKept(warden, w, Clean(seconds, order), p, key);
  }

  lemma WholeKeeps(warden: Warden, w: Stage, call: Call, p: Policy, key: CounterKey)
    requires warden.WellFormed() && Governed(warden, key, p) && p.hardLimit < TWO_53 && Idle(warden, w, p, key)
    requires call.Whole? && Lists(call.first, InRange(w.keys, Timestamp(call.now)))
    ensures Idle(warden, CallStep(warden, w, call), p, key)
  {
    var seconds := Timestamp(call.now);
    var u := Act(warden, w, Clean(seconds, call.first));
    CleanIdle(warden, w, seconds, call.first, p, key);
    AskedAlone(warden, u, call.request, call.window, call.now);
    SecondCleanup(w.keys, seconds, call.first, call.second);
    SubmitAfterAsk(warden, u, call.request, call.window, call.now, p, key);
  }

  lemma CallKeeps(warden: Warden, w: Stage, call: Call, p: Policy, key: CounterKey)
    requires warden.WellFormed() && Governed(warden, key, p) && p.hardLimit < TWO_53 && Idle(warden, w, p, key)
    ensures Idle(warden, CallStep(warden, w, call), p, key)
  {
    match call {
      case Whole(_, _, now, first, _) =>
        if Lists(first, InRange(w.keys, Timestamp(now))) {
          WholeKeeps(warden, w, call, p, key);
        }
      case Between(e) =>
        if !e.Ask? && !e.Submit? {
          GovernedBounded(warden, key, p);
          ActInv(warden, w, e, key);
          OtherKept(warden, w, e, p, key);
        }
    }
  }

  lemma {:induction false} CallRunKeeps(warden: Warden, w: Stage, calls: seq<Call>, p: Policy, key: CounterKey)
    requires warden.WellFormed() && Governed(warden, key, p) && p.hardLimit < TWO_53 && Idle(warden, w, p, key)
    ensures Idle(warden, CallRun(warden, w, calls), p, key)
    decreases |calls|
  {
    if calls != [] {
      CallKeeps(warden, w, calls[0], p, key);
      CallRunKeeps(warden, CallStep(warden, w, calls[0]), calls[1..], p, key);
    }
  }

  /** Over every run of whole calls, reserved capacity and minimum remaining units hold for every bounded policy. */
  lemma SequentialIsolation(warden: Warden, start: int, calls: seq<Call>, p: Policy, key: CounterKey)
    requires warden.WellFormed() && Governed(warden, key, p) && p.hardLimit < TWO_53
    ensures KeptAt(ViewOf(CallRun(warden, Start(start), calls)), p, key)
  {
    StartInv(warden, start, key);
    CallRunKeeps(warden, Start(start), calls, p, key);
  }

  // ---------------------------------------------------------------- with interleaving, exactly

  lemma ZeroCapAct(warden: Warden, w: Stage, e: Event, p: Policy, key: CounterKey)
    requires warden.WellFormed() && StageInv(warden, w, key) && KeptAt(ViewOf(w), p, key)
    requires Governed(warden, key, p) && p.hardLimit < TWO_53 && Cap(p) == 0
    ensures KeptAt(ViewOf(Act(warden, w, e)), p, key)
  {
    if e.Submit? {
      if e.caller in w.pending {
        SubmitKept(warden, w, e.caller, p, key);
      }
    } else {
      OtherKept(warden, w, e, p, key);
    }
  }

  lemma {:induction false} ZeroCapPlay(warden: Warden, w: Stage, events: seq<Event>, p: Policy, key: CounterKey)
    requires warden.WellFormed() && StageInv(warden, w, key) && KeptAt(ViewOf(w), p, key)
    requires Governed(warden, key, p) && p.hardLimit < TWO_53 && Cap(p) == 0
    ensures KeptAt(ViewOf(Play(warden, w, events)), p, key)
    decreases |events|
  {
    if events != [] {
      GovernedBounded(warden, key, p);
      ActInv(warden, w, events[0], key);
      ZeroCapAct(warden, w, events[0], p, key);
      ZeroCapPlay(warden, Act(warden, w, events[0]), events[1..], p, key);
    }
  }

  lemma IsolatedHolds(warden: Warden, start: int, events: seq<Event>, p: Policy, key: CounterKey)
    requires warden.WellFormed() && Governed(warden, key, p) && p.hardLimit < TWO_53 && Isolated(p)
    ensures KeptAt(ViewOf(Play(warden, Start(start), events)), p, key)
  {
    if Cap(p) == 0 {
      StartInv(warden, start, key);
      ZeroCapPlay(warden, Start(start), events, p, key);
    } else {
      PlayGoverned(warden, start, events, p, key);
      IsolatedKept(warden, ViewOf(Play(warden, Start(start), events)), p, key);
    }
  }

  lemma TwoPass(a: nat, b: nat, limit: nat)
    requires 0 < a && 0 < b && a + b <= limit < TWO_53
    ensures AllPass(0, [a, b], limit) && Units([a, b]) == a + b
  {
    DoubleExact(0);
    DoubleExact(a);
    PassesExactly(0, a, limit);
    PassesExactly(a, b, limit);
    assert [a, b][1..] == [b] && [b][1..] == [];
    assert AllPass(a + b, [], limit);
    assert AllPass(a, [b], limit);
    assert Units([b]) == b;
  }

  lemma TwoPassing(c: Crowd, a: nat, b: nat)
    requires Passing(c, a) && Passing(c, b)
    ensures AllPassing(c, [a, b])
  {
    assert [a, b][1..] == [b] && [b][1..] == [];
    assert AllPassing(c, [b]);
  }

  /** Two background callers ask before either submits and together pass the cap by one unit. */
  lemma InterleavingWitness(warden: Warden, p: Policy, key: BudgetKey) returns (events: seq<Event>)
    requires warden.WellFormed() && Find(warden.policies, key) == Some(p) && p.hardLimit < TWO_53 && !Isolated(p)
    ensures Outstanding(ViewOf(Play(warden, Start(INSTANT), events)), CounterOf(p, key, WINDOW), Level(p)) == Cap(p) + 1
  {
    FindSelects(warden.policies, key);
    NotIsolatedCap(p);
    NotIsolatedAllows(p, Cap(p));
    NotIsolatedAllows(p, 1);
    EffectiveLimitCovers(p, 0, Cap(p), Background, WINDOW, INSTANT);
    EffectiveLimitCovers(p, 0, 1, Background, WINDOW, INSTANT);
    var crowd := Crowd(p, key, Background, Evaluate(p, 0, 1, Background, WINDOW, INSTANT).effectiveLimit);
    assert Passing(crowd, Cap(p)) && Passing(crowd, 1);
    TwoPassing(crowd, Cap(p), 1);
    TwoPass(Cap(p), 1, crowd.limit);
    events := AskThenSubmit(warden, crowd, [Cap(p), 1], Level(p));
  }

  ghost predicate AlwaysKept(warden: Warden, p: Policy) {
    forall start, events, key :: Governed(warden, key, p) ==> KeptAt(ViewOf(Play(warden, Start(start), events)), p, key)
  }

  /** Kept capacity survives every interleaving of scripts exactly for the isolated policies. */
  lemma IsolationExact(warden: Warden, p: Policy, key: BudgetKey)
    requires warden.WellFormed() && Find(warden.policies, key) == Some(p) && p.hardLimit < TWO_53
    ensures AlwaysKept(warden, p) <==> Isolated(p)
  {
    FindSelects(warden.policies, key);
    if Isolated(p) {
      forall start, events, counter | Governed(warden, counter, p)
        ensures KeptAt(ViewOf(Play(warden, Start(start), events)), p, counter)
      {
        IsolatedHolds(warden, start, events, p, counter);
      }
    } else {
      var events := InterleavingWitness(warden, p, key);
      assert Governed(warden, CounterOf(p, key, WINDOW), p);
      assert !KeptAt(ViewOf(Play(warden, Start(INSTANT), events)), p, CounterOf(p, key, WINDOW));
    }
  }
}
