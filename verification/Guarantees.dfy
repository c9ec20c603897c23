/** What the broker protocol promises over whole runs, and exactly which policies it promises it for. */
module Guarantees {
  import opened Prelude
  import opened Totals
  import opened Contract
  import opened Accounts
  import opened Memory
  import opened LedgerRuns
  import opened Policies
  import opened Pacing
  import opened Broker
  import opened Spending
  import opened Protocol

  // ---------------------------------------------------------------- pacing and the emergency reserve

  /**
   * Pacing over whole interleaved runs: at the end of any run and at every later instant, the live units granted
   * below critical stay within the emergency-reserve cap and within the pace of the window.
   */
  lemma PacingHolds(warden: Warden, start: int, events: seq<Event>, p: Policy, key: CounterKey, t: int)
    requires warden.WellFormed() && Governed(warden, key, p) && p.strategy.PreserveForWindow? && p.hardLimit < U64_MAX
    requires Play(warden, Start(start), events).clock <= t
    ensures
      Outstanding(ViewOf(Play(warden, Start(start), events)), key, Critical)
      <= Min(p.hardLimit - p.hardLimit * p.strategy.emergencyReservePercent / 100,
             p.hardLimit * (if t < key.window.start then 0 else (t - key.window.start) / 1_000_000)
             / (if key.window.end - key.window.start < 1_000_000 then 1 else (key.window.end - key.window.start) / 1_000_000)
             + p.hardLimit * p.strategy.maxSpendAheadPercent / 100)
  {
    PlayGoverned(warden, start, events, p, key);
    PacedFormula(warden, ViewOf(Play(warden, Start(start), events)), key, p, t);
  }

  /** The same room is left on the books a caller's own cleanup leaves. */
  lemma CleanedLeftOver(warden: Warden, w: World, key: CounterKey, p: Policy, amount: nat, now: int)
    requires warden.WellFormed() && Inv(warden, w, key) && Governed(warden, key, p) && p.strategy.PreserveForWindow?
    requires amount + OutstandingFrom(ViewOf(w), key, Critical) <= EmergencyReserve(p)
    ensures InUse(CleanedLedger(w.store, now).books, key) + amount <= p.hardLimit
  {
    var books := CleanedLedger(w.store, now).books;
    CleanupFrees(w.store, now, key);
    FreedInv(warden, ViewOf(w), books, key);
    FreedOutstanding(ViewOf(w), books, key, Critical);
    ReserveLeftOver(warden, ViewOf(w).(books := books), key, p, amount);
  }

  /** A critical request under a pacing policy, asked no later than the clock, that fits the reserve still free. */
  ghost predicate FitsReserve(warden: Warden, w: World, p: Policy, request: Request, window: Window, now: int) {
    && Find(warden.policies, request.key) == Some(p)
    && p.strategy.PreserveForWindow? && request.priority.Critical? && Reads(warden, w, request, window, now)
    && request.amount + OutstandingFrom(ViewOf(w), CounterOf(p, request.key, window), Critical) <= EmergencyReserve(p)
  }

  lemma CriticalEvaluation(p: Policy, used: u64, amount: u64, window: Window, now: int)
    requires p.strategy.PreserveForWindow? && used + amount <= p.hardLimit
    ensures Allowed(p, used, amount, Critical, window, now)
  {
  }

  /** A read that the evaluation of a critical request passes on leaves its caller pending. */
  lemma AskLeavesPending(warden: Warden, w: World, caller: nat, p: Policy, request: Request, window: Window, now: int)
    requires Reads(warden, w, request, window, now) && Find(warden.policies, request.key) == Some(p)
    requires
      var used := Usage(CleanedLedger(w.store, now).books, CounterOf(p, request.key, window)).Used();
      Allowed(p, used, request.amount, request.priority, window, now)
    ensures caller in AskStep(warden, w, caller, request, window, now).pending
  {
  }

  lemma CriticalAsk(warden: Warden, w: World, caller: nat, p: Policy, request: Request, window: Window, now: int)
    requires warden.WellFormed() && p.hardLimit < U64_MAX && FitsReserve(warden, w, p, request, window, now)
    requires Inv(warden, w, CounterOf(p, request.key, window))
    ensures caller in AskStep(warden, w, caller, request, window, now).pending
  {
    var key := CounterOf(p, request.key, window);
    assert Governed(warden, key, p) by { FindSelects(warden.policies, request.key); }
    CleanedLeftOver(warden, w, key, p, request.amount, now);
    CriticalEvaluation(p, Usage(CleanedLedger(w.store, now).books, key).Used(), request.amount, window, now);
    AskLeavesPending(warden, w, caller, p, request, window, now);
  }

  /** Under any interleaving, a critical request the emergency reserve covers passes its evaluation... */
  lemma CriticalPasses(warden: Warden, start: int, events: seq<Event>, caller: nat, p: Policy, request: Request, window: Window, now: int)
    requires warden.WellFormed() && p.hardLimit < U64_MAX
    requires FitsReserve(warden, Play(warden, Start(start), events), p, request, window, now)
    ensures caller in Step(warden, Play(warden, Start(start), events), Ask(caller, request, window, now)).pending
  {
    FindSelects(warden.policies, request.key);
    PlayGoverned(warden, start, events, p, CounterOf(p, request.key, window));
    CriticalAsk(warden, Play(warden, Start(start), events), caller, p, request, window, now);
  }

  /** The caller's request fits the reserve still free, under an unused idempotency key and with ids left. */
  ghost predicate CoveredByReserve(warden: Warden, w: World, caller: nat) {
    && caller in w.pending
    && var asked := w.pending[caller];
       && asked.policy.strategy.PreserveForWindow? && asked.request.priority.Critical? && asked.policy.hardLimit < U64_MAX
       && asked.request.amount + OutstandingFrom(ViewOf(w), asked.Target(), Critical) <= EmergencyReserve(asked.policy)
       && !Replays(w.store, asked.Submission(warden.ttl)) && w.store.nextId < U64_MAX
  }

  lemma CriticalFits(c: Ledger, asked: Pending, ttl: int)
    requires asked.policy.strategy.PreserveForWindow? && asked.request.priority.Critical? && asked.policy.hardLimit < U64_MAX
    requires asked.Evaluation().denial.None?
    requires InUse(c.books, asked.Target()) + asked.request.amount <= asked.policy.hardLimit
    ensures Fits(c.books, asked.Submission(ttl))
  {
  }

  lemma CoveredFits(warden: Warden, w: World, caller: nat)
    requires warden.WellFormed() && CoveredByReserve(warden, w, caller) && Inv(warden, w, w.pending[caller].Target())
    ensures GrantsFresh(ReadyWorld(w, caller).store, w.pending[caller].Submission(warden.ttl))
  {
    var asked := w.pending[caller];
    assert PendingOk(warden, w.clock, asked);
    assert Governed(warden, asked.Target(), asked.policy) by { FindSelects(warden.policies, asked.request.key); }
    CleanedLeftOver(warden, w, asked.Target(), asked.policy, asked.request.amount, asked.now);
    CriticalFits(CleanedLedger(w.store, asked.now), asked, warden.ttl);
  }

  lemma CoveredIsGranted(warden: Warden, w: World, caller: nat)
    requires warden.WellFormed() && CoveredByReserve(warden, w, caller) && Inv(warden, w, w.pending[caller].Target())
    ensures SubmitStep(warden, w, caller) == GrantedWorld(ReadyWorld(w, caller), w.pending[caller], warden.ttl)
  {
    assert PendingOk(warden, w.clock, w.pending[caller]);
    SubmissionValid(warden, w.clock, w.pending[caller]);
    SubmitCases(warden, w, caller);
    CoveredFits(warden, w, caller);
  }

  /** Callers are pending with evaluations that passed, whatever the limits in play. */
  lemma {:induction false} PlayPending(warden: Warden, w: World, events: seq<Event>)
    requires AllPendingOk(warden, ViewOf(w))
    ensures AllPendingOk(warden, ViewOf(Play(warden, w, events)))
    decreases |events|
  {
    if events != [] {
      StepPending(warden, w, events[0]);
      PlayPending(warden, Step(warden, w, events[0]), events[1..]);
    }
  }

  lemma StepPending(warden: Warden, w: World, e: Event)
    requires AllPendingOk(warden, ViewOf(w))
    ensures AllPendingOk(warden, ViewOf(Step(warden, w, e)))
  {
    var v := Step(warden, w, e);
    if e.Ask? && Reads(warden, w, e.request, e.window, e.now) {
      AskPending(warden, w, e.caller, e.request, e.window, e.now);
    } else {
      forall c | c in v.pending
        ensures PendingOk(warden, v.clock, v.pending[c])
      {
        assert PendingOk(warden, w.clock, w.pending[c]);
      }
    }
  }

  lemma PendingGoverned(warden: Warden, w: World, caller: nat)
    requires warden.WellFormed() && AllPendingOk(warden, ViewOf(w)) && caller in w.pending
    ensures Governed(warden, w.pending[caller].Target(), w.pending[caller].policy)
  {
    assert PendingOk(warden, w.clock, w.pending[caller]);
    FindSelects(warden.policies, w.pending[caller].request.key);
  }

  lemma GrantedRecord(w: World, asked: Pending, ttl: int)
    ensures
      var t := GrantedWorld(w, asked, ttl).store;
      && t.nextId == w.store.nextId + 1 && t.nextId in t.books.records
      && t.books.records[t.nextId] == MadeRecord(asked, ttl)
  {
  }

  lemma CoveredRecord(warden: Warden, w: World, caller: nat)
    requires warden.WellFormed() && CoveredByReserve(warden, w, caller) && Inv(warden, w, w.pending[caller].Target())
    ensures
      var after := SubmitStep(warden, w, caller).store;
      && after.nextId == w.store.nextId + 1
      && after.nextId in after.books.records
      && after.books.records[after.nextId] == MadeRecord(w.pending[caller], warden.ttl)
  {
    CoveredIsGranted(warden, w, caller);
    GrantedRecord(ReadyWorld(w, caller), w.pending[caller], warden.ttl);
  }

  lemma CoveredInv(warden: Warden, start: int, events: seq<Event>, caller: nat)
    requires warden.WellFormed() && CoveredByReserve(warden, Play(warden, Start(start), events), caller)
    ensures
      var w := Play(warden, Start(start), events);
      Inv(warden, w, w.pending[caller].Target())
  {
    var w := Play(warden, Start(start), events);
    PlayPending(warden, Start(start), events);
    PendingGoverned(warden, w, caller);
    PlayGoverned(warden, start, events, w.pending[caller].policy, w.pending[caller].Target());
  }

  /** ...and, however stale that evaluation has become, the store grants it on the next id. */
  lemma CriticalGranted(warden: Warden, start: int, events: seq<Event>, caller: nat)
    requires warden.WellFormed() && CoveredByReserve(warden, Play(warden, Start(start), events), caller)
    ensures
      var w := Play(warden, Start(start), events);
      var after := Step(warden, w, Submit(caller)).store;
      && after.nextId == w.store.nextId + 1
      && after.nextId in after.books.records
      && after.books.records[after.nextId] == MadeRecord(w.pending[caller], warden.ttl)
  {
    CoveredInv(warden, start, events, caller);
    CoveredRecord(warden, Play(warden, Start(start), events), caller);
  }

  // ---------------------------------------------------------------- whole calls on a ledger with nothing due

  ghost predicate NothingDue(s: Ledger, now: int) {
    DueIds(s.books.records, now) == {}
  }

  lemma NothingDueClean(s: Ledger, now: int)
    requires NothingDue(s, now)
    ensures CleanedLedger(s, now) == s
  {
    ExpireNone(s.books);
  }

  /** A request as it is evaluated on the usage there is. */
  function AskedNow(w: World, p: Policy, request: Request, window: Window): Pending {
    Pending(p, request, window, Usage(w.store.books, CounterOf(p, request.key, window)).Used(), w.clock)
  }

  /** Evaluated on the spot, the request passes; it carries no idempotency key. */
  ghost predicate PassesNow(warden: Warden, w: World, p: Policy, request: Request, window: Window) {
    && Find(warden.policies, request.key) == Some(p) && Reads(warden, w, request, window, w.clock)
    && NothingDue(w.store, w.clock) && request.idempotencyKey.None?
    && AskedNow(w, p, request, window).Evaluation().denial.None?
  }

  lemma AskPasses(warden: Warden, w: World, caller: nat, p: Policy, request: Request, window: Window)
    requires PassesNow(warden, w, p, request, window)
    ensures Step(warden, w, Ask(caller, request, window, w.clock))
         == w.(pending := w.pending[caller := AskedNow(w, p, request, window)])
    ensures PendingOk(warden, w.clock, AskedNow(w, p, request, window))
  {
    NothingDueClean(w.store, w.clock);
  }

  lemma SubmitGrants(warden: Warden, w: World, caller: nat)
    requires warden.WellFormed() && caller in w.pending && PendingOk(warden, w.clock, w.pending[caller])
    requires NothingDue(w.store, w.pending[caller].now) && w.pending[caller].request.idempotencyKey.None?
    requires Fits(w.store.books, w.pending[caller].Submission(warden.ttl)) && w.store.nextId < U64_MAX
    ensures Step(warden, w, Submit(caller))
         == GrantedWorld(w.(pending := w.pending - {caller}), w.pending[caller], warden.ttl)
    ensures NothingDue(Step(warden, w, Submit(caller)).store, w.pending[caller].now)
  {
    var asked := w.pending[caller];
    NothingDueClean(w.store, asked.now);
    SubmissionValid(warden, w.clock, asked);
    SubmitCases(warden, w, caller);
    GrantNotDue(w.store.books, CleanedLedger(w.store, asked.now), asked.Submission(warden.ttl));
  }

  /** Nobody is pending and nothing due, at the instant witness runs play. */
  ghost predicate Ready(w: World) {
    && w.clock == INSTANT && w.pending == map[] && NothingDue(w.store, INSTANT)
    && Shaped(w.store) && w.priority.Keys == w.store.books.records.Keys
  }

  lemma StartReady()
    ensures Ready(Start(INSTANT))
  {
    EmptyTidy(CounterKey(PROBE_KEY, WINDOW));
  }

  /** A whole broker call at that instant. */
  function CallOf(request: Request): seq<Event> {
    [Ask(0, request, WINDOW, INSTANT), Submit(0)]
  }

  /** `v` is `w` after `asked` was granted. */
  ghost predicate Called(w: World, v: World, asked: Pending, ttl: int) {
    && Ready(v)
    && v.store.nextId == w.store.nextId + 1
    && v.store.books.records == w.store.books.records[v.store.nextId := MadeRecord(asked, ttl)]
    && v.priority == w.priority[v.store.nextId := asked.request.priority]
    && Usage(v.store.books, asked.Target())
       == Counter(Usage(w.store.books, asked.Target()).committed,
                  SatAdd(Usage(w.store.books, asked.Target()).reserved, asked.request.amount))
  }

  lemma SubmitAlone(warden: Warden, w: World, asked: Pending)
    requires warden.WellFormed() && Ready(w) && PendingOk(warden, INSTANT, asked) && asked.now == INSTANT
    requires asked.request.idempotencyKey.None? && Fits(w.store.books, asked.Submission(warden.ttl)) && w.store.nextId < U64_MAX
    ensures Step(warden, w.(pending := map[0 := asked]), Submit(0)) == GrantedWorld(w, asked, warden.ttl)
    ensures NothingDue(GrantedWorld(w, asked, warden.ttl).store, INSTANT)
  {
    var v := w.(pending := map[0 := asked]);
    SubmitGrants(warden, v, 0);
    assert map[0 := asked] - {0} == map[];
    assert v.(pending := v.pending - {0}) == w;
  }

  /** A whole call that passes is granted. */
  lemma CallGrants(warden: Warden, w: World, p: Policy, request: Request)
    requires warden.WellFormed() && PassesNow(warden, w, p, request, WINDOW)
    requires Ready(w) && w.store.nextId < U64_MAX
    ensures Play(warden, w, CallOf(request)) == GrantedWorld(w, AskedNow(w, p, request, WINDOW), warden.ttl)
    ensures NothingDue(GrantedWorld(w, AskedNow(w, p, request, WINDOW), warden.ttl).store, INSTANT)
  {
    var asked := AskedNow(w, p, request, WINDOW);
    assert Fits(w.store.books, asked.Submission(warden.ttl)) by {
      FindSelects(warden.policies, request.key);
      StoreGrants(w.store, p, request, warden.ttl, WINDOW, INSTANT);
    }
    AskPasses(warden, w, 0, p, request, WINDOW);
    SubmitAlone(warden, w, asked);
    PlayTwo(warden, w, Ask(0, request, WINDOW, INSTANT), Submit(0));
  }

  lemma GrantedIsCalled(w: World, asked: Pending, ttl: int)
    requires Ready(w) && NothingDue(GrantedWorld(w, asked, ttl).store, INSTANT)
    requires GrantsFresh(w.store, asked.Submission(ttl))
    ensures Called(w, GrantedWorld(w, asked, ttl), asked, ttl)
  {
    ReserveCleanedShaped(w.store, asked.Submission(ttl));
  }

  lemma CallMakes(warden: Warden, w: World, p: Policy, request: Request)
    requires warden.WellFormed() && PassesNow(warden, w, p, request, WINDOW)
    requires Ready(w) && w.store.nextId < U64_MAX
    ensures Called(w, Play(warden, w, CallOf(request)), AskedNow(w, p, request, WINDOW), warden.ttl)
  {
    FindSelects(warden.policies, request.key);
    StoreGrants(w.store, p, request, warden.ttl, WINDOW, INSTANT);
    CallGrants(warden, w, p, request);
    GrantedIsCalled(w, AskedNow(w, p, request, WINDOW), warden.ttl);
  }

  lemma CalledSums(w: World, v: World, asked: Pending, ttl: int)
    requires Shaped(w.store) && Called(w, v, asked, ttl)
    ensures Sum(v.store.books.records, asked.Target(), Active)
         == Sum(w.store.books.records, asked.Target(), Active) + asked.request.amount
  {
    TotalUpdate(w.store.books.records, Held(asked.Target(), Active), v.store.nextId, MadeRecord(asked, ttl));
  }

  lemma CalledOutstanding(w: World, v: World, asked: Pending, ttl: int, level: Priority)
    requires Ready(w) && Called(w, v, asked, ttl)
    ensures Outstanding(ViewOf(v), asked.Target(), level)
         == Outstanding(ViewOf(w), asked.Target(), level) + if asked.request.priority.Below(level) then asked.request.amount else 0
  {
    HeldAfterGrant(w.store.books.records, v.store.nextId, MadeRecord(asked, ttl), w.priority, asked.request.priority,
                   asked.Target(), level);
  }

  // ---------------------------------------------------------------- the hard limit, exactly

  /** The counter tells the truth about the ledger and the hard limit is not exceeded. */
  ghost predicate Faithful(warden: Warden, s: Ledger, key: CounterKey) {
    Tallies(s.books, key) && WithinHardLimit(warden, s.books, key)
  }

  function EverythingCall(p: Policy, key: BudgetKey): Request {
    Request(key, p.unit, U64_MAX, Critical, None)
  }

  /** At a hard limit of `u64::MAX` a critical call for everything passes whatever is in use. */
  lemma EverythingPasses(warden: Warden, w: World, p: Policy, key: BudgetKey)
    requires warden.WellFormed() && Find(warden.policies, key) == Some(p) && p.hardLimit == U64_MAX && Ready(w)
    ensures PassesNow(warden, w, p, EverythingCall(p, key), WINDOW)
  {
  }

  /** With a hard limit of `u64::MAX`, two critical callers after each other are both granted the whole budget. */
  lemma UnboundedWitness(warden: Warden, p: Policy, key: BudgetKey) returns (events: seq<Event>)
    requires warden.WellFormed() && Find(warden.policies, key) == Some(p) && p.hardLimit == U64_MAX
    ensures !Tallies(Play(warden, Start(INSTANT), events).store.books, CounterOf(p, key, WINDOW))
  {
    var request := EverythingCall(p, key);
    var w0 := Start(INSTANT);
    StartReady();
    EverythingPasses(warden, w0, p, key);
    CallMakes(warden, w0, p, request);
    var w1 := Play(warden, w0, CallOf(request));
    EverythingPasses(warden, w1, p, key);
    CallMakes(warden, w1, p, request);
    var w2 := Play(warden, w1, CallOf(request));
    CalledSums(w0, w1, AskedNow(w0, p, request, WINDOW), warden.ttl);
    CalledSums(w1, w2, AskedNow(w1, p, request, WINDOW), warden.ttl);
    PlayAppend(warden, w0, CallOf(request), CallOf(request));
    events := CallOf(request) + CallOf(request);
  }

  lemma BoundedFaithful(warden: Warden, start: int, events: seq<Event>, key: CounterKey)
    requires warden.WellFormed() && Bounded(warden, key)
    ensures Faithful(warden, Play(warden, Start(start), events).store, key)
  {
    StartInv(warden, start, key);
    PlayInv(warden, Start(start), events, key);
  }

  /** The counters of one policy are faithful over every run. */
  ghost predicate AlwaysFaithful(warden: Warden, p: Policy) {
    forall start, events, key :: Governed(warden, key, p) ==> Faithful(warden, Play(warden, Start(start), events).store, key)
  }

  /**
   * Under every interleaving of asks, submits, settlements, queries and clock ticks the counters of a policy equal the
   * ledger sums and stay within its hard limit, exactly when that is below `u64::MAX` or the policy governs no key.
   */
  lemma HardLimitExact(warden: Warden, p: Policy)
    requires warden.WellFormed() && p in warden.policies
    ensures AlwaysFaithful(warden, p) <==> p.hardLimit < U64_MAX || !Findable(warden, p)
  {
    if p.hardLimit < U64_MAX || !Findable(warden, p) {
      forall start, events, key | Governed(warden, key, p)
        ensures Faithful(warden, Play(warden, Start(start), events).store, key)
      {
        forall q: Policy | Governed(warden, key, q) && Findable(warden, q)
          ensures q.hardLimit < U64_MAX
        {
          NameIdentifies(warden.policies, p, q);
        }
        BoundedFaithful(warden, start, events, key);
      }
    } else {
      var key :| Find(warden.policies, key) == Some(p);
      var events := UnboundedWitness(warden, p, key);
      assert Governed(warden, CounterOf(p, key, WINDOW), p);
      assert !Faithful(warden, Play(warden, Start(INSTANT), events).store, CounterOf(p, key, WINDOW));
    }
  }

  ghost predicate AllFaithful(warden: Warden) {
    forall start, events, key :: Faithful(warden, Play(warden, Start(start), events).store, key)
  }

  ghost predicate AllBounded(warden: Warden) {
    forall p :: p in warden.policies && Findable(warden, p) ==> p.hardLimit < U64_MAX
  }

  /** So all counters are faithful over every run exactly when every policy that governs a key is bounded. */
  lemma AllFaithfulExactly(warden: Warden)
    requires warden.WellFormed()
    ensures AllFaithful(warden) <==> AllBounded(warden)
  {
    if AllBounded(warden) {
      forall start, events, key
        ensures Faithful(warden, Play(warden, Start(start), events).store, key)
      {
        BoundedFaithful(warden, start, events, key);
      }
    } else {
      var p :| p in warden.policies && Findable(warden, p) && p.hardLimit == U64_MAX;
      HardLimitExact(warden, p);
    }
  }

  // ---------------------------------------------------------------- pacing, exactly

  /** Pacing holds for the counters of one policy over every run. */
  ghost predicate AlwaysPaced(warden: Warden, p: Policy)
    requires p.strategy.PreserveForWindow?
  {
    forall start, events, key :: Governed(warden, key, p) ==>
      Outstanding(ViewOf(Play(warden, Start(start), events)), key, Critical)
      <= PacedLimit(p, key.window, Play(warden, Start(start), events).clock)
  }

  /** Nothing is outstanding below critical, saturated or not. */
  ghost predicate ShutInv(warden: Warden, w: World, key: CounterKey) {
    && Shaped(w.store) && w.priority.Keys == w.store.books.records.Keys
    && AllPendingOk(warden, ViewOf(w)) && Outstanding(ViewOf(w), key, Critical) == 0
  }

  lemma ShutStore(warden: Warden, w: World, store: Ledger, key: CounterKey)
    requires ShutInv(warden, w, key) && Shaped(store)
    requires store.books.records.Keys == w.store.books.records.Keys && RecordsAdvance(w.store.books.records, store.books.records)
    ensures ShutInv(warden, w.(store := store), key)
  {
    HeldFalls(w.store.books.records, store.books.records, key, w.priority, Critical);
    forall c | c in w.pending
      ensures PendingOk(warden, w.clock, w.pending[c])
    {
    }
  }

  lemma ShutCleaned(warden: Warden, w: World, now: int, key: CounterKey)
    requires ShutInv(warden, w, key)
    ensures ShutInv(warden, w.(store := CleanedLedger(w.store, now)), key)
  {
    CleanupShaped(w.store, now);
    CleanupAdvances(w.store.books, now);
    ShutStore(warden, w, CleanedLedger(w.store, now), key);
  }

  lemma FinishKeepsRecords(c: Ledger, id: nat, commit: bool)
    requires Shaped(c)
    ensures
      var t := FinishCleaned(c, id, commit).state;
      && Shaped(t) && t.books.records.Keys == c.books.records.Keys && RecordsAdvance(c.books.records, t.books.records)
  {
    FinishCleanedShaped(c, id, commit);
  }

  lemma ShutFinished(warden: Warden, w: World, id: nat, commit: bool, at: int, key: CounterKey)
    requires ShutInv(warden, w, key)
    ensures ShutInv(warden, w.(store := Finish(w.store, id, commit, at).state), key)
  {
    var u := w.(store := CleanedLedger(w.store, at));
    ShutCleaned(warden, w, at, key);
    FinishKeepsRecords(u.store, id, commit);
    ShutStore(warden, u, FinishCleaned(u.store, id, commit).state, key);
  }

  /** A policy whose emergency reserve is the whole limit lets only critical requests pass. */
  lemma OnlyCriticalPass(p: Policy, used: u64, amount: u64, priority: Priority, window: Window, now: int)
    requires p.Valid() && p.strategy.PreserveForWindow? && EmergencyReserve(p) == p.hardLimit && amount > 0
    requires Allowed(p, used, amount, priority, window, now)
    ensures priority.Critical?
  {
    PacedWithin(p, window, now);
    EffectiveLimitCovers(p, used, amount, priority, window, now);
  }

  lemma ShutAsker(warden: Warden, clock: int, asked: Pending, p: Policy, key: CounterKey)
    requires warden.WellFormed() && PendingOk(warden, clock, asked) && asked.Target() == key
    requires Governed(warden, key, p) && p.strategy.PreserveForWindow? && EmergencyReserve(p) == p.hardLimit
    ensures asked.request.priority.Critical?
  {
    FindSelects(warden.policies, asked.request.key);
    NameIdentifies(warden.policies, p, asked.policy);
    OnlyCriticalPass(p, asked.used, asked.request.amount, asked.request.priority, asked.window, asked.now);
  }

  lemma GrantedShape(w: World, asked: Pending, ttl: int)
    requires Shaped(w.store) && GrantsFresh(w.store, asked.Submission(ttl))
    ensures
      var v := GrantedWorld(w, asked, ttl);
      && Shaped(v.store) && v.store.nextId !in w.store.books.records
      && v.store.books.records == w.store.books.records[v.store.nextId := MadeRecord(asked, ttl)]
      && v.priority == w.priority[v.store.nextId := asked.request.priority]
  {
    ReserveCleanedShaped(w.store, asked.Submission(ttl));
  }

  lemma ShutGranted(warden: Warden, w: World, asked: Pending, key: CounterKey)
    requires ShutInv(warden, w, key) && GrantsFresh(w.store, asked.Submission(warden.ttl))
    requires asked.Target() == key ==> asked.request.priority.Critical?
    ensures ShutInv(warden, GrantedWorld(w, asked, warden.ttl), key)
  {
    var v := GrantedWorld(w, asked, warden.ttl);
    GrantedShape(w, asked, warden.ttl);
    HeldAfterGrant(w.store.books.records, v.store.nextId, MadeRecord(asked, warden.ttl), w.priority, asked.request.priority, key, Critical);
    assert AllPendingOk(warden, ViewOf(v)) by {
      forall c | c in v.pending
        ensures PendingOk(warden, v.clock, v.pending[c])
      {
        assert PendingOk(warden, w.clock, w.pending[c]);
      }
    }
  }

  lemma ShutSubmitted(warden: Warden, w: World, caller: nat, p: Policy, key: CounterKey)
    requires warden.WellFormed() && ShutInv(warden, w, key) && caller in w.pending
    requires Governed(warden, key, p) && p.strategy.PreserveForWindow? && EmergencyReserve(p) == p.hardLimit
    ensures ShutInv(warden, SubmitStep(warden, w, caller), key)
  {
    var asked := w.pending[caller];
    assert PendingOk(warden, w.clock, asked);
    SubmissionValid(warden, w.clock, asked);
    SubmitCases(warden, w, caller);
    ShutCleaned(warden, w, asked.now, key);
    ShutPending(warden, w.(store := CleanedLedger(w.store, asked.now)), w.pending - {caller}, key);
    if GrantsFresh(ReadyWorld(w, caller).store, asked.Submission(warden.ttl)) {
      if asked.Target() == key {
        ShutAsker(warden, w.clock, asked, p, key);
      }
      ShutGranted(warden, ReadyWorld(w, caller), asked, key);
    }
  }

  lemma ShutPending(warden: Warden, w: World, pending: map<nat, Pending>, key: CounterKey)
    requires ShutInv(warden, w, key) && forall c :: c in pending ==> PendingOk(warden, w.clock, pending[c])
    ensures ShutInv(warden, w.(pending := pending), key)
  {
    assert Outstanding(ViewOf(w.(pending := pending)), key, Critical) == Outstanding(ViewOf(w), key, Critical);
  }

  lemma ShutStep(warden: Warden, w: World, e: Event, p: Policy, key: CounterKey)
    requires warden.WellFormed() && ShutInv(warden, w, key)
    requires Governed(warden, key, p) && p.strategy.PreserveForWindow? && EmergencyReserve(p) == p.hardLimit
    ensures ShutInv(warden, Step(warden, w, e), key)
  {
    StepPending(warden, w, e);
    match e {
      case Tick(to) =>
      case Ask(caller, request, window, now) =>
        if Reads(warden, w, request, window, now) {
          AskPending(warden, w, caller, request, window, now);
          ShutCleaned(warden, w, now, key);
          ShutPending(warden, w.(store := CleanedLedger(w.store, now)), AskStep(warden, w, caller, request, window, now).pending, key);
        }
      case Submit(caller) =>
        if caller in w.pending {
          ShutSubmitted(warden, w, caller, p, key);
        }
      case Settle(id, commit, at) => ShutFinished(warden, w, id, commit, at, key);
      case Query(counter, at) => ShutCleaned(warden, w, at, key);
    }
  }

  lemma {:induction false} ShutPlay(warden: Warden, w: World, events: seq<Event>, p: Policy, key: CounterKey)
    requires warden.WellFormed() && ShutInv(warden, w, key)
    requires Governed(warden, key, p) && p.strategy.PreserveForWindow? && EmergencyReserve(p) == p.hardLimit
    ensures ShutInv(warden, Play(warden, w, events), key)
    decreases |events|
  {
    if events != [] {
      ShutStep(warden, w, events[0], p, key);
      ShutPlay(warden, Step(warden, w, events[0]), events[1..], p, key);
    }
  }

  // -- the run that outpaces a limit of `u64::MAX`

  function NormalCall(p: Policy, key: BudgetKey): Request
    requires p.strategy.PreserveForWindow?
  {
    Request(key, p.unit, NormalUsableLimit(p), Normal, None)
  }

  /** The policies open to it: without a minimum, and with something left beside the emergency reserve. */
  predicate Outpaced(p: Policy) {
    && p.hardLimit == U64_MAX && p.strategy.PreserveForWindow?
    && p.strategy.minimumRemainingUnits.None? && EmergencyReserve(p) < p.hardLimit
  }

  /** A normal call for all that is usable passes on a counter with nothing in use. */
  lemma NormalPasses(warden: Warden, w: World, p: Policy, key: BudgetKey)
    requires warden.WellFormed() && Find(warden.policies, key) == Some(p) && Outpaced(p) && Ready(w)
    requires Usage(w.store.books, CounterOf(p, key, WINDOW)) == EMPTY_COUNTER
    ensures PassesNow(warden, w, p, NormalCall(p, key), WINDOW)
  {
    FindSelects(warden.policies, key);
    PacedLimitAtEnd(p, WINDOW, INSTANT);
  }

  lemma NormalGranted(warden: Warden, w: World, p: Policy, key: BudgetKey)
    requires warden.WellFormed() && Find(warden.policies, key) == Some(p) && Outpaced(p) && Ready(w) && w.store.nextId < U64_MAX
    requires Usage(w.store.books, CounterOf(p, key, WINDOW)) == EMPTY_COUNTER
    ensures
      var v := Play(warden, w, CallOf(NormalCall(p, key)));
      && Ready(v) && v.store.nextId == w.store.nextId + 1
      && Usage(v.store.books, CounterOf(p, key, WINDOW)) == Counter(0, NormalUsableLimit(p))
      && Outstanding(ViewOf(v), CounterOf(p, key, WINDOW), Critical)
         == Outstanding(ViewOf(w), CounterOf(p, key, WINDOW), Critical) + NormalUsableLimit(p)
  {
    var asked := AskedNow(w, p, NormalCall(p, key), WINDOW);
    NormalPasses(warden, w, p, key);
    CallMakes(warden, w, p, NormalCall(p, key));
    CalledOutstanding(w, Play(warden, w, CallOf(NormalCall(p, key))), asked, warden.ttl, Critical);
  }

  /** A critical call for everything saturates the counter: whatever else it held is lost in it. */
  lemma EverythingGranted(warden: Warden, w: World, p: Policy, key: BudgetKey)
    requires warden.WellFormed() && Find(warden.policies, key) == Some(p) && Outpaced(p) && Ready(w) && w.store.nextId < U64_MAX
    requires Usage(w.store.books, CounterOf(p, key, WINDOW)).committed == 0
    ensures
      var counter := CounterOf(p, key, WINDOW);
      var v := Play(warden, w, CallOf(EverythingCall(p, key)));
      && Ready(v) && v.store.nextId == w.store.nextId + 1 && v.store.nextId in v.store.books.records
      && v.store.books.records[v.store.nextId] == Record(counter, U64_MAX, INSTANT + warden.ttl, Active)
      && v.priority[v.store.nextId] == Critical
      && Usage(v.store.books, counter) == Counter(0, U64_MAX)
      && Outstanding(ViewOf(v), counter, Critical) == Outstanding(ViewOf(w), counter, Critical)
  {
    var asked := AskedNow(w, p, EverythingCall(p, key), WINDOW);
    EverythingPasses(warden, w, p, key);
    CallMakes(warden, w, p, EverythingCall(p, key));
    CalledOutstanding(w, Play(warden, w, CallOf(EverythingCall(p, key))), asked, warden.ttl, Critical);
  }

  lemma RefundReady(w: World, id: nat)
    requires Ready(w) && id in w.store.books.records && w.store.books.records[id].status.Active?
    ensures
      var t := FinishCleaned(w.store, id, false).state;
      && Ready(w.(store := t)) && t.nextId == w.store.nextId
      && t.books.records == w.store.books.records[id := w.store.books.records[id].(status := Refunded)]
  {
    FinishCleanedShaped(w.store, id, false);
    var t := FinishCleaned(w.store, id, false).state;
    forall k | k in t.books.records
      ensures !Due(t.books.records[k], INSTANT)
    {
      assert k !in DueIds(w.store.books.records, INSTANT);
    }
    assert DueIds(t.books.records, INSTANT) == {};
  }

  lemma RefundOutstanding(w: World, id: nat, counter: CounterKey)
    requires Ready(w) && id in w.store.books.records && w.store.books.records[id].status.Active? && w.priority[id].Critical?
    ensures
      var v := w.(store := FinishCleaned(w.store, id, false).state);
      Outstanding(ViewOf(v), counter, Critical) == Outstanding(ViewOf(w), counter, Critical)
  {
    RefundReady(w, id);
    TotalUpdate(w.store.books.records, HeldBelow(counter, w.priority, Critical), id, w.store.books.records[id].(status := Refunded));
  }

  /** Refunding it takes everything off the counter. */
  lemma RefundForgets(warden: Warden, w: World, id: nat, counter: CounterKey)
    requires Ready(w) && id in w.store.books.records && w.store.books.records[id].status.Active?
    requires w.store.books.records[id].key == counter && w.store.books.records[id].amount == U64_MAX
    requires w.priority[id].Critical? && Usage(w.store.books, counter) == Counter(0, U64_MAX)
    ensures
      var v := Step(warden, w, Settle(id, false, INSTANT));
      && Ready(v) && v.store.nextId == w.store.nextId && Usage(v.store.books, counter) == EMPTY_COUNTER
      && Outstanding(ViewOf(v), counter, Critical) == Outstanding(ViewOf(w), counter, Critical)
  {
    RefundStep(warden, w, id);
    RefundUsage(w.store, id);
    RefundReady(w, id);
    RefundOutstanding(w, id, counter);
  }

  lemma RefundStep(warden: Warden, w: World, id: nat)
    requires NothingDue(w.store, INSTANT)
    ensures Step(warden, w, Settle(id, false, INSTANT)) == w.(store := FinishCleaned(w.store, id, false).state)
  {
    NothingDueClean(w.store, INSTANT);
  }

  lemma RefundUsage(c: Ledger, id: nat)
    requires Shaped(c) && id in c.books.records && c.books.records[id].status.Active?
    ensures
      var r := c.books.records[id];
      Usage(FinishCleaned(c, id, false).state.books, r.key)
      == Counter(Usage(c.books, r.key).committed, SatSub(Usage(c.books, r.key).reserved, r.amount))
  {
  }

  /** The normal units are outstanding, the critical reservation with id two is about to be refunded. */
  ghost predicate Saturated(w: World, p: Policy, key: BudgetKey)
    requires p.strategy.PreserveForWindow?
  {
    var counter := CounterOf(p, key, WINDOW);
    && Ready(w) && w.store.nextId == 2 && 2 in w.store.books.records && w.store.books.records[2].status.Active?
    && w.store.books.records[2].key == counter && w.store.books.records[2].amount == U64_MAX
    && w.priority[2].Critical? && Usage(w.store.books, counter) == Counter(0, U64_MAX)
    && Outstanding(ViewOf(w), counter, Critical) == NormalUsableLimit(p)
  }

  lemma EverythingSaturates(warden: Warden, w: World, p: Policy, key: BudgetKey)
    requires warden.WellFormed() && Find(warden.policies, key) == Some(p) && Outpaced(p) && Ready(w) && w.store.nextId == 1
    requires Usage(w.store.books, CounterOf(p, key, WINDOW)).committed == 0
    requires Outstanding(ViewOf(w), CounterOf(p, key, WINDOW), Critical) == NormalUsableLimit(p)
    ensures Saturated(Play(warden, w, CallOf(EverythingCall(p, key))), p, key)
  {
    EverythingGranted(warden, w, p, key);
  }

  lemma NormalFirst(warden: Warden, p: Policy, key: BudgetKey)
    requires warden.WellFormed() && Find(warden.policies, key) == Some(p) && Outpaced(p)
    ensures
      var w := Play(warden, Start(INSTANT), CallOf(NormalCall(p, key)));
      && Ready(w) && w.store.nextId == 1
      && Usage(w.store.books, CounterOf(p, key, WINDOW)).committed == 0
      && Outstanding(ViewOf(w), CounterOf(p, key, WINDOW), Critical) == NormalUsableLimit(p)
  {
    StartReady();
    NormalGranted(warden, Start(INSTANT), p, key);
  }

  lemma NormalThenEverything(warden: Warden, p: Policy, key: BudgetKey) returns (events: seq<Event>)
    requires warden.WellFormed() && Find(warden.policies, key) == Some(p) && Outpaced(p)
    ensures Saturated(Play(warden, Start(INSTANT), events), p, key)
  {
    var normal, everything := CallOf(NormalCall(p, key)), CallOf(EverythingCall(p, key));
    NormalFirst(warden, p, key);
    EverythingSaturates(warden, Play(warden, Start(INSTANT), normal), p, key);
    PlayAppend(warden, Start(INSTANT), normal, everything);
    events := normal + everything;
  }

  /** Normal, critical, refund of the critical one: the units of the normal call are outstanding and forgotten. */
  lemma RoundForgets(warden: Warden, p: Policy, key: BudgetKey) returns (events: seq<Event>)
    requires warden.WellFormed() && Find(warden.policies, key) == Some(p) && Outpaced(p)
    ensures
      var v := Play(warden, Start(INSTANT), events);
      && Ready(v) && v.store.nextId == 2 && Usage(v.store.books, CounterOf(p, key, WINDOW)) == EMPTY_COUNTER
      && Outstanding(ViewOf(v), CounterOf(p, key, WINDOW), Critical) == NormalUsableLimit(p)
  {
    var calls := NormalThenEverything(warden, p, key);
    var w := Play(warden, Start(INSTANT), calls);
    RefundForgets(warden, w, 2, CounterOf(p, key, WINDOW));
    PlayOne(warden, w, Settle(2, false, INSTANT));
    PlayAppend(warden, Start(INSTANT), calls, [Settle(2, false, INSTANT)]);
    events := calls + [Settle(2, false, INSTANT)];
  }

  /** The same normal call again: twice what pacing allows is outstanding. */
  lemma OutpacedWitness(warden: Warden, p: Policy, key: BudgetKey) returns (events: seq<Event>)
    requires warden.WellFormed() && Find(warden.policies, key) == Some(p) && Outpaced(p)
    ensures Play(warden, Start(INSTANT), events).clock == INSTANT
    ensures Outstanding(ViewOf(Play(warden, Start(INSTANT), events)), CounterOf(p, key, WINDOW), Critical)
         == 2 * PacedLimit(p, WINDOW, INSTANT)
    ensures PacedLimit(p, WINDOW, INSTANT) > 0
  {
    FindSelects(warden.policies, key);
    PacedLimitAtEnd(p, WINDOW, INSTANT);
    var round := RoundForgets(warden, p, key);
    NormalGranted(warden, Play(warden, Start(INSTANT), round), p, key);
    PlayAppend(warden, Start(INSTANT), round, CallOf(NormalCall(p, key)));
    events := round + CallOf(NormalCall(p, key));
  }

  lemma PlayOne(warden: Warden, w: World, e: Event)
    ensures Play(warden, w, [e]) == Step(warden, w, e)
  {
    assert [e][1..] == [];
  }

  /**
   * For a policy without a minimum, pacing holds over every run exactly when its hard limit is below `u64::MAX` or its
   * emergency reserve is the whole limit.
   */
  lemma PacingExact(warden: Warden, p: Policy, key: BudgetKey)
    requires warden.WellFormed() && Find(warden.policies, key) == Some(p)
    requires p.strategy.PreserveForWindow? && p.strategy.minimumRemainingUnits.None?
    ensures AlwaysPaced(warden, p) <==> p.hardLimit < U64_MAX || EmergencyReserve(p) == p.hardLimit
  {
    FindSelects(warden.policies, key);
    PacedWithin(p, WINDOW, INSTANT);
    if p.hardLimit < U64_MAX {
      BoundedPaced(warden, p);
    } else if EmergencyReserve(p) == p.hardLimit {
      forall start, events, counter | Governed(warden, counter, p)
        ensures Outstanding(ViewOf(Play(warden, Start(start), events)), counter, Critical) == 0
      {
        EmptyTidy(counter);
        ShutPlay(warden, Start(start), events, p, counter);
      }
    } else {
      var events := OutpacedWitness(warden, p, key);
      assert Governed(warden, CounterOf(p, key, WINDOW), p);
    }
  }

  lemma BoundedPaced(warden: Warden, p: Policy)
    requires warden.WellFormed() && p in warden.policies && p.strategy.PreserveForWindow? && p.hardLimit < U64_MAX
    ensures AlwaysPaced(warden, p)
  {
    forall start, events, counter | Governed(warden, counter, p)
      ensures Outstanding(ViewOf(Play(warden, Start(start), events)), counter, Critical)
              <= PacedLimit(p, counter.window, Play(warden, Start(start), events).clock)
    {
      PlayGoverned(warden, start, events, p, counter);
    }
  }

  // ---------------------------------------------------------------- capacity kept for higher priorities

  /** Freeing units leaves the capacity free, whatever becomes of the callers. */
  lemma FreedKept(w: World, v: World, p: Policy, key: CounterKey)
    requires KeptAt(ViewOf(w), p, key) && v.priority == w.priority && Freed(w.store.books, v.store.books, key)
    ensures KeptAt(ViewOf(v), p, key)
  {
    FreedOutstanding(ViewOf(w), v.store.books, key, Level(p));
    assert Outstanding(ViewOf(v), key, Level(p)) == Outstanding(ViewOf(w).(books := v.store.books), key, Level(p));
  }

  lemma AskKept(warden: Warden, w: World, caller: nat, request: Request, window: Window, now: int, p: Policy, key: CounterKey)
    requires Inv(warden, w, key) && KeptAt(ViewOf(w), p, key)
    ensures KeptAt(ViewOf(AskStep(warden, w, caller, request, window, now)), p, key)
  {
    if Reads(warden, w, request, window, now) {
      CleanupFrees(w.store, now, key);
      AskPending(warden, w, caller, request, window, now);
      FreedKept(w, AskStep(warden, w, caller, request, window, now), p, key);
    }
  }

  /** Only a submit can raise what is outstanding. */
  lemma OtherKept(warden: Warden, w: World, e: Event, p: Policy, key: CounterKey)
    requires Inv(warden, w, key) && KeptAt(ViewOf(w), p, key) && !e.Submit?
    ensures KeptAt(ViewOf(Step(warden, w, e)), p, key)
  {
    match e {
      case Tick(to) =>
      case Ask(caller, request, window, now) =>
        AskKept(warden, w, caller, request, window, now, p, key);
      case Settle(id, commit, at) =>
        FinishFrees(w.store, id, commit, at, key);
        FreedKept(w, Step(warden, w, e), p, key);
      case Query(counter, at) =>
        CleanupFrees(w.store, at, key);
        FreedKept(w, Step(warden, w, e), p, key);
    }
  }

  lemma ReadyKept(warden: Warden, w: World, caller: nat, p: Policy, key: CounterKey)
    requires Inv(warden, w, key) && KeptAt(ViewOf(w), p, key) && caller in w.pending
    ensures KeptAt(ViewOf(ReadyWorld(w, caller)), p, key)
  {
    var books := CleanedLedger(w.store, w.pending[caller].now).books;
    CleanupFrees(w.store, w.pending[caller].now, key);
    FreedOutstanding(ViewOf(w), books, key, Level(p));
    assert Outstanding(ViewOf(ReadyWorld(w, caller)), key, Level(p)) == Outstanding(ViewOf(w).(books := books), key, Level(p));
  }

  /** The caller was evaluated on the usage its cleanup leaves, or there is no room below the level at all. */
  ghost predicate CurrentOrShut(w: World, caller: nat, p: Policy, key: CounterKey)
    requires caller in w.pending
  {
    || w.pending[caller].Target() != key
    || Cap(p) == 0
    || w.pending[caller].used == InUse(ReadyWorld(w, caller).store.books, key)
  }

  lemma GrantKept(warden: Warden, w: World, asked: Pending, p: Policy, key: CounterKey)
    requires warden.WellFormed() && Inv(warden, w, key) && PendingOk(warden, w.clock, asked)
    requires Governed(warden, key, p) && p.hardLimit < U64_MAX && KeptAt(ViewOf(w), p, key)
    requires GrantsFresh(w.store, asked.Submission(warden.ttl))
    requires asked.Target() == key && Cap(p) != 0 ==> asked.used == InUse(w.store.books, key)
    ensures KeptAt(ViewOf(GrantedWorld(w, asked, warden.ttl)), p, key)
  {
    var t := GrantedLedger(w.store, asked.Submission(warden.ttl));
    assert Makes(w.store.books, t.books, t.nextId, MadeRecord(asked, warden.ttl), asked.Evaluation().effectiveLimit, key) by {
      GovernedBounded(warden, key, p);
      if asked.Target() == key {
        LimitBounded(warden, w.clock, asked, key);
      }
      GrantMakes(w.store, asked, warden.ttl, key);
    }
    MadeKept(warden, ViewOf(w), t.books, t.nextId, MadeRecord(asked, warden.ttl), asked, p, key);
  }

  lemma SubmitKept(warden: Warden, w: World, caller: nat, p: Policy, key: CounterKey)
    requires warden.WellFormed() && Inv(warden, w, key) && KeptAt(ViewOf(w), p, key)
    requires Governed(warden, key, p) && p.hardLimit < U64_MAX
    requires caller in w.pending && CurrentOrShut(w, caller, p, key)
    ensures KeptAt(ViewOf(SubmitStep(warden, w, caller)), p, key)
  {
    var asked := w.pending[caller];
    assert PendingOk(warden, w.clock, asked);
    SubmissionValid(warden, w.clock, asked);
    SubmitCases(warden, w, caller);
    ReadyInv(warden, w, caller, key);
    ReadyKept(warden, w, caller, p, key);
    if GrantsFresh(ReadyWorld(w, caller).store, asked.Submission(warden.ttl)) {
      GrantKept(warden, ReadyWorld(w, caller), asked, p, key);
    }
  }

  // ---------------------------------------------------------------- without interleaving

  /** `Reserving` is a whole broker call: its two steps with nothing in between. */
  datatype Call =
    | Reserving(request: Request, window: Window, now: int)
    | Between(event: Event)

  ghost function CallStep(warden: Warden, w: World, call: Call): World {
    match call
    case Reserving(request, window, now) =>
      Step(warden, Step(warden, w, Ask(0, request, window, now)), Submit(0))
    case Between(e) => if e.Ask? || e.Submit? then w else Step(warden, w, e)
  }

  ghost function CallRun(warden: Warden, w: World, calls: seq<Call>): World
    decreases |calls|
  {
    if calls == [] then w else CallRun(warden, CallStep(warden, w, calls[0]), calls[1..])
  }

  /** Nobody is between two steps, and the capacity is free. */
  ghost predicate Idle(warden: Warden, w: World, p: Policy, key: CounterKey) {
    Inv(warden, w, key) && w.pending == map[] && KeptAt(ViewOf(w), p, key)
  }

  lemma CleanupTwice(s: Ledger, now: int)
    ensures CleanedLedger(CleanedLedger(s, now), now) == CleanedLedger(s, now)
  {
    CleanupIdempotent(s.books, now, now);
  }

  lemma AskedBy(warden: Warden, w: World, request: Request, window: Window, now: int)
    requires w.pending == map[] && 0 in AskStep(warden, w, 0, request, window, now).pending
    ensures
      var v := AskStep(warden, w, 0, request, window, now);
      && v.store == CleanedLedger(w.store, now)
      && v.pending[0].now == now
      && v.pending[0].used == Usage(v.store.books, v.pending[0].Target()).Used()
  {
  }

  /** A caller that submits right after asking was evaluated on the usage the store still has. */
  lemma AskCurrent(warden: Warden, w: World, request: Request, window: Window, now: int, p: Policy, key: CounterKey)
    requires Tallies(w.store.books, key) && InUse(w.store.books, key) < U64_MAX && w.pending == map[]
    requires 0 in AskStep(warden, w, 0, request, window, now).pending
    ensures CurrentOrShut(AskStep(warden, w, 0, request, window, now), 0, p, key)
  {
    AskedBy(warden, w, request, window, now);
    CleanupTwice(w.store, now);
    CleanupTallies(w.store.books, now, key);
  }

  lemma AskedAlone(warden: Warden, w: World, request: Request, window: Window, now: int)
    requires w.pending == map[]
    ensures AskStep(warden, w, 0, request, window, now).pending.Keys <= {0}
  {
  }

  lemma SubmittedAlone(warden: Warden, w: World)
    requires w.pending.Keys <= {0}
    ensures SubmitStep(warden, w, 0).pending == map[]
  {
    assert w.pending - {0} == map[];
  }

  lemma ReservingKeeps(warden: Warden, w: World, request: Request, window: Window, now: int, p: Policy, key: CounterKey)
    requires warden.WellFormed() && Governed(warden, key, p) && p.hardLimit < U64_MAX && Idle(warden, w, p, key)
    ensures Idle(warden, CallStep(warden, w, Reserving(request, window, now)), p, key)
  {
    var v := Step(warden, w, Ask(0, request, window, now));
    GovernedBounded(warden, key, p);
    StepInv(warden, w, Ask(0, request, window, now), key);
    OtherKept(warden, w, Ask(0, request, window, now), p, key);
    AskedAlone(warden, w, request, window, now);
    SubmittedAlone(warden, v);
    StepInv(warden, v, Submit(0), key);
    if 0 in v.pending {
      AskCurrent(warden, w, request, window, now, p, key);
      SubmitKept(warden, v, 0, p, key);
    }
  }

  lemma CallKeeps(warden: Warden, w: World, call: Call, p: Policy, key: CounterKey)
    requires warden.WellFormed() && Governed(warden, key, p) && p.hardLimit < U64_MAX && Idle(warden, w, p, key)
    ensures Idle(warden, CallStep(warden, w, call), p, key)
  {
    match call {
      case Reserving(request, window, now) => ReservingKeeps(warden, w, request, window, now, p, key);
      case Between(e) =>
        if !e.Ask? && !e.Submit? {
          GovernedBounded(warden, key, p);
          StepInv(warden, w, e, key);
          OtherKept(warden, w, e, p, key);
        }
    }
  }

  lemma {:induction false} CallRunKeeps(warden: Warden, w: World, calls: seq<Call>, p: Policy, key: CounterKey)
    requires warden.WellFormed() && Governed(warden, key, p) && p.hardLimit < U64_MAX && Idle(warden, w, p, key)
    ensures Idle(warden, CallRun(warden, w, calls), p, key)
    decreases |calls|
  {
    if calls != [] {
      CallKeeps(warden, w, calls[0], p, key);
      CallRunKeeps(warden, CallStep(warden, w, calls[0]), calls[1..], p, key);
    }
  }

  /** Nothing is outstanding at the start, and no cap is negative. */
  lemma StartKept(warden: Warden, clock: int, p: Policy, key: CounterKey)
    requires warden.WellFormed() && p in warden.policies
    ensures KeptAt(ViewOf(Start(clock)), p, key)
  {
  }

  /** Over every run of whole calls, reserved capacity and minimum remaining units hold for every bounded policy. */
  lemma SequentialIsolation(warden: Warden, start: int, calls: seq<Call>, p: Policy, key: CounterKey)
    requires warden.WellFormed() && Governed(warden, key, p) && p.hardLimit < U64_MAX
    ensures KeptAt(ViewOf(CallRun(warden, Start(start), calls)), p, key)
  {
    StartInv(warden, start, key);
    StartKept(warden, start, p, key);
    CallRunKeeps(warden, Start(start), calls, p, key);
  }

  // ---------------------------------------------------------------- with interleaving, exactly

  lemma ZeroCapStep(warden: Warden, w: World, e: Event, p: Policy, key: CounterKey)
    requires warden.WellFormed() && Inv(warden, w, key) && KeptAt(ViewOf(w), p, key)
    requires Governed(warden, key, p) && p.hardLimit < U64_MAX && Cap(p) == 0
    ensures KeptAt(ViewOf(Step(warden, w, e)), p, key)
  {
    if e.Submit? {
      if e.caller in w.pending {
        SubmitKept(warden, w, e.caller, p, key);
      }
    } else {
      OtherKept(warden, w, e, p, key);
    }
  }

  lemma {:induction false} ZeroCapPlay(warden: Warden, w: World, events: seq<Event>, p: Policy, key: CounterKey)
    requires warden.WellFormed() && Inv(warden, w, key) && KeptAt(ViewOf(w), p, key)
    requires Governed(warden, key, p) && p.hardLimit < U64_MAX && Cap(p) == 0
    ensures KeptAt(ViewOf(Play(warden, w, events)), p, key)
    decreases |events|
  {
    if events != [] {
      GovernedBounded(warden, key, p);
      StepInv(warden, w, events[0], key);
      ZeroCapStep(warden, w, events[0], p, key);
      ZeroCapPlay(warden, Step(warden, w, events[0]), events[1..], p, key);
    }
  }

  lemma IsolatedHolds(warden: Warden, start: int, events: seq<Event>, p: Policy, key: CounterKey)
    requires warden.WellFormed() && Governed(warden, key, p) && p.hardLimit < U64_MAX && Isolated(p)
    ensures KeptAt(ViewOf(Play(warden, Start(start), events)), p, key)
  {
    if Cap(p) == 0 {
      StartInv(warden, start, key);
      StartKept(warden, start, p, key);
      ZeroCapPlay(warden, Start(start), events, p, key);
    } else {
      PlayGoverned(warden, start, events, p, key);
      IsolatedKept(warden, ViewOf(Play(warden, Start(start), events)), p, key);
    }
  }

  lemma BothAsk(warden: Warden, p: Policy, big: Request, small: Request)
    requires PassesNow(warden, Start(INSTANT), p, big, WINDOW) && PassesNow(warden, Start(INSTANT), p, small, WINDOW)
    ensures
      var w0 := Start(INSTANT);
      Play(warden, w0, [Ask(0, big, WINDOW, INSTANT), Ask(1, small, WINDOW, INSTANT)])
      == w0.(pending := map[0 := AskedNow(w0, p, big, WINDOW), 1 := AskedNow(w0, p, small, WINDOW)])
    ensures PendingOk(warden, INSTANT, AskedNow(Start(INSTANT), p, big, WINDOW))
    ensures PendingOk(warden, INSTANT, AskedNow(Start(INSTANT), p, small, WINDOW))
  {
    var w0 := Start(INSTANT);
    AskPasses(warden, w0, 0, p, big, WINDOW);
    var w1 := Step(warden, w0, Ask(0, big, WINDOW, INSTANT));
    AskPasses(warden, w1, 1, p, small, WINDOW);
    PlayTwo(warden, w0, Ask(0, big, WINDOW, INSTANT), Ask(1, small, WINDOW, INSTANT));
  }

  lemma FirstOfBoth(warden: Warden, a: Pending, b: Pending)
    requires warden.WellFormed() && PendingOk(warden, INSTANT, a) && a.now == INSTANT && a.request.idempotencyKey.None?
    requires a.request.amount <= a.Evaluation().effectiveLimit
    ensures
      var v := Step(warden, Start(INSTANT).(pending := map[0 := a, 1 := b]), Submit(0));
      && v == GrantedWorld(Start(INSTANT), a, warden.ttl).(pending := map[1 := b])
      && NothingDue(v.store, INSTANT) && Usage(v.store.books, a.Target()) == Counter(0, a.request.amount)
  {
    var w := Start(INSTANT).(pending := map[0 := a, 1 := b]);
    SubmitGrants(warden, w, 0);
    assert w.pending - {0} == map[1 := b];
  }

  lemma SecondOfBoth(warden: Warden, v: World, b: Pending, used: nat)
    requires warden.WellFormed() && PendingOk(warden, INSTANT, b) && b.now == v.clock == INSTANT && b.request.idempotencyKey.None?
    requires v.pending == map[1 := b] && NothingDue(v.store, INSTANT) && v.store.nextId < U64_MAX
    requires Usage(v.store.books, b.Target()) == Counter(0, used) && used + b.request.amount <= b.Evaluation().effectiveLimit
    ensures Step(warden, v, Submit(1)) == GrantedWorld(v.(pending := map[]), b, warden.ttl)
  {
    SubmitGrants(warden, v, 1);
    assert v.pending - {1} == map[];
  }

  lemma BothSubmit(warden: Warden, a: Pending, b: Pending)
    requires warden.WellFormed() && PendingOk(warden, INSTANT, a) && PendingOk(warden, INSTANT, b)
    requires a.Target() == b.Target() && a.now == b.now == INSTANT
    requires a.request.idempotencyKey.None? && b.request.idempotencyKey.None?
    requires a.request.amount <= a.Evaluation().effectiveLimit
    requires a.request.amount + b.request.amount <= b.Evaluation().effectiveLimit
    ensures
      var one := GrantedWorld(Start(INSTANT), a, warden.ttl);
      Play(warden, Start(INSTANT).(pending := map[0 := a, 1 := b]), [Submit(0), Submit(1)]) == GrantedWorld(one, b, warden.ttl)
  {
    var one := GrantedWorld(Start(INSTANT), a, warden.ttl);
    var v := one.(pending := map[1 := b]);
    FirstOfBoth(warden, a, b);
    SecondOfBoth(warden, v, b, a.request.amount);
    assert v.(pending := map[]) == one;
    PlayTwo(warden, Start(INSTANT).(pending := map[0 := a, 1 := b]), Submit(0), Submit(1));
  }

  /** Two callers evaluated on an empty ledger are both granted if they fit the limit of either evaluation together. */
  lemma BothGranted(warden: Warden, p: Policy, big: Request, small: Request) returns (events: seq<Event>)
    requires warden.WellFormed() && big.key == small.key
    requires PassesNow(warden, Start(INSTANT), p, big, WINDOW) && PassesNow(warden, Start(INSTANT), p, small, WINDOW)
    requires AskedNow(Start(INSTANT), p, big, WINDOW).Evaluation().effectiveLimit >= big.amount
    requires AskedNow(Start(INSTANT), p, small, WINDOW).Evaluation().effectiveLimit >= big.amount + small.amount
    ensures
      var one := GrantedWorld(Start(INSTANT), AskedNow(Start(INSTANT), p, big, WINDOW), warden.ttl);
      Play(warden, Start(INSTANT), events) == GrantedWorld(one, AskedNow(Start(INSTANT), p, small, WINDOW), warden.ttl)
  {
    var w0 := Start(INSTANT);
    var asks := [Ask(0, big, WINDOW, INSTANT), Ask(1, small, WINDOW, INSTANT)];
    BothAsk(warden, p, big, small);
    BothSubmit(warden, AskedNow(w0, p, big, WINDOW), AskedNow(w0, p, small, WINDOW));
    PlayAppend(warden, w0, asks, [Submit(0), Submit(1)]);
    events := asks + [Submit(0), Submit(1)];
  }

  /** Two grants of `GrantedWorld` to background callers are outstanding together. */
  lemma BothOutstanding(p: Policy, a: Pending, b: Pending, ttl: int)
    requires a.Target() == b.Target() && a.request.priority.Background? && b.request.priority.Background? && Background.Below(Level(p))
    ensures
      var both := GrantedWorld(GrantedWorld(Start(INSTANT), a, ttl), b, ttl);
      Outstanding(ViewOf(both), a.Target(), Level(p)) == a.request.amount + b.request.amount
  {
    var w0 := Start(INSTANT);
    var w1 := GrantedWorld(w0, a, ttl);
    HeldAfterGrant(w0.store.books.records, 1, MadeRecord(a, ttl), w0.priority, Background, a.Target(), Level(p));
    HeldAfterGrant(w1.store.books.records, 2, MadeRecord(b, ttl), w1.priority, Background, a.Target(), Level(p));
  }

  /**
   * Two background callers evaluate before either submits. Each fits on its own; the limit the store is handed omits
   * the kept capacity, so both are granted and together pass the cap by one unit.
   */
  lemma InterleavingWitness(warden: Warden, p: Policy, key: BudgetKey) returns (events: seq<Event>)
    requires warden.WellFormed() && Find(warden.policies, key) == Some(p) && p.hardLimit < U64_MAX
    requires !Isolated(p)
    ensures Outstanding(ViewOf(Play(warden, Start(INSTANT), events)), CounterOf(p, key, WINDOW), Level(p)) == Cap(p) + 1
  {
    FindSelects(warden.policies, key);
    NotIsolatedCap(p);
    var big := Request(key, p.unit, Cap(p), Background, None);
    var small := Request(key, p.unit, 1, Background, None);
    NotIsolatedAllows(p, Cap(p));
    NotIsolatedAllows(p, 1);
    events := BothGranted(warden, p, big, small);
    BothOutstanding(p, AskedNow(Start(INSTANT), p, big, WINDOW), AskedNow(Start(INSTANT), p, small, WINDOW), warden.ttl);
  }

  /** The capacity of one policy stays free in all its counters over every run. */
  ghost predicate AlwaysKept(warden: Warden, p: Policy) {
    forall start, events, key :: Governed(warden, key, p) ==> KeptAt(ViewOf(Play(warden, Start(start), events)), p, key)
  }

  /** Kept capacity survives every interleaving of callers exactly for the isolated policies. */
  lemma IsolationExact(warden: Warden, p: Policy, key: BudgetKey)
    requires warden.WellFormed() && Find(warden.policies, key) == Some(p) && p.hardLimit < U64_MAX
    ensures AlwaysKept(warden, p) <==> Isolated(p)
  {
    FindSelects(warden.policies, key);
    if Isolated(p) {
      forall start, events, counter | Governed(warden, counter, p)
        ensures KeptAt(ViewOf(Play(warden, Start(start), events)), p, counter)
      {
        IsolatedHolds(warden, start, events, p, counter);
      }
    } else {
      var events := InterleavingWitness(warden, p, key);
      assert Governed(warden, CounterOf(p, key, WINDOW), p);
      assert !KeptAt(ViewOf(Play(warden, Start(INSTANT), events)), p, CounterOf(p, key, WINDOW));
    }
  }
}
