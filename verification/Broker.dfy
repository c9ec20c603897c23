/** The policy-driven broker over the in-memory store, one caller at a time. */
module Broker {
  import opened Prelude
  import opened Contract
  import opened Accounts
  import opened Memory
  import opened Policies
  import opened Pacing

  /** Built requests have a positive amount. */
  datatype Request = Request(
    key: BudgetKey,
    unit: BudgetUnit,
    amount: u64,
    priority: Priority,
    idempotencyKey: Option<string>)

  datatype Snapshot = Snapshot(
    policyName: string,
    key: BudgetKey,
    used: u64,
    hardLimit: u64,
    safeToSpendNow: u64,
    reservedRemaining: u64,
    window: Window,
    aheadOfPace: bool)

  /** The reservation handed to the caller; previews carry id zero and no ledger entry. */
  datatype Handle = Handle(id: nat, amount: u64, expiresAt: int)

  /** `NoPolicy` is the denial whose snapshot is all zero because no policy matched. */
  datatype Decision =
    | AllowLive(reservation: Handle, usage: Snapshot)
    | DenyLive(reason: DenialReason, usage: Snapshot)
    | NoPolicy

  datatype BudgetError = InvalidRequest(message: string) | StoreFailed(error: StoreError) | NoMatchingPolicyError

  type Answer = Result<Decision, BudgetError>

  datatype Warden = Warden(policies: seq<Policy>, ttl: int) {
    /** What the builders check: unique policy names, valid policies, a positive time-to-live. */
    predicate WellFormed() {
      && UniqueNames(policies)
      && (forall p :: p in policies ==> p.Valid())
      && ttl > 0
    }
  }

  function CounterOf(p: Policy, key: BudgetKey, window: Window): CounterKey {
    CounterKey(StoreKey(p.name, key, p.unit), window)
  }

  function SnapshotOf(p: Policy, key: BudgetKey, used: u64, e: Evaluation, window: Window): Snapshot {
    Snapshot(p.name, key, used, p.hardLimit, e.safeToSpendNow, e.reservedRemaining, window, e.aheadOfPace)
  }

  /** The atomic store request a passed evaluation leads to. */
  function StoreRequest(p: Policy, request: Request, limit: u64, ttl: int, window: Window, now: int): ReserveRequest {
    ReserveRequest(StoreKey(p.name, request.key, p.unit), request.amount, p.hardLimit, limit, ttl, window,
                   request.idempotencyKey, now)
  }

  /** An allowed preview that bypasses the ledger, for policies that fail open. */
  function FailOpenDecision(p: Policy, request: Request, window: Window, now: int): Decision {
    var e := Evaluate(p, 0, request.amount, request.priority, window, now);
    AllowLive(Handle(0, request.amount, now + NANOS_PER_SECOND), SnapshotOf(p, request.key, 0, e, window))
  }

  /** The answer of `authorize` for the usage read; nothing is reserved. */
  function AuthorizeAnswer(p: Policy, used: u64, ttl: int, request: Request, window: Window, now: int): Decision {
    var e := Evaluate(p, used, request.amount, request.priority, window, now);
    var usage := SnapshotOf(p, request.key, used, e, window);
    if e.denial.Some? then DenyLive(e.denial.value, usage)
    else AllowLive(Handle(0, request.amount, now + ttl), usage)
  }

  ghost function AuthorizeBudget(warden: Warden, s: Ledger, request: Request, window: Window, now: int): Outcome<Ledger, Answer> {
    match Find(warden.policies, request.key)
    case None => Outcome(s, Ok(NoPolicy))
    case Some(p) =>
      if request.unit != p.unit then Outcome(s, Err(InvalidRequest("request unit does not match policy unit")))
      else
        var read := Read(s, CounterOf(p, request.key, window), now);
        Outcome(read.state, Ok(AuthorizeAnswer(p, read.result.Used(), warden.ttl, request, window, now)))
  }

  /** What the broker makes of the store's answer. */
  function ReserveDecision(p: Policy, request: Request, window: Window, now: int, answer: ReserveAnswer): Answer {
    match answer
    case Err(error) => if p.failOpen then Ok(FailOpenDecision(p, request, window, now)) else Err(StoreFailed(error))
    case Ok(result) =>
      var used := result.usage.Used();
      var usage := SnapshotOf(p, request.key, used, Evaluate(p, used, 0, request.priority, window, now), window);
      match result.reservation
      case None => Ok(DenyLive(AheadOfBudgetPace, usage))
      case Some(r) => Ok(AllowLive(Handle(r.id, request.amount, r.expiresAt), usage))
  }

  ghost function ReserveBudget(warden: Warden, s: Ledger, request: Request, window: Window, now: int): Outcome<Ledger, Answer> {
    match Find(warden.policies, request.key)
    case None => Outcome(s, Ok(NoPolicy))
    case Some(p) =>
      if request.unit != p.unit then Outcome(s, Err(InvalidRequest("request unit does not match policy unit")))
      else
        var read := Read(s, CounterOf(p, request.key, window), now);
        var used := read.result.Used();
        var e := Evaluate(p, used, request.amount, request.priority, window, now);
        if e.denial.Some? then
          Outcome(read.state, Ok(DenyLive(e.denial.value, SnapshotOf(p, request.key, used, e, window))))
        else
          var out := Memory.Reserve(read.state, StoreRequest(p, request, e.effectiveLimit, warden.ttl, window, now));
          Outcome(out.state, ReserveDecision(p, request, window, now, out.result))
  }

  ghost function QueryUsage(warden: Warden, s: Ledger, key: BudgetKey, window: Window, now: int): Outcome<Ledger, Result<Snapshot, BudgetError>> {
    match Find(warden.policies, key)
    case None => Outcome(s, Err(NoMatchingPolicyError))
    case Some(p) =>
      var read := Read(s, CounterOf(p, key, window), now);
      var used := read.result.Used();
      Outcome(read.state, Ok(SnapshotOf(p, key, used, Evaluate(p, used, 0, Normal, window, now), window)))
  }

  /** `now` is the clock reading and `window` the governing policy's bounds at that instant. */
  class BudgetWarden {
    const store: MemoryStore
    const config: Warden

    constructor (store: MemoryStore, config: Warden)
      ensures this.store == store && this.config == config
    {
      this.store := store;
      this.config := config;
    }

    method Authorize(request: Request, window: Window, now: int) returns (answer: Answer)
      modifies store
      ensures Outcome(store.Contents(), answer) == AuthorizeBudget(config, old(store.Contents()), request, window, now)
    {
      var found := Find(config.policies, request.key);
      if found.None? {
        return Ok(NoPolicy);
      }
      var policy := found.value;
      if request.unit != policy.unit {
        return Err(InvalidRequest("request unit does not match policy unit"));
      }
      var usage := store.ReadUsage(CounterOf(policy, request.key, window), now);
      var evaluation := Evaluate(policy, usage.Used(), request.amount, request.priority, window, now);
      var snapshot := SnapshotOf(policy, request.key, usage.Used(), evaluation, window);
      if evaluation.denial.Some? {
        return Ok(DenyLive(evaluation.denial.value, snapshot));
      }
      answer := Ok(AllowLive(Handle(0, request.amount, now + config.ttl), snapshot));
    }

    method Reserve(request: Request, window: Window, now: int) returns (answer: Answer)
      modifies store
      ensures Outcome(store.Contents(), answer) == ReserveBudget(config, old(store.Contents()), request, window, now)
    {
      var found := Find(config.policies, request.key);
      if found.None? {
        return Ok(NoPolicy);
      }
      var policy := found.value;
      if request.unit != policy.unit {
        return Err(InvalidRequest("request unit does not match policy unit"));
      }
      var usage := store.ReadUsage(CounterOf(policy, request.key, window), now);
      var evaluation := Evaluate(policy, usage.Used(), request.amount, request.priority, window, now);
      if evaluation.denial.Some? {
        return Ok(DenyLive(evaluation.denial.value, SnapshotOf(policy, request.key, usage.Used(), evaluation, window)));
      }

      var result := store.ReserveIfAllowed(
        StoreRequest(policy, request, evaluation.effectiveLimit, config.ttl, window, now));
      if result.Err? {
        if policy.failOpen {
          return Ok(FailOpenDecision(policy, request, window, now));
        }
        return Err(StoreFailed(result.error));
      }
      var used := result.value.usage.Used();
      var after := Evaluate(policy, used, 0, request.priority, window, now);
      var snapshot := SnapshotOf(policy, request.key, used, after, window);
      if !result.value.Allowed() {
        return Ok(DenyLive(AheadOfBudgetPace, snapshot));
      }
      var reservation := result.value.reservation.value;
      answer := Ok(AllowLive(Handle(reservation.id, request.amount, reservation.expiresAt), snapshot));
    }

    method Usage(key: BudgetKey, window: Window, now: int) returns (answer: Result<Snapshot, BudgetError>)
      modifies store
      ensures Outcome(store.Contents(), answer) == QueryUsage(config, old(store.Contents()), key, window, now)
    {
      var found := Find(config.policies, key);
      if found.None? {
        return Err(NoMatchingPolicyError);
      }
      var usage := store.ReadUsage(CounterOf(found.value, key, window), now);
      var evaluation := Evaluate(found.value, usage.Used(), 0, Normal, window, now);
      answer := Ok(SnapshotOf(found.value, key, usage.Used(), evaluation, window));
    }
  }

  // ---------------------------------------------------------------- authorize and reserve agree

  /** After its own usage read, an allowed request passes every check of the store and is granted. */
  lemma StoreGrants(c: Ledger, p: Policy, request: Request, ttl: int, window: Window, now: int)
    requires p.Valid() && request.amount > 0 && ttl > 0 && c.nextId < U64_MAX
    requires Allowed(p, Usage(c.books, CounterOf(p, request.key, window)).Used(), request.amount, request.priority, window, now)
    ensures
      var used := Usage(c.books, CounterOf(p, request.key, window)).Used();
      var e := Evaluate(p, used, request.amount, request.priority, window, now);
      var req := StoreRequest(p, request, e.effectiveLimit, ttl, window, now);
      && req.Validate().Ok?
      && Fits(c.books, req)
      && (!Replays(c, req) ==>
            ReserveCleaned(c, req).result.Ok?
            && ReserveCleaned(c, req).result.value.reservation == Some(StoreReservation(c.nextId + 1, now + ttl)))
  {
    EffectiveLimitCovers(p, Usage(c.books, CounterOf(p, request.key, window)).Used(), request.amount, request.priority, window, now);
  }

  /** The request's idempotency key already has a reservation under its counter. */
  predicate KeyTaken(s: Ledger, key: CounterKey, name: Option<string>) {
    name.Some? && (key, name.value) in s.idempotency
  }

  /** That reservation is committed, or open and not yet due. */
  predicate KeyLive(s: Ledger, key: CounterKey, name: string, now: int)
    requires (key, name) in s.idempotency
  {
    && s.idempotency[(key, name)] in s.books.records
    && Live(s.books.records[s.idempotency[(key, name)]])
    && !Due(s.books.records[s.idempotency[(key, name)]], now)
  }

  /** The request reuses a key whose reservation was refunded or has expired by now. */
  predicate AsksDeadKey(warden: Warden, s: Ledger, request: Request, window: Window, now: int) {
    && Find(warden.policies, request.key).Some?
    && var key := CounterOf(Find(warden.policies, request.key).value, request.key, window);
       && KeyTaken(s, key, request.idempotencyKey)
       && !KeyLive(s, key, request.idempotencyKey.value, now)
  }

  predicate Allows(answer: Answer) {
    answer.Ok? && answer.value.AllowLive?
  }

  /** What the store answers to a request that passed evaluation on the usage it still has. */
  lemma StoreAnswers(s: Ledger, c: Ledger, p: Policy, request: Request, ttl: int, window: Window, now: int)
    requires p.Valid() && request.amount > 0 && ttl > 0 && c.nextId < U64_MAX
    requires c.idempotency == s.idempotency && ExpiredAt(s.books.records, c.books.records, now)
    requires Allowed(p, Usage(c.books, CounterOf(p, request.key, window)).Used(), request.amount, request.priority, window, now)
    ensures
      var key := CounterOf(p, request.key, window);
      var e := Evaluate(p, Usage(c.books, key).Used(), request.amount, request.priority, window, now);
      var out := ReserveCleaned(c, StoreRequest(p, request, e.effectiveLimit, ttl, window, now));
      && out.result.Ok?
      && (!KeyTaken(s, key, request.idempotencyKey) ==>
            out.result.value.reservation == Some(StoreReservation(c.nextId + 1, now + ttl)))
      && (KeyTaken(s, key, request.idempotencyKey) ==>
            var id := s.idempotency[(key, request.idempotencyKey.value)];
            out.state == c
            && out.result.value.reservation
               == if KeyLive(s, key, request.idempotencyKey.value, now)
                  then Some(StoreReservation(id, s.books.records[id].expiresAt)) else None)
  {
    StoreGrants(c, p, request, ttl, window, now);
  }

  /** The request gets as far as the store: a policy of its unit governs it, and it passes on the cleaned usage. */
  ghost predicate ReachesStore(warden: Warden, s: Ledger, request: Request, window: Window, now: int) {
    && Find(warden.policies, request.key).Some?
    && var p := Find(warden.policies, request.key).value;
       && request.unit == p.unit
       && Allowed(p, Usage(CleanedLedger(s, now).books, CounterOf(p, request.key, window)).Used(), request.amount,
                  request.priority, window, now)
  }

  lemma Refused(warden: Warden, s: Ledger, request: Request, window: Window, now: int)
    requires !ReachesStore(warden, s, request, window, now)
    ensures ReserveBudget(warden, s, request, window, now) == AuthorizeBudget(warden, s, request, window, now)
    ensures !Allows(AuthorizeBudget(warden, s, request, window, now).result)
  {
  }

  /** The store request of a call that gets that far. */
  ghost function Submitted(warden: Warden, s: Ledger, request: Request, window: Window, now: int): ReserveRequest
    requires Find(warden.policies, request.key).Some?
  {
    var p := Find(warden.policies, request.key).value;
    var used := Usage(CleanedLedger(s, now).books, CounterOf(p, request.key, window)).Used();
    StoreRequest(p, request, Evaluate(p, used, request.amount, request.priority, window, now).effectiveLimit, warden.ttl, window, now)
  }

  lemma AskedIsAllowed(warden: Warden, s: Ledger, request: Request, window: Window, now: int)
    requires ReachesStore(warden, s, request, window, now)
    ensures
      var p := Find(warden.policies, request.key).value;
      var used := Usage(CleanedLedger(s, now).books, CounterOf(p, request.key, window)).Used();
      AuthorizeBudget(warden, s, request, window, now)
      == Outcome(CleanedLedger(s, now), Ok(AllowLive(
           Handle(0, request.amount, now + warden.ttl),
           SnapshotOf(p, request.key, used, Evaluate(p, used, request.amount, request.priority, window, now), window))))
  {
  }

  /** Its reserve is what the store answers on the ledger its usage read has cleaned. */
  lemma MadeByStore(warden: Warden, s: Ledger, request: Request, window: Window, now: int)
    requires ReachesStore(warden, s, request, window, now)
    requires Submitted(warden, s, request, window, now).Validate().Ok?
    ensures
      var out := ReserveCleaned(CleanedLedger(s, now), Submitted(warden, s, request, window, now));
      ReserveBudget(warden, s, request, window, now)
      == Outcome(out.state, ReserveDecision(Find(warden.policies, request.key).value, request, window, now, out.result))
  {
    CleanupIdempotent(s.books, now, now);
    assert CleanedLedger(CleanedLedger(s, now), now) == CleanedLedger(s, now);
  }

  /** What a decision says of a store answer that is no error. */
  lemma DecisionFollows(p: Policy, request: Request, window: Window, now: int, result: ReservationResult)
    ensures
      var d := ReserveDecision(p, request, window, now, Ok(result));
      && d.Ok? && d.value.usage.used == result.usage.Used()
      && (result.reservation.None? ==> d.value.DenyLive? && d.value.reason == AheadOfBudgetPace)
      && (result.reservation.Some? ==>
            d.value.AllowLive?
            && d.value.reservation == Handle(result.reservation.value.id, request.amount, result.reservation.value.expiresAt))
  {
  }

  /** What the store answers to the request of such a call: the next id, the key's own live reservation, or nothing. */
  lemma SubmittedAnswer(warden: Warden, s: Ledger, request: Request, window: Window, now: int)
    requires warden.WellFormed() && request.amount > 0 && s.nextId < U64_MAX && ReachesStore(warden, s, request, window, now)
    ensures Submitted(warden, s, request, window, now).Validate().Ok?
    ensures
      var key := CounterOf(Find(warden.policies, request.key).value, request.key, window);
      var out := ReserveCleaned(CleanedLedger(s, now), Submitted(warden, s, request, window, now));
      && out.result.Ok?
      && (!KeyTaken(s, key, request.idempotencyKey) ==>
            out.result.value.reservation == Some(StoreReservation(s.nextId + 1, now + warden.ttl)))
      && (KeyTaken(s, key, request.idempotencyKey) ==>
            var id := s.idempotency[(key, request.idempotencyKey.value)];
            out.state == CleanedLedger(s, now)
            && out.result.value.reservation
               == if KeyLive(s, key, request.idempotencyKey.value, now)
                  then Some(StoreReservation(id, s.books.records[id].expiresAt)) else None)
  {
    var p := Find(warden.policies, request.key).value;
    FindSelects(warden.policies, request.key);
    CleanupAdvances(s.books, now);
    StoreGrants(CleanedLedger(s, now), p, request, warden.ttl, window, now);
    StoreAnswers(s, CleanedLedger(s, now), p, request, warden.ttl, window, now);
  }

  /** The reservation an allowed call hands out. */
  ghost predicate HandsOut(warden: Warden, s: Ledger, request: Request, window: Window, now: int, handle: Handle)
    requires Find(warden.policies, request.key).Some?
  {
    var key := CounterOf(Find(warden.policies, request.key).value, request.key, window);
    if KeyTaken(s, key, request.idempotencyKey) then
      var id := s.idempotency[(key, request.idempotencyKey.value)];
      id in s.books.records && handle == Handle(id, request.amount, s.books.records[id].expiresAt)
    else handle == Handle(s.nextId + 1, request.amount, now + warden.ttl)
  }

  /** A call that reaches the store is allowed there exactly when its key is not dead. */
  lemma ReachedAnswer(warden: Warden, s: Ledger, request: Request, window: Window, now: int)
    requires warden.WellFormed() && request.amount > 0 && s.nextId < U64_MAX && ReachesStore(warden, s, request, window, now)
    ensures
      var made := ReserveBudget(warden, s, request, window, now);
      if AsksDeadKey(warden, s, request, window, now)
      then made.state == CleanedLedger(s, now) && made.result.Ok? && made.result.value.DenyLive?
           && made.result.value.reason == AheadOfBudgetPace
      else Allows(made.result) && HandsOut(warden, s, request, window, now, made.result.value.reservation)
  {
    SubmittedAnswer(warden, s, request, window, now);
    MadeByStore(warden, s, request, window, now);
    var out := ReserveCleaned(CleanedLedger(s, now), Submitted(warden, s, request, window, now));
    DecisionFollows(Find(warden.policies, request.key).value, request, window, now, out.result.value);
  }

  /**
   * With no other caller in between and ids left, `reserve` allows a request if and only if `authorize` does and the
   * request does not reuse a dead idempotency key. An unused key gets the next id, a live one its own reservation
   * back, a dead one the denial that follows the store call, the only way that denial is ever reached; and every
   * other denial or error is the one `authorize` gives.
   */
  lemma ReserveAllowsExactly(warden: Warden, s: Ledger, request: Request, window: Window, now: int)
    requires warden.WellFormed() && request.amount > 0 && s.nextId < U64_MAX
    ensures
      var asked := AuthorizeBudget(warden, s, request, window, now);
      var made := ReserveBudget(warden, s, request, window, now);
      && (Allows(made.result) <==> Allows(asked.result) && !AsksDeadKey(warden, s, request, window, now))
      && (!Allows(asked.result) ==> made == asked)
      && (Allows(asked.result) && !Allows(made.result) ==>
            made.state == asked.state && made.result.Ok? && made.result.value.DenyLive?
            && made.result.value.reason == AheadOfBudgetPace)
      && (Allows(asked.result) ==> asked.result.value.reservation == Handle(0, request.amount, now + warden.ttl))
      && (Allows(made.result) ==>
            Find(warden.policies, request.key).Some?
            && HandsOut(warden, s, request, window, now, made.result.value.reservation))
  {
    if ReachesStore(warden, s, request, window, now) {
      AskedIsAllowed(warden, s, request, window, now);
      ReachedAnswer(warden, s, request, window, now);
    } else {
      Refused(warden, s, request, window, now);
    }
  }

  /** The request's key is free under its own counter, whatever it was used for elsewhere. */
  predicate KeyFree(warden: Warden, s: Ledger, request: Request, window: Window) {
    Find(warden.policies, request.key).Some? ==>
      !KeyTaken(s, CounterOf(Find(warden.policies, request.key).value, request.key, window), request.idempotencyKey)
  }

  /** Under a free key `reserve` allows exactly what `authorize` allows, and the denial after the store call is unreachable. */
  lemma AuthorizeReserveAgree(warden: Warden, s: Ledger, request: Request, window: Window, now: int)
    requires warden.WellFormed() && request.amount > 0 && s.nextId < U64_MAX
    requires KeyFree(warden, s, request, window)
    ensures
      var asked := AuthorizeBudget(warden, s, request, window, now);
      var made := ReserveBudget(warden, s, request, window, now);
      if Allows(asked.result)
      then Allows(made.result) && made.result.value.reservation == asked.result.value.reservation.(id := s.nextId + 1)
      else made == asked
  {
    ReserveAllowsExactly(warden, s, request, window, now);
  }

  /** A cleanup at the instant of a grant leaves it alone; the counter has grown by the amount, saturating once. */
  lemma GrantStays(s: Ledger, req: ReserveRequest)
    requires req.Validate().Ok?
    ensures
      var c := CleanedLedger(s, req.now);
      && CleanedLedger(GrantedLedger(c, req), req.now) == GrantedLedger(c, req)
      && Usage(GrantedLedger(c, req).books, req.Target()).Used() == SatAdd(Usage(c.books, req.Target()).Used(), req.amount)
  {
    var c := CleanedLedger(s, req.now);
    GrantNotDue(s.books, c, req);
    ExpireNone(GrantedLedger(c, req).books);
  }

  lemma GrantNotDue(b: Books, c: Ledger, req: ReserveRequest)
    requires c.books == Cleaned(b, req.now) && req.ttl > 0
    ensures DueIds(GrantedLedger(c, req).books.records, req.now) == {}
  {
    CleanupAdvances(b, req.now);
    var after := GrantedLedger(c, req).books.records;
    forall id | id in after
      ensures !Due(after[id], req.now)
    {
    }
  }

  /**
   * What an allowed `reserve` reports, and a usage query right after it, is the usage `authorize` saw plus the amount,
   * or just that usage when a live key was replayed.
   */
  lemma UsageShowsReserve(warden: Warden, s: Ledger, request: Request, window: Window, now: int)
    requires warden.WellFormed() && request.amount > 0 && s.nextId < U64_MAX
    ensures
      var asked := AuthorizeBudget(warden, s, request, window, now);
      var made := ReserveBudget(warden, s, request, window, now);
      var seen := QueryUsage(warden, made.state, request.key, window, now);
      Allows(made.result) ==>
        && Allows(asked.result)
        && made.result.value.usage.used
           == (if KeyFree(warden, s, request, window) then SatAdd(asked.result.value.usage.used, request.amount)
               else asked.result.value.usage.used)
        && seen.state == made.state && seen.result.Ok? && seen.result.value.used == made.result.value.usage.used
  {
    if ReachesStore(warden, s, request, window, now) {
      AskedIsAllowed(warden, s, request, window, now);
      ReachedAnswer(warden, s, request, window, now);
      if !AsksDeadKey(warden, s, request, window, now) {
        ReachedUsage(warden, s, request, window, now);
      }
    } else {
      Refused(warden, s, request, window, now);
    }
  }

  /** The ledger and the usage an allowed call leaves: a cleanup at its instant changes nothing more. */
  lemma SubmittedUsage(warden: Warden, s: Ledger, request: Request, window: Window, now: int)
    requires warden.WellFormed() && request.amount > 0 && s.nextId < U64_MAX && ReachesStore(warden, s, request, window, now)
    ensures
      var key := CounterOf(Find(warden.policies, request.key).value, request.key, window);
      var c := CleanedLedger(s, now);
      var out := ReserveCleaned(c, Submitted(warden, s, request, window, now));
      && out.result.Ok? && CleanedLedger(out.state, now) == out.state
      && Usage(out.state.books, key) == out.result.value.usage
      && out.result.value.usage.Used()
         == if KeyTaken(s, key, request.idempotencyKey) then Usage(c.books, key).Used()
            else SatAdd(Usage(c.books, key).Used(), request.amount)
  {
    var p := Find(warden.policies, request.key).value;
    FindSelects(warden.policies, request.key);
    CleanupIdempotent(s.books, now, now);
    assert CleanedLedger(CleanedLedger(s, now), now) == CleanedLedger(s, now);
    StoreGrants(CleanedLedger(s, now), p, request, warden.ttl, window, now);
    GrantStays(s, Submitted(warden, s, request, window, now));
  }

  lemma ReachedUsage(warden: Warden, s: Ledger, request: Request, window: Window, now: int)
    requires warden.WellFormed() && request.amount > 0 && s.nextId < U64_MAX && ReachesStore(warden, s, request, window, now)
    ensures
      var p := Find(warden.policies, request.key).value;
      var before := Usage(CleanedLedger(s, now).books, CounterOf(p, request.key, window)).Used();
      var made := ReserveBudget(warden, s, request, window, now);
      var seen := QueryUsage(warden, made.state, request.key, window, now);
      && made.result.Ok? && !made.result.value.NoPolicy?
      && made.result.value.usage.used == (if KeyFree(warden, s, request, window) then SatAdd(before, request.amount) else before)
      && seen.state == made.state && seen.result.Ok? && seen.result.value.used == made.result.value.usage.used
  {
    var p := Find(warden.policies, request.key).value;
    var out := ReserveCleaned(CleanedLedger(s, now), Submitted(warden, s, request, window, now));
    SubmittedAnswer(warden, s, request, window, now);
    MadeByStore(warden, s, request, window, now);
    SubmittedUsage(warden, s, request, window, now);
    DecisionFollows(p, request, window, now, out.result.value);
  }
}
