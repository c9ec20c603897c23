/** The broker protocol over the SQL stores: lazy expiry, rollbacks, and transactions of all callers interleaved. */
module SqlProtocol {
  import opened Prelude
  import opened Contract
  import opened Accounts
  import opened LedgerRuns
  import opened Policies
  import opened Pacing
  import opened Broker
  import opened Spending
  import opened Sql
  import opened SqlRuns

  datatype Stage = Stage(tables: Tables, clock: int, pending: map<nat, Pending>, priority: map<nat, Priority>)

  /** Settlements and queries run on their own clock, so their instant is unconstrained. */
  datatype Event =
    | Tick(to: int)
    | Ask(caller: nat, request: Request, window: Window, now: int)
    | Submit(caller: nat)
    | Settle(id: nat, commit: bool, at: int)
    | Query(counter: CounterKey, at: int)

  function Start(clock: int): Stage {
    Stage(NO_ROWS, clock, map[], map[])
  }

  function ViewOf(w: Stage): View {
    View(w.tables.books, w.clock, w.pending, w.priority)
  }

  /** An ask that gets as far as the database. */
  predicate Asks(warden: Warden, w: Stage, request: Request, window: Window, now: int) {
    && now <= w.clock && window.start < window.end && request.amount > 0
    && Find(warden.policies, request.key).Some? && Find(warden.policies, request.key).value.unit == request.unit
  }

  /** The usage transaction of a caller and the evaluation of what it read. */
  ghost function AskStep(warden: Warden, w: Stage, caller: nat, request: Request, window: Window, now: int): Stage {
    if !Asks(warden, w, request, window, now) then w
    else
      var p := Find(warden.policies, request.key).value;
      var read := Sql.Read(w.tables, CounterOf(p, request.key, window), now);
      var asked := Pending(p, request, window, read.result.Used(), now);
      w.(tables := read.state,
         pending := if asked.Evaluation().denial.None? then w.pending[caller := asked] else w.pending - {caller})
  }

  /** The reserve transaction of a caller, on whatever the tables have become by now. */
  ghost function SubmitStep(warden: Warden, w: Stage, caller: nat, dialect: Dialect): Stage {
    if caller !in w.pending then w
    else
      var asked := w.pending[caller];
      var u := Sql.Reserve(w.tables, asked.Submission(warden.ttl), dialect).state;
      Stage(u, w.clock, w.pending - {caller},
            if u.sequence in u.books.records && u.sequence !in w.tables.books.records
            then w.priority[u.sequence := asked.request.priority] else w.priority)
  }

  ghost function Act(warden: Warden, w: Stage, e: Event, dialect: Dialect): Stage {
    match e
    case Tick(to) => if to >= w.clock then w.(clock := to) else w
    case Ask(caller, request, window, now) => AskStep(warden, w, caller, request, window, now)
    case Submit(caller) => SubmitStep(warden, w, caller, dialect)
    case Settle(id, commit, at) => w.(tables := Sql.Finish(w.tables, id, commit, at).state)
    case Query(counter, at) => w.(tables := Sql.Read(w.tables, counter, at).state)
  }

  ghost function Play(warden: Warden, w: Stage, events: seq<Event>, dialect: Dialect): Stage
    decreases |events|
  {
    if events == [] then w else Play(warden, Act(warden, w, events[0], dialect), events[1..], dialect)
  }

  // ---------------------------------------------------------------- the invariant

  ghost predicate StageInv(warden: Warden, w: Stage, key: CounterKey) {
    Schema(w.tables) && Filed(w.tables.books) && CounterInv(warden, ViewOf(w), key)
  }

  lemma StartInv(warden: Warden, clock: int, key: CounterKey)
    ensures StageInv(warden, Start(clock), key)
  {
    EmptyInv(warden, clock, key);
  }

  lemma CleanupFrees(t: Tables, now: int, key: CounterKey)
    requires Schema(t) && Filed(t.books) && Tallies(t.books, key)
    ensures
      var c := CleanedTables(t, now);
      Schema(c) && Filed(c.books) && Freed(t.books, c.books, key)
  {
    CleanupKeepsSchema(t, now);
    CleanupTidy(t, now, key, InUse(t.books, key));
    CleanupAdvances(t.books, now);
  }

  lemma FinishFrees(t: Tables, id: nat, commit: bool, now: int, key: CounterKey)
    requires Schema(t) && Filed(t.books) && Tallies(t.books, key)
    ensures
      var u := Sql.Finish(t, id, commit, now).state;
      Schema(u) && Filed(u.books) && Freed(t.books, u.books, key)
  {
    FinishKeepsRows(t, id, commit, now);
    FinishTidy(t, id, commit, now, key, InUse(t.books, key));
  }

  lemma TablesFreed(warden: Warden, w: Stage, tables: Tables, key: CounterKey)
    requires StageInv(warden, w, key) && Schema(tables) && Filed(tables.books) && Freed(w.tables.books, tables.books, key)
    ensures StageInv(warden, w.(tables := tables), key)
  {
    FreedInv(warden, ViewOf(w), tables.books, key);
  }

  lemma ClockAdvances(warden: Warden, w: Stage, to: int, key: CounterKey)
    requires StageInv(warden, w, key) && w.clock <= to
    ensures StageInv(warden, w.(clock := to), key)
  {
    TickInv(warden, ViewOf(w), to, key);
  }

  lemma PendingKept(warden: Warden, w: Stage, pending: map<nat, Pending>, key: CounterKey)
    requires StageInv(warden, w, key) && forall c :: c in pending ==> PendingOk(warden, w.clock, pending[c])
    ensures StageInv(warden, w.(pending := pending), key)
  {
    PendingInv(warden, ViewOf(w), pending, key);
  }

  lemma AskPending(warden: Warden, w: Stage, caller: nat, request: Request, window: Window, now: int)
    requires AllPendingOk(warden, ViewOf(w)) && Asks(warden, w, request, window, now)
    ensures
      var v := AskStep(warden, w, caller, request, window, now);
      && v == w.(tables := CleanedTables(w.tables, now), pending := v.pending)
      && AllPendingOk(warden, ViewOf(v))
  {
    var v := AskStep(warden, w, caller, request, window, now);
    forall c | c in v.pending
      ensures PendingOk(warden, w.clock, v.pending[c])
    {
      assert c in w.pending ==> PendingOk(warden, w.clock, w.pending[c]);
    }
  }

  lemma AskInv(warden: Warden, w: Stage, caller: nat, request: Request, window: Window, now: int, key: CounterKey)
    requires StageInv(warden, w, key)
    ensures StageInv(warden, AskStep(warden, w, caller, request, window, now), key)
  {
    if Asks(warden, w, request, window, now) {
      var u := w.(tables := CleanedTables(w.tables, now));
      AskPending(warden, w, caller, request, window, now);
      CleanupFrees(w.tables, now, key);
      TablesFreed(warden, w, u.tables, key);
      PendingKept(warden, u, AskStep(warden, w, caller, request, window, now).pending, key);
    }
  }

  // ---------------------------------------------------------------- the reserve transaction

  function MadeRecord(asked: Pending, ttl: int): Record {
    Record(asked.Target(), asked.request.amount, asked.now + ttl, Active)
  }

  /** On cleaned tables the transaction inserts a row. */
  predicate InsertsRow(c: Tables, req: ReserveRequest) {
    GuardPasses(c.books, req) && !InsertFails(c, req)
  }

  lemma OpenCounterFrees(c: Tables, of: CounterKey, key: CounterKey)
    requires Schema(c) && Filed(c.books) && Tallies(c.books, key)
    ensures
      var u := OpenCounter(c, of);
      Schema(u) && Filed(u.books) && Freed(c.books, u.books, key)
  {
    OpenCounterSchema(c, of);
    OpenCounterTidy(c, of, key, InUse(c.books, key));
  }

  lemma RollbackFrees(t: Tables, dialect: Dialect, key: CounterKey)
    requires Schema(t) && Filed(t.books) && Tallies(t.books, key)
    ensures
      var u := RolledBack(t, dialect);
      Schema(u) && Filed(u.books) && Freed(t.books, u.books, key)
  {
    RollbackKeepsSchema(t, dialect);
  }

  /** A transaction that leaves no row of its own frees units at most. */
  lemma NoInsertFrees(t: Tables, c: Tables, req: ReserveRequest, dialect: Dialect, key: CounterKey)
    requires Schema(t) && Filed(t.books) && Tallies(t.books, key) && c == CleanedTables(t, req.now)
    requires !(GuardPasses(c.books, req) && !InsertFails(c, req))
             || ReserveOn(t, c, req, dialect).state.books.records.Keys == t.books.records.Keys
    ensures
      var u := ReserveOn(t, c, req, dialect).state;
      Schema(u) && Filed(u.books) && Freed(t.books, u.books, key)
  {
    var u := ReserveOn(t, c, req, dialect).state;
    CleanupFrees(t, req.now, key);
    NotInserted(t, c, req, dialect);
    OpenCounterFrees(c, req.Target(), key);
    RollbackFrees(t, dialect, key);
    if u == OpenCounter(c, req.Target()) {
      FreedTransitive(t.books, c.books, u.books, key);
    }
  }

  lemma NotInserted(t: Tables, c: Tables, req: ReserveRequest, dialect: Dialect)
    requires Schema(c) && c.books.records.Keys == t.books.records.Keys
    requires !(GuardPasses(c.books, req) && !InsertFails(c, req))
             || ReserveOn(t, c, req, dialect).state.books.records.Keys == t.books.records.Keys
    ensures
      var u := ReserveOn(t, c, req, dialect).state;
      u == c || u == OpenCounter(c, req.Target()) || u == RolledBack(t, dialect)
  {
    ReserveOnCases(t, c, req, dialect);
    assert c.sequence + 1 !in c.books.records;
  }

  lemma InsertMakes(c: Tables, asked: Pending, ttl: int, key: CounterKey)
    requires Schema(c) && Filed(c.books) && Tallies(c.books, key) && InsertsRow(c, asked.Submission(ttl))
    ensures
      var u := GrantedTables(c, asked.Submission(ttl));
      && Schema(u) && Filed(u.books)
      && Makes(c.books, u.books, u.sequence, MadeRecord(asked, ttl), asked.Evaluation().effectiveLimit, key)
      && Serves(MadeRecord(asked, ttl), asked, key)
  {
    var req := asked.Submission(ttl);
    InsertKeepsRows(c, req);
    InsertTidy(c, req, key, InUse(c.books, key) + req.effectiveLimit);
  }

  /** What a submit leaves: freed units at most, or one row more on cleaned tables. */
  lemma SubmitCases(w: Stage, asked: Pending, ttl: int, dialect: Dialect)
    requires Schema(w.tables)
    ensures
      var req := asked.Submission(ttl);
      var c := CleanedTables(w.tables, asked.now);
      var u := Sql.Reserve(w.tables, req, dialect).state;
      || u == w.tables
      || (u == ReserveOn(w.tables, c, req, dialect).state
          && (u.books.records.Keys == w.tables.books.records.Keys
              || (u == GrantedTables(c, req) && InsertsRow(c, req) && u.sequence !in w.tables.books.records)))
  {
    var req := asked.Submission(ttl);
    ReserveOnCases(w.tables, CleanedTables(w.tables, asked.now), req, dialect);
    CleanupKeepsSchema(w.tables, asked.now);
  }

  lemma GrantInv(warden: Warden, w: Stage, asked: Pending, key: CounterKey)
    requires warden.WellFormed() && StageInv(warden, w, key) && PendingOk(warden, w.clock, asked)
    requires InsertsRow(w.tables, asked.Submission(warden.ttl))
    ensures
      var u := GrantedTables(w.tables, asked.Submission(warden.ttl));
      StageInv(warden, w.(tables := u, priority := w.priority[u.sequence := asked.request.priority]), key)
  {
    var u := GrantedTables(w.tables, asked.Submission(warden.ttl));
    InsertMakes(w.tables, asked, warden.ttl, key);
    MadeInv(warden, ViewOf(w), u.books, u.sequence, MadeRecord(asked, warden.ttl), asked, key);
  }

  /** What a submit starts from: its caller is no longer pending. */
  function Ready(w: Stage, caller: nat): Stage
    requires caller in w.pending
  {
    w.(pending := w.pending - {caller})
  }

  lemma ReadyInv(warden: Warden, w: Stage, caller: nat, key: CounterKey)
    requires StageInv(warden, w, key) && caller in w.pending
    ensures StageInv(warden, Ready(w, caller), key)
  {
    PendingKept(warden, w, w.pending - {caller}, key);
  }

  lemma ReadyCleanedInv(warden: Warden, w: Stage, caller: nat, key: CounterKey)
    requires StageInv(warden, w, key) && caller in w.pending
    ensures StageInv(warden, Ready(w, caller).(tables := CleanedTables(w.tables, w.pending[caller].now)), key)
  {
    ReadyInv(warden, w, caller, key);
    CleanupFrees(w.tables, w.pending[caller].now, key);
    TablesFreed(warden, Ready(w, caller), CleanedTables(w.tables, w.pending[caller].now), key);
  }

  lemma StepWithoutInsert(warden: Warden, w: Stage, caller: nat, dialect: Dialect)
    requires caller in w.pending
    requires
      var u := Sql.Reserve(w.tables, w.pending[caller].Submission(warden.ttl), dialect).state;
      u.books.records.Keys == w.tables.books.records.Keys
    ensures SubmitStep(warden, w, caller, dialect)
         == Ready(w, caller).(tables := Sql.Reserve(w.tables, w.pending[caller].Submission(warden.ttl), dialect).state)
  {
  }

  lemma StepWithInsert(warden: Warden, w: Stage, caller: nat, dialect: Dialect)
    requires Schema(w.tables) && caller in w.pending
    requires
      var u := Sql.Reserve(w.tables, w.pending[caller].Submission(warden.ttl), dialect).state;
      u.books.records.Keys != w.tables.books.records.Keys
    ensures
      var asked := w.pending[caller];
      var c := CleanedTables(w.tables, asked.now);
      var u := GrantedTables(c, asked.Submission(warden.ttl));
      && InsertsRow(c, asked.Submission(warden.ttl))
      && SubmitStep(warden, w, caller, dialect)
         == Ready(w, caller).(tables := u, priority := w.priority[u.sequence := asked.request.priority])
  {
    SubmitCases(w, w.pending[caller], warden.ttl, dialect);
  }

  /** The submit makes no reservation: units are freed at most. */
  lemma SubmitFrees(warden: Warden, w: Stage, caller: nat, dialect: Dialect, key: CounterKey)
    requires StageInv(warden, w, key) && caller in w.pending
    requires
      var u := Sql.Reserve(w.tables, w.pending[caller].Submission(warden.ttl), dialect).state;
      u.books.records.Keys == w.tables.books.records.Keys
    ensures StageInv(warden, SubmitStep(warden, w, caller, dialect), key)
  {
    StepWithoutInsert(warden, w, caller, dialect);
    ReadyInv(warden, w, caller, key);
    ReserveFrees(w.tables, w.pending[caller], warden.ttl, dialect, key);
    TablesFreed(warden, Ready(w, caller), Sql.Reserve(w.tables, w.pending[caller].Submission(warden.ttl), dialect).state, key);
  }

  lemma ReserveFrees(t: Tables, asked: Pending, ttl: int, dialect: Dialect, key: CounterKey)
    requires Schema(t) && Filed(t.books) && Tallies(t.books, key)
    requires Sql.Reserve(t, asked.Submission(ttl), dialect).state.books.records.Keys == t.books.records.Keys
    ensures
      var u := Sql.Reserve(t, asked.Submission(ttl), dialect).state;
      Schema(u) && Filed(u.books) && Freed(t.books, u.books, key)
  {
    var req := asked.Submission(ttl);
    if Sql.Reserve(t, req, dialect).state != t {
      assert Sql.Reserve(t, req, dialect) == ReserveOn(t, CleanedTables(t, asked.now), req, dialect);
      NoInsertFrees(t, CleanedTables(t, asked.now), req, dialect, key);
    }
  }

  /** The submit inserts a row on tables it has cleaned. */
  lemma SubmitInserts(warden: Warden, w: Stage, caller: nat, dialect: Dialect, key: CounterKey)
    requires warden.WellFormed() && StageInv(warden, w, key) && caller in w.pending
    requires
      var u := Sql.Reserve(w.tables, w.pending[caller].Submission(warden.ttl), dialect).state;
      u.books.records.Keys != w.tables.books.records.Keys
    ensures StageInv(warden, SubmitStep(warden, w, caller, dialect), key)
  {
    var asked := w.pending[caller];
    assert PendingOk(warden, w.clock, asked);
    StepWithInsert(warden, w, caller, dialect);
    ReadyCleanedInv(warden, w, caller, key);
    GrantInv(warden, Ready(w, caller).(tables := CleanedTables(w.tables, asked.now)), asked, key);
  }

  lemma SubmitInv(warden: Warden, w: Stage, caller: nat, dialect: Dialect, key: CounterKey)
    requires warden.WellFormed() && StageInv(warden, w, key) && caller in w.pending
    ensures StageInv(warden, SubmitStep(warden, w, caller, dialect), key)
  {
    var u := Sql.Reserve(w.tables, w.pending[caller].Submission(warden.ttl), dialect).state;
    if u.books.records.Keys == w.tables.books.records.Keys {
      SubmitFrees(warden, w, caller, dialect, key);
    } else {
      SubmitInserts(warden, w, caller, dialect, key);
    }
  }

  lemma ActInv(warden: Warden, w: Stage, e: Event, dialect: Dialect, key: CounterKey)
    requires warden.WellFormed() && StageInv(warden, w, key)
    ensures StageInv(warden, Act(warden, w, e, dialect), key)
  {
    match e {
      case Tick(to) =>
        if to >= w.clock {
          ClockAdvances(warden, w, to, key);
        }
      case Ask(caller, request, window, now) =>
        AskInv(warden, w, caller, request, window, now, key);
      case Submit(caller) =>
        if caller in w.pending {
          SubmitInv(warden, w, caller, dialect, key);
        }
      case Settle(id, commit, at) =>
        FinishFrees(w.tables, id, commit, at, key);
        TablesFreed(warden, w, Sql.Finish(w.tables, id, commit, at).state, key);
      case Query(counter, at) =>
        CleanupFrees(w.tables, at, key);
        TablesFreed(warden, w, CleanedTables(w.tables, at), key);
    }
  }

  lemma {:induction false} PlayInv(warden: Warden, w: Stage, events: seq<Event>, dialect: Dialect, key: CounterKey)
    requires warden.WellFormed() && StageInv(warden, w, key)
    ensures StageInv(warden, Play(warden, w, events, dialect), key)
    decreases |events|
  {
    if events != [] {
      ActInv(warden, w, events[0], dialect, key);
      PlayInv(warden, Act(warden, w, events[0], dialect), events[1..], dialect, key);
    }
  }

  // ---------------------------------------------------------------- guarantees

  /** Under every interleaving of transactions, every policy's counters are its ledger sums and within its hard limit. */
  lemma HardLimitHolds(warden: Warden, start: int, events: seq<Event>, dialect: Dialect, p: Policy, key: CounterKey)
    requires warden.WellFormed() && Governed(warden, key, p)
    ensures Tidy(Play(warden, Start(start), events, dialect).tables.books, key, p.hardLimit)
  {
    StartInv(warden, start, key);
    PlayInv(warden, Start(start), events, dialect, key);
  }

  /** And live units granted below critical stay within the pace, from then on. */
  lemma PacingHolds(warden: Warden, start: int, events: seq<Event>, dialect: Dialect, p: Policy, key: CounterKey, t: int)
    requires warden.WellFormed() && Governed(warden, key, p) && p.strategy.PreserveForWindow?
    requires Play(warden, Start(start), events, dialect).clock <= t
    ensures
      Outstanding(ViewOf(Play(warden, Start(start), events, dialect)), key, Critical)
      <= Min(p.hardLimit - p.hardLimit * p.strategy.emergencyReservePercent / 100,
             p.hardLimit * (if t < key.window.start then 0 else (t - key.window.start) / 1_000_000)
             / (if key.window.end - key.window.start < 1_000_000 then 1 else (key.window.end - key.window.start) / 1_000_000)
             + p.hardLimit * p.strategy.maxSpendAheadPercent / 100)
  {
    StartInv(warden, start, key);
    PlayInv(warden, Start(start), events, dialect, key);
    PacedFormula(warden, ViewOf(Play(warden, Start(start), events, dialect)), key, p, t);
  }

  /** A pending critical request that fits the reserve still free, under a key no row carries and with ids left. */
  ghost predicate CoveredByReserve(warden: Warden, w: Stage, caller: nat) {
    && caller in w.pending
    && var asked := w.pending[caller];
       && asked.policy.strategy.PreserveForWindow? && asked.request.priority.Critical? && asked.policy.hardLimit <= I64_MAX
       && asked.request.amount + OutstandingFrom(ViewOf(w), asked.Target(), Critical) <= EmergencyReserve(asked.policy)
       && w.tables.sequence < I64_MAX
       && (asked.request.idempotencyKey.Some? ==> RowsFor(w.tables, asked.Target(), asked.request.idempotencyKey.value) == {})
  }

  lemma CleanedRows(t: Tables, now: int, key: CounterKey, name: string)
    requires Schema(t) && RowsFor(t, key, name) == {}
    ensures RowsFor(CleanedTables(t, now), key, name) == {} && LiveRows(CleanedTables(t, now), key, name) == {}
  {
    var c := CleanedTables(t, now);
    CleanupAdvances(t.books, now);
    forall id | id in c.idempotencyKeys
      ensures !Carries(c, id, key, name)
    {
      assert id !in RowsFor(t, key, name);
    }
  }

  lemma CoveredInserts(warden: Warden, w: Stage, caller: nat, dialect: Dialect)
    requires warden.WellFormed() && CoveredByReserve(warden, w, caller) && StageInv(warden, w, w.pending[caller].Target())
    requires PendingOk(warden, w.clock, w.pending[caller])
    requires Governed(warden, w.pending[caller].Target(), w.pending[caller].policy)
    ensures
      var asked := w.pending[caller];
      var c := CleanedTables(w.tables, asked.now);
      InUse(c.books, asked.Target()) + asked.request.amount <= asked.policy.hardLimit
  {
    var asked := w.pending[caller];
    var c := CleanedTables(w.tables, asked.now);
    CleanupFrees(w.tables, asked.now, asked.Target());
    FreedInv(warden, ViewOf(w), c.books, asked.Target());
    FreedOutstanding(ViewOf(w), c.books, asked.Target(), Critical);
    ReserveLeftOver(warden, ViewOf(w).(books := c.books), asked.Target(), asked.policy, asked.request.amount);
  }

  lemma FreshInserts(t: Tables, req: ReserveRequest, dialect: Dialect)
    requires Schema(t) && t.sequence < I64_MAX && req.Validate().Ok? && req.amount <= I64_MAX && req.effectiveLimit <= I64_MAX
    requires req.idempotencyKey.Some? ==> RowsFor(t, req.Target(), req.idempotencyKey.value) == {}
    requires GuardPasses(Cleaned(t.books, req.now), req)
    ensures Sql.Reserve(t, req, dialect).state == GrantedTables(CleanedTables(t, req.now), req)
  {
    if req.idempotencyKey.Some? {
      CleanedRows(t, req.now, req.Target(), req.idempotencyKey.value);
    }
  }

  /** What a covered submission passes on its way to the insert. */
  lemma CoveredPasses(warden: Warden, w: Stage, caller: nat)
    requires warden.WellFormed() && CoveredByReserve(warden, w, caller) && StageInv(warden, w, w.pending[caller].Target())
    ensures
      var req := w.pending[caller].Submission(warden.ttl);
      req.Validate().Ok? && req.amount <= I64_MAX && req.effectiveLimit <= I64_MAX
      && GuardPasses(Cleaned(w.tables.books, w.pending[caller].now), req)
  {
    var asked := w.pending[caller];
    assert PendingOk(warden, w.clock, asked);
    FindSelects(warden.policies, asked.request.key);
    CoveredInserts(warden, w, caller, Sqlite);
    EffectiveLimitCovers(asked.policy, asked.used, asked.request.amount, asked.request.priority, asked.window, asked.now);
  }

  /** Under every interleaving of transactions a critical request the emergency reserve covers gets its row. */
  lemma CriticalGranted(warden: Warden, start: int, events: seq<Event>, dialect: Dialect, caller: nat)
    requires warden.WellFormed() && CoveredByReserve(warden, Play(warden, Start(start), events, dialect), caller)
    ensures
      var w := Play(warden, Start(start), events, dialect);
      var t := Act(warden, w, Submit(caller), dialect).tables;
      && t.sequence == w.tables.sequence + 1
      && t.sequence in t.books.records
      && t.books.records[t.sequence] == MadeRecord(w.pending[caller], warden.ttl)
  {
    var w := Play(warden, Start(start), events, dialect);
    StartInv(warden, start, w.pending[caller].Target());
    PlayInv(warden, Start(start), events, dialect, w.pending[caller].Target());
    CoveredPasses(warden, w, caller);
    FreshInserts(w.tables, w.pending[caller].Submission(warden.ttl), dialect);
  }

  // ---------------------------------------------------------------- plays are runs of the tables

  /** The transaction an event runs, if any. */
  ghost function CallsOf(warden: Warden, w: Stage, e: Event): seq<Op> {
    match e
    case Tick(_) => []
    case Ask(_, request, window, now) =>
      if Asks(warden, w, request, window, now)
      then [ReadOp(CounterOf(Find(warden.policies, request.key).value, request.key, window), now)] else []
    case Submit(caller) => if caller in w.pending then [ReserveOp(w.pending[caller].Submission(warden.ttl))] else []
    case Settle(id, commit, at) => [FinishOp(id, commit, at)]
    case Query(counter, at) => [ReadOp(counter, at)]
  }

  ghost function Calls(warden: Warden, w: Stage, events: seq<Event>, dialect: Dialect): seq<Op>
    decreases |events|
  {
    if events == [] then []
    else CallsOf(warden, w, events[0]) + Calls(warden, Act(warden, w, events[0], dialect), events[1..], dialect)
  }

  function Latest(clock: int, events: seq<Event>): int
    decreases |events|
  {
    if events == [] then clock
    else Latest(if events[0].Tick? && events[0].to > clock then events[0].to else clock, events[1..])
  }

  lemma ActIsCall(warden: Warden, w: Stage, e: Event, dialect: Dialect, rest: seq<Op>)
    ensures SqlRun(w.tables, CallsOf(warden, w, e) + rest, dialect) == SqlRun(Act(warden, w, e, dialect).tables, rest, dialect)
    ensures Act(warden, w, e, dialect).clock == if e.Tick? && e.to > w.clock then e.to else w.clock
  {
    var calls := CallsOf(warden, w, e);
    if calls == [] {
      assert calls + rest == rest;
    } else {
      assert (calls + rest)[1..] == rest;
      assert SqlStep(w.tables, calls[0], dialect) == Act(warden, w, e, dialect).tables;
    }
  }

  /** What callers do to the tables is a run of transactions. */
  lemma {:induction false} PlayIsRun(warden: Warden, w: Stage, events: seq<Event>, dialect: Dialect)
    ensures Play(warden, w, events, dialect).tables == SqlRun(w.tables, Calls(warden, w, events, dialect), dialect)
    ensures Play(warden, w, events, dialect).clock == Latest(w.clock, events)
    decreases |events|
  {
    if events != [] {
      var next := Act(warden, w, events[0], dialect);
      ActIsCall(warden, w, events[0], dialect, Calls(warden, next, events[1..], dialect));
      PlayIsRun(warden, next, events[1..], dialect);
    }
  }

  /** An ask at any clock reading up to now leaves its caller pending on the usage of that reading if it passes. */
  lemma AskExactly(warden: Warden, w: Stage, caller: nat, request: Request, window: Window, now: int, dialect: Dialect)
    requires Find(warden.policies, request.key).Some? && Find(warden.policies, request.key).value.unit == request.unit
    requires now <= w.clock && window.start < window.end && request.amount > 0
    ensures
      var p := Find(warden.policies, request.key).value;
      var used := Usage(Cleaned(w.tables.books, now), CounterKey(StoreKey(p.name, request.key, p.unit), window)).Used();
      var pending := Act(warden, w, Ask(caller, request, window, now), dialect).pending;
      && pending - {caller} == w.pending - {caller}
      && (caller in pending <==> Allowed(p, used, request.amount, request.priority, window, now))
      && (caller in pending ==> pending[caller] == Pending(p, request, window, used, now))
  {
  }
}
