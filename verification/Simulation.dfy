/** Eager and lazy expiry agree: the SQL stores simulate the in-memory store up to renaming of ids. */
module Simulation {
  import opened Prelude
  import opened Totals
  import opened Contract
  import opened Accounts
  import opened Memory
  import opened LedgerRuns
  import opened Sql
  import opened SqlRuns

  /** Both stores side by side. `to` and `back` match ids; no operation ran later than `time`. */
  datatype Pair = Pair(mem: Ledger, sql: Tables, to: map<nat, nat>, back: map<nat, nat>, time: int)

  const START := Pair(EMPTY, NO_ROWS, map[], map[], 0)

  /** The same reservation, except that a due row may still be active where the ledger already expired it. */
  predicate RowMatches(r: Record, row: Record, time: int) {
    && row.key == r.key && row.amount == r.amount && row.expiresAt == r.expiresAt
    && (row.status == r.status || (r.status.Expired? && Due(row, time)))
  }

  ghost predicate Matched(p: Pair) {
    && p.to.Keys == p.mem.books.records.Keys
    && Renames(p.mem.books.records.Keys, p.sql.books.records.Keys, p.to, p.back)
  }

  ghost predicate RowsMatch(p: Pair) {
    forall i :: i in p.mem.books.records ==>
      i in p.to && p.to[i] in p.sql.books.records
      && RowMatches(p.mem.books.records[i], p.sql.books.records[p.to[i]], p.time)
  }

  /** Each idempotency entry of the ledger is the key of its row, and the other way round. */
  ghost predicate KeysMatch(p: Pair) {
    && (forall e :: e in p.mem.idempotency ==>
          p.mem.idempotency[e] in p.to && Carries(p.sql, p.to[p.mem.idempotency[e]], e.0, e.1))
    && (forall j :: j in p.sql.idempotencyKeys && j in p.sql.books.records ==>
          (p.sql.books.records[j].key, p.sql.idempotencyKeys[j]) in p.mem.idempotency
          && j in p.back && p.mem.idempotency[(p.sql.books.records[j].key, p.sql.idempotencyKeys[j])] == p.back[j])
  }

  /** The stores match: ids are renamed, rows agree up to expiry, and idempotency keys point to the same reservations. */
  ghost predicate Matches(p: Pair) {
    Matched(p) && RowsMatch(p) && KeysMatch(p) && p.mem.nextId <= p.sql.sequence
  }

  /** Each store is sound in itself. */
  ghost predicate Healthy(p: Pair) {
    Sound(p.mem) && Conserved(p.sql.books) && Schema(p.sql)
  }

  ghost predicate Sim(p: Pair) {
    Healthy(p) && Matches(p)
  }

  /** The rows agree in every field. */
  ghost predicate SameRows(p: Pair) {
    forall i :: i in p.mem.books.records ==>
      i in p.to && p.to[i] in p.sql.books.records && p.sql.books.records[p.to[i]] == p.mem.books.records[i]
  }

  /** Nothing is left due: the stores match in every field. */
  ghost predicate Mirror(p: Pair) {
    Matches(p) && SameRows(p)
  }

  lemma StartSim(time: int)
    ensures Sim(START.(time := time))
  {
    EmptySound();
    EmptyConserved();
  }

  // ---------------------------------------------------------------- cleanup brings the stores together

  lemma LazyRows(p: Pair, m: Ledger, now: int)
    requires RowsMatch(p) && p.time <= now && ExpiredAt(p.mem.books.records, m.books.records, now)
    ensures RowsMatch(p.(mem := m, time := now))
  {
    forall i | i in m.books.records
      ensures i in p.to && p.to[i] in p.sql.books.records
      ensures RowMatches(m.books.records[i], p.sql.books.records[p.to[i]], now)
    {
      assert RowMatches(p.mem.books.records[i], p.sql.books.records[p.to[i]], p.time);
    }
  }

  /** The ledger after its cleanup and the tables before theirs still match, one instant later. */
  lemma LazyMatches(p: Pair, now: int)
    requires Matches(p) && p.time <= now
    ensures Matches(p.(mem := CleanedLedger(p.mem, now), time := now))
  {
    var m := CleanedLedger(p.mem, now);
    CleanupAdvances(p.mem.books, now);
    LazyRows(p, m, now);
    SameKeys(p, p.(mem := m, time := now));
  }

  ghost predicate NoneDue(records: map<nat, Record>, now: int) {
    forall id :: id in records ==> !Due(records[id], now)
  }

  lemma CleanupLeavesNoneDue(b: Books, now: int)
    ensures NoneDue(Cleaned(b, now).records, now)
  {
    var after := RecordsAfter(b.records, DueIds(b.records, now));
    forall id | id in after
      ensures !Due(after[id], now)
    {
    }
  }

  /** After both cleaned up at the same instant, no earlier than any before, the stores mirror each other. */
  lemma CleanupMirrors(p: Pair, now: int)
    requires Matches(p) && p.time <= now
    ensures Mirror(p.(mem := CleanedLedger(p.mem, now), sql := CleanedTables(p.sql, now), time := now))
  {
    var m, t := CleanedLedger(p.mem, now), CleanedTables(p.sql, now);
    var lazy := p.(mem := m, time := now);
    LazyMatches(p, now);
    CleanupLeavesNoneDue(p.mem.books, now);
    CleanupAdvances(p.sql.books, now);
    TablesMirror(lazy, t);
    assert lazy.(sql := t) == p.(mem := m, sql := t, time := now);
  }

  /** Expiring what is due in the tables closes the gap to a ledger that has nothing due. */
  lemma TablesMirror(p: Pair, t: Tables)
    requires Matches(p) && NoneDue(p.mem.books.records, p.time)
    requires ExpiredAt(p.sql.books.records, t.books.records, p.time)
    requires t.idempotencyKeys == p.sql.idempotencyKeys && t.sequence == p.sql.sequence
    ensures Mirror(p.(sql := t))
  {
    var q := p.(sql := t);
    assert SameRows(q) by { ExpiredRowsAgree(p, t); }
    SameKeys(p, q);
    KeysSurvive(p, q);
  }

  lemma ExpiredRowsAgree(p: Pair, t: Tables)
    requires RowsMatch(p) && NoneDue(p.mem.books.records, p.time)
    requires ExpiredAt(p.sql.books.records, t.books.records, p.time)
    ensures SameRows(p.(sql := t))
  {
    forall i | i in p.mem.books.records
      ensures i in p.to && p.to[i] in t.books.records && t.books.records[p.to[i]] == p.mem.books.records[i]
    {
      assert RowMatches(p.mem.books.records[i], p.sql.books.records[p.to[i]], p.time);
    }
  }

  lemma SameKeys(p: Pair, q: Pair)
    requires Matched(p) && q.to == p.to && q.back == p.back
    requires q.mem.books.records.Keys == p.mem.books.records.Keys
    requires q.sql.books.records.Keys == p.sql.books.records.Keys
    ensures Matched(q)
  {
  }

  /** Updates that keep every row's counter keep the idempotency match. */
  lemma KeysSurvive(p: Pair, q: Pair)
    requires KeysMatch(p) && q.mem.idempotency == p.mem.idempotency && q.to == p.to && q.back == p.back
    requires q.sql.idempotencyKeys == p.sql.idempotencyKeys
    requires q.sql.books.records.Keys == p.sql.books.records.Keys
    requires forall j :: j in p.sql.books.records ==> q.sql.books.records[j].key == p.sql.books.records[j].key
    ensures KeysMatch(q)
  {
    forall e | e in q.mem.idempotency
      ensures q.mem.idempotency[e] in q.to && Carries(q.sql, q.to[q.mem.idempotency[e]], e.0, e.1)
    {
      assert Carries(p.sql, p.to[p.mem.idempotency[e]], e.0, e.1);
    }
  }

  /** Mirrored stores report the same usage for every window that both tally. */
  lemma SameUsage(p: Pair, key: CounterKey)
    requires Mirror(p) && Tallies(p.mem.books, key) && Tallies(p.sql.books, key)
    ensures Usage(p.mem.books, key) == Usage(p.sql.books, key)
  {
    TotalRename(p.mem.books.records, Held(key, Committed), p.sql.books.records, Held(key, Committed), p.to, p.back);
    TotalRename(p.mem.books.records, Held(key, Active), p.sql.books.records, Held(key, Active), p.to, p.back);
  }

  // ---------------------------------------------------------------- answers

  /** The same answer, ids read through the renaming. */
  predicate SameAnswer(m: ReserveAnswer, s: ReserveAnswer, to: map<nat, nat>) {
    match (m, s)
    case (Err(e), Err(f)) => e == f
    case (Ok(a), Ok(b)) =>
      && a.usage == b.usage
      && (match (a.reservation, b.reservation)
          case (None, None) => true
          case (Some(x), Some(y)) => x.id in to && to[x.id] == y.id && x.expiresAt == y.expiresAt
          case _ => false)
    case _ => false
  }

  predicate FitsBackend(req: ReserveRequest) {
    req.amount <= I64_MAX && req.effectiveLimit <= I64_MAX
  }

  /** The row behind an idempotency entry is the only one under its key, and answers replays exactly when it is live. */
  lemma ReplayRow(p: Pair, req: ReserveRequest)
    requires Mirror(p) && Schema(p.sql) && Replays(p.mem, req)
    ensures
      var i := p.mem.idempotency[(req.Target(), req.idempotencyKey.value)];
      && i in p.to && p.to[i] in RowsFor(p.sql, req.Target(), req.idempotencyKey.value)
      && ExistingReservation(p.sql, req.Target(), req.idempotencyKey)
         == if Live(p.mem.books.records[i])
            then Some(ReservationResult(Some(StoreReservation(p.to[i], p.mem.books.records[i].expiresAt)),
                                        Usage(p.sql.books, req.Target())))
            else None
  {
    var name := req.idempotencyKey.value;
    var i := p.mem.idempotency[(req.Target(), name)];
    assert Carries(p.sql, p.to[i], req.Target(), name);
    assert p.to[i] in RowsFor(p.sql, req.Target(), name);
    forall j | j in LiveRows(p.sql, req.Target(), name)
      ensures j == p.to[i]
    {
      OneRow(p.sql, req.Target(), name, j, p.to[i]);
    }
    if Live(p.mem.books.records[i]) {
      assert p.to[i] in LiveRows(p.sql, req.Target(), name);
    }
  }

  lemma NoReplayRow(p: Pair, req: ReserveRequest)
    requires Mirror(p) && !Replays(p.mem, req)
    ensures ExistingReservation(p.sql, req.Target(), req.idempotencyKey).None?
    ensures req.idempotencyKey.Some? ==> RowsFor(p.sql, req.Target(), req.idempotencyKey.value) == {}
    ensures req.idempotencyKey.Some? ==> forall j :: !Carries(p.sql, j, req.Target(), req.idempotencyKey.value)
  {
    if req.idempotencyKey.Some? {
      var name := req.idempotencyKey.value;
      forall j | j in p.sql.idempotencyKeys && j in p.sql.books.records
        ensures !Carries(p.sql, j, req.Target(), name)
      {
        assert (p.sql.books.records[j].key, p.sql.idempotencyKeys[j]) in p.mem.idempotency;
      }
      assert RowsFor(p.sql, req.Target(), name) == {};
      assert LiveRows(p.sql, req.Target(), name) <= RowsFor(p.sql, req.Target(), name);
    }
  }

  /** Mirrored stores pass the same guard. */
  lemma SameGuard(p: Pair, req: ReserveRequest)
    requires Mirror(p) && FitsBackend(req) && InUse(p.mem.books, req.Target()) < U64_MAX
    requires Tallies(p.mem.books, req.Target()) && Tallies(p.sql.books, req.Target())
    ensures Usage(p.mem.books, req.Target()) == Usage(p.sql.books, req.Target())
    ensures Fits(p.mem.books, req) <==> GuardPasses(p.sql.books, req)
  {
    SameUsage(p, req.Target());
    GuardExact(p.mem, req);
  }

  lemma OpenCounterMirrors(p: Pair, key: CounterKey)
    requires Matches(p)
    ensures Matches(p.(sql := OpenCounter(p.sql, key)))
  {
    KeysSurvive(p, p.(sql := OpenCounter(p.sql, key)));
  }

  // ---------------------------------------------------------------- a grant on both sides

  /** The next id is free on both sides. */
  predicate FreshIds(p: Pair) {
    p.mem.nextId + 1 !in p.mem.books.records && p.sql.sequence + 1 !in p.sql.books.records
  }

  function BothGranted(p: Pair, req: ReserveRequest): Pair {
    var m, s := GrantedLedger(p.mem, req), GrantedTables(p.sql, req);
    p.(mem := m, sql := s, to := p.to[m.nextId := s.sequence], back := p.back[s.sequence := m.nextId])
  }

  lemma GrantedEntries(p: Pair, req: ReserveRequest, e: IdempotencyEntry)
    requires Matched(p) && KeysMatch(p) && FreshIds(p) && !Replays(p.mem, req) && e in BothGranted(p, req).mem.idempotency
    ensures
      var q := BothGranted(p, req);
      q.mem.idempotency[e] in q.to && Carries(q.sql, q.to[q.mem.idempotency[e]], e.0, e.1)
  {
    if e in p.mem.idempotency {
      var i: nat := p.mem.idempotency[e];
      assert i in p.to && Carries(p.sql, p.to[i], e.0, e.1);
    }
  }

  lemma GrantedRowKeys(p: Pair, req: ReserveRequest, j: nat)
    requires Matched(p) && KeysMatch(p) && FreshIds(p) && !Replays(p.mem, req)
    requires p.sql.idempotencyKeys.Keys <= p.sql.books.records.Keys
    requires j in BothGranted(p, req).sql.idempotencyKeys && j in BothGranted(p, req).sql.books.records
    ensures
      var q := BothGranted(p, req);
      var e := (q.sql.books.records[j].key, q.sql.idempotencyKeys[j]);
      e in q.mem.idempotency && j in q.back && q.mem.idempotency[e] == q.back[j]
  {
    var q := BothGranted(p, req);
    if j != q.sql.sequence {
      assert j in p.sql.idempotencyKeys && j in p.sql.books.records;
      var e := (p.sql.books.records[j].key, p.sql.idempotencyKeys[j]);
      assert e in p.mem.idempotency && p.mem.idempotency[e] == p.back[j];
      assert req.idempotencyKey.Some? ==> e != (req.Target(), req.idempotencyKey.value);
    } else {
      assert j !in p.sql.books.records;
    }
  }

  lemma GrantedKeysMatch(p: Pair, req: ReserveRequest)
    requires Matched(p) && KeysMatch(p) && FreshIds(p) && !Replays(p.mem, req)
    requires p.sql.idempotencyKeys.Keys <= p.sql.books.records.Keys
    ensures KeysMatch(BothGranted(p, req))
  {
    var q := BothGranted(p, req);
    forall e | e in q.mem.idempotency
      ensures q.mem.idempotency[e] in q.to && Carries(q.sql, q.to[q.mem.idempotency[e]], e.0, e.1)
    {
      GrantedEntries(p, req, e);
    }
    forall j | j in q.sql.idempotencyKeys && j in q.sql.books.records
      ensures (q.sql.books.records[j].key, q.sql.idempotencyKeys[j]) in q.mem.idempotency
      ensures j in q.back && q.mem.idempotency[(q.sql.books.records[j].key, q.sql.idempotencyKeys[j])] == q.back[j]
    {
      GrantedRowKeys(p, req, j);
    }
  }

  lemma GrantedMatched(p: Pair, req: ReserveRequest)
    requires Matched(p) && FreshIds(p)
    ensures Matched(BothGranted(p, req))
  {
    var q := BothGranted(p, req);
    var m, s := q.mem.nextId, q.sql.sequence;
    forall i | i in q.mem.books.records
      ensures i in q.to && q.to[i] in q.sql.books.records && q.to[i] in q.back && q.back[q.to[i]] == i
    {
      assert i != m ==> p.to[i] in p.sql.books.records;
    }
    forall j | j in q.sql.books.records
      ensures j in q.back && q.back[j] in q.mem.books.records && q.back[j] in q.to && q.to[q.back[j]] == j
    {
      assert j != s ==> p.back[j] in p.mem.books.records;
    }
    assert q.to.Keys == q.mem.books.records.Keys;
  }

  lemma GrantedRows(p: Pair, req: ReserveRequest)
    requires Matched(p) && FreshIds(p)
    requires SameRows(p)
    ensures RowsMatch(BothGranted(p, req))
    ensures
      var q := BothGranted(p, req);
      forall i :: i in q.mem.books.records ==> q.sql.books.records[q.to[i]] == q.mem.books.records[i]
  {
    var q := BothGranted(p, req);
    forall i | i in q.mem.books.records
      ensures i in q.to && q.to[i] in q.sql.books.records
      ensures q.sql.books.records[q.to[i]] == q.mem.books.records[i]
    {
      if i != q.mem.nextId {
        assert p.to[i] in p.sql.books.records && p.sql.books.records[p.to[i]] == p.mem.books.records[i];
      }
    }
  }

  lemma GrantMirrors(p: Pair, req: ReserveRequest)
    requires Mirror(p) && FreshIds(p) && !Replays(p.mem, req) && p.sql.idempotencyKeys.Keys <= p.sql.books.records.Keys
    ensures Mirror(BothGranted(p, req))
  {
    GrantedKeysMatch(p, req);
    GrantedMatched(p, req);
    GrantedRows(p, req);
  }

  // ---------------------------------------------------------------- one reserve on both sides

  ghost function PairAfter(c: Pair, m: Ledger, s: Tables): Pair {
    if m.nextId == c.mem.nextId then c.(mem := m, sql := s)
    else c.(mem := m, sql := s, to := c.to[m.nextId := s.sequence], back := c.back[s.sequence := m.nextId])
  }

  /** The pair after both stores reserved: a fresh grant extends the renaming. */
  ghost function AfterReserve(p: Pair, req: ReserveRequest, dialect: Dialect): Pair {
    PairAfter(p.(time := req.now), Memory.Reserve(p.mem, req).state, Sql.Reserve(p.sql, req, dialect).state)
  }

  /** `c` is a pair whose stores have cleaned up, and the counter of the request tallies on both sides. */
  ghost predicate Clean(c: Pair, req: ReserveRequest) {
    && Mirror(c) && Shaped(c.mem) && Schema(c.sql) && c.sql.sequence < I64_MAX && FitsBackend(req)
    && Tallies(c.mem.books, req.Target()) && Tallies(c.sql.books, req.Target()) && InUse(c.mem.books, req.Target()) < U64_MAX
  }

  /** A dead key that does not fit is denied by both; one that fits is rolled back and answered otherwise. */
  lemma DeadReplay(c: Pair, begun: Tables, req: ReserveRequest, dialect: Dialect)
    requires Clean(c, req) && Replays(c.mem, req)
    requires !Live(c.mem.books.records[c.mem.idempotency[(req.Target(), req.idempotencyKey.value)]])
    ensures
      var s := ReserveOn(begun, c.sql, req, dialect);
      if Fits(c.mem.books, req)
      then s.state == RolledBack(begun, dialect) && (s.result.Err? || s.result.value.Allowed())
      else s == Outcome(OpenCounter(c.sql, req.Target()), Ok(ReservationResult(None, Usage(c.mem.books, req.Target()))))
  {
    SameGuard(c, req);
    ReplayRow(c, req);
    DeadReplayOn(begun, c.sql, req, dialect);
  }

  /** The transaction under a key whose row is dead: the guard denies it, or the insert fails. */
  lemma DeadReplayOn(begun: Tables, t: Tables, req: ReserveRequest, dialect: Dialect)
    requires ExistingReservation(t, req.Target(), req.idempotencyKey).None?
    requires req.idempotencyKey.Some? && RowsFor(t, req.Target(), req.idempotencyKey.value) != {}
    ensures
      var s := ReserveOn(begun, t, req, dialect);
      if GuardPasses(t.books, req)
      then s.state == RolledBack(begun, dialect) && (s.result.Err? || s.result.value.Allowed())
      else s == Outcome(OpenCounter(t, req.Target()), Ok(ReservationResult(None, Usage(t.books, req.Target()))))
  {
  }

  /** A live key: both answer from its reservation. */
  lemma LiveReplay(c: Pair, begun: Tables, req: ReserveRequest, dialect: Dialect)
    requires Clean(c, req) && Replays(c.mem, req)
    requires Live(c.mem.books.records[c.mem.idempotency[(req.Target(), req.idempotencyKey.value)]])
    ensures ReserveOn(begun, c.sql, req, dialect).state == c.sql
    ensures SameAnswer(ReserveCleaned(c.mem, req).result, ReserveOn(begun, c.sql, req, dialect).result, c.to)
  {
    ReplayCleaned(c.mem, req);
    ReplayRow(c, req);
    SameUsage(c, req.Target());
  }

  /** A key the ledger holds: both answer from its reservation, or, if it is dead and fits, the stores part. */
  lemma ReplayAnswers(c: Pair, begun: Tables, req: ReserveRequest, dialect: Dialect)
    requires Clean(c, req) && Replays(c.mem, req)
    ensures
      var s := ReserveOn(begun, c.sql, req, dialect);
      && s.state == (if ReusesDeadKey(c.mem, req) then RolledBack(begun, dialect)
                     else if Live(c.mem.books.records[c.mem.idempotency[(req.Target(), req.idempotencyKey.value)]]) then c.sql
                     else OpenCounter(c.sql, req.Target()))
      && (SameAnswer(ReserveCleaned(c.mem, req).result, s.result, c.to) <==> !ReusesDeadKey(c.mem, req))
  {
    ReplayCleaned(c.mem, req);
    if Live(c.mem.books.records[c.mem.idempotency[(req.Target(), req.idempotencyKey.value)]]) {
      LiveReplay(c, begun, req, dialect);
    } else {
      DeadReplay(c, begun, req, dialect);
    }
  }

  /** Where the two are after a transaction on `begun`, and whether they said the same. */
  ghost predicate Alike(c: Pair, m: Outcome<Ledger, ReserveAnswer>, s: Outcome<Tables, ReserveAnswer>, same: bool) {
    var q := PairAfter(c, m.state, s.state);
    && Matches(q) && s.state.sequence <= c.sql.sequence + 1
    && (SameAnswer(m.result, s.result, q.to) <==> same)
  }

  /** A replay leaves the ledger alone; what the tables become is all that changes in the pair. */
  lemma ReplayPair(c: Pair, req: ReserveRequest, s: Tables)
    requires Replays(c.mem, req)
    ensures PairAfter(c, ReserveCleaned(c.mem, req).state, s) == c.(sql := s)
  {
  }

  lemma ReplayMatches(c: Pair, begun: Tables, req: ReserveRequest, dialect: Dialect, s: Tables)
    requires Matches(c) && Matches(c.(sql := begun)) && begun.sequence == c.sql.sequence
    requires s == RolledBack(begun, dialect) || s == c.sql || s == OpenCounter(c.sql, req.Target())
    ensures Matches(c.(sql := s)) && s.sequence <= c.sql.sequence + 1
  {
    RollbackMatches(c, begun, dialect);
    OpenCounterMirrors(c, req.Target());
  }

  lemma ReplayAgrees(c: Pair, begun: Tables, req: ReserveRequest, dialect: Dialect)
    requires Clean(c, req) && Replays(c.mem, req)
    requires Matches(c.(sql := begun)) && begun.sequence == c.sql.sequence
    ensures Alike(c, ReserveCleaned(c.mem, req), ReserveOn(begun, c.sql, req, dialect), !ReusesDeadKey(c.mem, req))
  {
    var s := ReserveOn(begun, c.sql, req, dialect).state;
    ReplayAnswers(c, begun, req, dialect);
    ReplayMatches(c, begun, req, dialect, s);
    ReplayPair(c, req, s);
  }

  /** A key the ledger does not hold, and no room: both deny. */
  lemma DeniedAlike(c: Pair, begun: Tables, req: ReserveRequest, dialect: Dialect)
    requires Clean(c, req) && !Replays(c.mem, req) && !Fits(c.mem.books, req)
    ensures Alike(c, ReserveCleaned(c.mem, req), ReserveOn(begun, c.sql, req, dialect), true)
  {
    SameGuard(c, req);
    NoReplayRow(c, req);
    OpenCounterMirrors(c, req.Target());
  }

  /** What both answer and leave when a fresh request fits. */
  lemma FreshOutcomes(c: Pair, begun: Tables, req: ReserveRequest, dialect: Dialect)
    requires Clean(c, req) && !Replays(c.mem, req) && Fits(c.mem.books, req)
    ensures
      var m, s := ReserveCleaned(c.mem, req), ReserveOn(begun, c.sql, req, dialect);
      && m.state == BothGranted(c, req).mem && s.state == BothGranted(c, req).sql
      && SameAnswer(m.result, s.result, BothGranted(c, req).to)
  {
    SameGuard(c, req);
    NoReplayRow(c, req);
    GuardExact(c.mem, req);
  }

  /** A key the ledger does not hold, and room: both grant on their next id. */
  lemma GrantedAlike(c: Pair, begun: Tables, req: ReserveRequest, dialect: Dialect)
    requires Clean(c, req) && !Replays(c.mem, req) && Fits(c.mem.books, req)
    ensures Alike(c, ReserveCleaned(c.mem, req), ReserveOn(begun, c.sql, req, dialect), true)
  {
    FreshOutcomes(c, begun, req, dialect);
    GrantMirrors(c, req);
  }

  /** `begun` is what the tables were before the transaction's cleanup, `c` the pair once both have cleaned up. */
  lemma ReserveOnAgrees(c: Pair, begun: Tables, req: ReserveRequest, dialect: Dialect)
    requires Clean(c, req) && Matches(c.(sql := begun)) && begun.sequence == c.sql.sequence
    ensures Alike(c, ReserveCleaned(c.mem, req), ReserveOn(begun, c.sql, req, dialect), !ReusesDeadKey(c.mem, req))
  {
    if Replays(c.mem, req) {
      ReplayAgrees(c, begun, req, dialect);
    } else if Fits(c.mem.books, req) {
      GrantedAlike(c, begun, req, dialect);
    } else {
      DeniedAlike(c, begun, req, dialect);
    }
  }

  lemma RollbackMatches(c: Pair, begun: Tables, dialect: Dialect)
    requires Matches(c.(sql := begun))
    ensures Matches(c.(sql := RolledBack(begun, dialect)))
  {
    KeysSurvive(c.(sql := begun), c.(sql := RolledBack(begun, dialect)));
  }

  /** Both stores cleaned up at the instant of the request. */
  ghost function CleanedPair(p: Pair, now: int): Pair {
    p.(mem := CleanedLedger(p.mem, now), sql := CleanedTables(p.sql, now), time := now)
  }

  lemma CleanedIsClean(p: Pair, req: ReserveRequest)
    requires Sim(p) && p.time <= req.now && FitsBackend(req) && p.sql.sequence < I64_MAX
    ensures Clean(CleanedPair(p, req.now), req)
  {
    var key := req.Target();
    SoundIsShaped(p.mem);
    SoundIsTidy(p.mem, key);
    CleanupShaped(p.mem, req.now);
    CleanupTallies(p.mem.books, req.now, key);
    assert Tallies(p.sql.books, key);
    CleanupTallies(p.sql.books, req.now, key);
    CleanupKeepsSchema(p.sql, req.now);
    CleanupMirrors(p, req.now);
  }

  lemma AfterReserveUnfolds(p: Pair, req: ReserveRequest, dialect: Dialect)
    requires req.Validate().Ok? && FitsBackend(req)
    ensures
      var c := CleanedPair(p, req.now);
      && Memory.Reserve(p.mem, req) == ReserveCleaned(c.mem, req)
      && Sql.Reserve(p.sql, req, dialect) == ReserveOn(p.sql, c.sql, req, dialect)
      && AfterReserve(p, req, dialect)
         == PairAfter(c, ReserveCleaned(c.mem, req).state, ReserveOn(p.sql, c.sql, req, dialect).state)
  {
  }

  lemma ValidReserveAgrees(p: Pair, req: ReserveRequest, dialect: Dialect)
    requires Sim(p) && p.time <= req.now && FitsBackend(req) && p.sql.sequence < I64_MAX && req.Validate().Ok?
    ensures Alike(CleanedPair(p, req.now), Memory.Reserve(p.mem, req), Sql.Reserve(p.sql, req, dialect),
                  !ReusesDeadKey(CleanedLedger(p.mem, req.now), req))
    ensures
      var c := CleanedPair(p, req.now);
      AfterReserve(p, req, dialect) == PairAfter(c, Memory.Reserve(p.mem, req).state, Sql.Reserve(p.sql, req, dialect).state)
  {
    var c := CleanedPair(p, req.now);
    AfterReserveUnfolds(p, req, dialect);
    assert Clean(c, req) by { CleanedIsClean(p, req); }
    assert Matches(c.(sql := p.sql)) by {
      LazyMatches(p, req.now);
      assert c.(sql := p.sql) == p.(mem := CleanedLedger(p.mem, req.now), time := req.now);
    }
    ReserveOnAgrees(c, p.sql, req, dialect);
  }

  lemma RefusedReserveAgrees(p: Pair, req: ReserveRequest, dialect: Dialect)
    requires Matches(p) && p.time <= req.now && FitsBackend(req) && req.Validate().Err?
    ensures Matches(AfterReserve(p, req, dialect)) && AfterReserve(p, req, dialect).sql.sequence == p.sql.sequence
    ensures SameAnswer(Memory.Reserve(p.mem, req).result, Sql.Reserve(p.sql, req, dialect).result, AfterReserve(p, req, dialect).to)
  {
    TimePasses(p, req.now);
  }

  /** The request parts the stores. */
  ghost predicate Parts(p: Pair, req: ReserveRequest) {
    req.Validate().Ok? && ReusesDeadKey(CleanedLedger(p.mem, req.now), req)
  }

  /** The stores answer a reserve alike exactly when it does not reuse a dead key that would fit. */
  lemma ReserveAgrees(p: Pair, req: ReserveRequest, dialect: Dialect)
    requires Sim(p) && p.time <= req.now && FitsBackend(req) && p.sql.sequence < I64_MAX
    ensures Matches(AfterReserve(p, req, dialect)) && AfterReserve(p, req, dialect).sql.sequence <= p.sql.sequence + 1
    ensures SameAnswer(Memory.Reserve(p.mem, req).result, Sql.Reserve(p.sql, req, dialect).result, AfterReserve(p, req, dialect).to)
            <==> !Parts(p, req)
  {
    if req.Validate().Ok? {
      ValidReserveAgrees(p, req, dialect);
    } else {
      RefusedReserveAgrees(p, req, dialect);
    }
  }

  lemma TimePasses(p: Pair, now: int)
    requires Matches(p) && p.time <= now
    ensures Matches(p.(time := now))
  {
    var q := p.(time := now);
    forall i | i in q.mem.books.records
      ensures RowMatches(q.mem.books.records[i], q.sql.books.records[q.to[i]], now)
    {
      assert RowMatches(p.mem.books.records[i], p.sql.books.records[p.to[i]], p.time);
    }
    KeysSurvive(p, q);
  }

  // ---------------------------------------------------------------- settling and reading on both sides

  /** The id a caller of the SQL store has for this reservation: its row, or an id that no row has. */
  ghost predicate SameReservation(p: Pair, id: nat, row: nat) {
    if id in p.to then row == p.to[id] else row !in p.sql.books.records
  }

  /** One row's change beside the same change in the ledger keeps the rows matched. */
  lemma UpdateRows(p: Pair, i: nat, r: Record, row: Record, m: Ledger, t: Tables)
    requires Matched(p) && RowsMatch(p) && i in p.mem.books.records
    requires m.books.records == p.mem.books.records[i := r]
    requires t.books.records == p.sql.books.records[p.to[i] := row]
    requires RowMatches(r, row, p.time)
    ensures Matched(p.(mem := m, sql := t)) && RowsMatch(p.(mem := m, sql := t))
  {
    var q := p.(mem := m, sql := t);
    assert p.to[i] in p.sql.books.records;
    assert m.books.records.Keys == p.mem.books.records.Keys;
    assert t.books.records.Keys == p.sql.books.records.Keys;
    SameKeys(p, q);
    forall k | k in m.books.records
      ensures k in q.to && q.to[k] in t.books.records
      ensures RowMatches(m.books.records[k], t.books.records[q.to[k]], q.time)
    {
      assert RowMatches(p.mem.books.records[k], p.sql.books.records[p.to[k]], p.time);
      assert k != i ==> p.to[k] != p.to[i];
    }
  }

  lemma UpdateKeys(p: Pair, j: nat, row: Record, m: Ledger, t: Tables)
    requires KeysMatch(p) && m.idempotency == p.mem.idempotency && t.idempotencyKeys == p.sql.idempotencyKeys
    requires j in p.sql.books.records && row.key == p.sql.books.records[j].key
    requires t.books.records == p.sql.books.records[j := row]
    ensures KeysMatch(p.(mem := m, sql := t))
  {
    assert t.books.records.Keys == p.sql.books.records.Keys;
    KeysSurvive(p, p.(mem := m, sql := t));
  }

  lemma UpdateMatches(p: Pair, i: nat, r: Record, row: Record, m: Ledger, t: Tables)
    requires Matches(p) && i in p.mem.books.records
    requires m.nextId == p.mem.nextId && m.idempotency == p.mem.idempotency
    requires t.sequence == p.sql.sequence && t.idempotencyKeys == p.sql.idempotencyKeys
    requires m.books.records == p.mem.books.records[i := r]
    requires p.to[i] in p.sql.books.records && row.key == p.sql.books.records[p.to[i]].key
    requires t.books.records == p.sql.books.records[p.to[i] := row]
    requires RowMatches(r, row, p.time)
    ensures Matches(p.(mem := m, sql := t))
  {
    UpdateRows(p, i, r, row, m, t);
    UpdateKeys(p, p.to[i], row, m, t);
  }

  /** Both stores' outcomes of finishing leave matching stores and say the same. */
  ghost predicate FinishAlike(p: Pair, m: Outcome<Ledger, FinishAnswer>, s: Outcome<Tables, FinishAnswer>) {
    m.result == s.result && Matches(p.(mem := m.state, sql := s.state)) && s.state.sequence == p.sql.sequence
  }

  /** The SQL row is due: the ledger, already cleaned, has expired it, and now the row is expired too. */
  lemma FinishDueAgrees(p: Pair, i: nat, commit: bool)
    requires Matches(p) && NoneDue(p.mem.books.records, p.time)
    requires i in p.mem.books.records && p.to[i] <= I64_MAX && Due(p.sql.books.records[p.to[i]], p.time)
    ensures FinishAlike(p, FinishCleaned(p.mem, i, commit), Sql.Finish(p.sql, p.to[i], commit, p.time))
  {
    var j := p.to[i];
    var r, row := p.mem.books.records[i], p.sql.books.records[j];
    assert RowMatches(r, row, p.time);
    assert r.status.Expired?;
    assert p.mem.books.records == p.mem.books.records[i := r];
    UpdateMatches(p, i, r, row.(status := Expired), p.mem, p.sql.(books := ExpireOne(p.sql.books, j)));
  }

  /** The row is open on both sides: both settle it. */
  lemma FinishOpenAgrees(p: Pair, i: nat, commit: bool)
    requires Matches(p) && Shaped(p.mem)
    requires i in p.mem.books.records && p.to[i] <= I64_MAX && p.sql.books.records[p.to[i]].status.Active?
    requires !Due(p.sql.books.records[p.to[i]], p.time)
    ensures FinishAlike(p, FinishCleaned(p.mem, i, commit), Sql.Finish(p.sql, p.to[i], commit, p.time))
  {
    var j := p.to[i];
    assert RowMatches(p.mem.books.records[i], p.sql.books.records[j], p.time);
    var m := FinishCleaned(p.mem, i, commit).state;
    var t := p.sql.(books := SettledRow(p.sql.books, j, commit));
    UpdateMatches(p, i, m.books.records[i], t.books.records[j], m, t);
  }

  /** Nothing happens on either side to an unknown reservation or one already closed. */
  lemma FinishShutAgrees(p: Pair, id: nat, row: nat, commit: bool)
    requires Matches(p) && SameReservation(p, id, row) && row <= I64_MAX
    requires id in p.mem.books.records ==> !p.sql.books.records[row].status.Active?
    ensures FinishAlike(p, FinishCleaned(p.mem, id, commit), Sql.Finish(p.sql, row, commit, p.time))
  {
    if id in p.mem.books.records {
      assert RowMatches(p.mem.books.records[id], p.sql.books.records[row], p.time);
    }
  }

  lemma FinishCleanedAgrees(c: Pair, id: nat, row: nat, commit: bool)
    requires Matches(c) && Shaped(c.mem) && NoneDue(c.mem.books.records, c.time)
    requires SameReservation(c, id, row) && row <= I64_MAX
    ensures FinishAlike(c, FinishCleaned(c.mem, id, commit), Sql.Finish(c.sql, row, commit, c.time))
  {
    if id in c.mem.books.records && Due(c.sql.books.records[row], c.time) {
      FinishDueAgrees(c, id, commit);
    } else if id in c.mem.books.records && c.sql.books.records[row].status.Active? {
      FinishOpenAgrees(c, id, commit);
    } else {
      FinishShutAgrees(c, id, row, commit);
    }
  }

  /** Commit and refund agree, whatever the two stores still have due besides, on every id and on unknown ones. */
  lemma FinishAgrees(p: Pair, id: nat, row: nat, commit: bool, now: int)
    requires Matches(p) && Shaped(p.mem) && p.time <= now && SameReservation(p, id, row) && row <= I64_MAX
    ensures FinishAlike(p.(time := now), Memory.Finish(p.mem, id, commit, now), Sql.Finish(p.sql, row, commit, now))
  {
    var c := p.(mem := CleanedLedger(p.mem, now), time := now);
    LazyMatches(p, now);
    CleanupLeavesNoneDue(p.mem.books, now);
    CleanupShaped(p.mem, now);
    FinishCleanedAgrees(c, id, row, commit);
  }

  lemma ReadAgrees(p: Pair, key: CounterKey, now: int)
    requires Matches(p) && p.time <= now && Tallies(p.mem.books, key) && Tallies(p.sql.books, key)
    ensures Memory.Read(p.mem, key, now).result == Sql.Read(p.sql, key, now).result
  {
    CleanupMirrors(p, now);
    CleanupTallies(p.mem.books, now, key);
    CleanupTallies(p.sql.books, now, key);
    SameUsage(CleanedPair(p, now), key);
  }

  // ---------------------------------------------------------------- whole runs

  /** One non-decreasing clock, and amounts and limits that fit the backend's integers. */
  predicate Admissible(ops: seq<Op>, time: int)
    decreases |ops|
  {
    ops == [] || (time <= OpTime(ops[0]) && (ops[0].ReserveOp? ==> FitsBackend(ops[0].req)) && Admissible(ops[1..], OpTime(ops[0])))
  }

  /** In a run, an id that nobody was handed is zero on the SQL side, which no row has. */
  function RowId(p: Pair, id: nat): nat {
    if id in p.to then p.to[id] else 0
  }

  function SqlOp(p: Pair, op: Op): Op {
    if op.FinishOp? then op.(id := RowId(p, op.id)) else op
  }

  ghost function PairStep(p: Pair, op: Op, dialect: Dialect): Pair {
    match op
    case ReserveOp(req) => AfterReserve(p, req, dialect)
    case FinishOp(_, _, _) => p.(mem := Apply(p.mem, op), sql := SqlStep(p.sql, SqlOp(p, op), dialect), time := OpTime(op))
    case ReadOp(_, _) => p.(mem := Apply(p.mem, op), sql := SqlStep(p.sql, SqlOp(p, op), dialect), time := OpTime(op))
  }

  /** The two stores give the same answer to one operation. */
  ghost predicate SameStep(p: Pair, op: Op, dialect: Dialect) {
    match op
    case ReserveOp(req) =>
      SameAnswer(Memory.Reserve(p.mem, req).result, Sql.Reserve(p.sql, req, dialect).result, AfterReserve(p, req, dialect).to)
    case FinishOp(id, commit, now) =>
      Memory.Finish(p.mem, id, commit, now).result == Sql.Finish(p.sql, RowId(p, id), commit, now).result
    case ReadOp(key, now) => Memory.Read(p.mem, key, now).result == Sql.Read(p.sql, key, now).result
  }

  ghost predicate DeadReuse(p: Pair, op: Op) {
    op.ReserveOp? && Parts(p, op.req)
  }

  ghost predicate SameAlong(p: Pair, ops: seq<Op>, dialect: Dialect)
    decreases |ops|
  {
    ops == [] || (SameStep(p, ops[0], dialect) && SameAlong(PairStep(p, ops[0], dialect), ops[1..], dialect))
  }

  ghost predicate NoDeadReuse(p: Pair, ops: seq<Op>, dialect: Dialect)
    decreases |ops|
  {
    ops == [] || (!DeadReuse(p, ops[0]) && NoDeadReuse(PairStep(p, ops[0], dialect), ops[1..], dialect))
  }

  ghost function PairRun(p: Pair, ops: seq<Op>, dialect: Dialect): Pair
    decreases |ops|
  {
    if ops == [] then p else PairRun(PairStep(p, ops[0], dialect), ops[1..], dialect)
  }

  /** The step of the pair is a step of each store. */
  lemma StepStores(p: Pair, op: Op, dialect: Dialect)
    ensures PairStep(p, op, dialect).mem == Apply(p.mem, op)
    ensures PairStep(p, op, dialect).sql == SqlStep(p.sql, SqlOp(p, op), dialect)
    ensures PairStep(p, op, dialect).time == OpTime(op)
  {
  }

  lemma SqlConserved(t: Tables, op: Op, dialect: Dialect)
    requires Schema(t) && Conserved(t.books)
    ensures Conserved(SqlStep(t, op, dialect).books)
  {
    var u := SqlStep(t, op, dialect);
    SqlStepFiled(t, op, dialect);
    forall key
      ensures Usage(u.books, key) == Counter(Sum(u.books.records, key, Committed), Sum(u.books.records, key, Active))
    {
      assert Tallies(t.books, key);
      SqlStepTidy(t, op, dialect, key, InUse(t.books, key) + if op.ReserveOp? then op.req.effectiveLimit else 0);
    }
  }

  lemma StepHealthy(p: Pair, op: Op, dialect: Dialect)
    requires Healthy(p) && (op.ReserveOp? ==> FitsBackend(op.req))
    ensures Healthy(PairStep(p, op, dialect))
  {
    StepStores(p, op, dialect);
    StepSound(p.mem, op);
    SqlConserved(p.sql, SqlOp(p, op), dialect);
    SqlStepKeepsRows(p.sql, SqlOp(p, op), dialect);
  }

  lemma RowIdSame(p: Pair, id: nat)
    requires Matches(p) && Schema(p.sql) && p.sql.sequence <= I64_MAX
    ensures SameReservation(p, id, RowId(p, id)) && RowId(p, id) <= I64_MAX
  {
    if id in p.to {
      assert p.to[id] in p.sql.books.records;
    }
  }

  lemma FinishStepAgrees(p: Pair, op: Op, dialect: Dialect)
    requires Sim(p) && op.FinishOp? && p.time <= op.now && p.sql.sequence < I64_MAX
    ensures Matches(PairStep(p, op, dialect)) && PairStep(p, op, dialect).sql.sequence == p.sql.sequence
    ensures SameStep(p, op, dialect)
  {
    SoundIsShaped(p.mem);
    RowIdSame(p, op.id);
    FinishAgrees(p, op.id, RowId(p, op.id), op.commit, op.now);
  }

  lemma ReadStepAgrees(p: Pair, op: Op, dialect: Dialect)
    requires Sim(p) && op.ReadOp? && p.time <= op.now
    ensures Matches(PairStep(p, op, dialect)) && PairStep(p, op, dialect).sql.sequence == p.sql.sequence
    ensures SameStep(p, op, dialect)
  {
    SoundIsTidy(p.mem, op.key);
    assert Tallies(p.sql.books, op.key);
    ReadAgrees(p, op.key, op.now);
    CleanupMirrors(p, op.now);
  }

  /** One operation keeps the stores matched, and is answered alike exactly when it reuses no dead key. */
  lemma StepAgrees(p: Pair, op: Op, dialect: Dialect)
    requires Sim(p) && p.time <= OpTime(op) && (op.ReserveOp? ==> FitsBackend(op.req)) && p.sql.sequence < I64_MAX
    ensures Matches(PairStep(p, op, dialect)) && PairStep(p, op, dialect).sql.sequence <= p.sql.sequence + 1
    ensures SameStep(p, op, dialect) <==> !DeadReuse(p, op)
  {
    match op {
      case ReserveOp(req) => ReserveAgrees(p, req, dialect);
      case FinishOp(_, _, _) => FinishStepAgrees(p, op, dialect);
      case ReadOp(_, _) => ReadStepAgrees(p, op, dialect);
    }
  }

  /**
   * Eager and lazy expiry agree over whole runs: the stores stay matched on every admissible run, and answer every
   * operation alike exactly when no operation reuses a dead key that would fit.
   */
  lemma {:induction false} RunAgrees(p: Pair, ops: seq<Op>, dialect: Dialect)
    requires Sim(p) && Admissible(ops, p.time) && p.sql.sequence + |ops| <= I64_MAX
    ensures Sim(PairRun(p, ops, dialect))
    ensures SameAlong(p, ops, dialect) <==> NoDeadReuse(p, ops, dialect)
    decreases |ops|
  {
    if ops != [] {
      StepAgrees(p, ops[0], dialect);
      StepHealthy(p, ops[0], dialect);
      StepStores(p, ops[0], dialect);
      RunAgrees(PairStep(p, ops[0], dialect), ops[1..], dialect);
    }
  }

  /** At the end of any admissible run from empty stores, both report the same usage at every later instant. */
  lemma UsageAgrees(start: int, ops: seq<Op>, dialect: Dialect, key: CounterKey, now: int)
    requires Admissible(ops, start) && |ops| <= I64_MAX && PairRun(START.(time := start), ops, dialect).time <= now
    ensures
      var p := PairRun(START.(time := start), ops, dialect);
      Memory.Read(p.mem, key, now).result == Sql.Read(p.sql, key, now).result
  {
    var p := PairRun(START.(time := start), ops, dialect);
    StartSim(start);
    RunAgrees(START.(time := start), ops, dialect);
    SoundIsTidy(p.mem, key);
    assert Tallies(p.sql.books, key);
    ReadAgrees(p, key, now);
  }

  // ---------------------------------------------------------------- where they part

  /**
   * What the SQL stores answer where they part from the ledger. The failed insert rolls the cleanup back too, so a
   * row that only this transaction had expired is active again and is replayed as allowed, past its expiry.
   */
  lemma DeadKeyAnswer(t: Tables, req: ReserveRequest, dialect: Dialect, id: nat)
    requires Schema(t) && t.sequence < I64_MAX && req.Validate().Ok? && FitsBackend(req) && req.idempotencyKey.Some?
    requires id in RowsFor(t, req.Target(), req.idempotencyKey.value)
    requires !Live(Cleaned(t.books, req.now).records[id]) && GuardPasses(Cleaned(t.books, req.now), req)
    ensures Sql.Reserve(t, req, dialect) == Outcome(t.(sequence := t.sequence + if dialect.Postgres? then 1 else 0),
      if Due(t.books.records[id], req.now)
      then Ok(ReservationResult(Some(StoreReservation(id, t.books.records[id].expiresAt)), Usage(t.books, req.Target())))
      else Err(Other("database error")))
  {
    var c := CleanedTables(t, req.now);
    CleanupKeepsSchema(t, req.now);
    CleanupAdvances(t.books, req.now);
    DeadKeyAnswerOn(t, c, req, dialect, id);
  }

  lemma DeadKeyAnswerOn(t: Tables, c: Tables, req: ReserveRequest, dialect: Dialect, id: nat)
    requires Schema(t) && Schema(c) && t.sequence < I64_MAX && req.idempotencyKey.Some?
    requires id in RowsFor(t, req.Target(), req.idempotencyKey.value)
    requires c.idempotencyKeys == t.idempotencyKeys && ExpiredAt(t.books.records, c.books.records, req.now)
    requires !Live(c.books.records[id]) && GuardPasses(c.books, req)
    ensures ReserveOn(t, c, req, dialect) == Outcome(RolledBack(t, dialect),
      if Due(t.books.records[id], req.now)
      then Ok(ReservationResult(Some(StoreReservation(id, t.books.records[id].expiresAt)), Usage(t.books, req.Target())))
      else Err(DATABASE_ERROR))
  {
    var key, name := req.Target(), req.idempotencyKey.value;
    RollbackKeepsSchema(t, dialect);
    OnlyRow(c, key, name, id);
    OnlyRow(RolledBack(t, dialect), key, name, id);
    assert id in RowsFor(c, key, name);
  }

  /** With one row under a key, the replay query finds it if it is live and nothing otherwise. */
  lemma OnlyRow(t: Tables, key: CounterKey, name: string, id: nat)
    requires Schema(t) && id in RowsFor(t, key, name)
    ensures ExistingReservation(t, key, Some(name))
         == if Live(t.books.records[id])
            then Some(ReservationResult(Some(StoreReservation(id, t.books.records[id].expiresAt)), Usage(t.books, key)))
            else None
  {
    forall j | j in LiveRows(t, key, name)
      ensures j == id
    {
      OneRow(t, key, name, j, id);
    }
    if Live(t.books.records[id]) {
      assert id in LiveRows(t, key, name);
    }
  }
}
