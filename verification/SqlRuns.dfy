/** Whole runs of the SQL stores, at any instants: conservation, limits, lifecycle and one row per idempotency key. */
module SqlRuns {
  import opened Prelude
  import opened Contract
  import opened Accounts
  import opened LedgerRuns
  import opened Sql

  ghost function SqlStep(t: Tables, op: Op, dialect: Dialect): Tables {
    match op
    case ReserveOp(req) => Sql.Reserve(t, req, dialect).state
    case FinishOp(id, commit, now) => Sql.Finish(t, id, commit, now).state
    case ReadOp(key, now) => Sql.Read(t, key, now).state
  }

  ghost function SqlRun(t: Tables, ops: seq<Op>, dialect: Dialect): Tables
    decreases |ops|
  {
    if ops == [] then t else SqlRun(SqlStep(t, ops[0], dialect), ops[1..], dialect)
  }

  // ---------------------------------------------------------------- rows

  /** What no SQL transaction undoes: rows stay, under their keys, and only active ones change status. */
  ghost predicate RowsKept(t: Tables, u: Tables) {
    && Schema(u)
    && RecordsAdvance(t.books.records, u.books.records)
    && (forall j :: j in t.idempotencyKeys ==> j in u.idempotencyKeys && u.idempotencyKeys[j] == t.idempotencyKeys[j])
  }

  lemma UpdateSchema(t: Tables, u: Tables, j: nat, row: Record)
    requires Schema(t) && j in t.books.records && row.key == t.books.records[j].key
    requires u.books.records == t.books.records[j := row]
    requires u.sequence == t.sequence && u.idempotencyKeys == t.idempotencyKeys
    ensures Schema(u)
  {
    forall a, b | SameIndexEntry(u, a, b)
      ensures a == b
    {
      assert SameIndexEntry(t, a, b);
    }
  }

  lemma OpenCounterSchema(t: Tables, key: CounterKey)
    requires Schema(t)
    ensures Schema(OpenCounter(t, key))
  {
    forall i, j | SameIndexEntry(OpenCounter(t, key), i, j)
      ensures i == j
    {
      assert SameIndexEntry(t, i, j);
    }
  }

  lemma InsertKeepsRows(c: Tables, req: ReserveRequest)
    requires Schema(c) && !InsertFails(c, req)
    ensures RowsKept(c, GrantedTables(c, req))
  {
    var u := GrantedTables(c, req);
    assert c.sequence + 1 !in c.books.records;
    forall k | k in c.idempotencyKeys && k in c.books.records
      ensures Some(c.idempotencyKeys[k]) == req.idempotencyKey ==> c.books.records[k].key != req.Target()
    {
      assert req.idempotencyKey.Some? ==> k !in RowsFor(c, req.Target(), req.idempotencyKey.value);
    }
    forall i, j | SameIndexEntry(u, i, j)
      ensures i == j
    {
      if i != u.sequence && j != u.sequence {
        assert SameIndexEntry(c, i, j);
      }
    }
  }

  /** The four ways a transaction on `t`, cleaned to `c`, can leave the tables. */
  lemma ReserveOnCases(t: Tables, c: Tables, req: ReserveRequest, dialect: Dialect)
    ensures
      var u := ReserveOn(t, c, req, dialect).state;
      || u == c || u == OpenCounter(c, req.Target()) || u == RolledBack(t, dialect)
      || (u == GrantedTables(c, req) && !InsertFails(c, req) && GuardPasses(c.books, req))
  {
  }

  lemma ReserveOnKeepsRows(t: Tables, c: Tables, req: ReserveRequest, dialect: Dialect)
    requires Schema(t) && RowsKept(t, c) && c.sequence == t.sequence
    ensures RowsKept(t, ReserveOn(t, c, req, dialect).state)
  {
    var u := ReserveOn(t, c, req, dialect).state;
    ReserveOnCases(t, c, req, dialect);
    if u == GrantedTables(c, req) && !InsertFails(c, req) {
      InsertKeepsRows(c, req);
      RecordsAdvanceTransitive(t.books.records, c.books.records, u.books.records);
    } else if u == RolledBack(t, dialect) {
      RollbackKeepsSchema(t, dialect);
    } else {
      OpenCounterSchema(c, req.Target());
    }
  }

  lemma FinishKeepsRows(t: Tables, id: nat, commit: bool, now: int)
    requires Schema(t)
    ensures RowsKept(t, Sql.Finish(t, id, commit, now).state)
  {
    var u := Sql.Finish(t, id, commit, now).state;
    if u != t {
      UpdateSchema(t, u, id, u.books.records[id]);
    }
  }

  lemma CleanupKeepsRows(t: Tables, now: int)
    requires Schema(t)
    ensures RowsKept(t, CleanedTables(t, now))
  {
    CleanupKeepsSchema(t, now);
    CleanupAdvances(t.books, now);
  }

  lemma ReserveKeepsRows(t: Tables, req: ReserveRequest, dialect: Dialect)
    requires Schema(t)
    ensures RowsKept(t, ReserveOn(t, CleanedTables(t, req.now), req, dialect).state)
  {
    CleanupKeepsRows(t, req.now);
    ReserveOnKeepsRows(t, CleanedTables(t, req.now), req, dialect);
  }

  lemma SqlStepKeepsRows(t: Tables, op: Op, dialect: Dialect)
    requires Schema(t)
    ensures RowsKept(t, SqlStep(t, op, dialect))
  {
    match op {
      case ReserveOp(req) => ReserveKeepsRows(t, req, dialect);
      case FinishOp(id, commit, now) => FinishKeepsRows(t, id, commit, now);
      case ReadOp(key, now) => CleanupKeepsRows(t, now);
    }
  }

  /** Over any SQL run, at any timestamps, rows stay under their keys and only active rows change status. */
  lemma {:induction false} SqlRunKeepsRows(t: Tables, ops: seq<Op>, dialect: Dialect)
    requires Schema(t)
    ensures RowsKept(t, SqlRun(t, ops, dialect))
    decreases |ops|
  {
    if ops != [] {
      var u := SqlStep(t, ops[0], dialect);
      SqlStepKeepsRows(t, ops[0], dialect);
      SqlRunKeepsRows(u, ops[1..], dialect);
      RecordsAdvanceTransitive(t.books.records, u.books.records, SqlRun(t, ops, dialect).books.records);
    }
  }

  // ---------------------------------------------------------------- one row per key

  /** The operation inserts a row for this counter under this idempotency key. */
  ghost predicate Inserts(t: Tables, op: Op, dialect: Dialect, key: CounterKey, name: string) {
    && op.ReserveOp? && op.req.Target() == key && op.req.idempotencyKey == Some(name)
    && SqlStep(t, op, dialect).books.records.Keys != t.books.records.Keys
  }

  /** How many rows a run inserts for one counter under one idempotency key. */
  ghost function InsertsUnder(t: Tables, ops: seq<Op>, dialect: Dialect, key: CounterKey, name: string): nat
    decreases |ops|
  {
    if ops == [] then 0
    else
      (if Inserts(t, ops[0], dialect, key, name) then 1 else 0)
      + InsertsUnder(SqlStep(t, ops[0], dialect), ops[1..], dialect, key, name)
  }

  lemma InsertIsFirst(t: Tables, c: Tables, req: ReserveRequest, dialect: Dialect)
    requires req.idempotencyKey.Some? && c.books.records.Keys == t.books.records.Keys
    requires ReserveOn(t, c, req, dialect).state.books.records.Keys != t.books.records.Keys
    ensures RowsFor(c, req.Target(), req.idempotencyKey.value) == {}
    ensures RowsFor(ReserveOn(t, c, req, dialect).state, req.Target(), req.idempotencyKey.value) != {}
  {
    var u := ReserveOn(t, c, req, dialect).state;
    assert u == GrantedTables(c, req);
    assert Carries(u, u.sequence, req.Target(), req.idempotencyKey.value);
    assert u.sequence in RowsFor(u, req.Target(), req.idempotencyKey.value);
  }

  lemma RowsRemain(t: Tables, u: Tables, key: CounterKey, name: string)
    requires RowsKept(t, u)
    ensures RowsFor(t, key, name) <= RowsFor(u, key, name)
  {
    forall id | id in RowsFor(t, key, name)
      ensures id in RowsFor(u, key, name)
    {
      assert RecordAdvances(t.books.records[id], u.books.records[id]);
    }
  }

  lemma InsertStep(t: Tables, op: Op, dialect: Dialect, key: CounterKey, name: string)
    requires Schema(t) && Inserts(t, op, dialect, key, name)
    ensures RowsFor(t, key, name) == {} && RowsFor(SqlStep(t, op, dialect), key, name) != {}
  {
    var c := CleanedTables(t, op.req.now);
    CleanupKeepsRows(t, op.req.now);
    RowsRemain(t, c, key, name);
    CleanupAdvances(t.books, op.req.now);
    InsertIsFirst(t, c, op.req, dialect);
  }

  /** A counter and idempotency key get at most one row over any SQL run, and none once they have one. */
  lemma {:induction false} SqlInsertsOnce(t: Tables, ops: seq<Op>, dialect: Dialect, key: CounterKey, name: string)
    requires Schema(t)
    ensures InsertsUnder(t, ops, dialect, key, name) <= if RowsFor(t, key, name) == {} then 1 else 0
    decreases |ops|
  {
    if ops != [] {
      var u := SqlStep(t, ops[0], dialect);
      SqlStepKeepsRows(t, ops[0], dialect);
      RowsRemain(t, u, key, name);
      if Inserts(t, ops[0], dialect, key, name) {
        InsertStep(t, ops[0], dialect, key, name);
      }
      SqlInsertsOnce(u, ops[1..], dialect, key, name);
    }
  }

  // ---------------------------------------------------------------- conservation, counter by counter

  lemma OpenCounterTidy(t: Tables, of: CounterKey, key: CounterKey, limit: nat)
    requires Filed(t.books) && Tidy(t.books, key, limit)
    ensures Filed(OpenCounter(t, of).books) && Tidy(OpenCounter(t, of).books, key, limit)
    ensures InUse(OpenCounter(t, of).books, key) == InUse(t.books, key)
  {
  }

  lemma InsertTidy(c: Tables, req: ReserveRequest, key: CounterKey, limit: nat)
    requires Schema(c) && Filed(c.books) && Tidy(c.books, key, limit) && GuardPasses(c.books, req)
    requires req.Target() == key ==> req.effectiveLimit <= limit
    ensures Filed(GrantedTables(c, req).books) && Tidy(GrantedTables(c, req).books, key, limit)
    ensures InUse(GrantedTables(c, req).books, key) == InUse(c.books, key) + if req.Target() == key then req.amount else 0
  {
    GrantTallies(c.books, c.sequence + 1, req.Target(), req.amount, req.ExpiresAt(), key);
  }

  lemma CleanupTidy(t: Tables, now: int, key: CounterKey, limit: nat)
    requires Filed(t.books) && Tidy(t.books, key, limit)
    ensures Filed(CleanedTables(t, now).books) && Tidy(CleanedTables(t, now).books, key, limit)
    ensures InUse(CleanedTables(t, now).books, key) <= InUse(t.books, key)
  {
    ExpireKeepsKeys(t.books, DueIds(t.books.records, now));
    CleanupTallies(t.books, now, key);
  }

  lemma ReserveOnTidy(t: Tables, c: Tables, req: ReserveRequest, dialect: Dialect, key: CounterKey, limit: nat)
    requires Filed(t.books) && Tidy(t.books, key, limit) && Schema(c) && Filed(c.books) && Tidy(c.books, key, limit)
    requires req.Target() == key ==> req.effectiveLimit <= limit
    ensures Filed(ReserveOn(t, c, req, dialect).state.books) && Tidy(ReserveOn(t, c, req, dialect).state.books, key, limit)
  {
    ReserveOnCases(t, c, req, dialect);
    OpenCounterTidy(c, req.Target(), key, limit);
    if GuardPasses(c.books, req) {
      InsertTidy(c, req, key, limit);
    }
  }

  lemma ExpireRowTidy(b: Books, id: nat, key: CounterKey, limit: nat)
    requires Filed(b) && Tidy(b, key, limit) && id in b.records && b.records[id].status.Active?
    ensures Filed(ExpireOne(b, id)) && Tidy(ExpireOne(b, id), key, limit) && InUse(ExpireOne(b, id), key) <= InUse(b, key)
  {
    assert ExpireOne(b, id) == Closed(b, id, Expired);
    if b.records[id].key == key {
      ClosedTallies(b, id, Expired);
    } else {
      OtherTallies(b, Closed(b, id, Expired), id, key);
    }
  }

  lemma SettleRowTidy(b: Books, id: nat, commit: bool, key: CounterKey, limit: nat)
    requires Filed(b) && Tidy(b, key, limit) && id in b.records && b.records[id].status.Active?
    ensures SettledRow(b, id, commit) == Settled(b, id, commit)
    ensures Filed(Settled(b, id, commit)) && Tidy(Settled(b, id, commit), key, limit)
    ensures InUse(Settled(b, id, commit), key) <= InUse(b, key)
  {
    SettleTallies(b, id, commit, key);
  }

  lemma FinishTidy(t: Tables, id: nat, commit: bool, now: int, key: CounterKey, limit: nat)
    requires Filed(t.books) && Tidy(t.books, key, limit)
    ensures Filed(Sql.Finish(t, id, commit, now).state.books) && Tidy(Sql.Finish(t, id, commit, now).state.books, key, limit)
    ensures InUse(Sql.Finish(t, id, commit, now).state.books, key) <= InUse(t.books, key)
  {
    if id in t.books.records && t.books.records[id].status.Active? {
      ExpireRowTidy(t.books, id, key, limit);
      SettleRowTidy(t.books, id, commit, key, limit);
    }
  }

  lemma ReserveTidy(t: Tables, req: ReserveRequest, dialect: Dialect, key: CounterKey, limit: nat)
    requires Schema(t) && Filed(t.books) && Tidy(t.books, key, limit)
    requires req.Target() == key ==> req.effectiveLimit <= limit
    ensures
      var u := ReserveOn(t, CleanedTables(t, req.now), req, dialect).state;
      Filed(u.books) && Tidy(u.books, key, limit)
  {
    CleanupKeepsSchema(t, req.now);
    CleanupTidy(t, req.now, key, limit);
    ReserveOnTidy(t, CleanedTables(t, req.now), req, dialect, key, limit);
  }

  lemma SqlStepTidy(t: Tables, op: Op, dialect: Dialect, key: CounterKey, limit: nat)
    requires Schema(t) && Filed(t.books) && Tidy(t.books, key, limit) && OpWithin(op, key, limit)
    ensures Filed(SqlStep(t, op, dialect).books) && Tidy(SqlStep(t, op, dialect).books, key, limit)
  {
    match op {
      case ReserveOp(req) => ReserveTidy(t, req, dialect, key, limit);
      case FinishOp(id, commit, now) => FinishTidy(t, id, commit, now, key, limit);
      case ReadOp(_, now) => CleanupTidy(t, now, key, limit);
    }
  }

  lemma ReserveOnFiled(t: Tables, c: Tables, req: ReserveRequest, dialect: Dialect)
    requires Filed(t.books) && Filed(c.books)
    ensures Filed(ReserveOn(t, c, req, dialect).state.books)
  {
    ReserveOnCases(t, c, req, dialect);
  }

  lemma FinishFiled(t: Tables, id: nat, commit: bool, now: int)
    requires Filed(t.books)
    ensures Filed(Sql.Finish(t, id, commit, now).state.books)
  {
  }

  /** Every row keeps its counter row. */
  lemma SqlStepFiled(t: Tables, op: Op, dialect: Dialect)
    requires Filed(t.books)
    ensures Filed(SqlStep(t, op, dialect).books)
  {
    match op {
      case ReserveOp(req) =>
        ExpireKeepsKeys(t.books, DueIds(t.books.records, req.now));
        ReserveOnFiled(t, CleanedTables(t, req.now), req, dialect);
      case FinishOp(id, commit, now) => FinishFiled(t, id, commit, now);
      case ReadOp(key, now) => ExpireKeepsKeys(t.books, DueIds(t.books.records, now));
    }
  }

  lemma {:induction false} SqlRunTidy(t: Tables, ops: seq<Op>, dialect: Dialect, key: CounterKey, limit: nat)
    requires Schema(t) && Filed(t.books) && Tidy(t.books, key, limit) && Limited(ops, key, limit)
    ensures Filed(SqlRun(t, ops, dialect).books) && Tidy(SqlRun(t, ops, dialect).books, key, limit)
    decreases |ops|
  {
    if ops != [] {
      SqlStepTidy(t, ops[0], dialect, key, limit);
      SqlStepKeepsRows(t, ops[0], dialect);
      SqlRunTidy(SqlStep(t, ops[0], dialect), ops[1..], dialect, key, limit);
    }
  }

  /** From an empty database, at any timestamps: every counter is its ledger sums and within the limits handed in for it. */
  lemma SqlConserves(ops: seq<Op>, dialect: Dialect, key: CounterKey, limit: nat)
    requires Limited(ops, key, limit)
    ensures Tidy(SqlRun(NO_ROWS, ops, dialect).books, key, limit)
  {
    EmptyConserved();
    SqlRunTidy(NO_ROWS, ops, dialect, key, limit);
  }

  // ---------------------------------------------------------------- refused input

  /** The SQL stores refuse what every store refuses, and what their signed integers do not hold, without a transaction. */
  lemma SqlRefusesExactly(t: Tables, req: ReserveRequest, dialect: Dialect)
    ensures
      var out := Sql.Reserve(t, req, dialect);
      && (out.result.Err? && out.result.error.InvalidInput?
          <==> req.amount == 0 || req.hardLimit < req.effectiveLimit || req.ttl <= 0
               || req.amount >= 0x8000_0000_0000_0000 || req.effectiveLimit >= 0x8000_0000_0000_0000)
      && (out.result.Err? && out.result.error.InvalidInput? ==> out.state == t)
  {
  }

  // ---------------------------------------------------------------- one settlement

  /**
   * A settlement of an open row touches that row and its counter alone. From the expiry on it expires the row and frees
   * its units; before, it commits or refunds it.
   */
  lemma SqlSettlesOne(t: Tables, id: nat, commit: bool, now: int)
    requires Filed(t.books) && id < 0x8000_0000_0000_0000 && id in t.books.records && t.books.records[id].status == Active
    ensures
      var r := t.books.records[id];
      var out := Sql.Finish(t, id, commit, now);
      var late := r.expiresAt <= now;
      var counter := t.books.counters[r.key];
      && out.result == (if late then Err(ReservationExpired) else Ok(()))
      && out.state.idempotencyKeys == t.idempotencyKeys && out.state.sequence == t.sequence
      && out.state.books.records
         == t.books.records[id := Record(r.key, r.amount, r.expiresAt, if late then Expired else if commit then Committed else Refunded)]
      && out.state.books.counters
         == t.books.counters[r.key := Counter(counter.committed + (if commit && !late then r.amount else 0),
                                              if r.amount <= counter.reserved then counter.reserved - r.amount else 0)]
  {
  }

  /** Any other settlement changes nothing at all, and is refused only for an unknown, expired or oversized id. */
  lemma SqlSettlesNothing(t: Tables, id: nat, commit: bool, now: int)
    requires id in t.books.records && id < 0x8000_0000_0000_0000 ==> t.books.records[id].status != Active
    ensures
      var out := Sql.Finish(t, id, commit, now);
      && out.state == t
      && (out.result.Err? && out.result.error.InvalidInput? <==> id >= 0x8000_0000_0000_0000)
      && (id < 0x8000_0000_0000_0000 ==>
            out.result == if id !in t.books.records then Err(ReservationNotFound)
                          else if t.books.records[id].status == Expired then Err(ReservationExpired)
                          else Ok(()))
  {
  }
}
