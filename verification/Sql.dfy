/** The SQLite and PostgreSQL stores: rows in tables, updated inside transactions that may roll back. */
module Sql {
  import opened Prelude
  import opened Contract
  import opened Accounts

  /** The dialects differ in whether an insert that fails keeps the sequence number it drew. */
  datatype Dialect = Sqlite | Postgres {
    function Burned(): nat {
      if Postgres? then 1 else 0
    }
  }

  /** `idempotencyKeys` is the nullable column of the reservations table; `sequence` is the last id handed out. */
  datatype Tables = Tables(books: Books, idempotencyKeys: map<nat, string>, sequence: nat)

  const NO_ROWS := Tables(Books(map[], map[]), map[], 0)

  /** Row `id` carries this counter and idempotency key. */
  predicate Carries(t: Tables, id: nat, key: CounterKey, name: string) {
    && id in t.idempotencyKeys && t.idempotencyKeys[id] == name
    && id in t.books.records && t.books.records[id].key == key
  }

  /** Rows `i` and `j` would share an entry of the idempotency index. */
  predicate SameIndexEntry(t: Tables, i: nat, j: nat) {
    && i in t.idempotencyKeys && j in t.idempotencyKeys && t.idempotencyKeys[i] == t.idempotencyKeys[j]
    && i in t.books.records && j in t.books.records && t.books.records[i].key == t.books.records[j].key
  }

  /** What the schema enforces: the unique idempotency index, and primary keys drawn from the sequence. */
  ghost predicate Schema(t: Tables) {
    && (forall i, j :: SameIndexEntry(t, i, j) ==> i == j)
    && t.idempotencyKeys.Keys <= t.books.records.Keys
    && (forall id :: id in t.books.records ==> 1 <= id <= t.sequence)
  }

  /** Rows a replay may answer from: `status IN ('active', 'committed')`. */
  function LiveRows(t: Tables, key: CounterKey, name: string): set<nat> {
    set id | id in t.idempotencyKeys && Carries(t, id, key, name) && Live(t.books.records[id])
  }

  function RowsFor(t: Tables, key: CounterKey, name: string): set<nat> {
    set id | id in t.idempotencyKeys && Carries(t, id, key, name)
  }

  /** The replay query; under the unique index there is at most one row to pick. */
  ghost function ExistingReservation(t: Tables, key: CounterKey, name: Option<string>): Option<ReservationResult> {
    if name.Some? && LiveRows(t, key, name.value) != {} then
      var id :| id in LiveRows(t, key, name.value);
      Some(ReservationResult(Some(StoreReservation(id, t.books.records[id].expiresAt)), Usage(t.books, key)))
    else None
  }

  ghost function CleanedTables(t: Tables, now: int): Tables {
    t.(books := Cleaned(t.books, now))
  }

  /** The counter row, inserted with zeroes when it is not there yet. */
  function OpenCounter(t: Tables, key: CounterKey): Tables {
    if key in t.books.counters then t
    else t.(books := t.books.(counters := t.books.counters[key := EMPTY_COUNTER]))
  }

  /** `WHERE committed + reserved + ? <= ?` */
  predicate GuardPasses(b: Books, req: ReserveRequest) {
    Usage(b, req.Target()).committed + Usage(b, req.Target()).reserved + req.amount <= req.effectiveLimit
  }

  predicate InsertFails(t: Tables, req: ReserveRequest) {
    || t.sequence >= I64_MAX
    || (req.idempotencyKey.Some? && RowsFor(t, req.Target(), req.idempotencyKey.value) != {})
  }

  const DATABASE_ERROR := Other("database error")

  /** The tables after a rollback: nothing is undone but the sequence number a dialect burns. */
  function RolledBack(t: Tables, dialect: Dialect): Tables {
    if t.sequence >= I64_MAX then t else t.(sequence := t.sequence + dialect.Burned())
  }

  function GrantedTables(c: Tables, req: ReserveRequest): Tables {
    Tables(
      Granted(c.books, c.sequence + 1, req.Target(), req.amount, req.ExpiresAt()),
      match req.idempotencyKey
      case Some(name) => c.idempotencyKeys[c.sequence + 1 := name]
      case None => c.idempotencyKeys,
      c.sequence + 1)
  }

  /** The transaction on tables `t` whose due rows it has just expired to get `c`. */
  ghost function ReserveOn(t: Tables, c: Tables, req: ReserveRequest, dialect: Dialect): Outcome<Tables, ReserveAnswer> {
    var existing := ExistingReservation(c, req.Target(), req.idempotencyKey);
    if existing.Some? then Outcome(c, Ok(existing.value))
    else if !GuardPasses(c.books, req) then
      Outcome(OpenCounter(c, req.Target()), Ok(ReservationResult(None, Usage(c.books, req.Target()))))
    else if InsertFails(c, req) then
      var undone := RolledBack(t, dialect);
      var retry := ExistingReservation(undone, req.Target(), req.idempotencyKey);
      Outcome(undone, if retry.Some? then Ok(retry.value) else Err(DATABASE_ERROR))
    else
      var after := GrantedTables(c, req);
      Outcome(after, Ok(ReservationResult(Some(StoreReservation(after.sequence, req.ExpiresAt())),
                                          Usage(after.books, req.Target()))))
  }

  ghost function Reserve(t: Tables, req: ReserveRequest, dialect: Dialect): Outcome<Tables, ReserveAnswer> {
    if req.Validate().Err? then Outcome(t, Err(req.Validate().error))
    else if req.amount > I64_MAX then Outcome(t, Err(TooLarge("amount")))
    else if req.effectiveLimit > I64_MAX then Outcome(t, Err(TooLarge("effective limit")))
    else ReserveOn(t, CleanedTables(t, req.now), req, dialect)
  }

  /** `Settled`, leaving a missing counter row alone. */
  function SettledRow(b: Books, id: nat, commit: bool): Books
    requires id in b.records
  {
    if b.records[id].key in b.counters then Settled(b, id, commit)
    else b.(records := b.records[id := b.records[id].(status := if commit then Committed else Refunded)])
  }

  /** Finishing expires only the row it touches; other due rows wait for the next reserve or usage query. */
  function Finish(t: Tables, id: nat, commit: bool, now: int): Outcome<Tables, FinishAnswer> {
    if id > I64_MAX then Outcome(t, Err(TooLarge("reservation id")))
    else if id !in t.books.records then Outcome(t, Err(ReservationNotFound))
    else match t.books.records[id].status
      case Committed => Outcome(t, Ok(()))
      case Refunded => Outcome(t, Ok(()))
      case Expired => Outcome(t, Err(ReservationExpired))
      case Active =>
        if t.books.records[id].expiresAt <= now
        then Outcome(t.(books := ExpireOne(t.books, id)), Err(ReservationExpired))
        else Outcome(t.(books := SettledRow(t.books, id, commit)), Ok(()))
  }

  ghost function Read(t: Tables, key: CounterKey, now: int): Outcome<Tables, Counter> {
    Outcome(CleanedTables(t, now), Usage(Cleaned(t.books, now), key))
  }

  /** The unique index leaves a replay at most one row to answer from. */
  lemma OneRow(t: Tables, key: CounterKey, name: string, i: nat, j: nat)
    requires Schema(t) && i in RowsFor(t, key, name) && j in RowsFor(t, key, name)
    ensures i == j
  {
    assert SameIndexEntry(t, i, j);
  }

  lemma CleanupKeepsSchema(t: Tables, now: int)
    requires Schema(t)
    ensures Schema(CleanedTables(t, now))
  {
    CleanupAdvances(t.books, now);
    var c := CleanedTables(t, now);
    forall i, j | SameIndexEntry(c, i, j)
      ensures i == j
    {
      assert RecordAdvances(t.books.records[i], c.books.records[i]);
      assert RecordAdvances(t.books.records[j], c.books.records[j]);
      assert SameIndexEntry(t, i, j);
    }
  }

  lemma RollbackKeepsSchema(t: Tables, dialect: Dialect)
    requires Schema(t)
    ensures Schema(RolledBack(t, dialect))
  {
    forall i, j | SameIndexEntry(RolledBack(t, dialect), i, j)
      ensures i == j
    {
      assert SameIndexEntry(t, i, j);
    }
  }

  class SqlStore {
    const dialect: Dialect
    var counters: map<CounterKey, Counter>
    var reservations: map<nat, Record>
    var idempotencyKeys: map<nat, string>
    var sequence: nat

    ghost function Contents(): Tables
      reads this
    {
      Tables(Books(counters, reservations), idempotencyKeys, sequence)
    }

    constructor (dialect: Dialect)
      ensures Contents() == NO_ROWS && this.dialect == dialect
    {
      this.dialect := dialect;
      counters, reservations, idempotencyKeys, sequence := map[], map[], map[], 0;
    }

    /** The two updates for one expired row. */
    method ExpireRow(id: nat)
      requires id in reservations
      modifies this`counters, this`reservations
      ensures Books(counters, reservations) == ExpireOne(old(Books(counters, reservations)), id)
    {
      var row := reservations[id];
      if row.key in counters {
        var counter := counters[row.key];
        counters := counters[row.key := Counter(counter.committed, SatSub(counter.reserved, row.amount))];
      }
      reservations := reservations[id := row.(status := Expired)];
    }

    method CleanupExpired(now: int)
      modifies this`counters, this`reservations
      ensures Contents() == CleanedTables(old(Contents()), now)
    {
      ghost var before := Books(counters, reservations);
      ghost var done: set<nat> := {};
      ExpireNone(before);
      var rows := DueIds(reservations, now);
      while rows != {}
        invariant done !! rows && done + rows == DueIds(before.records, now)
        invariant Books(counters, reservations) == ExpireAll(before, done)
        decreases rows
      {
        var id :| id in rows;
        ExpireStep(before, done, id);
        ExpireRow(id);
        done, rows := done + {id}, rows - {id};
      }
    }

    method LoadUsage(key: CounterKey) returns (usage: Counter)
      ensures usage == Usage(Contents().books, key)
    {
      if key in counters {
        usage := counters[key];
      } else {
        usage := EMPTY_COUNTER;
      }
    }

    method FindExisting(key: CounterKey, name: Option<string>) returns (existing: Option<ReservationResult>)
      requires Schema(Contents())
      ensures existing == ExistingReservation(Contents(), key, name)
    {
      if name.None? {
        return None;
      }
      var rows := set id | id in idempotencyKeys && idempotencyKeys[id] == name.value
                           && id in reservations && reservations[id].key == key && Live(reservations[id]);
      assert rows == LiveRows(Contents(), key, name.value);
      if rows == {} {
        return None;
      }
      var id :| id in rows;
      forall other | other in rows
        ensures other == id
      {
        OneRow(Contents(), key, name.value, id, other);
      }
      var usage := LoadUsage(key);
      existing := Some(ReservationResult(Some(StoreReservation(id, reservations[id].expiresAt)), usage));
    }

    /** `INSERT OR IGNORE` of a zero counter row. */
    method InsertCounter(key: CounterKey)
      modifies this`counters
      ensures Contents() == OpenCounter(old(Contents()), key)
    {
      if key !in counters {
        counters := counters[key := EMPTY_COUNTER];
      }
    }

    /** The guarded update of the counter row; `updated` says whether it affected it. */
    method ReserveUnits(req: ReserveRequest) returns (updated: bool)
      requires req.Target() in counters
      modifies this`counters
      ensures updated == GuardPasses(old(Contents()).books, req)
      ensures var counter := old(counters[req.Target()]);
        counters == if updated then old(counters)[req.Target() := Counter(counter.committed, counter.reserved + req.amount)]
                    else old(counters)
    {
      var counter := counters[req.Target()];
      updated := counter.committed + counter.reserved + req.amount <= req.effectiveLimit;
      if updated {
        counters := counters[req.Target() := Counter(counter.committed, counter.reserved + req.amount)];
      }
    }

    /** `INSERT ... RETURNING`; a failed insert may still have drawn its number from the sequence. */
    method InsertReservation(req: ReserveRequest) returns (id: Option<nat>)
      modifies this`reservations, this`idempotencyKeys, this`sequence
      ensures id.None? <==> InsertFails(old(Contents()), req)
      ensures id.None? ==> reservations == old(reservations) && idempotencyKeys == old(idempotencyKeys)
                           && sequence == RolledBack(old(Contents()), dialect).sequence
      ensures id.Some? ==> id.value == sequence == old(sequence) + 1
      ensures id.Some? ==> reservations == old(reservations)[sequence := Record(req.Target(), req.amount, req.ExpiresAt(), Active)]
      ensures id.Some? ==> idempotencyKeys == if req.idempotencyKey.Some?
                                              then old(idempotencyKeys)[sequence := req.idempotencyKey.value]
                                              else old(idempotencyKeys)
    {
      if sequence >= I64_MAX {
        return None;
      }
      var row := Record(req.Target(), req.amount, req.ExpiresAt(), Active);
      if req.idempotencyKey.None? {
        sequence := sequence + 1;
        reservations := reservations[sequence := row];
        return Some(sequence);
      }
      var name := req.idempotencyKey.value;
      var clashes := set other | other in idempotencyKeys && idempotencyKeys[other] == name
                                 && other in reservations && reservations[other].key == row.key;
      assert clashes == RowsFor(Contents(), row.key, name);
      if clashes != {} {
        sequence := sequence + (if dialect.Postgres? then 1 else 0);
        return None;
      }
      sequence := sequence + 1;
      reservations := reservations[sequence := row];
      idempotencyKeys := idempotencyKeys[sequence := name];
      id := Some(sequence);
    }

    method ReserveIfAllowed(req: ReserveRequest) returns (answer: ReserveAnswer)
      requires Schema(Contents())
      modifies this
      ensures Outcome(Contents(), answer) == Reserve(old(Contents()), req, dialect)
    {
      var valid := req.Validate();
      if valid.Err? {
        return Err(valid.error);
      }
      if req.amount > I64_MAX {
        return Err(TooLarge("amount"));
      }
      if req.effectiveLimit > I64_MAX {
        return Err(TooLarge("effective limit"));
      }
      var begun := Tables(Books(counters, reservations), idempotencyKeys, sequence);
      CleanupKeepsSchema(begun, req.now);
      CleanupExpired(req.now);
      answer := RunTransaction(req, begun);
    }

    /** The rest of the transaction after its cleanup; a rollback returns to the tables it began with. */
    method RunTransaction(req: ReserveRequest, begun: Tables) returns (answer: ReserveAnswer)
      requires Schema(Contents()) && Schema(begun) && begun.sequence == sequence
      modifies this
      ensures Outcome(Contents(), answer) == ReserveOn(begun, old(Contents()), req, dialect)
    {
      ghost var cleaned := Contents();
      var existing := FindExisting(req.Target(), req.idempotencyKey);
      if existing.Some? {
        return Ok(existing.value);
      }

      InsertCounter(req.Target());
      var updated := ReserveUnits(req);
      if !updated {
        var usage := LoadUsage(req.Target());
        return Ok(ReservationResult(None, usage));
      }

      var inserted := InsertReservation(req);
      if inserted.None? {
        counters, reservations, idempotencyKeys := begun.books.counters, begun.books.records, begun.idempotencyKeys;
        assert Contents() == RolledBack(begun, dialect);
        RollbackKeepsSchema(begun, dialect);
        var retry := FindExisting(req.Target(), req.idempotencyKey);
        if retry.Some? {
          return Ok(retry.value);
        }
        return Err(DATABASE_ERROR);
      }

      assert Contents() == GrantedTables(cleaned, req);
      var usage := LoadUsage(req.Target());
      answer := Ok(ReservationResult(Some(StoreReservation(inserted.value, req.ExpiresAt())), usage));
    }

    method FinishReservation(id: nat, commit: bool, now: int) returns (answer: FinishAnswer)
      modifies this`counters, this`reservations
      ensures Outcome(Contents(), answer) == Finish(old(Contents()), id, commit, now)
    {
      if id > I64_MAX {
        return Err(TooLarge("reservation id"));
      }
      if id !in reservations {
        return Err(ReservationNotFound);
      }
      var row := reservations[id];
      match row.status {
        case Committed => answer := Ok(());
        case Refunded => answer := Ok(());
        case Expired => answer := Err(ReservationExpired);
        case Active =>
          if row.expiresAt <= now {
            ExpireRow(id);
            return Err(ReservationExpired);
          }
          var delta := if commit then row.amount else 0;
          if row.key in counters {
            var counter := counters[row.key];
            counters := counters[row.key := Counter(counter.committed + delta, SatSub(counter.reserved, row.amount))];
          }
          reservations := reservations[id := row.(status := if commit then Committed else Refunded)];
          answer := Ok(());
      }
    }

    method ReadUsage(key: CounterKey, now: int) returns (usage: Counter)
      modifies this`counters, this`reservations
      ensures Outcome(Contents(), usage) == Read(old(Contents()), key, now)
    {
      CleanupExpired(now);
      usage := LoadUsage(key);
    }
  }
}
