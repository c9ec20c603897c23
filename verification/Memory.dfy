/** The in-memory store: the meaning of its operations, and the class that runs them in place. */
module Memory {
  import opened Prelude
  import opened Contract
  import opened Accounts

  /** Idempotency entries are made once, under the counter and the caller's key. */
  type IdempotencyEntry = (CounterKey, string)

  datatype Ledger = Ledger(books: Books, idempotency: map<IdempotencyEntry, nat>, nextId: nat)

  const EMPTY := Ledger(Books(map[], map[]), map[], 0)

  ghost function CleanedLedger(s: Ledger, now: int): Ledger {
    s.(books := Cleaned(s.books, now))
  }

  predicate Replays(s: Ledger, req: ReserveRequest) {
    req.idempotencyKey.Some? && (req.Target(), req.idempotencyKey.value) in s.idempotency
  }

  function ReplayAnswer(s: Ledger, id: nat, key: CounterKey): ReservationResult {
    if id in s.books.records && Live(s.books.records[id])
    then ReservationResult(Some(StoreReservation(id, s.books.records[id].expiresAt)), Usage(s.books, key))
    else ReservationResult(None, Usage(s.books, key))
  }

  /** The atomic guard: used units plus the request stay within the effective limit. */
  predicate Fits(b: Books, req: ReserveRequest) {
    SatAdd(Usage(b, req.Target()).Used(), req.amount) <= req.effectiveLimit
  }

  /** `Granted` in saturating arithmetic. */
  function SaturatingGrant(b: Books, id: nat, req: ReserveRequest): Books {
    var counter := Usage(b, req.Target());
    Books(
      b.counters[req.Target() := Counter(counter.committed, SatAdd(counter.reserved, req.amount))],
      b.records[id := Record(req.Target(), req.amount, req.ExpiresAt(), Active)])
  }

  /** `Settled` in saturating arithmetic. */
  function SaturatingSettle(b: Books, id: nat, commit: bool): Books
    requires id in b.records && b.records[id].key in b.counters
  {
    var r := b.records[id];
    var counter := b.counters[r.key];
    Books(
      b.counters[r.key := Counter(if commit then SatAdd(counter.committed, r.amount) else counter.committed,
                                  SatSub(counter.reserved, r.amount))],
      b.records[id := r.(status := if commit then Committed else Refunded)])
  }

  /** What a request adds to a cleaned state once it passed every check. */
  function GrantedLedger(c: Ledger, req: ReserveRequest): Ledger {
    Ledger(
      SaturatingGrant(c.books, c.nextId + 1, req),
      match req.idempotencyKey
      case Some(name) => c.idempotency[(req.Target(), name) := c.nextId + 1]
      case None => c.idempotency,
      c.nextId + 1)
  }

  /** Reserving once the due records are out of the way. */
  function ReserveCleaned(c: Ledger, req: ReserveRequest): Outcome<Ledger, ReserveAnswer> {
    if Replays(c, req) then
      Outcome(c, Ok(ReplayAnswer(c, c.idempotency[(req.Target(), req.idempotencyKey.value)], req.Target())))
    else if !Fits(c.books, req) then
      Outcome(c, Ok(ReservationResult(None, Usage(c.books, req.Target()))))
    else if c.nextId == U64_MAX then
      Outcome(c, Err(Other("reservation id overflow")))
    else
      var after := GrantedLedger(c, req);
      Outcome(after, Ok(ReservationResult(Some(StoreReservation(after.nextId, req.ExpiresAt())),
                                          Usage(after.books, req.Target()))))
  }

  ghost function Reserve(s: Ledger, req: ReserveRequest): Outcome<Ledger, ReserveAnswer> {
    if req.Validate().Err? then Outcome(s, Err(req.Validate().error))
    else ReserveCleaned(CleanedLedger(s, req.now), req)
  }

  /** Commit and refund, which differ only in what they book. */
  function FinishCleaned(c: Ledger, id: nat, commit: bool): Outcome<Ledger, FinishAnswer> {
    if id !in c.books.records then Outcome(c, Err(ReservationNotFound))
    else match c.books.records[id].status
      case Committed => Outcome(c, Ok(()))
      case Refunded => Outcome(c, Ok(()))
      case Expired => Outcome(c, Err(ReservationExpired))
      case Active =>
        if c.books.records[id].key !in c.books.counters
        then Outcome(c, Err(Other("reservation counter is missing")))
        else Outcome(c.(books := SaturatingSettle(c.books, id, commit)), Ok(()))
  }

  ghost function Finish(s: Ledger, id: nat, commit: bool, now: int): Outcome<Ledger, FinishAnswer> {
    FinishCleaned(CleanedLedger(s, now), id, commit)
  }

  ghost function Read(s: Ledger, key: CounterKey, now: int): Outcome<Ledger, Counter> {
    var c := CleanedLedger(s, now);
    Outcome(c, Usage(c.books, key))
  }

  class MemoryStore {
    var counters: map<CounterKey, Counter>
    var reservations: map<nat, Record>
    var idempotency: map<IdempotencyEntry, nat>
    var nextId: nat

    ghost function Contents(): Ledger
      reads this
    {
      Ledger(Books(counters, reservations), idempotency, nextId)
    }

    constructor ()
      ensures Contents() == EMPTY
    {
      counters, reservations, idempotency, nextId := map[], map[], map[], 0;
    }

    /** The body of the cleanup loop: release the record's units, then mark it. */
    method ExpireRecord(id: nat)
      requires id in reservations
      modifies this`counters, this`reservations
      ensures Books(counters, reservations) == ExpireOne(old(Books(counters, reservations)), id)
    {
      var record := reservations[id];
      if record.key in counters {
        var counter := counters[record.key];
        counters := counters[record.key := Counter(counter.committed, SatSub(counter.reserved, record.amount))];
      }
      reservations := reservations[id := record.(status := Expired)];
    }

    /** Expires due records one at a time, in whatever order the hash map lists them. */
    method CleanupExpired(now: int)
      modifies this
      ensures Contents() == CleanedLedger(old(Contents()), now)
    {
      ghost var before := Books(counters, reservations);
      ghost var done: set<nat> := {};
      ExpireNone(before);
      var pending := DueIds(reservations, now);
      while pending != {}
        invariant done !! pending && done + pending == DueIds(before.records, now)
        invariant Books(counters, reservations) == ExpireAll(before, done)
        invariant idempotency == old(idempotency) && nextId == old(nextId)
        decreases pending
      {
        var id :| id in pending;
        ExpireStep(before, done, id);
        ExpireRecord(id);
        done, pending := done + {id}, pending - {id};
      }
    }

    method UsageForCounter(key: CounterKey) returns (usage: Counter)
      ensures usage == Usage(Contents().books, key)
    {
      if key in counters {
        usage := counters[key];
      } else {
        usage := EMPTY_COUNTER;
      }
    }

    method NextReservationId() returns (id: Result<nat, StoreError>)
      modifies this`nextId
      ensures old(nextId) == U64_MAX ==> id == Err(Other("reservation id overflow")) && nextId == old(nextId)
      ensures old(nextId) != U64_MAX ==> id == Ok(nextId) && nextId == old(nextId) + 1
    {
      if nextId == U64_MAX {
        return Err(Other("reservation id overflow"));
      }
      nextId := nextId + 1;
      id := Ok(nextId);
    }

    method ReplayExistingReservation(id: nat, key: CounterKey) returns (answer: ReservationResult)
      ensures answer == ReplayAnswer(Contents(), id, key)
    {
      var usage := UsageForCounter(key);
      if id !in reservations {
        return ReservationResult(None, usage);
      }
      var record := reservations[id];
      match record.status {
        case Active => answer := ReservationResult(Some(StoreReservation(id, record.expiresAt)), usage);
        case Committed => answer := ReservationResult(Some(StoreReservation(id, record.expiresAt)), usage);
        case Refunded => answer := ReservationResult(None, usage);
        case Expired => answer := ReservationResult(None, usage);
      }
    }

    method ReserveIfAllowed(req: ReserveRequest) returns (answer: ReserveAnswer)
      modifies this
      ensures Outcome(Contents(), answer) == Reserve(old(Contents()), req)
    {
      var valid := req.Validate();
      if valid.Err? {
        return Err(valid.error);
      }
      CleanupExpired(req.now);
      ghost var cleaned := Contents();
      var key := req.Target();
      if req.idempotencyKey.Some? && (key, req.idempotencyKey.value) in idempotency {
        var replay := ReplayExistingReservation(idempotency[(key, req.idempotencyKey.value)], key);
        return Ok(replay);
      }

      var usage := UsageForCounter(key);
      if SatAdd(usage.Used(), req.amount) > req.effectiveLimit {
        return Ok(ReservationResult(None, usage));
      }

      var next := NextReservationId();
      if next.Err? {
        return Err(next.error);
      }
      var id := next.value;
      var counter := if key in counters then counters[key] else EMPTY_COUNTER;
      counter := Counter(counter.committed, SatAdd(counter.reserved, req.amount));
      counters := counters[key := counter];
      reservations := reservations[id := Record(key, req.amount, req.ExpiresAt(), Active)];
      if req.idempotencyKey.Some? {
        idempotency := idempotency[(key, req.idempotencyKey.value) := id];
      }
      assert Contents() == GrantedLedger(cleaned, req);
      answer := Ok(ReservationResult(Some(StoreReservation(id, req.ExpiresAt())), counter));
    }

    method Commit(id: nat, now: int) returns (answer: FinishAnswer)
      modifies this
      ensures Outcome(Contents(), answer) == Finish(old(Contents()), id, true, now)
    {
      CleanupExpired(now);
      if id !in reservations {
        return Err(ReservationNotFound);
      }
      var record := reservations[id];
      match record.status {
        case Committed => answer := Ok(());
        case Refunded => answer := Ok(());
        case Expired => answer := Err(ReservationExpired);
        case Active =>
          if record.key !in counters {
            return Err(Other("reservation counter is missing"));
          }
          var counter := counters[record.key];
          counter := Counter(counter.committed, SatSub(counter.reserved, record.amount));
          counter := Counter(SatAdd(counter.committed, record.amount), counter.reserved);
          counters := counters[record.key := counter];
          reservations := reservations[id := record.(status := Committed)];
          answer := Ok(());
      }
    }

    method Refund(id: nat, now: int) returns (answer: FinishAnswer)
      modifies this
      ensures Outcome(Contents(), answer) == Finish(old(Contents()), id, false, now)
    {
      CleanupExpired(now);
      if id !in reservations {
        return Err(ReservationNotFound);
      }
      var record := reservations[id];
      match record.status {
        case Committed => answer := Ok(());
        case Refunded => answer := Ok(());
        case Expired => answer := Err(ReservationExpired);
        case Active =>
          if record.key !in counters {
            return Err(Other("reservation counter is missing"));
          }
          var counter := counters[record.key];
          counters := counters[record.key := Counter(counter.committed, SatSub(counter.reserved, record.amount))];
          reservations := reservations[id := record.(status := Refunded)];
          answer := Ok(());
      }
    }

    method ReadUsage(key: CounterKey, now: int) returns (usage: Counter)
      modifies this
      ensures Outcome(Contents(), usage) == Read(old(Contents()), key, now)
    {
      CleanupExpired(now);
      usage := UsageForCounter(key);
    }
  }
}
