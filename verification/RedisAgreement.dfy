/**
 * With no call running between another's scripts, Redis answers as the in-memory ledger does at instants rounded down
 * to seconds, unless a dead idempotency key is revived.
 */
module RedisAgreement {
  import opened Prelude
  import opened Totals
  import opened Contract
  import opened Accounts
  import opened Memory
  import opened LedgerRuns
  import Doubles
  import Redis
  import RedisExact

  const SECOND := NANOS_PER_SECOND

  function RecordNanos(r: Record): Record {
    r.(expiresAt := r.expiresAt * SECOND)
  }

  /** Redis books read on the nanosecond time line. */
  function InNanos(b: Books): Books {
    b.(records := map id | id in b.records :: RecordNanos(b.records[id]))
  }

  /** What the keyspace amounts to once everything due at `seconds` is cleaned up. */
  ghost function LedgerOf(s: Redis.Keyspace, seconds: int): Ledger {
    Ledger(InNanos(Cleaned(s.books, seconds)), s.idempotency, s.sequence)
  }

  ghost predicate Twin(m: Ledger, s: Redis.Keyspace, seconds: int) {
    m == LedgerOf(s, seconds)
  }

  lemma StartTwin(seconds: int)
    ensures Twin(EMPTY, Redis.EMPTY_KEYSPACE, seconds)
  {
    assert DueIds(Redis.EMPTY_KEYSPACE.books.records, seconds) == {};
    ExpireNone(Redis.EMPTY_KEYSPACE.books);
  }

  // ---------------------------------------------------------------- changing the unit of time

  lemma NanosTotals(b: Books, key: CounterKey, ids: set<nat>)
    ensures Total(InNanos(b).records, HeldBy(key, ids)) == Total(b.records, HeldBy(key, ids))
  {
    TotalEqual(InNanos(b).records, HeldBy(key, ids), b.records, HeldBy(key, ids));
  }

  lemma NanosExpire(b: Books, ids: set<nat>)
    ensures ExpireAll(InNanos(b), ids) == InNanos(ExpireAll(b, ids))
  {
    forall key | key in b.counters
      ensures CountersAfter(InNanos(b), ids)[key] == CountersAfter(b, ids)[key]
    {
      NanosTotals(b, key, ids);
    }
    assert CountersAfter(InNanos(b), ids) == CountersAfter(b, ids);
    NanosExpireRecords(b, ids);
  }

  lemma NanosExpireRecords(b: Books, ids: set<nat>)
    ensures RecordsAfter(InNanos(b).records, ids) == InNanos(ExpireAll(b, ids)).records
  {
  }

  lemma NanosDue(b: Books, seconds: int)
    ensures DueIds(InNanos(b).records, seconds * SECOND) == DueIds(b.records, seconds)
  {
    forall id | id in b.records
      ensures Due(InNanos(b).records[id], seconds * SECOND) <==> Due(b.records[id], seconds)
    {
    }
  }

  /** Cleaning up at a whole second is the same on either time line. */
  lemma NanosCleanup(b: Books, seconds: int)
    ensures Cleaned(InNanos(b), seconds * SECOND) == InNanos(Cleaned(b, seconds))
  {
    NanosDue(b, seconds);
    NanosExpire(b, DueIds(b.records, seconds));
  }

  /** The ledger's eager cleanup keeps up with whatever the keyspace still has due. */
  lemma TwinCleanup(m: Ledger, s: Redis.Keyspace, before: int, seconds: int)
    requires Twin(m, s, before) && before <= seconds
    ensures CleanedLedger(m, seconds * SECOND) == m.(books := InNanos(Cleaned(s.books, seconds)))
    ensures Twin(CleanedLedger(m, seconds * SECOND), s, seconds)
  {
    NanosCleanup(Cleaned(s.books, before), seconds);
    CleanupComposes(s.books, before, seconds);
  }

  // ---------------------------------------------------------------- reserve

  /** Nothing is due on either side: the books agree as they stand. */
  ghost predicate Even(m: Ledger, s: Redis.Keyspace, seconds: int) {
    && m.books == InNanos(s.books)
    && m.idempotency == s.idempotency
    && m.nextId == s.sequence
    && DueIds(s.books.records, seconds) == {}
  }

  lemma EvenIsTwin(m: Ledger, s: Redis.Keyspace, seconds: int)
    requires Even(m, s, seconds)
    ensures Twin(m, s, seconds)
  {
    ExpireNone(s.books);
  }

  lemma CleanupEven(m: Ledger, s: Redis.Keyspace, before: int, seconds: int)
    requires Twin(m, s, before) && before <= seconds && Redis.Indexed(s)
    ensures Even(CleanedLedger(m, seconds * SECOND), RedisExact.Cleanup(s, seconds), seconds)
  {
    TwinCleanup(m, s, before, seconds);
    RedisExact.CleanupIsFull(s, seconds);
    NothingDueAfter(s.books, seconds);
  }

  lemma NothingDueAfter(b: Books, now: int)
    ensures DueIds(Cleaned(b, now).records, now) == {}
  {
    var after := RecordsAfter(b.records, DueIds(b.records, now));
    forall id | id in after
      ensures !Due(after[id], now)
    {
    }
    assert DueIds(after, now) == {};
  }

  predicate Supported(req: ReserveRequest) {
    req.amount <= I64_MAX && req.effectiveLimit < Doubles.TWO_53 && req.idempotencyKey != Some("")
  }

  function RoundDown(instant: int): int {
    Redis.Timestamp(instant) * SECOND
  }

  /** The request at the second it falls in, expiring at the second its expiry falls in. */
  function RoundedRequest(req: ReserveRequest): ReserveRequest {
    req.(now := RoundDown(req.now), ttl := RoundDown(req.ExpiresAt()) - RoundDown(req.now))
  }

  /** Nothing a script sees tells an instant from its whole second. */
  lemma RoundedFacts(req: ReserveRequest)
    requires req.ttl > 0
    ensures
      var whole := RoundedRequest(req);
      && whole.Target() == req.Target()
      && Redis.Timestamp(whole.ExpiresAt()) == Redis.Timestamp(req.ExpiresAt()) >= Redis.Timestamp(req.now)
      && Redis.Timestamp(whole.ExpiresAt()) * SECOND == whole.ExpiresAt()
  {
    assert RoundedRequest(req).ExpiresAt() == RoundDown(req.ExpiresAt());
  }

  ghost function ScriptReserve(s: Redis.Keyspace, req: ReserveRequest): Outcome<Redis.Keyspace, ReserveAnswer> {
    var out := RedisExact.Reserve(s, req.Target(), req.amount, req.effectiveLimit, Redis.Timestamp(req.ExpiresAt()),
                             Redis.ScriptName(req.idempotencyKey));
    Outcome(out.state, Redis.ReplyAnswer(out.result))
  }

  lemma NanosGrant(b: Books, id: nat, req: ReserveRequest)
    requires Redis.Timestamp(req.ExpiresAt()) * SECOND == req.ExpiresAt()
    ensures Granted(InNanos(b), id, req.Target(), req.amount, req.ExpiresAt())
         == InNanos(Granted(b, id, req.Target(), req.amount, Redis.Timestamp(req.ExpiresAt())))
  {
    var after := Granted(b, id, req.Target(), req.amount, Redis.Timestamp(req.ExpiresAt()));
    assert Granted(InNanos(b), id, req.Target(), req.amount, req.ExpiresAt()).records == InNanos(after).records;
  }

  lemma GrantNotDue(b: Books, id: nat, key: CounterKey, amount: nat, expiresAt: int, now: int)
    requires DueIds(b.records, now) == {} && now < expiresAt
    ensures DueIds(Granted(b, id, key, amount, expiresAt).records, now) == {}
  {
    var after := Granted(b, id, key, amount, expiresAt).records;
    forall k | k in after
      ensures !Due(after[k], now)
    {
      assert k != id ==> k !in DueIds(b.records, now);
    }
  }

  /** The request expires at a whole second, after `time`. */
  predicate Whole(req: ReserveRequest, time: int) {
    Redis.Timestamp(req.ExpiresAt()) * SECOND == req.ExpiresAt() && time < Redis.Timestamp(req.ExpiresAt())
  }

  lemma EvenGrant(m: Ledger, s: Redis.Keyspace, req: ReserveRequest, time: int)
    requires Even(m, s, time) && Sound(m) && Whole(req, time) && Supported(req)
    requires !Replays(m, req) && Fits(m.books, req)
    ensures
      var t := Redis.GrantedKeyspace(s, req.Target(), req.amount, Redis.Timestamp(req.ExpiresAt()), Redis.ScriptName(req.idempotencyKey));
      Even(GrantedLedger(m, req), t, time)
  {
    SoundIsTidy(m, req.Target());
    GuardExact(m, req);
    NanosGrant(s.books, s.sequence + 1, req);
    GrantNotDue(s.books, s.sequence + 1, req.Target(), req.amount, Redis.Timestamp(req.ExpiresAt()), time);
  }

  lemma EvenFresh(m: Ledger, s: Redis.Keyspace, req: ReserveRequest, time: int)
    requires Even(m, s, time) && Sound(m) && Whole(req, time) && Supported(req) && m.nextId < U64_MAX
    requires !Replays(m, req)
    ensures ReserveCleaned(m, req).result == ScriptReserve(s, req).result
    ensures
      var t := Redis.GrantedKeyspace(s, req.Target(), req.amount, Redis.Timestamp(req.ExpiresAt()), Redis.ScriptName(req.idempotencyKey));
      if Fits(m.books, req) then ReserveCleaned(m, req).state == GrantedLedger(m, req) && ScriptReserve(s, req).state == t
      else ReserveCleaned(m, req).state == m && ScriptReserve(s, req).state == s
  {
    SoundIsTidy(m, req.Target());
    GuardExact(m, req);
    NanosGrant(s.books, s.sequence + 1, req);
    assert req.idempotencyKey.Some? ==> (req.Target(), req.idempotencyKey.value) !in s.idempotency;
  }

  lemma EvenEqual(m: Ledger, s: Redis.Keyspace, n: Ledger, t: Redis.Keyspace, seconds: int)
    requires Even(m, s, seconds) && n == m && t == s
    ensures Even(n, t, seconds)
  {
  }

  /** On even books the script and the ledger give one answer, unless the request revives a dead key. */
  lemma EvenReserve(m: Ledger, s: Redis.Keyspace, req: ReserveRequest, time: int)
    requires Even(m, s, time) && Sound(m) && Whole(req, time) && Supported(req) && m.nextId < U64_MAX
    ensures ReserveCleaned(m, req).result == ScriptReserve(s, req).result <==> !ReusesDeadKey(m, req)
    ensures !ReusesDeadKey(m, req) ==>
              Even(ReserveCleaned(m, req).state, ScriptReserve(s, req).state, time)
  {
    var n, t := ReserveCleaned(m, req).state, ScriptReserve(s, req).state;
    if Replays(m, req) {
      EvenReplay(m, s, req, time);
      if !ReusesDeadKey(m, req) {
        EvenEqual(m, s, n, t, time);
      }
    } else {
      EvenFresh(m, s, req, time);
      if Fits(m.books, req) {
        EvenGrant(m, s, req, time);
      } else {
        EvenEqual(m, s, n, t, time);
      }
    }
  }

  lemma EvenReplay(m: Ledger, s: Redis.Keyspace, req: ReserveRequest, time: int)
    requires Even(m, s, time) && Sound(m) && Whole(req, time) && Supported(req) && Replays(m, req)
    ensures ReserveCleaned(m, req).result == ScriptReserve(s, req).result <==> !ReusesDeadKey(m, req)
    ensures !ReusesDeadKey(m, req) ==> ReserveCleaned(m, req).state == m && ScriptReserve(s, req).state == s
  {
    SoundIsTidy(m, req.Target());
    GuardExact(m, req);
    SoundIsShaped(m);
    ReplayCleaned(m, req);
    var id := m.idempotency[(req.Target(), req.idempotencyKey.value)];
    assert id in s.books.records && m.books.records[id] == RecordNanos(s.books.records[id]);
  }

  // ---------------------------------------------------------------- finish

  lemma CloseDue(b: Books, id: nat, status: Status, now: int)
    requires id in b.records && b.records[id].status.Active? && !Due(b.records[id], now) && !status.Active?
    ensures DueIds(Closed(b, id, status).records, now) == DueIds(b.records, now)
  {
    var after := Closed(b, id, status).records;
    forall k | k in b.records
      ensures Due(after[k], now) <==> Due(b.records[k], now)
    {
    }
  }

  lemma CloseRecords(b: Books, id: nat, status: Status, ids: set<nat>)
    requires id in b.records && id !in ids
    ensures RecordsAfter(Closed(b, id, status).records, ids) == Closed(ExpireAll(b, ids), id, status).records
  {
  }

  /** Settling an open reservation and expiring what is due can be done in either order. */
  lemma CloseThenClean(b: Books, id: nat, status: Status, now: int)
    requires id in b.records && b.records[id].status.Active? && !Due(b.records[id], now) && !status.Active?
    ensures id in Cleaned(b, now).records
    ensures Cleaned(Closed(b, id, status), now) == Closed(Cleaned(b, now), id, status)
  {
    var ids := DueIds(b.records, now);
    CloseDue(b, id, status, now);
    CloseCounters(b, id, status, ids);
    CloseRecords(b, id, status, ids);
  }

  lemma CloseTotals(b: Books, id: nat, status: Status, ids: set<nat>, key: CounterKey)
    requires id in b.records && id !in ids
    ensures Total(Closed(b, id, status).records, HeldBy(key, ids)) == Total(b.records, HeldBy(key, ids))
  {
    var closed := Closed(b, id, status).records;
    assert closed.Keys == b.records.Keys;
    TotalEqual(closed, HeldBy(key, ids), b.records, HeldBy(key, ids));
  }

  /** The counter of the settled window, in either order: both subtractions end in the same place. */
  lemma CloseCounterAt(b: Books, id: nat, status: Status, ids: set<nat>, key: CounterKey)
    requires id in b.records && id !in ids && key in Closed(b, id, status).counters
    ensures key in Closed(ExpireAll(b, ids), id, status).counters
    ensures CountersAfter(Closed(b, id, status), ids)[key] == Closed(ExpireAll(b, ids), id, status).counters[key]
  {
    CloseTotals(b, id, status, ids, key);
    CloseCounter(b, CountersAfter(b, ids), id, status, key, Total(b.records, HeldBy(key, ids)));
  }

  lemma CloseCounter(b: Books, after: map<CounterKey, Counter>, id: nat, status: Status, key: CounterKey, released: nat)
    requires id in b.records && key in Closed(b, id, status).counters && after.Keys == b.counters.Keys
    requires key in b.counters ==> after[key] == Counter(b.counters[key].committed, SatSub(b.counters[key].reserved, released))
    ensures
      var counter := Closed(b, id, status).counters[key];
      var closed := Closed(Books(after, b.records), id, status).counters;
      key in closed && closed[key] == Counter(counter.committed, SatSub(counter.reserved, released))
  {
  }

  lemma CloseKeys(b: Books, id: nat, status: Status, ids: set<nat>)
    requires id in b.records
    ensures CountersAfter(Closed(b, id, status), ids).Keys == Closed(ExpireAll(b, ids), id, status).counters.Keys
  {
  }

  lemma CloseCounters(b: Books, id: nat, status: Status, ids: set<nat>)
    requires id in b.records && id !in ids
    ensures CountersAfter(Closed(b, id, status), ids) == Closed(ExpireAll(b, ids), id, status).counters
  {
    var left, right := CountersAfter(Closed(b, id, status), ids), Closed(ExpireAll(b, ids), id, status).counters;
    forall key | key in left
      ensures key in right && left[key] == right[key]
    {
      CloseCounterAt(b, id, status, ids, key);
    }
    CloseKeys(b, id, status, ids);
  }

  /** Expiring a due reservation early leaves the cleanup the same books to arrive at. */
  lemma ExpireThenClean(b: Books, id: nat, now: int)
    requires id in b.records && b.records[id].key in b.counters && Due(b.records[id], now)
    ensures Cleaned(Closed(b, id, Expired), now) == Cleaned(b, now)
  {
    var one := ExpireAll(b, {id});
    assert Closed(b, id, Expired) == one by {
      ExpireSingle(b, id);
      assert Closed(b, id, Expired) == ExpireOne(b, id);
    }
    var rest := DueIds(b.records, now) - {id};
    assert DueIds(RecordsAfter(b.records, {id}), now) == rest;
    ExpireUnion(b, {id}, rest);
    assert {id} + rest == DueIds(b.records, now);
  }

  lemma NanosClosed(b: Books, id: nat, commit: bool)
    requires id in b.records && b.records[id].key in b.counters
    ensures Settled(InNanos(b), id, commit) == InNanos(Closed(b, id, if commit then Committed else Refunded))
  {
    var closed := Closed(b, id, if commit then Committed else Refunded);
    assert Settled(InNanos(b), id, commit).records == InNanos(closed).records;
  }

  function Settlement(commit: bool): Status {
    if commit then Committed else Refunded
  }

  /** The ledger's side of settling: `c` is the keyspace's books with everything due cleaned up. */
  lemma FinishOpenLedger(m: Ledger, c: Books, id: nat, commit: bool)
    requires Sound(m) && m.books == InNanos(c) && id in c.records && c.records[id].status.Active?
    ensures FinishCleaned(m, id, commit) == Outcome(m.(books := InNanos(Closed(c, id, Settlement(commit)))), Ok(()))
  {
    SoundIsShaped(m);
    SoundIsTidy(m, m.books.records[id].key);
    SettleExact(m, id, commit);
    NanosClosed(c, id, commit);
  }

  /** The keyspace's side of settling. */
  lemma FinishOpenScript(s: Redis.Keyspace, id: nat, commit: bool, seconds: int)
    requires id in s.books.records && s.books.records[id].status.Active? && !Due(s.books.records[id], seconds)
    ensures id in Cleaned(s.books, seconds).records && Cleaned(s.books, seconds).records[id].status.Active?
    ensures RedisExact.Finish(s, id, commit, seconds).result == 1
    ensures LedgerOf(RedisExact.Finish(s, id, commit, seconds).state, seconds)
         == LedgerOf(s, seconds).(books := InNanos(Closed(Cleaned(s.books, seconds), id, Settlement(commit))))
  {
    CleanupAdvances(s.books, seconds);
    CloseThenClean(s.books, id, Settlement(commit), seconds);
  }

  lemma FinishOpen(m: Ledger, s: Redis.Keyspace, id: nat, commit: bool, seconds: int)
    requires Twin(m, s, seconds) && Sound(m)
    requires id in s.books.records && s.books.records[id].status.Active? && !Due(s.books.records[id], seconds)
    ensures FinishCleaned(m, id, commit)
         == Outcome(LedgerOf(RedisExact.Finish(s, id, commit, seconds).state, seconds),
                    Redis.CodeAnswer(RedisExact.Finish(s, id, commit, seconds).result))
  {
    FinishOpenScript(s, id, commit, seconds);
    FinishOpenLedger(m, Cleaned(s.books, seconds), id, commit);
  }

  lemma FinishDueScript(s: Redis.Keyspace, id: nat, commit: bool, seconds: int)
    requires id in s.books.records && Due(s.books.records[id], seconds) && s.books.records[id].key in s.books.counters
    ensures id in Cleaned(s.books, seconds).records && Cleaned(s.books, seconds).records[id].status.Expired?
    ensures RedisExact.Finish(s, id, commit, seconds).result == -1
    ensures LedgerOf(RedisExact.Finish(s, id, commit, seconds).state, seconds) == LedgerOf(s, seconds)
  {
    CleanupAdvances(s.books, seconds);
    ExpireThenClean(s.books, id, seconds);
  }

  lemma FinishDue(m: Ledger, s: Redis.Keyspace, id: nat, commit: bool, seconds: int)
    requires Twin(m, s, seconds)
    requires id in s.books.records && Due(s.books.records[id], seconds) && s.books.records[id].key in s.books.counters
    ensures FinishCleaned(m, id, commit)
         == Outcome(LedgerOf(RedisExact.Finish(s, id, commit, seconds).state, seconds),
                    Redis.CodeAnswer(RedisExact.Finish(s, id, commit, seconds).result))
  {
    FinishDueScript(s, id, commit, seconds);
  }

  /** Nothing happens on either side to an unknown reservation or one already closed. */
  lemma FinishShut(m: Ledger, s: Redis.Keyspace, c: Books, id: nat, commit: bool, seconds: int)
    requires m.books == InNanos(c) && ExpiredAt(s.books.records, c.records, seconds)
    requires id in s.books.records ==> !s.books.records[id].status.Active?
    ensures RedisExact.Finish(s, id, commit, seconds).state == s
    ensures FinishCleaned(m, id, commit) == Outcome(m, Redis.CodeAnswer(RedisExact.Finish(s, id, commit, seconds).result))
  {
  }

  lemma TwinShut(m: Ledger, s: Redis.Keyspace, id: nat, commit: bool, seconds: int)
    requires Twin(m, s, seconds)
    requires id in s.books.records ==> !s.books.records[id].status.Active?
    ensures FinishCleaned(m, id, commit)
         == Outcome(LedgerOf(RedisExact.Finish(s, id, commit, seconds).state, seconds),
                    Redis.CodeAnswer(RedisExact.Finish(s, id, commit, seconds).result))
  {
    CleanupAdvances(s.books, seconds);
    FinishShut(m, s, Cleaned(s.books, seconds), id, commit, seconds);
  }

  /** On twins at the instant of the call, both stores finish a reservation alike. */
  lemma TwinFinish(m: Ledger, s: Redis.Keyspace, id: nat, commit: bool, seconds: int)
    requires Twin(m, s, seconds) && Sound(m)
    requires id in s.books.records ==> s.books.records[id].key in s.books.counters
    ensures FinishCleaned(m, id, commit)
         == Outcome(LedgerOf(RedisExact.Finish(s, id, commit, seconds).state, seconds),
                    Redis.CodeAnswer(RedisExact.Finish(s, id, commit, seconds).result))
  {
    if id in s.books.records && Due(s.books.records[id], seconds) {
      FinishDue(m, s, id, commit, seconds);
    } else if id in s.books.records && s.books.records[id].status.Active? {
      FinishOpen(m, s, id, commit, seconds);
    } else {
      TwinShut(m, s, id, commit, seconds);
    }
  }

  // ---------------------------------------------------------------- whole runs

  datatype Answer = Reserved(reserved: ReserveAnswer) | Finished(finished: FinishAnswer) | Counted(usage: Counter)

  /** One operation of the in-memory ledger, with its answer. */
  ghost function LedgerStep(m: Ledger, op: Op): Outcome<Ledger, Answer> {
    match op
    case ReserveOp(req) => Outcome(Memory.Reserve(m, req).state, Reserved(Memory.Reserve(m, req).result))
    case FinishOp(id, commit, now) =>
      Outcome(Memory.Finish(m, id, commit, now).state, Finished(Memory.Finish(m, id, commit, now).result))
    case ReadOp(key, now) => Outcome(Read(m, key, now).state, Counted(Read(m, key, now).result))
  }

  /** A reserve of the in-memory ledger at whole seconds, for a request that is validated as it was made. */
  ghost function RoundedReserve(m: Ledger, req: ReserveRequest): Outcome<Ledger, ReserveAnswer> {
    if req.Validate().Err? then Outcome(m, Err(req.Validate().error))
    else ReserveCleaned(CleanedLedger(m, RoundDown(req.now)), RoundedRequest(req))
  }

  /** One operation of the in-memory ledger at instants rounded down to seconds. */
  ghost function RoundedStep(m: Ledger, op: Op): Outcome<Ledger, Answer> {
    match op
    case ReserveOp(req) => Outcome(RoundedReserve(m, req).state, Reserved(RoundedReserve(m, req).result))
    case FinishOp(id, commit, now) => LedgerStep(m, FinishOp(id, commit, RoundDown(now)))
    case ReadOp(key, now) => LedgerStep(m, ReadOp(key, RoundDown(now)))
  }

  /** One store call of Redis in integers, at the instants as they are. */
  ghost function ExactStep(s: Redis.Keyspace, op: Op): Outcome<Redis.Keyspace, Answer> {
    match op
    case ReserveOp(req) => Outcome(RedisExact.StoreReserve(s, req).state, Reserved(RedisExact.StoreReserve(s, req).result))
    case FinishOp(id, commit, now) =>
      Outcome(RedisExact.StoreFinish(s, id, commit, now).state, Finished(RedisExact.StoreFinish(s, id, commit, now).result))
    case ReadOp(key, now) => Outcome(RedisExact.StoreRead(s, key, now).state, Counted(RedisExact.StoreRead(s, key, now).result))
  }

  ghost function LedgerAnswers(m: Ledger, ops: seq<Op>): seq<Answer>
    decreases |ops|
  {
    if ops == [] then [] else [LedgerStep(m, ops[0]).result] + LedgerAnswers(LedgerStep(m, ops[0]).state, ops[1..])
  }

  ghost function RoundedAnswers(m: Ledger, ops: seq<Op>): seq<Answer>
    decreases |ops|
  {
    if ops == [] then [] else [RoundedStep(m, ops[0]).result] + RoundedAnswers(RoundedStep(m, ops[0]).state, ops[1..])
  }

  /** One non-decreasing clock, and inputs that fit the backend. */
  predicate Admissible(ops: seq<Op>, time: int)
    decreases |ops|
  {
    ops == [] ||
    (&& time <= OpTime(ops[0])
     && (ops[0].ReserveOp? ==> Supported(ops[0].req))
     && (ops[0].FinishOp? ==> ops[0].id <= I64_MAX)
     && Admissible(ops[1..], OpTime(ops[0])))
  }

  ghost predicate Revives(m: Ledger, op: Op) {
    op.ReserveOp? && op.req.Validate().Ok? && ReusesDeadKey(CleanedLedger(m, RoundDown(op.req.now)), op.req)
  }

  ghost predicate NoneRevived(m: Ledger, ops: seq<Op>)
    decreases |ops|
  {
    ops == [] || (!Revives(m, ops[0]) && NoneRevived(RoundedStep(m, ops[0]).state, ops[1..]))
  }

  /**
   * Up to when the two have the same due. A refused request does not get as far as its cleanup; a granted one may
   * expire in the very second it was made in.
   */
  function TimeAfter(op: Op, before: int): int {
    if op.ReserveOp? then (if op.req.Validate().Err? then before else Redis.Timestamp(op.req.now) - 1)
    else Redis.Timestamp(OpTime(op))
  }

  lemma EvenEarlier(m: Ledger, s: Redis.Keyspace, seconds: int)
    requires Even(m, s, seconds)
    ensures Even(m, s, seconds - 1)
  {
    forall id | id in s.books.records
      ensures !Due(s.books.records[id], seconds - 1)
    {
      assert id !in DueIds(s.books.records, seconds);
    }
    assert DueIds(s.books.records, seconds - 1) == {};
  }

  /** The scripts of a store call see the rounded request. */
  lemma ScriptsSeeSeconds(s: Redis.Keyspace, req: ReserveRequest)
    requires Supported(req) && req.Validate().Ok?
    ensures RedisExact.StoreReserve(s, req) == ScriptReserve(RedisExact.Cleanup(s, Redis.Timestamp(req.now)), RoundedRequest(req))
  {
    RoundedFacts(req);
  }

  /** Both outcomes carry one answer unless the stores part here, and then leave twins. */
  ghost predicate AlikeUnless<R>(a: Outcome<Ledger, R>, b: Outcome<Redis.Keyspace, R>, parting: bool, time: int) {
    if parting then a.result != b.result else a.result == b.result && Twin(a.state, b.state, time)
  }

  lemma EvenReserveTwin(c: Ledger, t: Redis.Keyspace, whole: ReserveRequest, time: int)
    requires Even(c, t, time) && Sound(c) && Whole(whole, time) && Supported(whole) && c.nextId < U64_MAX
    ensures AlikeUnless(ReserveCleaned(c, whole), ScriptReserve(t, whole), ReusesDeadKey(c, whole), time)
  {
    EvenReserve(c, t, whole, time);
    if !ReusesDeadKey(c, whole) {
      EvenIsTwin(ReserveCleaned(c, whole).state, ScriptReserve(t, whole).state, time);
    }
  }

  lemma CleanedTwins(m: Ledger, s: Redis.Keyspace, before: int, now: int, time: int)
    requires Twin(m, s, before) && Sound(m) && Redis.Indexed(s) && before <= Redis.Timestamp(now) == time + 1
    ensures Sound(CleanedLedger(m, RoundDown(now)))
    ensures Even(CleanedLedger(m, RoundDown(now)), RedisExact.Cleanup(s, Redis.Timestamp(now)), time)
  {
    CleanupSound(m, RoundDown(now));
    CleanupEven(m, s, before, Redis.Timestamp(now));
    EvenEarlier(CleanedLedger(m, RoundDown(now)), RedisExact.Cleanup(s, Redis.Timestamp(now)), Redis.Timestamp(now));
  }

  lemma RevivesRounded(m: Ledger, req: ReserveRequest)
    requires req.Validate().Ok?
    ensures RoundedReserve(m, req) == ReserveCleaned(CleanedLedger(m, RoundDown(req.now)), RoundedRequest(req))
    ensures Revives(m, ReserveOp(req)) == ReusesDeadKey(CleanedLedger(m, RoundDown(req.now)), RoundedRequest(req))
  {
  }

  lemma AlikeEqual<R>(a: Outcome<Ledger, R>, b: Outcome<Redis.Keyspace, R>, p: bool,
                      x: Outcome<Ledger, R>, y: Outcome<Redis.Keyspace, R>, q: bool, time: int)
    requires AlikeUnless(x, y, q, time) && a == x && b == y && p == q
    ensures AlikeUnless(a, b, p, time)
  {
  }

  lemma RoundedEven(c: Ledger, t: Redis.Keyspace, req: ReserveRequest, whole: ReserveRequest, time: int)
    requires Even(c, t, time) && Sound(c) && c.nextId < U64_MAX
    requires Supported(req) && req.ttl > 0 && whole == RoundedRequest(req) && time < Redis.Timestamp(req.now)
    ensures AlikeUnless(ReserveCleaned(c, whole), ScriptReserve(t, whole), ReusesDeadKey(c, whole), time)
  {
    assert Whole(whole, time) && Supported(whole) by { RoundedFacts(req); }
    EvenReserveTwin(c, t, whole, time);
  }

  lemma ReserveUnfolds(m: Ledger, s: Redis.Keyspace, req: ReserveRequest, c: Ledger, t: Redis.Keyspace, whole: ReserveRequest, time: int)
    requires Supported(req) && req.Validate().Ok?
    requires c == CleanedLedger(m, RoundDown(req.now)) && t == RedisExact.Cleanup(s, Redis.Timestamp(req.now)) && whole == RoundedRequest(req)
    requires AlikeUnless(ReserveCleaned(c, whole), ScriptReserve(t, whole), ReusesDeadKey(c, whole), time)
    ensures AlikeUnless(RoundedReserve(m, req), RedisExact.StoreReserve(s, req), Revives(m, ReserveOp(req)), time)
  {
    RevivesRounded(m, req);
    ScriptsSeeSeconds(s, req);
    AlikeEqual(RoundedReserve(m, req), RedisExact.StoreReserve(s, req), Revives(m, ReserveOp(req)),
               ReserveCleaned(c, whole), ScriptReserve(t, whole), ReusesDeadKey(c, whole), time);
  }

  lemma ReserveEven(m: Ledger, s: Redis.Keyspace, req: ReserveRequest, c: Ledger, t: Redis.Keyspace, time: int)
    requires Even(c, t, time) && Sound(c) && c.nextId < U64_MAX && Supported(req) && req.Validate().Ok?
    requires c == CleanedLedger(m, RoundDown(req.now)) && t == RedisExact.Cleanup(s, Redis.Timestamp(req.now))
    requires time < Redis.Timestamp(req.now)
    ensures AlikeUnless(RoundedReserve(m, req), RedisExact.StoreReserve(s, req), Revives(m, ReserveOp(req)), time)
  {
    RoundedEven(c, t, req, RoundedRequest(req), time);
    ReserveUnfolds(m, s, req, c, t, RoundedRequest(req), time);
  }

  lemma ReserveAgrees(m: Ledger, s: Redis.Keyspace, before: int, req: ReserveRequest, time: int)
    requires Twin(m, s, before) && Sound(m) && Redis.Indexed(s) && before <= Redis.Timestamp(req.now) == time + 1
    requires Supported(req) && m.nextId < U64_MAX && req.Validate().Ok?
    ensures AlikeUnless(RoundedReserve(m, req), RedisExact.StoreReserve(s, req), Revives(m, ReserveOp(req)), time)
  {
    CleanedTwins(m, s, before, req.now, time);
    ReserveEven(m, s, req, CleanedLedger(m, RoundDown(req.now)), RedisExact.Cleanup(s, Redis.Timestamp(req.now)), time);
  }

  lemma RefusedAlike(m: Ledger, s: Redis.Keyspace, before: int, req: ReserveRequest)
    requires Twin(m, s, before) && req.Validate().Err?
    ensures AlikeUnless(RoundedReserve(m, req), RedisExact.StoreReserve(s, req), Revives(m, ReserveOp(req)), before)
  {
  }

  lemma ReserveStepUnfolds(m: Ledger, s: Redis.Keyspace, req: ReserveRequest, time: int)
    requires AlikeUnless(RoundedReserve(m, req), RedisExact.StoreReserve(s, req), Revives(m, ReserveOp(req)), time)
    ensures
      var op := ReserveOp(req);
      AlikeUnless(RoundedStep(m, op), ExactStep(s, op), Revives(m, op), time)
  {
  }

  lemma ReserveStepAgrees(m: Ledger, s: Redis.Keyspace, before: int, req: ReserveRequest)
    requires Twin(m, s, before) && Sound(m) && Redis.Indexed(s) && before <= Redis.Timestamp(req.now)
    requires Supported(req) && m.nextId < U64_MAX
    ensures
      var op := ReserveOp(req);
      AlikeUnless(RoundedStep(m, op), ExactStep(s, op), Revives(m, op), TimeAfter(op, before))
  {
    if req.Validate().Ok? {
      var time := Redis.Timestamp(req.now) - 1;
      ReserveAgrees(m, s, before, req, time);
      ReserveStepUnfolds(m, s, req, time);
      assert TimeAfter(ReserveOp(req), before) == time;
    } else {
      RefusedAlike(m, s, before, req);
      ReserveStepUnfolds(m, s, req, before);
      assert TimeAfter(ReserveOp(req), before) == before;
    }
  }

  lemma FinishAgrees(m: Ledger, s: Redis.Keyspace, before: int, id: nat, commit: bool, now: int)
    requires Twin(m, s, before) && Sound(m) && before <= Redis.Timestamp(now) && id <= I64_MAX
    requires id in s.books.records ==> s.books.records[id].key in s.books.counters
    ensures Memory.Finish(m, id, commit, RoundDown(now)).result == RedisExact.StoreFinish(s, id, commit, now).result
    ensures Twin(Memory.Finish(m, id, commit, RoundDown(now)).state, RedisExact.StoreFinish(s, id, commit, now).state, Redis.Timestamp(now))
  {
    TwinCleanup(m, s, before, Redis.Timestamp(now));
    CleanupSound(m, RoundDown(now));
    TwinFinish(CleanedLedger(m, RoundDown(now)), s, id, commit, Redis.Timestamp(now));
  }

  lemma ReadAgrees(m: Ledger, s: Redis.Keyspace, before: int, key: CounterKey, now: int)
    requires Twin(m, s, before) && Redis.Indexed(s) && before <= Redis.Timestamp(now)
    ensures Read(m, key, RoundDown(now)).result == RedisExact.StoreRead(s, key, now).result
    ensures Twin(Read(m, key, RoundDown(now)).state, RedisExact.StoreRead(s, key, now).state, Redis.Timestamp(now))
  {
    CleanupEven(m, s, before, Redis.Timestamp(now));
    EvenRead(CleanedLedger(m, RoundDown(now)), RedisExact.Cleanup(s, Redis.Timestamp(now)), key, Redis.Timestamp(now));
  }

  lemma EvenRead(c: Ledger, t: Redis.Keyspace, key: CounterKey, seconds: int)
    requires Even(c, t, seconds)
    ensures Usage(c.books, key) == Usage(t.books, key) && Twin(c, t, seconds)
  {
    EvenIsTwin(c, t, seconds);
  }

  lemma StepSafe(m: Ledger, op: Op)
    requires Sound(m) && (op.ReserveOp? ==> Supported(op.req))
    ensures Sound(RoundedStep(m, op).state)
  {
    match op {
      case ReserveOp(req) => RoundedReserveSound(m, req);
      case FinishOp(id, commit, now) => StepSound(m, FinishOp(id, commit, RoundDown(now)));
      case ReadOp(key, now) => CleanupSound(m, RoundDown(now));
    }
  }

  lemma RoundedReserveSound(m: Ledger, req: ReserveRequest)
    requires Sound(m) && Supported(req)
    ensures Sound(RoundedReserve(m, req).state)
  {
    if req.Validate().Ok? {
      var c := CleanedLedger(m, RoundDown(req.now));
      assert Sound(c) by { CleanupSound(m, RoundDown(req.now)); }
      ReserveCleanedSound(c, RoundedRequest(req));
    }
  }

  lemma StepIds(m: Ledger, op: Op)
    ensures RoundedStep(m, op).state.nextId <= m.nextId + 1
  {
    if op.ReserveOp? {
      ReserveIds(CleanedLedger(m, RoundDown(op.req.now)), RoundedRequest(op.req));
    }
  }

  lemma ReserveIds(c: Ledger, req: ReserveRequest)
    ensures ReserveCleaned(c, req).state.nextId <= c.nextId + 1
  {
  }

  /** One store call of Redis, its cleanup walking the range in whatever order, on the instants as they are. */
  ghost function RedisStep(s: Redis.Keyspace, op: Op): Outcome<Redis.Keyspace, Answer> {
    match op
    case ReserveOp(req) => Outcome(Redis.StoreReserve(s, req).state, Reserved(Redis.StoreReserve(s, req).result))
    case FinishOp(id, commit, now) =>
      Outcome(Redis.StoreFinish(s, id, commit, now).state, Finished(Redis.StoreFinish(s, id, commit, now).result))
    case ReadOp(key, now) => Outcome(Redis.StoreRead(s, key, now).state, Counted(Redis.StoreRead(s, key, now).result))
  }

  ghost function RedisAnswers(s: Redis.Keyspace, ops: seq<Op>): seq<Answer>
    decreases |ops|
  {
    if ops == [] then [] else [RedisStep(s, ops[0]).result] + RedisAnswers(RedisStep(s, ops[0]).state, ops[1..])
  }

  /** Below 2^53 the doubles do not show. */
  lemma StepExact(s: Redis.Keyspace, op: Op)
    requires Redis.Valid(s) && RedisExact.Small(s.books) && (op.ReserveOp? ==> Supported(op.req))
    ensures RedisStep(s, op) == ExactStep(s, op)
  {
    match op {
      case ReserveOp(req) => RedisExact.StoreReserveExact(s, req);
      case FinishOp(id, commit, now) => RedisExact.StoreFinishExact(s, id, commit, now);
      case ReadOp(key, now) => RedisExact.StoreReadExact(s, key, now);
    }
  }

  lemma ReserveOnValid(t: Redis.Keyspace, req: ReserveRequest)
    requires Redis.Valid(t) && RedisExact.Small(t.books) && Supported(req)
    ensures Redis.Valid(Redis.ReserveOn(t, req).state) && RedisExact.Small(Redis.ReserveOn(t, req).state.books)
  {
    var expiresAt, name := Redis.Timestamp(req.ExpiresAt()), Redis.ScriptName(req.idempotencyKey);
    Redis.ReserveValid(t, req.Target(), req.amount, req.effectiveLimit, expiresAt, name);
    RedisExact.ReserveSmall(t, req.Target(), req.amount, req.effectiveLimit, expiresAt, name);
  }

  lemma CleanupValid(s: Redis.Keyspace, now: int)
    requires Redis.Valid(s) && RedisExact.Small(s.books)
    ensures Redis.Valid(Redis.Cleanup(s, now)) && RedisExact.Small(Redis.Cleanup(s, now).books)
  {
    Redis.SweepValid(s, Redis.SomeOrder(Redis.InRange(s, now)));
    RedisExact.SweepSmall(s, Redis.SomeOrder(Redis.InRange(s, now)));
  }

  lemma StepValid(s: Redis.Keyspace, op: Op)
    requires Redis.Valid(s) && RedisExact.Small(s.books) && (op.ReserveOp? ==> Supported(op.req))
    ensures Redis.Valid(RedisStep(s, op).state) && RedisExact.Small(RedisStep(s, op).state.books)
  {
    match op {
      case ReserveOp(req) =>
        CleanupValid(s, Redis.Timestamp(req.now));
        ReserveOnValid(Redis.Cleanup(s, Redis.Timestamp(req.now)), req);
      case FinishOp(id, commit, now) =>
        Redis.FinishValid(s, id, commit, Redis.Timestamp(now));
        RedisExact.FinishSmall(s, id, commit, Redis.Timestamp(now));
      case ReadOp(_, now) => CleanupValid(s, Redis.Timestamp(now));
    }
  }

  /** One operation is answered alike exactly when it revives no dead key, and then the stores stay twins. */
  lemma StepAgrees(m: Ledger, s: Redis.Keyspace, before: int, op: Op)
    requires Twin(m, s, before) && Sound(m) && Redis.Valid(s) && m.nextId < U64_MAX
    requires before <= Redis.Timestamp(OpTime(op))
    requires (op.ReserveOp? ==> Supported(op.req)) && (op.FinishOp? ==> op.id <= I64_MAX)
    ensures AlikeUnless(RoundedStep(m, op), ExactStep(s, op), Revives(m, op), TimeAfter(op, before))
  {
    match op {
      case ReserveOp(req) => ReserveStepAgrees(m, s, before, req);
      case FinishOp(id, commit, now) => FinishAgrees(m, s, before, id, commit, now);
      case ReadOp(key, now) => ReadAgrees(m, s, before, key, now);
    }
  }

  /** Over whole runs the two stores give the same answers exactly when no operation revives a dead key. */
  lemma {:induction false} RunAgrees(m: Ledger, s: Redis.Keyspace, before: int, time: int, ops: seq<Op>)
    requires Twin(m, s, before) && Sound(m) && Redis.Valid(s) && RedisExact.Small(s.books)
    requires before <= Redis.Timestamp(time) && Admissible(ops, time) && m.nextId + |ops| <= U64_MAX
    ensures RoundedAnswers(m, ops) == RedisAnswers(s, ops) <==> NoneRevived(m, ops)
    decreases |ops|
  {
    if ops != [] {
      var n, t := RoundedStep(m, ops[0]), RedisStep(s, ops[0]);
      assert AlikeUnless(n, t, Revives(m, ops[0]), TimeAfter(ops[0], before)) by {
        StepExact(s, ops[0]);
        StepAgrees(m, s, before, ops[0]);
      }
      StepIds(m, ops[0]);
      FirstAnswers(m, s, ops);
      if !Revives(m, ops[0]) {
        StepSafe(m, ops[0]);
        StepValid(s, ops[0]);
        RunAgrees(n.state, t.state, TimeAfter(ops[0], before), OpTime(ops[0]), ops[1..]);
      }
    }
  }

  lemma FirstAnswers(m: Ledger, s: Redis.Keyspace, ops: seq<Op>)
    requires ops != []
    ensures RoundedAnswers(m, ops) == RedisAnswers(s, ops) <==>
            RoundedStep(m, ops[0]).result == RedisStep(s, ops[0]).result
            && RoundedAnswers(RoundedStep(m, ops[0]).state, ops[1..]) == RedisAnswers(RedisStep(s, ops[0]).state, ops[1..])
  {
    var left, right := RoundedAnswers(m, ops), RedisAnswers(s, ops);
    assert left[0] == RoundedStep(m, ops[0]).result && right[0] == RedisStep(s, ops[0]).result;
    assert left[1..] == RoundedAnswers(RoundedStep(m, ops[0]).state, ops[1..]);
    assert right[1..] == RedisAnswers(RedisStep(s, ops[0]).state, ops[1..]);
  }

  /**
   * On any non-decreasing instants, Redis answers a run from empty stores as the in-memory ledger answers it at
   * instants rounded down to seconds, exactly when no operation of the rounded run revives a dead key.
   */
  lemma RedisAgrees(start: int, ops: seq<Op>)
    requires Admissible(ops, start) && |ops| <= U64_MAX
    ensures RoundedAnswers(EMPTY, ops) == RedisAnswers(Redis.EMPTY_KEYSPACE, ops) <==> NoneRevived(EMPTY, ops)
  {
    StartTwin(Redis.Timestamp(start));
    EmptySound();
    EmptyConserved();
    Redis.EmptyValid();
    RunAgrees(EMPTY, Redis.EMPTY_KEYSPACE, Redis.Timestamp(start), start, ops);
  }

  // ---------------------------------------------------------------- the rounded run is a run of the ledger

  function Rounded(op: Op): Op {
    match op
    case ReserveOp(req) => ReserveOp(RoundedRequest(req))
    case FinishOp(id, commit, now) => FinishOp(id, commit, RoundDown(now))
    case ReadOp(key, now) => ReadOp(key, RoundDown(now))
  }

  function RoundedOps(ops: seq<Op>): (rounded: seq<Op>)
    ensures |rounded| == |ops| && forall i :: 0 <= i < |ops| ==> rounded[i] == Rounded(ops[i])
  {
    if ops == [] then [] else [Rounded(ops[0])] + RoundedOps(ops[1..])
  }

  /** A valid request outlives the second it was made in. */
  predicate OutlivesSecond(op: Op) {
    op.ReserveOp? && op.req.Validate().Ok? ==> Redis.Timestamp(op.req.now) < Redis.Timestamp(op.req.ExpiresAt())
  }

  lemma RoundedStepIsLedgerStep(m: Ledger, op: Op)
    requires OutlivesSecond(op)
    ensures RoundedStep(m, op) == LedgerStep(m, Rounded(op))
  {
    if op.ReserveOp? {
      var req := op.req;
      assert req.Validate().Ok? <==> RoundedRequest(req).Validate().Ok?;
      assert req.Validate().Err? ==> RoundedRequest(req).Validate() == req.Validate();
    }
  }

  /** Where reservations outlive their second, the rounded run is the ledger's own run on the rounded operations. */
  lemma {:induction false} RoundedRunIsLedgerRun(m: Ledger, ops: seq<Op>)
    requires forall i :: 0 <= i < |ops| ==> OutlivesSecond(ops[i])
    ensures RoundedAnswers(m, ops) == LedgerAnswers(m, RoundedOps(ops))
    decreases |ops|
  {
    if ops != [] {
      RoundedStepIsLedgerStep(m, ops[0]);
      RoundedRunIsLedgerRun(RoundedStep(m, ops[0]).state, ops[1..]);
      assert RoundedOps(ops)[1..] == RoundedOps(ops[1..]);
    }
  }

  /** Instants and lifetimes are whole seconds. */
  predicate WholeSeconds(op: Op) {
    OpTime(op) % SECOND == 0 && (op.ReserveOp? ==> op.req.ttl % SECOND == 0)
  }

  /** On whole seconds the two stores themselves give the same answers, exactly when no dead key is revived. */
  lemma WholeSecondsAgree(start: int, ops: seq<Op>)
    requires Admissible(ops, start) && |ops| <= U64_MAX
    requires forall i :: 0 <= i < |ops| ==> WholeSeconds(ops[i])
    ensures LedgerAnswers(EMPTY, ops) == RedisAnswers(Redis.EMPTY_KEYSPACE, ops) <==> NoneRevived(EMPTY, ops)
  {
    forall i | 0 <= i < |ops|
      ensures Rounded(ops[i]) == ops[i] && OutlivesSecond(ops[i])
    {
      WholeIsRounded(ops[i]);
    }
    assert RoundedOps(ops) == ops;
    RoundedRunIsLedgerRun(EMPTY, ops);
    RedisAgrees(start, ops);
  }

  lemma WholeIsRounded(op: Op)
    requires WholeSeconds(op)
    ensures Rounded(op) == op && OutlivesSecond(op)
  {
    if op.ReserveOp? {
      var req := op.req;
      assert RoundDown(req.now) == req.now && RoundDown(req.ExpiresAt()) == req.ExpiresAt();
    }
  }
}
