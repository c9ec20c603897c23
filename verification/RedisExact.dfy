/** The Redis scripts while every counter stays below 2^53: integer arithmetic, and one cleanup whatever its order. */
module RedisExact {
  import opened Prelude
  import opened Doubles
  import opened Contract
  import opened Accounts
  import opened Redis

  /** Every counter is its ledger sums, and a double. */
  ghost predicate Small(b: Books) {
    forall key :: Tallies(b, key) && InUse(b, key) < TWO_53
  }

  // ---------------------------------------------------------------- integer forms

  ghost function Swept(s: Keyspace, ids: set<nat>): Keyspace {
    s.(books := ExpireAll(s.books, ids), expirations := s.expirations - ids)
  }

  ghost function Cleanup(s: Keyspace, now: int): Keyspace {
    Swept(s, InRange(s, now))
  }

  predicate WithinLimit(s: Keyspace, key: CounterKey, amount: nat, limit: nat) {
    Usage(s.books, key).committed + Usage(s.books, key).reserved + amount <= limit
  }

  function Reserve(s: Keyspace, key: CounterKey, amount: nat, limit: nat, expiresAt: int, name: string): Outcome<Keyspace, Reply> {
    if ReplaysLive(s, key, name) then
      var id := s.idempotency[(key, name)];
      Outcome(s, Reply(true, id, Usage(s.books, key), s.books.records[id].expiresAt))
    else
      var t := Unpinned(s, key, name);
      if !WithinLimit(t, key, amount, limit) then
        Outcome(t, Reply(false, 0, Usage(t.books, key), 0))
      else
        var after := GrantedKeyspace(t, key, amount, expiresAt, name);
        Outcome(after, Reply(true, after.sequence, Usage(after.books, key), expiresAt))
  }

  function Finish(s: Keyspace, id: nat, commit: bool, now: int): Outcome<Keyspace, int> {
    if id !in s.books.records then Outcome(s, 0)
    else match s.books.records[id].status
      case Committed => Outcome(s, 2)
      case Refunded => Outcome(s, 2)
      case Expired => Outcome(s, -1)
      case Active =>
        if s.books.records[id].expiresAt <= now
        then Outcome(s.(books := Closed(s.books, id, Expired), expirations := s.expirations - {id}), -1)
        else Outcome(s.(books := Closed(s.books, id, if commit then Committed else Refunded),
                        expirations := s.expirations - {id}), 1)
  }

  function ReserveOn(t: Keyspace, req: ReserveRequest): Outcome<Keyspace, ReserveAnswer> {
    var out := Reserve(t, req.Target(), req.amount, req.effectiveLimit, Timestamp(req.ExpiresAt()), ScriptName(req.idempotencyKey));
    Outcome(out.state, ReplyAnswer(out.result))
  }

  /** The range cleanup is the full cleanup. */
  lemma CleanupIsFull(s: Keyspace, now: int)
    requires Indexed(s)
    ensures Cleanup(s, now).books == Cleaned(s.books, now)
  {
    RangeIsFullScan(s, now);
  }

  // ---------------------------------------------------------------- store calls

  ghost function StoreReserve(s: Keyspace, req: ReserveRequest): Outcome<Keyspace, ReserveAnswer> {
    if Checked(req).Err? then Outcome(s, Err(Checked(req).error))
    else ReserveOn(Cleanup(s, Timestamp(req.now)), req)
  }

  function StoreFinish(s: Keyspace, id: nat, commit: bool, now: int): Outcome<Keyspace, FinishAnswer> {
    if id > I64_MAX then Outcome(s, Err(TooLarge("reservation id")))
    else
      var out := Finish(s, id, commit, Timestamp(now));
      Outcome(out.state, CodeAnswer(out.result))
  }

  ghost function StoreRead(s: Keyspace, key: CounterKey, now: int): Outcome<Keyspace, Counter> {
    var t := Cleanup(s, Timestamp(now));
    Outcome(t, Usage(t.books, key))
  }

  // ---------------------------------------------------------------- the scripts take these forms

  lemma SweptNone(s: Keyspace)
    ensures Swept(s, {}) == s
  {
    ExpireNone(s.books);
    assert s.expirations - {} == s.expirations;
  }

  lemma RemoveOneMore(members: map<nat, int>, done: set<nat>, id: nat)
    ensures members - done - {id} == members - (done + {id})
  {
  }

  lemma ReservedSmall(b: Books, done: set<nat>, id: nat)
    requires Small(b) && id in b.records && b.records[id].status.Active?
    ensures b.records[id].amount <= TWO_53 && Usage(ExpireAll(b, done), b.records[id].key).reserved <= TWO_53
  {
    var key := b.records[id].key;
    assert Tallies(b, key) && InUse(b, key) < TWO_53;
    RecordWithinTally(b, id);
    ExpireUsage(b, done, key);
  }

  lemma ExpireKeepsOther(b: Books, done: set<nat>, id: nat)
    requires Filed(b) && id in b.records && id !in done
    ensures id in ExpireAll(b, done).records && ExpireAll(b, done).records[id] == b.records[id]
    ensures b.records[id].key in ExpireAll(b, done).counters
  {
  }

  lemma ClosedIsExpireOne(b: Books, id: nat)
    requires id in b.records && b.records[id].key in b.counters
    ensures Closed(b, id, Expired) == ExpireOne(b, id)
  {
  }

  lemma SweptBooks(b: Books, done: set<nat>, id: nat)
    requires Filed(b) && Small(b) && id in b.records && b.records[id].status.Active? && id !in done
    ensures id in ExpireAll(b, done).records && ExpireAll(b, done).records[id].status.Active?
    ensures ClosedHash(ExpireAll(b, done), id, Expired) == ExpireAll(b, done + {id})
  {
    var mid := ExpireAll(b, done);
    ExpireKeepsOther(b, done, id);
    ReservedSmall(b, done, id);
    CloseExact(mid, id, Expired);
    ClosedIsExpireOne(mid, id);
    ExpireStep(b, done, id);
  }

  lemma SweepStep(s: Keyspace, done: set<nat>, id: nat)
    requires Filed(s.books) && Small(s.books) && Open(s, id) && id !in done
    ensures SweepOne(Swept(s, done), id) == Swept(s, done + {id})
  {
    SweptBooks(s.books, done, id);
    RemoveOneMore(s.expirations, done, id);
  }

  /** The rest of a sweep from where `done` is already out. */
  lemma {:induction false} SweepRest(s: Keyspace, done: set<nat>, order: seq<nat>, ids: set<nat>, all: set<nat>)
    requires Filed(s.books) && Small(s.books) && Lists(order, ids) && done !! ids && done + ids == all
    requires forall id :: id in ids ==> Open(s, id)
    ensures Sweep(Swept(s, done), order) == Swept(s, all)
    decreases |order|
  {
    if order == [] {
      assert done == all;
    } else {
      ListsTail(order, ids);
      SweepStep(s, done, order[0]);
      MoveOne(done, ids, order[0], all);
      SweepRest(s, done + {order[0]}, order[1..], ids - {order[0]}, all);
    }
  }

  lemma MoveOne(done: set<nat>, ids: set<nat>, id: nat, all: set<nat>)
    requires id in ids && done !! ids && done + ids == all
    ensures done + {id} !! ids - {id} && done + {id} + (ids - {id}) == all
  {
  }

  lemma ListsTail(order: seq<nat>, ids: set<nat>)
    requires Lists(order, ids) && order != []
    ensures order[0] in ids && Lists(order[1..], ids - {order[0]})
  {
    forall k | k in ids - {order[0]}
      ensures k in order[1..]
    {
      var i :| 0 <= i < |order| && order[i] == k;
      assert order[1..][i - 1] == k;
    }
  }

  /** Below 2^53 the order of a cleanup does not matter. */
  lemma CleanupExact(s: Keyspace, now: int, order: seq<nat>)
    requires Valid(s) && Small(s.books) && Lists(order, InRange(s, now))
    ensures Sweep(s, order) == Cleanup(s, now)
  {
    SweptNone(s);
    SweepRest(s, {}, order, InRange(s, now), InRange(s, now));
  }

  lemma ReserveExact(s: Keyspace, key: CounterKey, amount: nat, limit: nat, expiresAt: int, name: string)
    requires InUse(s.books, key) < TWO_53 && limit < TWO_53
    ensures Redis.Reserve(s, key, amount, limit, expiresAt, name) == Reserve(s, key, amount, limit, expiresAt, name)
  {
    var t := Unpinned(s, key, name);
    SeenExactly(s.books, key);
    GuardExactly(t, key, amount, limit);
    if !ReplaysLive(s, key, name) && WithinLimit(t, key, amount, limit) {
      GrantExact(t, key, amount, expiresAt, name);
    }
  }

  /** The reply computed by the script is the counter after the grant. */
  lemma GrantExact(t: Keyspace, key: CounterKey, amount: nat, expiresAt: int, name: string)
    requires InUse(t.books, key) + amount < TWO_53
    ensures Double(amount) == amount
    ensures Counter(Seen(t.books, key).committed, Double(Seen(t.books, key).reserved + amount))
         == Usage(GrantedKeyspace(t, key, amount, expiresAt, name).books, key)
  {
    SeenExactly(t.books, key);
    DoubleExact(amount);
    DoubleExact(Usage(t.books, key).reserved + amount);
  }

  lemma FinishExact(s: Keyspace, id: nat, commit: bool, now: int)
    requires Small(s.books)
    ensures Redis.Finish(s, id, commit, now) == Finish(s, id, commit, now)
  {
    if Open(s, id) {
      ReservedSmall(s.books, {}, id);
      ExpireNone(s.books);
      CloseExact(s.books, id, Finish(s, id, commit, now).state.books.records[id].status);
    }
  }

  lemma CleanupSmall(s: Keyspace, now: int)
    requires Valid(s) && Small(s.books)
    ensures Redis.Cleanup(s, now) == Cleanup(s, now) && Valid(Cleanup(s, now)) && Small(Cleanup(s, now).books)
  {
    CleanupExact(s, now, SomeOrder(InRange(s, now)));
    SweepValid(s, SomeOrder(InRange(s, now)));
    SweepSmall(s, SomeOrder(InRange(s, now)));
  }

  /** Below 2^53 the store calls are their integer forms. */
  lemma StoreReserveExact(s: Keyspace, req: ReserveRequest)
    requires Valid(s) && Small(s.books) && req.effectiveLimit < TWO_53
    ensures Redis.StoreReserve(s, req) == StoreReserve(s, req)
  {
    var t := Cleanup(s, Timestamp(req.now));
    CleanupSmall(s, Timestamp(req.now));
    assert InUse(t.books, req.Target()) < TWO_53 by { assert Tallies(t.books, req.Target()); }
    ReserveExact(t, req.Target(), req.amount, req.effectiveLimit, Timestamp(req.ExpiresAt()), ScriptName(req.idempotencyKey));
  }

  lemma StoreReadExact(s: Keyspace, key: CounterKey, now: int)
    requires Valid(s) && Small(s.books)
    ensures Redis.StoreRead(s, key, now) == StoreRead(s, key, now)
  {
    var t := Cleanup(s, Timestamp(now));
    CleanupSmall(s, Timestamp(now));
    assert InUse(t.books, key) < TWO_53 by { assert Tallies(t.books, key); }
    SeenExactly(t.books, key);
  }

  lemma StoreFinishExact(s: Keyspace, id: nat, commit: bool, now: int)
    requires Small(s.books)
    ensures Redis.StoreFinish(s, id, commit, now) == StoreFinish(s, id, commit, now)
  {
    FinishExact(s, id, commit, Timestamp(now));
  }

  // ---------------------------------------------------------------- and stay below 2^53

  lemma SweepSmall(s: Keyspace, order: seq<nat>)
    requires Small(s.books)
    ensures Small(Sweep(s, order).books)
  {
    forall key
      ensures Tallies(Sweep(s, order).books, key) && InUse(Sweep(s, order).books, key) < TWO_53
    {
      assert Tallies(s.books, key) && InUse(s.books, key) < TWO_53;
      SweepTidy(s, order, key, InUse(s.books, key));
    }
  }

  lemma ReserveSmall(s: Keyspace, key: CounterKey, amount: nat, limit: nat, expiresAt: int, name: string)
    requires Valid(s) && Small(s.books) && limit < TWO_53
    ensures Small(Redis.Reserve(s, key, amount, limit, expiresAt, name).state.books)
  {
    var t := Redis.Reserve(s, key, amount, limit, expiresAt, name).state;
    forall k
      ensures Tallies(t.books, k) && InUse(t.books, k) < TWO_53
    {
      assert Tallies(s.books, k) && InUse(s.books, k) < TWO_53;
      ReserveTidy(s, key, amount, limit, expiresAt, name, k, TWO_53 - 1);
    }
  }

  lemma FinishSmall(s: Keyspace, id: nat, commit: bool, now: int)
    requires Small(s.books)
    ensures Small(Redis.Finish(s, id, commit, now).state.books)
  {
    var t := Redis.Finish(s, id, commit, now).state;
    forall k
      ensures Tallies(t.books, k) && InUse(t.books, k) < TWO_53
    {
      assert Tallies(s.books, k) && InUse(s.books, k) < TWO_53;
      FinishTidy(s, id, commit, now, k, InUse(s.books, k));
    }
  }
}
