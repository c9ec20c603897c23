/** Runs from empty stores on which the backends part: each dead-key finding, and instants within a second. */
module Partings {
  import opened Prelude
  import opened Contract
  import opened Accounts
  import opened Memory
  import opened LedgerRuns
  import Policies
  import Broker
  import Sql
  import Doubles
  import Redis
  import RedisRuns
  import RedisExact
  import Simulation
  import RedisAgreement

  /** One unit held for one second under an idempotency key, of any budget and any name. */
  function First(k: StoreKey, name: string): ReserveRequest {
    ReserveRequest(k, 1, 10, 10, NANOS_PER_SECOND, Window(0, 1), Some(name), 0)
  }

  /** The same request at the instant the first reservation expires. */
  function Again(k: StoreKey, name: string): ReserveRequest {
    First(k, name).(now := NANOS_PER_SECOND)
  }

  function Twice(k: StoreKey, name: string): seq<Op> {
    [ReserveOp(First(k, name)), ReserveOp(Again(k, name))]
  }

  function KeyOf(k: StoreKey): CounterKey {
    CounterKey(k, Window(0, 1))
  }

  /** The books after `First`, whichever time unit the expiry is kept in. */
  function Opened(key: CounterKey, expiresAt: int): Books {
    Books(map[key := Counter(0, 1)], map[1 := Record(key, 1, expiresAt, Active)])
  }

  function Lapsed(key: CounterKey, expiresAt: int): Books {
    Books(map[key := Counter(0, 0)], map[1 := Record(key, 1, expiresAt, Expired)])
  }

  lemma OpenedStays(key: CounterKey, expiresAt: int, now: int)
    requires now < expiresAt
    ensures Cleaned(Opened(key, expiresAt), now) == Opened(key, expiresAt)
  {
    assert DueIds(Opened(key, expiresAt).records, now) == {};
    ExpireNone(Opened(key, expiresAt));
  }

  lemma OpenedExpires(key: CounterKey, expiresAt: int)
    ensures Cleaned(Opened(key, expiresAt), expiresAt) == Lapsed(key, expiresAt)
  {
    assert DueIds(Opened(key, expiresAt).records, expiresAt) == {1};
    ExpireSingle(Opened(key, expiresAt), 1);
  }

  lemma NothingToClean(now: int)
    ensures Cleaned(Books(map[], map[]), now) == Books(map[], map[])
  {
    assert DueIds(map[], now) == {};
    ExpireNone(Books(map[], map[]));
  }

  // ---------------------------------------------------------------- the in-memory ledger

  lemma LedgerOpens(k: StoreKey, name: string)
    ensures Memory.Reserve(EMPTY, First(k, name))
         == Outcome(Ledger(Opened(KeyOf(k), NANOS_PER_SECOND), map[(KeyOf(k), name) := 1], 1),
                    Ok(ReservationResult(Some(StoreReservation(1, NANOS_PER_SECOND)), Counter(0, 1))))
  {
    NothingToClean(0);
  }

  /** The ledger denies the second request: the key's reservation has expired. */
  lemma LedgerDenies(k: StoreKey, name: string)
    ensures Memory.Reserve(Memory.Reserve(EMPTY, First(k, name)).state, Again(k, name)).result
         == Ok(ReservationResult(None, Counter(0, 0)))
    ensures ReusesDeadKey(CleanedLedger(Memory.Reserve(EMPTY, First(k, name)).state, Again(k, name).now), Again(k, name))
  {
    LedgerOpens(k, name);
    OpenedExpires(KeyOf(k), NANOS_PER_SECOND);
  }

  // ---------------------------------------------------------------- the broker

  const WARDEN := Broker.Warden(
    [Policies.Policy("policy", Policies.KeyPattern("provider", None, None, None), Requests, 10, Policies.HardLimitOnly, false)],
    NANOS_PER_SECOND)

  /** The broker request that becomes `First` at the instant zero and `Again` one second later. */
  const REQUEST := Broker.Request(PROBE_KEY.budgetKey, Requests, 1, Policies.Normal, Some("job"))

  lemma WardenFinds()
    ensures WARDEN.WellFormed() && Policies.Find(WARDEN.policies, REQUEST.key) == Some(WARDEN.policies[0])
  {
    assert WARDEN.policies[..0] == [];
  }

  lemma BrokerOpens()
    ensures Broker.ReserveBudget(WARDEN, EMPTY, REQUEST, Window(0, 1), 0).state
         == Memory.Reserve(EMPTY, First(PROBE_KEY, "job")).state
  {
    WardenFinds();
    NothingToClean(0);
  }

  /** After the expiry of the key's reservation `authorize` allows the request and `reserve` does not. */
  lemma BrokerParts()
    ensures
      var s := Broker.ReserveBudget(WARDEN, EMPTY, REQUEST, Window(0, 1), 0).state;
      && Broker.Allows(Broker.AuthorizeBudget(WARDEN, s, REQUEST, Window(0, 1), NANOS_PER_SECOND).result)
      && !Broker.Allows(Broker.ReserveBudget(WARDEN, s, REQUEST, Window(0, 1), NANOS_PER_SECOND).result)
  {
    var s := Broker.ReserveBudget(WARDEN, EMPTY, REQUEST, Window(0, 1), 0).state;
    BrokerOpens();
    LedgerOpens(PROBE_KEY, "job");
    WardenFinds();
    OpenedExpires(KeyOf(PROBE_KEY), NANOS_PER_SECOND);
    Broker.ReserveAllowsExactly(WARDEN, s, REQUEST, Window(0, 1), NANOS_PER_SECOND);
  }

  // ---------------------------------------------------------------- the SQL stores

  lemma SqlOpens(k: StoreKey, name: string, dialect: Sql.Dialect)
    ensures Sql.Reserve(Sql.NO_ROWS, First(k, name), dialect)
         == Outcome(Sql.Tables(Opened(KeyOf(k), NANOS_PER_SECOND), map[1 := name], 1),
                    Ok(ReservationResult(Some(StoreReservation(1, NANOS_PER_SECOND)), Counter(0, 1))))
  {
    NothingToClean(0);
    assert Sql.LiveRows(Sql.NO_ROWS, KeyOf(k), name) == {};
    assert Sql.RowsFor(Sql.NO_ROWS, KeyOf(k), name) == {};
  }

  /** Where the ledger denies, the SQL stores replay the reservation as allowed at the instant it expired. */
  lemma SqlReplaysPastExpiry(k: StoreKey, name: string, dialect: Sql.Dialect)
    ensures
      var one := Sql.Reserve(Sql.NO_ROWS, First(k, name), dialect).state;
      var two := Sql.Reserve(one, Again(k, name), dialect);
      && two.result == Ok(ReservationResult(Some(StoreReservation(1, Again(k, name).now)), Counter(0, 1)))
      && 1 in two.state.books.records && Due(two.state.books.records[1], Again(k, name).now)
  {
    var one := Sql.Reserve(Sql.NO_ROWS, First(k, name), dialect).state;
    SqlOpens(k, name, dialect);
    OpenedExpires(KeyOf(k), NANOS_PER_SECOND);
    assert Sql.Carries(one, 1, KeyOf(k), name);
    assert 1 in Sql.RowsFor(one, KeyOf(k), name);
    Simulation.DeadKeyAnswer(one, Again(k, name), dialect, 1);
  }

  /** So the failing side of the agreement is reached from empty stores, in either dialect. */
  lemma SqlParts(k: StoreKey, name: string, dialect: Sql.Dialect)
    ensures Simulation.Admissible(Twice(k, name), 0)
    ensures !Simulation.NoDeadReuse(Simulation.START, Twice(k, name), dialect)
    ensures !Simulation.SameAlong(Simulation.START, Twice(k, name), dialect)
  {
    Simulation.StartSim(0);
    LedgerDenies(k, name);
    assert Twice(k, name)[1..] == [ReserveOp(Again(k, name))];
    assert Simulation.Admissible(Twice(k, name)[1..], 0);
    var p := Simulation.PairStep(Simulation.START, Twice(k, name)[0], dialect);
    assert p.mem == Memory.Reserve(EMPTY, First(k, name)).state;
    assert Simulation.DeadReuse(p, Twice(k, name)[1..][0]);
    assert !Simulation.NoDeadReuse(p, Twice(k, name)[1..], dialect);
    Simulation.RunAgrees(Simulation.START, Twice(k, name), dialect);
  }

  /** After a refund instead of the expiry, the SQL stores fail where the ledger denies. */
  lemma SqlFailsAfterRefund(k: StoreKey, name: string, dialect: Sql.Dialect)
    ensures
      var one := Sql.Reserve(Sql.NO_ROWS, First(k, name), dialect).state;
      var refunded := Sql.Finish(one, 1, false, 0);
      refunded.result == Ok(()) && Sql.Reserve(refunded.state, First(k, name), dialect).result == Err(Sql.DATABASE_ERROR)
  {
    var one := Sql.Reserve(Sql.NO_ROWS, First(k, name), dialect).state;
    SqlOpens(k, name, dialect);
    var refunded := Sql.Finish(one, 1, false, 0).state;
    assert DueIds(refunded.books.records, 0) == {};
    ExpireNone(refunded.books);
    assert Sql.Carries(refunded, 1, KeyOf(k), name);
    assert 1 in Sql.RowsFor(refunded, KeyOf(k), name);
    Simulation.DeadKeyAnswer(refunded, First(k, name), dialect, 1);
  }

  // ---------------------------------------------------------------- Redis

  /** The keyspace after `First`. */
  function Held(k: StoreKey, name: string): Redis.Keyspace {
    Redis.Keyspace(Opened(KeyOf(k), 1), map[(KeyOf(k), name) := 1], 1, map[1 := 1])
  }

  lemma EmptyIsSmall()
    ensures Redis.Valid(Redis.EMPTY_KEYSPACE) && RedisExact.Small(Redis.EMPTY_KEYSPACE.books)
  {
    Redis.EmptyValid();
    EmptyConserved();
  }

  lemma EmptyStays(now: int)
    ensures RedisExact.Cleanup(Redis.EMPTY_KEYSPACE, now) == Redis.EMPTY_KEYSPACE
  {
    assert Redis.InRange(Redis.EMPTY_KEYSPACE, now) == {};
    RedisExact.SweptNone(Redis.EMPTY_KEYSPACE);
  }

  lemma ReserveOpens(k: StoreKey, name: string)
    requires name != ""
    ensures RedisExact.Reserve(Redis.EMPTY_KEYSPACE, KeyOf(k), 1, 10, 1, name)
         == Outcome(Held(k, name), Redis.Reply(true, 1, Counter(0, 1), 1))
  {
  }

  lemma KeysSound(k: StoreKey, name: string)
    requires name != ""
    ensures Redis.Valid(Held(k, name)) && RedisExact.Small(Held(k, name).books)
  {
    EmptyIsSmall();
    Doubles.DoubleExact(1);
    ReserveOpens(k, name);
    RedisExact.ReserveExact(Redis.EMPTY_KEYSPACE, KeyOf(k), 1, 10, 1, name);
    Redis.ReserveValid(Redis.EMPTY_KEYSPACE, KeyOf(k), 1, 10, 1, name);
    RedisExact.ReserveSmall(Redis.EMPTY_KEYSPACE, KeyOf(k), 1, 10, 1, name);
  }

  /** A request that expires in the second after its own opens that keyspace. */
  lemma RedisOpens(k: StoreKey, name: string, req: ReserveRequest)
    requires name != ""
    requires req == First(k, name) || req == Longer(k, name)
    ensures Redis.StoreReserve(Redis.EMPTY_KEYSPACE, req)
         == Outcome(Held(k, name), Ok(ReservationResult(Some(StoreReservation(1, NANOS_PER_SECOND)), Counter(0, 1))))
  {
    EmptyIsSmall();
    RedisExact.StoreReserveExact(Redis.EMPTY_KEYSPACE, req);
    EmptyStays(0);
    ReserveOpens(k, name);
  }

  /** One second later the first reservation is out. */
  lemma SecondPasses(k: StoreKey, name: string)
    requires name != ""
    ensures RedisExact.Cleanup(Held(k, name), 1).books == Lapsed(KeyOf(k), 1)
    ensures RedisExact.Cleanup(Held(k, name), 1).idempotency == Held(k, name).idempotency
    ensures RedisExact.Cleanup(Held(k, name), 1).sequence == 1
  {
    assert Redis.InRange(Held(k, name), 1) == {1} == DueIds(Opened(KeyOf(k), 1).records, 1);
    OpenedExpires(KeyOf(k), 1);
  }

  /** The keyspace after the first request, for either lifetime, and what one second does to it. */
  lemma RedisHolds(k: StoreKey, name: string) returns (s: Redis.Keyspace)
    requires name != ""
    ensures Redis.StoreReserve(Redis.EMPTY_KEYSPACE, First(k, name)).state == s
    ensures Redis.StoreReserve(Redis.EMPTY_KEYSPACE, Longer(k, name)).state == s
    ensures Redis.Valid(s) && RedisExact.Small(s.books)
    ensures RedisExact.Cleanup(s, 1).books == Lapsed(KeyOf(k), 1)
    ensures RedisExact.Cleanup(s, 1).idempotency == map[(KeyOf(k), name) := 1] && RedisExact.Cleanup(s, 1).sequence == 1
  {
    s := Held(k, name);
    RedisOpens(k, name, First(k, name));
    RedisOpens(k, name, Longer(k, name));
    KeysSound(k, name);
    SecondPasses(k, name);
  }

  lemma ReserveAnew(k: StoreKey, name: string, t: Redis.Keyspace)
    requires name != ""
    requires t.books == Lapsed(KeyOf(k), 1) && t.idempotency == map[(KeyOf(k), name) := 1] && t.sequence == 1
    ensures RedisExact.ReserveOn(t, Again(k, name)).result
         == Ok(ReservationResult(Some(StoreReservation(2, 2 * NANOS_PER_SECOND)), Counter(0, 1)))
  {
  }

  lemma GrantsAgain(k: StoreKey, name: string, s: Redis.Keyspace)
    requires name != "" && Redis.Valid(s) && RedisExact.Small(s.books)
    requires RedisExact.Cleanup(s, 1).books == Lapsed(KeyOf(k), 1)
    requires RedisExact.Cleanup(s, 1).idempotency == map[(KeyOf(k), name) := 1] && RedisExact.Cleanup(s, 1).sequence == 1
    ensures Redis.StoreReserve(s, Again(k, name)).result
         == Ok(ReservationResult(Some(StoreReservation(2, 2 * NANOS_PER_SECOND)), Counter(0, 1)))
  {
    var again := RedisExact.StoreReserve(s, Again(k, name));
    assert again.result == Ok(ReservationResult(Some(StoreReservation(2, 2 * NANOS_PER_SECOND)), Counter(0, 1))) by {
      ReserveAnew(k, name, RedisExact.Cleanup(s, 1));
    }
    assert Redis.StoreReserve(s, Again(k, name)) == again by {
      RedisExact.StoreReserveExact(s, Again(k, name));
    }
  }

  /** Where the ledger denies, Redis grants a second reservation. */
  lemma RedisGrantsAnew(k: StoreKey, name: string)
    requires name != ""
    ensures Redis.StoreReserve(Redis.StoreReserve(Redis.EMPTY_KEYSPACE, First(k, name)).state, Again(k, name)).result
         == Ok(ReservationResult(Some(StoreReservation(2, 2 * NANOS_PER_SECOND)), Counter(0, 1)))
  {
    var s := RedisHolds(k, name);
    GrantsAgain(k, name, s);
  }

  lemma TwoLedgerAnswers(m: Ledger, a: Op, b: Op)
    ensures RedisAgreement.LedgerAnswers(m, [a, b])
         == [RedisAgreement.LedgerStep(m, a).result,
             RedisAgreement.LedgerStep(RedisAgreement.LedgerStep(m, a).state, b).result]
  {
    var next := RedisAgreement.LedgerStep(m, a).state;
    assert [a, b][1..] == [b] && [b][1..] == [];
    assert RedisAgreement.LedgerAnswers(next, [b]) == [RedisAgreement.LedgerStep(next, b).result];
  }

  lemma TwoRedisAnswers(s: Redis.Keyspace, a: Op, b: Op)
    ensures RedisAgreement.RedisAnswers(s, [a, b])
         == [RedisAgreement.RedisStep(s, a).result,
             RedisAgreement.RedisStep(RedisAgreement.RedisStep(s, a).state, b).result]
  {
    var next := RedisAgreement.RedisStep(s, a).state;
    assert [a, b][1..] == [b] && [b][1..] == [];
    assert RedisAgreement.RedisAnswers(next, [b]) == [RedisAgreement.RedisStep(next, b).result];
  }

  lemma RunIsWhole(k: StoreKey, name: string)
    requires name != ""
    ensures RedisAgreement.Admissible(Twice(k, name), 0)
    ensures forall i :: 0 <= i < |Twice(k, name)| ==> RedisAgreement.WholeSeconds(Twice(k, name)[i])
  {
    assert Twice(k, name)[1..] == [ReserveOp(Again(k, name))];
    assert RedisAgreement.Admissible(Twice(k, name)[1..], 0);
  }

  /** So the failing side of the agreement with Redis is reached from empty stores, on whole seconds. */
  lemma RedisParts(k: StoreKey, name: string)
    requires name != ""
    ensures RedisAgreement.Admissible(Twice(k, name), 0)
    ensures forall i :: 0 <= i < |Twice(k, name)| ==> RedisAgreement.WholeSeconds(Twice(k, name)[i])
    ensures RedisAgreement.LedgerAnswers(EMPTY, Twice(k, name))
         != RedisAgreement.RedisAnswers(Redis.EMPTY_KEYSPACE, Twice(k, name))
    ensures !RedisAgreement.NoneRevived(EMPTY, Twice(k, name))
  {
    RunIsWhole(k, name);
    AnswersPart(k, name);
    RedisAgreement.WholeSecondsAgree(0, Twice(k, name));
  }

  lemma AnswersPart(k: StoreKey, name: string)
    requires name != ""
    ensures RedisAgreement.LedgerAnswers(EMPTY, Twice(k, name))
         != RedisAgreement.RedisAnswers(Redis.EMPTY_KEYSPACE, Twice(k, name))
  {
    LedgerDenies(k, name);
    RedisGrantsAnew(k, name);
    TwoLedgerAnswers(EMPTY, ReserveOp(First(k, name)), ReserveOp(Again(k, name)));
    TwoRedisAnswers(Redis.EMPTY_KEYSPACE, ReserveOp(First(k, name)), ReserveOp(Again(k, name)));
    assert RedisAgreement.LedgerAnswers(EMPTY, Twice(k, name))[1]
        == RedisAgreement.Reserved(Memory.Reserve(Memory.Reserve(EMPTY, First(k, name)).state, Again(k, name)).result);
  }

  // ---------------------------------------------------------------- instants within a second

  /** Held for a second and a half. */
  function Longer(k: StoreKey, name: string): ReserveRequest {
    First(k, name).(ttl := NANOS_PER_SECOND + 500_000_000)
  }

  const EARLIER := NANOS_PER_SECOND + 200_000_000

  lemma LedgerHolds(k: StoreKey, name: string)
    ensures Read(Memory.Reserve(EMPTY, Longer(k, name)).state, KeyOf(k), EARLIER).result == Counter(0, 1)
  {
    NothingToClean(0);
    assert Memory.Reserve(EMPTY, Longer(k, name)).state.books == Opened(KeyOf(k), Longer(k, name).ExpiresAt());
    OpenedStays(KeyOf(k), Longer(k, name).ExpiresAt(), EARLIER);
  }

  lemma RedisReleases(k: StoreKey, name: string)
    requires name != ""
    ensures Redis.StoreRead(Redis.StoreReserve(Redis.EMPTY_KEYSPACE, Longer(k, name)).state, KeyOf(k), EARLIER).result
         == Counter(0, 0)
  {
    var s := RedisHolds(k, name);
    ReadReleased(s, KeyOf(k));
  }

  lemma ReadReleased(s: Redis.Keyspace, key: CounterKey)
    requires Redis.Valid(s) && RedisExact.Small(s.books) && RedisExact.Cleanup(s, 1).books == Lapsed(key, 1)
    ensures Redis.StoreRead(s, key, EARLIER).result == Counter(0, 0)
  {
    var read := RedisExact.StoreRead(s, key, EARLIER);
    assert Redis.Timestamp(EARLIER) == 1;
    assert read.result == Counter(0, 0);
    assert Redis.StoreRead(s, key, EARLIER) == read by {
      RedisExact.StoreReadExact(s, key, EARLIER);
    }
  }

  /** Before the expiry but in the same second, Redis has already released what the ledger still holds. */
  lemma PartWithinSecond(k: StoreKey, name: string)
    requires name != ""
    ensures EARLIER < Longer(k, name).ExpiresAt()
    ensures Read(Memory.Reserve(EMPTY, Longer(k, name)).state, KeyOf(k), EARLIER).result == Counter(0, 1)
    ensures Redis.StoreRead(Redis.StoreReserve(Redis.EMPTY_KEYSPACE, Longer(k, name)).state, KeyOf(k), EARLIER).result
         == Counter(0, 0)
  {
    LedgerHolds(k, name);
    RedisReleases(k, name);
  }

  // ---------------------------------------------------------------- limits from 2^53 on

  /** Units held for one second under a limit that doubles cannot pass by one. */
  function Holding(k: StoreKey, amount: u64): ReserveRequest {
    ReserveRequest(k, amount, Doubles.TWO_53, Doubles.TWO_53, NANOS_PER_SECOND, Window(0, 1), None, 0)
  }

  lemma LedgerIsFull(k: StoreKey)
    ensures Memory.Reserve(Memory.Reserve(EMPTY, Holding(k, Doubles.TWO_53)).state, Holding(k, 1)).result
         == Ok(ReservationResult(None, Counter(0, Doubles.TWO_53)))
  {
    var one := Memory.Reserve(EMPTY, Holding(k, Doubles.TWO_53)).state;
    NothingToClean(0);
    assert one.books == Books(map[KeyOf(k) := Counter(0, Doubles.TWO_53)],
                              map[1 := Record(KeyOf(k), Doubles.TWO_53, NANOS_PER_SECOND, Active)]);
    assert DueIds(one.books.records, 0) == {};
    ExpireNone(one.books);
  }

  /** A store call that finds nothing in range and a guard that passes is one grant. */
  lemma RedisAdds(k: StoreKey, s: Redis.Keyspace, amount: u64, used: nat)
    requires RedisRuns.Holds(s, KeyOf(k), used) && 0 < amount <= Doubles.TWO_53
    requires Redis.Passes(Doubles.Double(used), amount, Doubles.TWO_53)
    requires Redis.InRange(s, 0) == {}
    ensures Redis.StoreReserve(s, Holding(k, amount)).state == Redis.GrantedKeyspace(s, KeyOf(k), amount, 1, "")
    ensures RedisRuns.Holds(Redis.GrantedKeyspace(s, KeyOf(k), amount, 1, ""), KeyOf(k), used + amount)
  {
    RedisRuns.PassIsGranted(s, KeyOf(k), amount, Doubles.TWO_53, 1, "", used);
  }

  lemma RedisIsFull(k: StoreKey) returns (s: Redis.Keyspace)
    ensures Redis.StoreReserve(Redis.EMPTY_KEYSPACE, Holding(k, Doubles.TWO_53)).state == s
    ensures RedisRuns.Holds(s, KeyOf(k), Doubles.TWO_53) && Redis.InRange(s, 0) == {}
  {
    Redis.EmptyValid();
    EmptyConserved();
    Doubles.DoubleExact(0);
    Doubles.DoubleExact(Doubles.TWO_53);
    RedisAdds(k, Redis.EMPTY_KEYSPACE, Doubles.TWO_53, 0);
    s := Redis.GrantedKeyspace(Redis.EMPTY_KEYSPACE, KeyOf(k), Doubles.TWO_53, 1, "");
  }

  lemma OneMoreHeld(k: StoreKey, s: Redis.Keyspace)
    requires RedisRuns.Holds(s, KeyOf(k), Doubles.TWO_53) && Redis.InRange(s, 0) == {}
    ensures Usage(Redis.StoreReserve(s, Holding(k, 1)).state.books, KeyOf(k)) == Counter(0, Doubles.TWO_53 + 1)
  {
    assert Redis.Passes(Doubles.Double(Doubles.TWO_53), 1, Doubles.TWO_53) by {
      Doubles.DoubleExact(1);
      Doubles.DoubleExact(Doubles.TWO_53);
      Doubles.OneLostAt53();
    }
    RedisAdds(k, s, 1, Doubles.TWO_53);
  }

  /** At a limit of 2^53 the ledger is full after 2^53 units; Redis holds one more. */
  lemma PartAtTwo53(k: StoreKey)
    ensures Memory.Reserve(Memory.Reserve(EMPTY, Holding(k, Doubles.TWO_53)).state, Holding(k, 1)).result
         == Ok(ReservationResult(None, Counter(0, Doubles.TWO_53)))
    ensures
      var one := Redis.StoreReserve(Redis.EMPTY_KEYSPACE, Holding(k, Doubles.TWO_53)).state;
      Usage(Redis.StoreReserve(one, Holding(k, 1)).state.books, KeyOf(k)) == Counter(0, Doubles.TWO_53 + 1)
  {
    LedgerIsFull(k);
    var s := RedisIsFull(k);
    OneMoreHeld(k, s);
  }
}
