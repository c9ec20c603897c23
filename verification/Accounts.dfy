/** What every backend keeps: counters per window beside the reservation records they summarise. */
module Accounts {
  import opened Prelude
  import opened Contract
  import opened Totals

  datatype Status = Active | Committed | Refunded | Expired

  datatype Record = Record(key: CounterKey, amount: nat, expiresAt: int, status: Status)

  datatype Books = Books(counters: map<CounterKey, Counter>, records: map<nat, Record>)

  /** The usage of a window; a window without a counter has none. */
  function Usage(b: Books, key: CounterKey): Counter {
    if key in b.counters then b.counters[key] else EMPTY_COUNTER
  }

  /** Still counted: held by an open reservation, or booked. */
  predicate Live(r: Record) {
    r.status.Active? || r.status.Committed?
  }

  predicate Due(r: Record, now: int) {
    r.status.Active? && r.expiresAt <= now
  }

  function DueIds(records: map<nat, Record>, now: int): set<nat> {
    set id | id in records && Due(records[id], now)
  }

  /** The units of `key` held by records of one status. */
  function Held(key: CounterKey, status: Status): (nat, Record) -> nat {
    (id: nat, r: Record) => if r.key == key && r.status == status then r.amount else 0
  }

  /** The units of `key` held by the records named in `ids`. */
  function HeldBy(key: CounterKey, ids: set<nat>): (nat, Record) -> nat {
    (id: nat, r: Record) => var units: nat := if id in ids && r.key == key then r.amount else 0; units
  }

  ghost function Sum(records: map<nat, Record>, key: CounterKey, status: Status): nat {
    Total(records, Held(key, status))
  }

  // ---------------------------------------------------------------- expiry

  /** Takes `amount` off a reserved counter, saturating; a missing counter stays missing. */
  function Release(counters: map<CounterKey, Counter>, key: CounterKey, amount: nat): map<CounterKey, Counter> {
    if key in counters
    then counters[key := Counter(counters[key].committed, SatSub(counters[key].reserved, amount))]
    else counters
  }

  /** One turn of an expiry loop. */
  function ExpireOne(b: Books, id: nat): Books
    requires id in b.records
  {
    var r := b.records[id];
    Books(Release(b.counters, r.key, r.amount), b.records[id := r.(status := Expired)])
  }

  ghost function CountersAfter(b: Books, ids: set<nat>): map<CounterKey, Counter> {
    map key | key in b.counters ::
      Counter(b.counters[key].committed, SatSub(b.counters[key].reserved, Total(b.records, HeldBy(key, ids))))
  }

  function RecordsAfter(records: map<nat, Record>, ids: set<nat>): map<nat, Record> {
    map id | id in records :: if id in ids then records[id].(status := Expired) else records[id]
  }

  /** All of `ids` expired at once, with no order among them. */
  ghost function ExpireAll(b: Books, ids: set<nat>): Books {
    Books(CountersAfter(b, ids), RecordsAfter(b.records, ids))
  }

  /** Every due record expired and its units released. */
  ghost function Cleaned(b: Books, now: int): Books {
    ExpireAll(b, DueIds(b.records, now))
  }

  lemma ExpireNone(b: Books)
    ensures ExpireAll(b, {}) == b
  {
    forall key | key in b.counters
      ensures Total(b.records, HeldBy(key, {})) == 0
    {
      TotalZero(b.records, HeldBy(key, {}));
    }
    assert ExpireAll(b, {}).counters == b.counters;
    assert ExpireAll(b, {}).records == b.records;
  }

  lemma HeldByOneMore(records: map<nat, Record>, key: CounterKey, ids: set<nat>, id: nat)
    requires id in records && id !in ids
    ensures Total(records, HeldBy(key, ids + {id}))
         == Total(records, HeldBy(key, ids)) + if records[id].key == key then records[id].amount else 0
  {
    TotalRemove(records, HeldBy(key, ids), id);
    TotalRemove(records, HeldBy(key, ids + {id}), id);
    TotalEqual(records - {id}, HeldBy(key, ids), records - {id}, HeldBy(key, ids + {id}));
  }

  lemma ReleaseOneMore(b: Books, ids: set<nat>, id: nat)
    requires id in b.records && id !in ids
    ensures Release(CountersAfter(b, ids), b.records[id].key, b.records[id].amount) == CountersAfter(b, ids + {id})
  {
    var before := CountersAfter(b, ids);
    var after := Release(before, b.records[id].key, b.records[id].amount);
    forall key | key in b.counters
      ensures after[key] == CountersAfter(b, ids + {id})[key]
    {
      HeldByOneMore(b.records, key, ids, id);
    }
    assert after.Keys == b.counters.Keys;
  }

  /** A loop that has expired `ids` and turns to another record has expired one more, whichever it is. */
  lemma ExpireStep(b: Books, ids: set<nat>, id: nat)
    requires id in b.records && id !in ids
    ensures ExpireOne(ExpireAll(b, ids), id) == ExpireAll(b, ids + {id})
  {
    ReleaseOneMore(b, ids, id);
    assert RecordsAfter(b.records, ids)[id := b.records[id].(status := Expired)] == RecordsAfter(b.records, ids + {id});
  }

  lemma ExpireSingle(b: Books, id: nat)
    requires id in b.records
    ensures ExpireOne(b, id) == ExpireAll(b, {id})
  {
    ExpireNone(b);
    ExpireStep(b, {}, id);
    assert {} + {id} == {id};
  }

  lemma HeldByUnion(b: Books, first: set<nat>, second: set<nat>, key: CounterKey)
    requires first !! second
    ensures Total(b.records, HeldBy(key, first + second))
         == Total(b.records, HeldBy(key, first)) + Total(ExpireAll(b, first).records, HeldBy(key, second))
  {
    var mid := ExpireAll(b, first).records;
    TotalSplit(b.records, HeldBy(key, first + second), HeldBy(key, first), HeldBy(key, second));
    assert mid.Keys == b.records.Keys;
    TotalEqual(b.records, HeldBy(key, second), mid, HeldBy(key, second));
  }

  lemma UnionCounters(b: Books, first: set<nat>, second: set<nat>)
    requires first !! second
    ensures CountersAfter(ExpireAll(b, first), second) == CountersAfter(b, first + second)
  {
    var mid := ExpireAll(b, first);
    forall key | key in b.counters
      ensures CountersAfter(mid, second)[key] == CountersAfter(b, first + second)[key]
    {
      HeldByUnion(b, first, second, key);
    }
  }

  lemma UnionRecords(records: map<nat, Record>, first: set<nat>, second: set<nat>)
    ensures RecordsAfter(RecordsAfter(records, first), second) == RecordsAfter(records, first + second)
  {
  }

  /** Expiring two disjoint sets one after the other is expiring their union. */
  lemma ExpireUnion(b: Books, first: set<nat>, second: set<nat>)
    requires first !! second
    ensures ExpireAll(ExpireAll(b, first), second) == ExpireAll(b, first + second)
  {
    UnionCounters(b, first, second);
    UnionRecords(b.records, first, second);
  }

  /** Two cleanups are one cleanup at the later instant, on any books at all. */
  lemma CleanupComposes(b: Books, t1: int, t2: int)
    ensures Cleaned(Cleaned(b, t1), t2) == Cleaned(b, if t1 <= t2 then t2 else t1)
  {
    var mid := Cleaned(b, t1);
    var first, second := DueIds(b.records, t1), DueIds(mid.records, t2);
    ExpireUnion(b, first, second);
    assert first + second == DueIds(b.records, if t1 <= t2 then t2 else t1);
  }

  /** Cleaning again no later changes nothing. */
  lemma CleanupIdempotent(b: Books, t1: int, t2: int)
    requires t2 <= t1
    ensures Cleaned(Cleaned(b, t1), t2) == Cleaned(b, t1)
  {
    CleanupComposes(b, t1, t2);
  }

  // ---------------------------------------------------------------- lifecycle

  /** One record's life between two instants: its terms are fixed, and only an active record changes status. */
  predicate RecordAdvances(before: Record, after: Record) {
    && after.key == before.key
    && after.amount == before.amount
    && after.expiresAt == before.expiresAt
    && (after.status == before.status || before.status.Active?)
  }

  ghost predicate RecordsAdvance(before: map<nat, Record>, after: map<nat, Record>) {
    forall id :: id in before ==> id in after && RecordAdvances(before[id], after[id])
  }

  lemma RecordsAdvanceTransitive(first: map<nat, Record>, second: map<nat, Record>, third: map<nat, Record>)
    requires RecordsAdvance(first, second) && RecordsAdvance(second, third)
    ensures RecordsAdvance(first, third)
  {
    forall id | id in first
      ensures id in third && RecordAdvances(first[id], third[id])
    {
      assert id in second && RecordAdvances(first[id], second[id]);
    }
  }

  /** `after` is `before` with its due records expired and nothing else touched. */
  ghost predicate ExpiredAt(before: map<nat, Record>, after: map<nat, Record>, now: int) {
    && after.Keys == before.Keys
    && forall id :: id in before ==>
         after[id] == if Due(before[id], now) then before[id].(status := Expired) else before[id]
  }

  /** Cleanup expires exactly the due records and touches no other. */
  lemma CleanupAdvances(b: Books, now: int)
    ensures ExpiredAt(b.records, Cleaned(b, now).records, now)
    ensures RecordsAdvance(b.records, Cleaned(b, now).records)
  {
    var after := RecordsAfter(b.records, DueIds(b.records, now));
    forall id | id in b.records
      ensures id in after && RecordAdvances(b.records[id], after[id])
    {
    }
  }

  // ---------------------------------------------------------------- grants and settlements

  /** A fresh active record, its units added to the reserved counter. */
  function Granted(b: Books, id: nat, key: CounterKey, amount: nat, expiresAt: int): Books {
    var counter := Usage(b, key);
    Books(
      b.counters[key := Counter(counter.committed, counter.reserved + amount)],
      b.records[id := Record(key, amount, expiresAt, Active)])
  }

  /** An active record committed or refunded: its units leave the reserved counter, and a commit books them. */
  function Settled(b: Books, id: nat, commit: bool): Books
    requires id in b.records && b.records[id].key in b.counters
  {
    var r := b.records[id];
    var counter := b.counters[r.key];
    Books(
      b.counters[r.key := Counter(if commit then counter.committed + r.amount else counter.committed,
                                  SatSub(counter.reserved, r.amount))],
      b.records[id := r.(status := if commit then Committed else Refunded)])
  }

  // ---------------------------------------------------------------- conservation

  /** The counter of `key` is the sums over its records, an absent counter counting as zero. */
  ghost predicate Tallies(b: Books, key: CounterKey) {
    Usage(b, key) == Counter(Sum(b.records, key, Committed), Sum(b.records, key, Active))
  }

  /** Every record has a counter. */
  ghost predicate Filed(b: Books) {
    forall id :: id in b.records ==> b.records[id].key in b.counters
  }

  ghost predicate Conserved(b: Books) {
    && Filed(b)
    && (forall key :: Usage(b, key) == Counter(Sum(b.records, key, Committed), Sum(b.records, key, Active)))
  }

  function InUse(b: Books, key: CounterKey): nat {
    Usage(b, key).committed + Usage(b, key).reserved
  }

  /** The counter is the sums, and they stay within `limit`. */
  ghost predicate Tidy(b: Books, key: CounterKey, limit: nat) {
    Tallies(b, key) && InUse(b, key) <= limit
  }

  lemma EmptyConserved()
    ensures Conserved(Books(map[], map[]))
  {
  }

  /** A grant under an unused id moves its own counter and the sums over it alike, and no other counter. */
  lemma GrantTallies(b: Books, id: nat, of: CounterKey, amount: nat, expiresAt: int, key: CounterKey)
    requires Tallies(b, key) && id !in b.records
    ensures Tallies(Granted(b, id, of, amount, expiresAt), key)
  {
    var after := Granted(b, id, of, amount, expiresAt);
    TotalUpdate(b.records, Held(key, Committed), id, after.records[id]);
    TotalUpdate(b.records, Held(key, Active), id, after.records[id]);
  }

  lemma GrantConserves(b: Books, id: nat, key: CounterKey, amount: nat, expiresAt: int)
    requires Conserved(b) && id !in b.records
    ensures Conserved(Granted(b, id, key, amount, expiresAt))
  {
    var after := Granted(b, id, key, amount, expiresAt);
    forall k
      ensures Usage(after, k) == Counter(Sum(after.records, k, Committed), Sum(after.records, k, Active))
    {
      assert Tallies(b, k);
      GrantTallies(b, id, key, amount, expiresAt, k);
    }
  }

  /** A record's own units are part of the counter that tallies it. */
  lemma RecordWithinTally(b: Books, id: nat)
    requires id in b.records && b.records[id].status.Active? && Tallies(b, b.records[id].key)
    ensures b.records[id].amount <= Usage(b, b.records[id].key).reserved
  {
    TotalRemove(b.records, Held(b.records[id].key, Active), id);
  }

  /** Settling an active record moves its own counter and the sums over it alike, and no other counter. */
  lemma SettleTallies(b: Books, id: nat, commit: bool, key: CounterKey)
    requires Tallies(b, key) && id in b.records && b.records[id].key in b.counters && b.records[id].status.Active?
    ensures Tallies(Settled(b, id, commit), key)
    ensures InUse(Settled(b, id, commit), key) <= InUse(b, key)
  {
    if b.records[id].key == key {
      RecordWithinTally(b, id);
    }
    var after := Settled(b, id, commit);
    TotalUpdate(b.records, Held(key, Committed), id, after.records[id]);
    TotalUpdate(b.records, Held(key, Active), id, after.records[id]);
  }

  /** Settling an active record keeps conservation, and the subtraction is exact. */
  lemma SettleConserves(b: Books, id: nat, commit: bool)
    requires Conserved(b) && id in b.records && b.records[id].status.Active?
    ensures Conserved(Settled(b, id, commit))
  {
    var after := Settled(b, id, commit);
    forall k
      ensures Usage(after, k) == Counter(Sum(after.records, k, Committed), Sum(after.records, k, Active))
    {
      assert Tallies(b, k);
      SettleTallies(b, id, commit, k);
    }
  }

  lemma ExpireMovesSums(b: Books, ids: set<nat>, key: CounterKey)
    requires forall id :: id in ids ==> id in b.records && b.records[id].status.Active?
    ensures Sum(ExpireAll(b, ids).records, key, Committed) == Sum(b.records, key, Committed)
    ensures Sum(ExpireAll(b, ids).records, key, Active) + Total(b.records, HeldBy(key, ids)) == Sum(b.records, key, Active)
  {
    var after := ExpireAll(b, ids).records;
    assert after.Keys == b.records.Keys;
    TotalEqual(b.records, Held(key, Committed), after, Held(key, Committed));
    var stay := (id: nat, r: Record) => if r.key == key && r.status.Active? then (if id in ids then 0 else r.amount) else 0;
    TotalSplit(b.records, Held(key, Active), HeldBy(key, ids), stay);
    TotalEqual(b.records, stay, after, Held(key, Active));
  }

  lemma ExpireUsage(b: Books, ids: set<nat>, key: CounterKey)
    ensures Usage(ExpireAll(b, ids), key)
         == Counter(Usage(b, key).committed, SatSub(Usage(b, key).reserved, Total(b.records, HeldBy(key, ids))))
  {
  }

  /** What one window loses to expiry is exactly what the expired records held. */
  lemma ExpireReleases(b: Books, ids: set<nat>, key: CounterKey)
    requires Tallies(b, key)
    requires forall id :: id in ids ==> id in b.records && b.records[id].status.Active?
    ensures Usage(ExpireAll(b, ids), key).committed == Usage(b, key).committed
    ensures Usage(ExpireAll(b, ids), key).reserved + Total(b.records, HeldBy(key, ids)) == Usage(b, key).reserved
    ensures Tallies(ExpireAll(b, ids), key)
  {
    ExpireUsage(b, ids, key);
    ExpireMovesSums(b, ids, key);
  }

  lemma ExpireKeepsKeys(b: Books, ids: set<nat>)
    requires Filed(b)
    ensures Filed(ExpireAll(b, ids))
  {
  }

  /** Expiring active records keeps conservation. */
  lemma ExpireConserves(b: Books, ids: set<nat>)
    requires Conserved(b)
    requires forall id :: id in ids ==> id in b.records && b.records[id].status.Active?
    ensures Conserved(ExpireAll(b, ids))
  {
    ExpireKeepsKeys(b, ids);
    forall key
      ensures Usage(ExpireAll(b, ids), key) == Counter(Sum(ExpireAll(b, ids).records, key, Committed),
                                                       Sum(ExpireAll(b, ids).records, key, Active))
    {
      assert Tallies(b, key);
      ExpireReleases(b, ids, key);
    }
  }

  /** Cleanup keeps a counter that tallies tallying, its committed units, and at most its reserved ones. */
  lemma CleanupTallies(b: Books, now: int, key: CounterKey)
    requires Tallies(b, key)
    ensures Tallies(Cleaned(b, now), key)
    ensures Usage(Cleaned(b, now), key).committed == Usage(b, key).committed
    ensures Usage(Cleaned(b, now), key).reserved <= Usage(b, key).reserved
  {
    ExpireReleases(b, DueIds(b.records, now), key);
  }

  lemma CleanupConserves(b: Books, now: int)
    requires Conserved(b)
    ensures Conserved(Cleaned(b, now))
    ensures forall key :: Usage(Cleaned(b, now), key).committed == Usage(b, key).committed
    ensures forall key :: Usage(Cleaned(b, now), key).reserved <= Usage(b, key).reserved
  {
    ExpireConserves(b, DueIds(b.records, now));
    forall key
      ensures Usage(Cleaned(b, now), key).committed == Usage(b, key).committed
      ensures Usage(Cleaned(b, now), key).reserved <= Usage(b, key).reserved
    {
      assert Tallies(b, key);
      CleanupTallies(b, now, key);
    }
  }

  /** Cleanup touches no counter's committed units and only lowers reserved ones, whatever the books. */
  lemma CleanupLowers(b: Books, now: int, key: CounterKey)
    ensures Usage(Cleaned(b, now), key).committed == Usage(b, key).committed
    ensures Usage(Cleaned(b, now), key).reserved <= Usage(b, key).reserved
  {
  }

  /** Once every active record of a window has fallen due, cleanup leaves no reserved units behind in it. */
  lemma NothingLeaks(b: Books, now: int, key: CounterKey)
    requires Tallies(b, key)
    requires forall id :: id in b.records && b.records[id].key == key && b.records[id].status.Active? ==> b.records[id].expiresAt <= now
    ensures Usage(Cleaned(b, now), key) == Counter(Usage(b, key).committed, 0)
  {
    CleanupTallies(b, now, key);
    TotalZero(Cleaned(b, now).records, Held(key, Active));
  }

  // ---------------------------------------------------------------- closing one record

  /** An active record settled or expired, its units taken off its counter and, if committed, booked. */
  function Closed(b: Books, id: nat, status: Status): Books
    requires id in b.records
  {
    var r := b.records[id];
    var counter := Usage(b, r.key);
    Books(
      b.counters[r.key := Counter(if status.Committed? then counter.committed + r.amount else counter.committed,
                                  SatSub(counter.reserved, r.amount))],
      b.records[id := r.(status := status)])
  }

  /** A change to one record of another counter, and to that counter, leaves this one tallying. */
  lemma OtherTallies(b: Books, after: Books, id: nat, key: CounterKey)
    requires Tallies(b, key) && Usage(after, key) == Usage(b, key)
    requires id in after.records && after.records == b.records[id := after.records[id]]
    requires after.records[id].key != key && (id in b.records ==> b.records[id].key != key)
    ensures Tallies(after, key)
  {
    TotalUpdate(b.records, Held(key, Committed), id, after.records[id]);
    TotalUpdate(b.records, Held(key, Active), id, after.records[id]);
  }

  /** Closing an active record moves its own counter and the sums over it alike. */
  lemma ClosedTallies(b: Books, id: nat, status: Status)
    requires id in b.records && b.records[id].status.Active? && !status.Active? && Tallies(b, b.records[id].key)
    ensures Tallies(Closed(b, id, status), b.records[id].key)
    ensures InUse(Closed(b, id, status), b.records[id].key) <= InUse(b, b.records[id].key)
  {
    var key := b.records[id].key;
    var after := Closed(b, id, status);
    RecordWithinTally(b, id);
    TotalUpdate(b.records, Held(key, Committed), id, after.records[id]);
    TotalUpdate(b.records, Held(key, Active), id, after.records[id]);
  }
}
