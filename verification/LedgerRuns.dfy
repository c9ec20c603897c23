/** Whole runs of the in-memory ledger: conservation, lifecycle and idempotency over any operations. */
module LedgerRuns {
  import opened Prelude
  import opened Totals
  import opened Contract
  import opened Accounts
  import opened Memory

  /** The largest limit below which no counter saturates. */
  const MAX_LIMIT: nat := U64_MAX - 1

  datatype Op =
    | ReserveOp(req: ReserveRequest)
    | FinishOp(id: nat, commit: bool, now: int)
    | ReadOp(key: CounterKey, now: int)

  function OpTime(op: Op): int {
    match op
    case ReserveOp(req) => req.now
    case FinishOp(_, _, now) => now
    case ReadOp(_, now) => now
  }

  ghost function Apply(s: Ledger, op: Op): Ledger {
    match op
    case ReserveOp(req) => Reserve(s, req).state
    case FinishOp(id, commit, now) => Finish(s, id, commit, now).state
    case ReadOp(key, now) => Read(s, key, now).state
  }

  ghost function Run(s: Ledger, ops: seq<Op>): Ledger
    decreases |ops|
  {
    if ops == [] then s else Run(Apply(s, ops[0]), ops[1..])
  }

  /** Every reserve of the run for this counter carries an effective limit of at most `limit`; others have their own. */
  predicate Limited(ops: seq<Op>, key: CounterKey, limit: nat) {
    forall i :: 0 <= i < |ops| && ops[i].ReserveOp? && ops[i].req.Target() == key ==> ops[i].req.effectiveLimit <= limit
  }

  predicate OpWithin(op: Op, key: CounterKey, limit: nat) {
    op.ReserveOp? && op.req.Target() == key ==> op.req.effectiveLimit <= limit
  }

  // ---------------------------------------------------------------- what every run keeps, whatever the limits

  ghost predicate Shaped(s: Ledger) {
    && Filed(s.books)
    && (forall key :: key in s.books.counters ==>
          s.books.counters[key].committed <= U64_MAX && s.books.counters[key].reserved <= U64_MAX)
    && (forall id :: id in s.books.records ==> 1 <= id <= s.nextId)
    && (forall e :: e in s.idempotency ==>
          s.idempotency[e] in s.books.records && s.books.records[s.idempotency[e]].key == e.0)
  }

  /** What no operation ever undoes. */
  ghost predicate Advances(s: Ledger, t: Ledger) {
    && s.nextId <= t.nextId
    && RecordsAdvance(s.books.records, t.books.records)
    && (forall e :: e in s.idempotency ==> e in t.idempotency && t.idempotency[e] == s.idempotency[e])
    && (forall key :: Usage(s.books, key).committed <= Usage(t.books, key).committed)
  }

  lemma AdvancesTransitive(s: Ledger, t: Ledger, u: Ledger)
    requires Advances(s, t) && Advances(t, u)
    ensures Advances(s, u)
  {
    RecordsAdvanceTransitive(s.books.records, t.books.records, u.books.records);
    forall key
      ensures Usage(s.books, key).committed <= Usage(u.books, key).committed
    {
      assert Usage(s.books, key).committed <= Usage(t.books, key).committed;
    }
  }

  lemma CleanupBoundsCounters(b: Books, now: int, key: CounterKey)
    requires key in Cleaned(b, now).counters
    ensures key in b.counters
    ensures Cleaned(b, now).counters[key].committed == b.counters[key].committed
    ensures Cleaned(b, now).counters[key].reserved <= b.counters[key].reserved
  {
  }

  lemma CleanupShape(s: Ledger, now: int)
    requires Shaped(s)
    ensures Shaped(CleanedLedger(s, now))
  {
    var c := CleanedLedger(s, now);
    ExpireKeepsKeys(s.books, DueIds(s.books.records, now));
    CleanupAdvances(s.books, now);
    forall key | key in c.books.counters
      ensures c.books.counters[key].committed <= U64_MAX && c.books.counters[key].reserved <= U64_MAX
    {
      CleanupBoundsCounters(s.books, now, key);
    }
  }

  lemma CleanupShaped(s: Ledger, now: int)
    requires Shaped(s)
    ensures Shaped(CleanedLedger(s, now)) && Advances(s, CleanedLedger(s, now))
  {
    CleanupShape(s, now);
    assert RecordsAdvance(s.books.records, Cleaned(s.books, now).records) by { CleanupAdvances(s.books, now); }
    forall key
      ensures Usage(s.books, key).committed <= Usage(Cleaned(s.books, now), key).committed
    {
      CleanupLowers(s.books, now, key);
    }
  }

  lemma ReserveCleanedShaped(c: Ledger, req: ReserveRequest)
    requires Shaped(c)
    ensures Shaped(ReserveCleaned(c, req).state) && Advances(c, ReserveCleaned(c, req).state)
  {
  }

  lemma FinishCleanedShaped(c: Ledger, id: nat, commit: bool)
    requires Shaped(c)
    ensures Shaped(FinishCleaned(c, id, commit).state) && Advances(c, FinishCleaned(c, id, commit).state)
  {
    var t := FinishCleaned(c, id, commit).state;
    forall key
      ensures Usage(c.books, key).committed <= Usage(t.books, key).committed
    {
    }
  }

  lemma StepShaped(s: Ledger, op: Op)
    requires Shaped(s)
    ensures Shaped(Apply(s, op)) && Advances(s, Apply(s, op))
  {
    match op {
      case ReserveOp(req) =>
        if req.Validate().Ok? {
          ReserveShaped(s, req);
        }
      case FinishOp(id, commit, now) => FinishShaped(s, id, commit, now);
      case ReadOp(key, now) => CleanupShaped(s, now);
    }
  }

  lemma ReserveShaped(s: Ledger, req: ReserveRequest)
    requires Shaped(s)
    ensures Shaped(ReserveCleaned(CleanedLedger(s, req.now), req).state)
    ensures Advances(s, ReserveCleaned(CleanedLedger(s, req.now), req).state)
  {
    var c := CleanedLedger(s, req.now);
    CleanupShaped(s, req.now);
    ReserveCleanedShaped(c, req);
    AdvancesTransitive(s, c, ReserveCleaned(c, req).state);
  }

  lemma FinishShaped(s: Ledger, id: nat, commit: bool, now: int)
    requires Shaped(s)
    ensures Shaped(Finish(s, id, commit, now).state) && Advances(s, Finish(s, id, commit, now).state)
  {
    var c := CleanedLedger(s, now);
    CleanupShaped(s, now);
    FinishCleanedShaped(c, id, commit);
    AdvancesTransitive(s, c, FinishCleaned(c, id, commit).state);
  }

  /** Lifecycle: over any run, terminal records absorb, terms never change and committed totals never fall. */
  lemma {:induction false} RunShaped(s: Ledger, ops: seq<Op>)
    requires Shaped(s)
    ensures Shaped(Run(s, ops)) && Advances(s, Run(s, ops))
    decreases |ops|
  {
    if ops != [] {
      StepShaped(s, ops[0]);
      RunShaped(Apply(s, ops[0]), ops[1..]);
      AdvancesTransitive(s, Apply(s, ops[0]), Run(s, ops));
    }
  }

  // ---------------------------------------------------------------- one counter, under its own limit

  /** Below `u64::MAX` the saturating guard is the integer guard, and a grant that passes it is exact. */
  lemma GuardExact(s: Ledger, req: ReserveRequest)
    requires InUse(s.books, req.Target()) < U64_MAX && req.effectiveLimit < U64_MAX
    ensures Usage(s.books, req.Target()).Used() == InUse(s.books, req.Target())
    ensures Fits(s.books, req) <==> InUse(s.books, req.Target()) + req.amount <= req.effectiveLimit
    ensures var exact := Granted(s.books, s.nextId + 1, req.Target(), req.amount, req.ExpiresAt());
      Fits(s.books, req) ==> SaturatingGrant(s.books, s.nextId + 1, req) == exact
  {
  }

  /** Where a counter tallies below `u64::MAX`, a settlement of its reservations does not saturate. */
  lemma SettleExact(s: Ledger, id: nat, commit: bool)
    requires Shaped(s) && id in s.books.records && s.books.records[id].status.Active?
    requires Tallies(s.books, s.books.records[id].key) && InUse(s.books, s.books.records[id].key) < U64_MAX
    ensures s.books.records[id].key in s.books.counters
    ensures SaturatingSettle(s.books, id, commit) == Settled(s.books, id, commit)
    ensures s.books.records[id].amount <= s.books.counters[s.books.records[id].key].reserved
  {
    RecordWithinTally(s.books, id);
  }

  lemma GrantTidy(c: Ledger, req: ReserveRequest, key: CounterKey, limit: nat)
    requires Shaped(c) && Tidy(c.books, key, limit) && limit < U64_MAX && Fits(c.books, req)
    requires req.Target() == key ==> req.effectiveLimit <= limit
    ensures Tidy(GrantedLedger(c, req).books, key, limit)
    ensures req.Target() == key ==> InUse(GrantedLedger(c, req).books, key) <= req.effectiveLimit
    ensures InUse(GrantedLedger(c, req).books, key) == InUse(c.books, key) + if req.Target() == key then req.amount else 0
  {
    if req.Target() == key {
      GuardExact(c, req);
      GrantTallies(c.books, c.nextId + 1, key, req.amount, req.ExpiresAt(), key);
    } else {
      OtherTallies(c.books, GrantedLedger(c, req).books, c.nextId + 1, key);
    }
  }

  lemma ReserveCleanedTidy(c: Ledger, req: ReserveRequest, key: CounterKey, limit: nat)
    requires Shaped(c) && Tidy(c.books, key, limit) && limit < U64_MAX
    requires req.Target() == key ==> req.effectiveLimit <= limit
    ensures Tidy(ReserveCleaned(c, req).state.books, key, limit)
  {
    if !Replays(c, req) && Fits(c.books, req) && c.nextId != U64_MAX {
      GrantTidy(c, req, key, limit);
    }
  }

  lemma FinishCleanedTidy(c: Ledger, id: nat, commit: bool, key: CounterKey, limit: nat)
    requires Shaped(c) && Tidy(c.books, key, limit) && limit < U64_MAX
    ensures Tidy(FinishCleaned(c, id, commit).state.books, key, limit)
    ensures InUse(FinishCleaned(c, id, commit).state.books, key) <= InUse(c.books, key)
  {
    if id in c.books.records && c.books.records[id].status.Active? {
      if c.books.records[id].key == key {
        SettleExact(c, id, commit);
        SettleTallies(c.books, id, commit, key);
      } else {
        OtherTallies(c.books, FinishCleaned(c, id, commit).state.books, id, key);
      }
    }
  }

  lemma StepTidy(s: Ledger, op: Op, key: CounterKey, limit: nat)
    requires Shaped(s) && Tidy(s.books, key, limit) && limit < U64_MAX && OpWithin(op, key, limit)
    ensures Tidy(Apply(s, op).books, key, limit)
  {
    match op {
      case ReserveOp(req) =>
        if req.Validate().Ok? {
          CleanupShaped(s, req.now);
          CleanupTallies(s.books, req.now, key);
          ReserveCleanedTidy(CleanedLedger(s, req.now), req, key, limit);
        }
      case FinishOp(id, commit, now) =>
        CleanupShaped(s, now);
        CleanupTallies(s.books, now, key);
        FinishCleanedTidy(CleanedLedger(s, now), id, commit, key, limit);
      case ReadOp(_, now) =>
        CleanupTallies(s.books, now, key);
    }
  }

  /** Over any run a counter is the ledger sums and stays within the limits handed in for it, whatever others get. */
  lemma {:induction false} RunTidy(s: Ledger, ops: seq<Op>, key: CounterKey, limit: nat)
    requires Shaped(s) && Tidy(s.books, key, limit) && limit < U64_MAX && Limited(ops, key, limit)
    ensures Tidy(Run(s, ops).books, key, limit)
    decreases |ops|
  {
    if ops != [] {
      StepTidy(s, ops[0], key, limit);
      StepShaped(s, ops[0]);
      RunTidy(Apply(s, ops[0]), ops[1..], key, limit);
    }
  }

  lemma EmptyTidy(key: CounterKey)
    ensures Shaped(EMPTY) && Tidy(EMPTY.books, key, 0)
  {
    EmptyConserved();
  }

  // ---------------------------------------------------------------- all counters at once

  ghost predicate Sound(s: Ledger) {
    && Conserved(s.books)
    && (forall key :: Usage(s.books, key).committed + Usage(s.books, key).reserved < U64_MAX)
    && (forall id :: id in s.books.records ==> 1 <= id <= s.nextId)
    && (forall e :: e in s.idempotency ==>
          s.idempotency[e] in s.books.records && s.books.records[s.idempotency[e]].key == e.0)
  }

  lemma EmptySound()
    ensures Sound(EMPTY)
  {
    EmptyConserved();
  }

  lemma SoundIsShaped(s: Ledger)
    requires Sound(s)
    ensures Shaped(s)
  {
    forall key | key in s.books.counters
      ensures s.books.counters[key].committed <= U64_MAX && s.books.counters[key].reserved <= U64_MAX
    {
      assert Usage(s.books, key) == s.books.counters[key];
    }
  }

  lemma SoundIsTidy(s: Ledger, key: CounterKey)
    requires Sound(s)
    ensures Tidy(s.books, key, MAX_LIMIT)
  {
    assert Usage(s.books, key) == Counter(Sum(s.books.records, key, Committed), Sum(s.books.records, key, Active));
  }

  lemma TidyIsSound(s: Ledger)
    requires Shaped(s) && forall key :: Tidy(s.books, key, MAX_LIMIT)
    ensures Sound(s)
  {
    forall key
      ensures Usage(s.books, key) == Counter(Sum(s.books.records, key, Committed), Sum(s.books.records, key, Active))
      ensures Usage(s.books, key).committed + Usage(s.books, key).reserved < U64_MAX
    {
      assert Tidy(s.books, key, MAX_LIMIT);
    }
  }

  lemma CleanupSound(s: Ledger, now: int)
    requires Sound(s)
    ensures Sound(CleanedLedger(s, now))
  {
    SoundIsShaped(s);
    CleanupShaped(s, now);
    forall key
      ensures Tidy(CleanedLedger(s, now).books, key, MAX_LIMIT)
    {
      SoundIsTidy(s, key);
      CleanupTallies(s.books, now, key);
    }
    TidyIsSound(CleanedLedger(s, now));
  }

  lemma ReserveCleanedSound(c: Ledger, req: ReserveRequest)
    requires Sound(c) && req.effectiveLimit < U64_MAX
    ensures Sound(ReserveCleaned(c, req).state)
  {
    SoundIsShaped(c);
    ReserveCleanedShaped(c, req);
    forall key
      ensures Tidy(ReserveCleaned(c, req).state.books, key, MAX_LIMIT)
    {
      SoundIsTidy(c, key);
      ReserveCleanedTidy(c, req, key, MAX_LIMIT);
    }
    TidyIsSound(ReserveCleaned(c, req).state);
  }

  /** Every operation keeps a ledger sound whose limits stay below `u64::MAX`. */
  lemma StepSound(s: Ledger, op: Op)
    requires Sound(s) && (op.ReserveOp? ==> op.req.effectiveLimit < U64_MAX)
    ensures Sound(Apply(s, op))
  {
    SoundIsShaped(s);
    StepShaped(s, op);
    forall key
      ensures Tidy(Apply(s, op).books, key, MAX_LIMIT)
    {
      SoundIsTidy(s, key);
      StepTidy(s, op, key, MAX_LIMIT);
    }
    TidyIsSound(Apply(s, op));
  }

  // ---------------------------------------------------------------- settlement

  lemma TerminalForever(s: Ledger, ops: seq<Op>, id: nat)
    requires Shaped(s) && id in s.books.records && !s.books.records[id].status.Active?
    ensures id in Run(s, ops).books.records && Run(s, ops).books.records[id] == s.books.records[id]
  {
    RunShaped(s, ops);
    assert RecordAdvances(s.books.records[id], Run(s, ops).books.records[id]);
  }

  /** Finishing an open reservation of a ledger with nothing due. */
  lemma SettledForever(c: Ledger, id: nat, commit: bool, ops: seq<Op>)
    requires Shaped(c) && id in c.books.records && c.books.records[id].status.Active?
    ensures
      var r := c.books.records[id];
      var t := FinishCleaned(c, id, commit);
      var later := Run(t.state, ops).books.records;
      && t.result == Ok(())
      && id in later && later[id] == r.(status := if commit then Committed else Refunded)
  {
    FinishCleanedShaped(c, id, commit);
    TerminalForever(FinishCleaned(c, id, commit).state, ops, id);
  }

  /** And what that does to its counter. */
  lemma SettledUnits(c: Ledger, id: nat, commit: bool)
    requires Shaped(c) && id in c.books.records && c.books.records[id].status.Active?
    requires Tallies(c.books, c.books.records[id].key) && InUse(c.books, c.books.records[id].key) < U64_MAX
    ensures
      var r := c.books.records[id];
      var t := FinishCleaned(c, id, commit).state;
      && Usage(t.books, r.key).committed == Usage(c.books, r.key).committed + (if commit then r.amount else 0)
      && Usage(t.books, r.key).reserved + r.amount == Usage(c.books, r.key).reserved
  {
    SettleExact(c, id, commit);
  }

  lemma ExpiredForever(c: Ledger, id: nat, commit: bool, ops: seq<Op>)
    requires Shaped(c) && id in c.books.records && c.books.records[id].status.Expired?
    ensures
      var t := FinishCleaned(c, id, commit);
      var later := Run(t.state, ops).books.records;
      t.result == Err(ReservationExpired) && id in later && later[id] == c.books.records[id]
  {
    TerminalForever(c, ops, id);
  }

  /** What a cleanup does to one open reservation. */
  lemma CleanupAt(b: Books, id: nat, now: int)
    requires id in b.records && b.records[id].status.Active?
    ensures id in Cleaned(b, now).records
    ensures Cleaned(b, now).records[id]
         == if now < b.records[id].expiresAt then b.records[id] else b.records[id].(status := Expired)
  {
    CleanupAdvances(b, now);
  }

  /**
   * The first settlement of an open reservation decides for good, whatever limits are in play: in time, it commits or
   * refunds and no later call changes that; from the expiry on, it finds the reservation expired for good.
   */
  lemma FirstSettlementWins(s: Ledger, id: nat, commit: bool, now: int, ops: seq<Op>)
    requires Shaped(s) && id in s.books.records && s.books.records[id].status.Active?
    ensures
      var r := s.books.records[id];
      var t := Finish(s, id, commit, now);
      var later := Run(t.state, ops).books.records;
      && t.result == (if now < r.expiresAt then Ok(()) else Err(ReservationExpired))
      && id in later
      && later[id] == r.(status := if now >= r.expiresAt then Expired else if commit then Committed else Refunded)
  {
    var c := CleanedLedger(s, now);
    CleanupShaped(s, now);
    CleanupAt(s.books, id, now);
    if now < s.books.records[id].expiresAt {
      SettledForever(c, id, commit, ops);
    } else {
      ExpiredForever(c, id, commit, ops);
    }
  }

  /** In time, a settlement books or frees exactly the reserved units of its counter. */
  lemma SettlementMovesUnits(s: Ledger, id: nat, commit: bool, now: int)
    requires Shaped(s) && id in s.books.records && s.books.records[id].status.Active? && now < s.books.records[id].expiresAt
    requires Tidy(s.books, s.books.records[id].key, MAX_LIMIT)
    ensures
      var r := s.books.records[id];
      var t := Finish(s, id, commit, now).state;
      && Usage(t.books, r.key).committed == Usage(s.books, r.key).committed + (if commit then r.amount else 0)
      && Usage(t.books, r.key).reserved + r.amount == Usage(Cleaned(s.books, now), r.key).reserved
  {
    CleanupShaped(s, now);
    CleanupAt(s.books, id, now);
    CleanupTallies(s.books, now, s.books.records[id].key);
    SettledUnits(CleanedLedger(s, now), id, commit);
  }

  // ---------------------------------------------------------------- the exact condition for conservation

  const PROBE_KEY := StoreKey("policy", BudgetKey("provider", "domain", "resource", "subject"), Requests)
  const PROBE := ReserveRequest(PROBE_KEY, U64_MAX, U64_MAX, U64_MAX, 1, Window(0, 1), None, 0)

  /** At a limit of `u64::MAX` the saturating guard grants the whole budget twice. */
  lemma OverflowWitness()
    ensures Limited([ReserveOp(PROBE), ReserveOp(PROBE)], PROBE.Target(), U64_MAX)
    ensures Usage(Run(EMPTY, [ReserveOp(PROBE), ReserveOp(PROBE)]).books, PROBE.Target()) == Counter(0, U64_MAX)
    ensures Sum(Run(EMPTY, [ReserveOp(PROBE), ReserveOp(PROBE)]).books.records, PROBE.Target(), Active) == 2 * U64_MAX
  {
    var key := PROBE.Target();
    ExpireNone(EMPTY.books);
    assert DueIds(EMPTY.books.records, 0) == {};
    var one := GrantedLedger(EMPTY, PROBE);
    assert Apply(EMPTY, ReserveOp(PROBE)) == one;
    assert DueIds(one.books.records, 0) == {};
    ExpireNone(one.books);
    var two := GrantedLedger(one, PROBE);
    assert Apply(one, ReserveOp(PROBE)) == two;
    var ops := [ReserveOp(PROBE), ReserveOp(PROBE)];
    assert ops[1..] == [ReserveOp(PROBE)];
    assert Run(one, ops[1..]) == two;
    TotalUpdate(EMPTY.books.records, Held(key, Active), 1, one.books.records[1]);
    TotalUpdate(one.books.records, Held(key, Active), 2, two.books.records[2]);
  }

  /**
   * A limit on the requests for a counter makes the counter equal its ledger sums on every run exactly when it is
   * below `u64::MAX`, whatever limits the requests for other counters carry.
   */
  lemma ConservationExact(limit: u64)
    ensures (forall ops, key :: Limited(ops, key, limit) ==> Tallies(Run(EMPTY, ops).books, key)) <==> limit < U64_MAX
  {
    if limit < U64_MAX {
      forall ops, key | Limited(ops, key, limit)
        ensures Tallies(Run(EMPTY, ops).books, key)
      {
        EmptyTidy(key);
        RunTidy(EMPTY, ops, key, limit);
      }
    } else {
      OverflowWitness();
      var ops := [ReserveOp(PROBE), ReserveOp(PROBE)];
      assert !Tallies(Run(EMPTY, ops).books, PROBE.Target());
    }
  }

  // ---------------------------------------------------------------- every granted unit is accounted for

  /** The request makes a new reservation, rather than replaying, failing or being denied. */
  ghost predicate Grants(s: Ledger, req: ReserveRequest) {
    Reserve(s, req).state.nextId != s.nextId
  }

  /** The units of `key` granted along a run. */
  ghost function UnitsGranted(s: Ledger, ops: seq<Op>, key: CounterKey): nat
    decreases |ops|
  {
    if ops == [] then 0
    else
      (if ops[0].ReserveOp? && ops[0].req.Target() == key && Grants(s, ops[0].req) then ops[0].req.amount else 0)
      + UnitsGranted(Apply(s, ops[0]), ops[1..], key)
  }

  function UnitsOf(key: CounterKey): (nat, Record) -> nat {
    (id: nat, r: Record) => if r.key == key then r.amount else 0
  }

  lemma StatusesPartition(records: map<nat, Record>, key: CounterKey)
    ensures Total(records, UnitsOf(key))
         == Sum(records, key, Committed) + Sum(records, key, Active) + Sum(records, key, Refunded) + Sum(records, key, Expired)
  {
    var open := (id: nat, r: Record) => if r.key == key && (r.status.Active? || r.status.Committed?) then r.amount else 0;
    var shut := (id: nat, r: Record) => if r.key == key && (r.status.Refunded? || r.status.Expired?) then r.amount else 0;
    TotalSplit(records, UnitsOf(key), open, shut);
    TotalSplit(records, open, Held(key, Committed), Held(key, Active));
    TotalSplit(records, shut, Held(key, Refunded), Held(key, Expired));
  }

  lemma SameUnits(before: map<nat, Record>, after: map<nat, Record>, key: CounterKey)
    requires RecordsAdvance(before, after) && before.Keys == after.Keys
    ensures Total(after, UnitsOf(key)) == Total(before, UnitsOf(key))
  {
    TotalEqual(before, UnitsOf(key), after, UnitsOf(key));
  }

  lemma ReserveUnits(c: Ledger, req: ReserveRequest, key: CounterKey)
    requires Shaped(c)
    ensures Total(ReserveCleaned(c, req).state.books.records, UnitsOf(key)) == Total(c.books.records, UnitsOf(key))
          + if req.Target() == key && ReserveCleaned(c, req).state.nextId != c.nextId then req.amount else 0
  {
    var t := ReserveCleaned(c, req).state;
    if t.nextId != c.nextId {
      TotalUpdate(c.books.records, UnitsOf(key), t.nextId, t.books.records[t.nextId]);
    }
  }

  lemma FinishUnits(c: Ledger, id: nat, commit: bool, key: CounterKey)
    ensures Total(FinishCleaned(c, id, commit).state.books.records, UnitsOf(key)) == Total(c.books.records, UnitsOf(key))
  {
    SameUnits(c.books.records, FinishCleaned(c, id, commit).state.books.records, key);
  }

  lemma CleanupUnits(s: Ledger, now: int, key: CounterKey)
    ensures Total(CleanedLedger(s, now).books.records, UnitsOf(key)) == Total(s.books.records, UnitsOf(key))
  {
    CleanupAdvances(s.books, now);
    SameUnits(s.books.records, Cleaned(s.books, now).records, key);
  }

  lemma StepUnits(s: Ledger, op: Op, key: CounterKey)
    requires Shaped(s)
    ensures Total(Apply(s, op).books.records, UnitsOf(key)) == Total(s.books.records, UnitsOf(key))
          + if op.ReserveOp? && op.req.Target() == key && Grants(s, op.req) then op.req.amount else 0
  {
    match op {
      case ReserveOp(req) =>
        if req.Validate().Ok? {
          CleanupShaped(s, req.now);
          CleanupUnits(s, req.now, key);
          ReserveUnits(CleanedLedger(s, req.now), req, key);
        }
      case FinishOp(id, commit, now) =>
        CleanupUnits(s, now, key);
        FinishUnits(CleanedLedger(s, now), id, commit, key);
      case ReadOp(key', now) =>
        CleanupUnits(s, now, key);
    }
  }

  lemma {:induction false} RunUnits(s: Ledger, ops: seq<Op>, key: CounterKey)
    requires Shaped(s)
    ensures Total(Run(s, ops).books.records, UnitsOf(key)) == Total(s.books.records, UnitsOf(key)) + UnitsGranted(s, ops, key)
    decreases |ops|
  {
    if ops != [] {
      StepShaped(s, ops[0]);
      StepUnits(s, ops[0], key);
      RunUnits(Apply(s, ops[0]), ops[1..], key);
    }
  }

  /** The units granted over a run are its committed and reserved counters plus what was refunded or expired. */
  lemma UnitsAccounted(ops: seq<Op>, key: CounterKey)
    requires Limited(ops, key, MAX_LIMIT)
    ensures
      var b := Run(EMPTY, ops).books;
      UnitsGranted(EMPTY, ops, key)
      == Usage(b, key).committed + Usage(b, key).reserved + Sum(b.records, key, Refunded) + Sum(b.records, key, Expired)
  {
    EmptyTidy(key);
    RunTidy(EMPTY, ops, key, MAX_LIMIT);
    RunUnits(EMPTY, ops, key);
    var b := Run(EMPTY, ops).books;
    StatusesPartition(b.records, key);
  }

  // ---------------------------------------------------------------- idempotency

  /** How many reservations a run makes for one counter under one idempotency key. */
  ghost function GrantsUnder(s: Ledger, ops: seq<Op>, entry: IdempotencyEntry): nat
    decreases |ops|
  {
    if ops == [] then 0
    else
      (if ops[0].ReserveOp? && ops[0].req.Target() == entry.0 && ops[0].req.idempotencyKey == Some(entry.1)
          && Grants(s, ops[0].req) then 1 else 0)
      + GrantsUnder(Apply(s, ops[0]), ops[1..], entry)
  }

  /** A counter and idempotency key get at most one reservation ever, and none once they have one. */
  lemma {:induction false} AtMostOneGrant(s: Ledger, ops: seq<Op>, entry: IdempotencyEntry)
    requires Shaped(s)
    ensures GrantsUnder(s, ops, entry) <= if entry in s.idempotency then 0 else 1
    decreases |ops|
  {
    if ops != [] {
      StepShaped(s, ops[0]);
      var counts := ops[0].ReserveOp? && ops[0].req.Target() == entry.0 && ops[0].req.idempotencyKey == Some(entry.1);
      if counts && Grants(s, ops[0].req) {
        GrantRecorded(s, ops[0].req);
        assert (ops[0].req.Target(), ops[0].req.idempotencyKey.value) == entry;
      }
      AtMostOneGrant(Apply(s, ops[0]), ops[1..], entry);
    }
  }

  /** What a cleaned ledger answers to a key it already holds. */
  lemma ReplayCleaned(c: Ledger, again: ReserveRequest)
    requires Shaped(c) && Replays(c, again)
    ensures
      var id := c.idempotency[(again.Target(), again.idempotencyKey.value)];
      var replay := ReserveCleaned(c, again);
      && replay.state == c
      && id in c.books.records
      && replay.result == Ok(ReservationResult(
           if Live(c.books.records[id])
           then Some(StoreReservation(id, c.books.records[id].expiresAt)) else None,
           Usage(c.books, again.Target())))
  {
  }

  /** A reservation outlives any run and any cleanup under its id, its key and its expiry. */
  lemma EntrySurvives(s: Ledger, ops: seq<Op>, entry: IdempotencyEntry, now: int)
    requires Shaped(s) && entry in s.idempotency
    ensures var c := CleanedLedger(Run(s, ops), now);
      Shaped(c) && Advances(s, c) && entry in c.idempotency && c.idempotency[entry] == s.idempotency[entry]
  {
    RunShaped(s, ops);
    CleanupShaped(Run(s, ops), now);
    AdvancesTransitive(s, Run(s, ops), CleanedLedger(Run(s, ops), now));
  }

  lemma GrantRecordedCleaned(c: Ledger, req: ReserveRequest)
    requires req.idempotencyKey.Some? && ReserveCleaned(c, req).state.nextId != c.nextId
    ensures
      var granted := ReserveCleaned(c, req);
      var entry := (req.Target(), req.idempotencyKey.value);
      && entry !in c.idempotency
      && entry in granted.state.idempotency
      && granted.result.Ok?
      && granted.result.value.reservation == Some(StoreReservation(granted.state.idempotency[entry], req.ExpiresAt()))
      && granted.state.idempotency[entry] in granted.state.books.records
      && granted.state.books.records[granted.state.idempotency[entry]].expiresAt == req.ExpiresAt()
  {
  }

  /** A grant under a key was the first, and is recorded under it with the answered expiry. */
  lemma GrantRecorded(s: Ledger, req: ReserveRequest)
    requires req.idempotencyKey.Some? && Grants(s, req)
    ensures
      var granted := Reserve(s, req);
      var entry := (req.Target(), req.idempotencyKey.value);
      && entry !in s.idempotency
      && entry in granted.state.idempotency
      && granted.result.Ok?
      && granted.result.value.reservation == Some(StoreReservation(granted.state.idempotency[entry], req.ExpiresAt()))
      && granted.state.idempotency[entry] in granted.state.books.records
      && granted.state.books.records[granted.state.idempotency[entry]].expiresAt == req.ExpiresAt()
  {
    GrantRecordedCleaned(CleanedLedger(s, req.now), req);
  }

  /**
   * After a key was granted, and after any further run, asking again makes nothing: the books are only cleaned,
   * and the answer is the first reservation with its first expiry while it is active or committed, else a denial.
   */
  lemma ReplayAfterRun(s: Ledger, req: ReserveRequest, ops: seq<Op>, again: ReserveRequest)
    requires Shaped(s)
    requires req.idempotencyKey.Some? && Grants(s, req)
    requires again.Target() == req.Target() && again.idempotencyKey == req.idempotencyKey && again.Validate().Ok?
    ensures
      var granted := Reserve(s, req);
      var later := Run(granted.state, ops);
      var cleaned := CleanedLedger(later, again.now);
      && granted.result.Ok?
      && granted.result.value.Allowed()
      && granted.result.value.reservation.value.id in cleaned.books.records
      && Reserve(later, again) == Outcome(cleaned, Ok(ReservationResult(
           if Live(cleaned.books.records[granted.result.value.reservation.value.id])
           then granted.result.value.reservation else None,
           Usage(cleaned.books, req.Target()))))
  {
    var granted := Reserve(s, req).state;
    var entry := (req.Target(), req.idempotencyKey.value);
    GrantRecorded(s, req);
    StepShaped(s, ReserveOp(req));
    EntrySurvives(granted, ops, entry, again.now);
    ReplayCleaned(CleanedLedger(Run(granted, ops), again.now), again);
  }

  lemma DeadStaysDead(s: Ledger, c: Ledger, entry: IdempotencyEntry, again: ReserveRequest)
    requires Shaped(s) && Shaped(c) && Advances(s, c) && entry in s.idempotency
    requires s.books.records[s.idempotency[entry]].status in {Refunded, Expired}
    requires again.Target() == entry.0 && again.idempotencyKey == Some(entry.1)
    ensures ReserveCleaned(c, again).result == Ok(ReservationResult(None, Usage(c.books, entry.0)))
  {
    var id := s.idempotency[entry];
    assert (again.Target(), again.idempotencyKey.value) == entry;
    assert c.idempotency[entry] == id;
    assert RecordAdvances(s.books.records[id], c.books.records[id]);
  }

  /** Once the reservation behind a key is refunded or expired, the key is denied for good. */
  lemma DeadKeyDeniedForever(s: Ledger, entry: IdempotencyEntry, ops: seq<Op>, again: ReserveRequest)
    requires Shaped(s)
    requires entry in s.idempotency && s.books.records[s.idempotency[entry]].status in {Refunded, Expired}
    requires again.Target() == entry.0 && again.idempotencyKey == Some(entry.1) && again.Validate().Ok?
    ensures Reserve(Run(s, ops), again).result
         == Ok(ReservationResult(None, Usage(Cleaned(Run(s, ops).books, again.now), entry.0)))
  {
    var c := CleanedLedger(Run(s, ops), again.now);
    assert Reserve(Run(s, ops), again) == ReserveCleaned(c, again);
    assert Shaped(c) && Advances(s, c) by { EntrySurvives(s, ops, entry, again.now); }
    DeadStaysDead(s, c, entry, again);
  }

  /**
   * The one request on which the other backends part from this store: its idempotency key belongs to a refunded or
   * expired reservation, and the usage would let it pass. The ledger denies it; an SQL insert runs into the unique
   * index; Redis grants it anew.
   */
  predicate ReusesDeadKey(c: Ledger, req: ReserveRequest) {
    && Replays(c, req)
    && c.idempotency[(req.Target(), req.idempotencyKey.value)] in c.books.records
    && !Live(c.books.records[c.idempotency[(req.Target(), req.idempotencyKey.value)]])
    && Fits(c.books, req)
  }

  // ---------------------------------------------------------------- refused input and settled reservations

  /** Input is refused before anything is cleaned up, for the first of three reasons. */
  lemma InputRefusedExactly(s: Ledger, req: ReserveRequest)
    ensures
      var out := Reserve(s, req);
      && (out.result.Err? && out.result.error.InvalidInput?
          <==> req.amount == 0 || req.hardLimit < req.effectiveLimit || req.ttl <= 0)
      && (req.amount == 0 ==> out == Outcome(s, Err(InvalidInput("amount must be greater than zero"))))
      && (req.amount > 0 && req.hardLimit < req.effectiveLimit ==>
            out == Outcome(s, Err(InvalidInput("effective limit must not exceed hard limit"))))
      && (req.amount > 0 && req.effectiveLimit <= req.hardLimit && req.ttl <= 0 ==>
            out == Outcome(s, Err(InvalidInput("reservation ttl must be positive"))))
  {
  }

  /** A settlement of anything but an open reservation is answered by its status and only cleans up. */
  lemma OnlyOpenSettles(s: Ledger, id: nat, commit: bool, now: int)
    requires id in s.books.records ==> !s.books.records[id].status.Active?
    ensures
      var out := Finish(s, id, commit, now);
      && out.state == CleanedLedger(s, now)
      && out.result == if id !in s.books.records then Err(ReservationNotFound)
                       else if s.books.records[id].status == Expired then Err(ReservationExpired)
                       else Ok(())
  {
    CleanupAdvances(s.books, now);
  }
}
