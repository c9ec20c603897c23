/**
 * What any backend of the broker protocol has in common: books, callers between their two steps, and one counter at a
 * time. Callers evaluate on usage that may be stale; the store frees units, or makes a reservation within the limit of
 * an evaluation. What that keeps does not depend on the other counters, nor on the policies that govern them.
 */
module Spending {
  import opened Prelude
  import opened Totals
  import opened Contract
  import opened Accounts
  import opened Policies
  import opened Pacing
  import opened Broker

  /** A caller between its evaluation and its store step: what it saw, and when it read the clock. */
  datatype Pending = Pending(policy: Policy, request: Request, window: Window, used: u64, now: int) {
    function Evaluation(): Evaluation {
      Evaluate(policy, used, request.amount, request.priority, window, now)
    }

    function Target(): CounterKey {
      CounterOf(policy, request.key, window)
    }

    function Submission(ttl: int): ReserveRequest {
      StoreRequest(policy, request, Evaluation().effectiveLimit, ttl, window, now)
    }
  }

  /** `priority` is history: which priority made each reservation. */
  datatype View = View(books: Books, clock: int, pending: map<nat, Pending>, priority: map<nat, Priority>)

  // ---------------------------------------------------------------- outstanding units by priority

  predicate MadeBelow(id: nat, priority: map<nat, Priority>, level: Priority) {
    id in priority && priority[id].Below(level)
  }

  /** The live units of `key` in one record, if it was made below `level` (or, not `below`, if it was not). */
  function LiveUnits(id: nat, r: Record, key: CounterKey, priority: map<nat, Priority>, level: Priority, below: bool): nat {
    if r.key == key && Live(r) && MadeBelow(id, priority, level) == below then r.amount else 0
  }

  /** Live units of `key` whose reservation was made below `level`. */
  function HeldBelow(key: CounterKey, priority: map<nat, Priority>, level: Priority): (nat, Record) -> nat {
    (id: nat, r: Record) => LiveUnits(id, r, key, priority, level, true)
  }

  /** The remaining live units of `key`. */
  function HeldFrom(key: CounterKey, priority: map<nat, Priority>, level: Priority): (nat, Record) -> nat {
    (id: nat, r: Record) => LiveUnits(id, r, key, priority, level, false)
  }

  ghost function Outstanding(v: View, key: CounterKey, level: Priority): nat {
    Total(v.books.records, HeldBelow(key, v.priority, level))
  }

  ghost function OutstandingFrom(v: View, key: CounterKey, level: Priority): nat {
    Total(v.books.records, HeldFrom(key, v.priority, level))
  }

  /** Outstanding units below and from a level make up the counter. */
  lemma OutstandingSplits(v: View, key: CounterKey, level: Priority)
    requires Tallies(v.books, key)
    ensures InUse(v.books, key) == Outstanding(v, key, level) + OutstandingFrom(v, key, level)
  {
    var records := v.books.records;
    var open := (id: nat, r: Record) => if r.key == key && Live(r) then r.amount else 0;
    TotalSplit(records, open, Held(key, Committed), Held(key, Active));
    TotalSplit(records, open, HeldBelow(key, v.priority, level), HeldFrom(key, v.priority, level));
  }

  // ---------------------------------------------------------------- what stores do

  /** No reservation was made; some may have been settled or expired. */
  ghost predicate Freed(b: Books, after: Books, key: CounterKey) {
    && Tallies(after, key)
    && after.records.Keys == b.records.Keys
    && RecordsAdvance(b.records, after.records)
    && InUse(after, key) <= InUse(b, key)
  }

  lemma FreedTransitive(b: Books, mid: Books, after: Books, key: CounterKey)
    requires Freed(b, mid, key) && Freed(mid, after, key)
    ensures Freed(b, after, key)
  {
    RecordsAdvanceTransitive(b.records, mid.records, after.records);
  }

  /** One reservation `r` was made under the unused id `id`, and its counter stayed within `limit`. */
  ghost predicate Makes(b: Books, after: Books, id: nat, r: Record, limit: nat, key: CounterKey) {
    && id !in b.records && r.status.Active? && after.records == b.records[id := r]
    && Tallies(after, key)
    && InUse(after, key) == InUse(b, key) + (if r.key == key then r.amount else 0)
    && (r.key == key ==> InUse(after, key) <= limit)
  }

  /** The view after `asked` got the reservation `id`. */
  function Recorded(v: View, after: Books, id: nat, asked: Pending): View {
    v.(books := after, priority := v.priority[id := asked.request.priority])
  }

  lemma HeldFalls(before: map<nat, Record>, after: map<nat, Record>, key: CounterKey, priority: map<nat, Priority>, level: Priority)
    requires after.Keys == before.Keys && RecordsAdvance(before, after)
    ensures Total(after, HeldBelow(key, priority, level)) <= Total(before, HeldBelow(key, priority, level))
    ensures Total(after, HeldFrom(key, priority, level)) <= Total(before, HeldFrom(key, priority, level))
  {
    forall id, below | id in after
      ensures LiveUnits(id, after[id], key, priority, level, below) <= LiveUnits(id, before[id], key, priority, level, below)
    {
      assert RecordAdvances(before[id], after[id]);
    }
    TotalAtMost(after, HeldBelow(key, priority, level), before, HeldBelow(key, priority, level));
    TotalAtMost(after, HeldFrom(key, priority, level), before, HeldFrom(key, priority, level));
  }

  lemma FreedOutstanding(v: View, after: Books, key: CounterKey, level: Priority)
    requires Freed(v.books, after, key)
    ensures Outstanding(v.(books := after), key, level) <= Outstanding(v, key, level)
    ensures OutstandingFrom(v.(books := after), key, level) <= OutstandingFrom(v, key, level)
  {
    HeldFalls(v.books.records, after.records, key, v.priority, level);
  }

  lemma HeldAfterGrant(records: map<nat, Record>, id: nat, r: Record, priority: map<nat, Priority>, of: Priority,
                       key: CounterKey, level: Priority)
    requires id !in records && r.status.Active? && priority.Keys == records.Keys
    ensures Total(records[id := r], HeldBelow(key, priority[id := of], level)) == Total(records, HeldBelow(key, priority, level))
          + if r.key == key && of.Below(level) then r.amount else 0
  {
    var weight := HeldBelow(key, priority[id := of], level);
    TotalUpdate(records, weight, id, r);
    TotalEqual(records, HeldBelow(key, priority, level), records, weight);
  }

  /** A grant adds its own amount to its own counter, below every level above its priority. */
  lemma MadeOutstanding(v: View, after: Books, id: nat, r: Record, asked: Pending, limit: nat, key: CounterKey, level: Priority)
    requires v.priority.Keys == v.books.records.Keys && Makes(v.books, after, id, r, limit, key)
    ensures Outstanding(Recorded(v, after, id, asked), key, level) == Outstanding(v, key, level)
          + if r.key == key && asked.request.priority.Below(level) then r.amount else 0
  {
    HeldAfterGrant(v.books.records, id, r, v.priority, asked.request.priority, key, level);
  }

  // ---------------------------------------------------------------- the invariant of one counter

  ghost predicate PendingOk(warden: Warden, clock: int, asked: Pending) {
    && Find(warden.policies, asked.request.key) == Some(asked.policy)
    && asked.policy.unit == asked.request.unit
    && asked.request.amount > 0
    && asked.window.start < asked.window.end
    && asked.now <= clock
    && asked.Evaluation().denial.None?
  }

  predicate Governed(warden: Warden, key: CounterKey, p: Policy) {
    p in warden.policies && key.storeKey.policyName == p.name
  }

  ghost predicate WithinHardLimit(warden: Warden, b: Books, key: CounterKey) {
    forall p: Policy :: Governed(warden, key, p) ==> InUse(b, key) <= p.hardLimit
  }

  /** Non-critical units never run ahead of the pace, at the clock's own instant. */
  ghost predicate Paced(warden: Warden, v: View, key: CounterKey) {
    forall p: Policy :: Governed(warden, key, p) && p.strategy.PreserveForWindow? ==>
      Outstanding(v, key, Critical) <= PacedLimit(p, key.window, v.clock)
  }

  ghost predicate AllPendingOk(warden: Warden, v: View) {
    forall c :: c in v.pending ==> PendingOk(warden, v.clock, v.pending[c])
  }

  ghost predicate CounterInv(warden: Warden, v: View, key: CounterKey) {
    && v.priority.Keys == v.books.records.Keys
    && AllPendingOk(warden, v)
    && Tallies(v.books, key)
    && WithinHardLimit(warden, v.books, key)
    && Paced(warden, v, key)
  }

  lemma EmptyInv(warden: Warden, clock: int, key: CounterKey)
    ensures CounterInv(warden, View(Books(map[], map[]), clock, map[], map[]), key)
  {
    EmptyConserved();
  }

  lemma TickInv(warden: Warden, v: View, to: int, key: CounterKey)
    requires CounterInv(warden, v, key) && v.clock <= to
    ensures CounterInv(warden, v.(clock := to), key)
  {
    var u := v.(clock := to);
    forall p: Policy | Governed(warden, key, p) && p.strategy.PreserveForWindow?
      ensures Outstanding(u, key, Critical) <= PacedLimit(p, key.window, to)
    {
      PacedLimitMonotone(p, key.window, v.clock, to);
    }
    forall c | c in u.pending
      ensures PendingOk(warden, to, u.pending[c])
    {
      assert PendingOk(warden, v.clock, v.pending[c]);
    }
  }

  lemma FreedInv(warden: Warden, v: View, after: Books, key: CounterKey)
    requires CounterInv(warden, v, key) && Freed(v.books, after, key)
    ensures CounterInv(warden, v.(books := after), key)
  {
    var u := v.(books := after);
    FreedOutstanding(v, after, key, Critical);
    forall c | c in u.pending
      ensures PendingOk(warden, u.clock, u.pending[c])
    {
      assert PendingOk(warden, v.clock, v.pending[c]);
    }
  }

  /** Callers whose evaluation passed may come and go. */
  lemma PendingInv(warden: Warden, v: View, pending: map<nat, Pending>, key: CounterKey)
    requires CounterInv(warden, v, key)
    requires forall c :: c in pending ==> PendingOk(warden, v.clock, pending[c])
    ensures CounterInv(warden, v.(pending := pending), key)
  {
    assert Outstanding(v.(pending := pending), key, Critical) == Outstanding(v, key, Critical);
  }

  /** The reservation is the one the caller asked for, as far as `key` is concerned. */
  predicate Serves(r: Record, asked: Pending, key: CounterKey) {
    r.key == asked.Target() && (r.key == key ==> r.amount == asked.request.amount)
  }

  lemma MadeWithinHardLimit(warden: Warden, v: View, after: Books, id: nat, r: Record, asked: Pending, key: CounterKey)
    requires warden.WellFormed() && WithinHardLimit(warden, v.books, key) && PendingOk(warden, v.clock, asked)
    requires Serves(r, asked, key) && Makes(v.books, after, id, r, asked.Evaluation().effectiveLimit, key)
    ensures WithinHardLimit(warden, after, key)
  {
    FindSelects(warden.policies, asked.request.key);
    EffectiveLimitCovers(asked.policy, asked.used, asked.request.amount, asked.request.priority, asked.window, asked.now);
    forall p: Policy | Governed(warden, key, p)
      ensures InUse(after, key) <= p.hardLimit
    {
      if r.key == key {
        NameIdentifies(warden.policies, p, asked.policy);
      }
    }
  }

  lemma MadePaced(warden: Warden, v: View, after: Books, id: nat, r: Record, asked: Pending, p: Policy, key: CounterKey)
    requires warden.WellFormed() && v.priority.Keys == v.books.records.Keys && PendingOk(warden, v.clock, asked)
    requires Serves(r, asked, key) && Makes(v.books, after, id, r, asked.Evaluation().effectiveLimit, key)
    requires Governed(warden, key, p) && p.strategy.PreserveForWindow?
    requires Outstanding(v, key, Critical) <= PacedLimit(p, key.window, v.clock)
    ensures Outstanding(Recorded(v, after, id, asked), key, Critical) <= PacedLimit(p, key.window, v.clock)
  {
    MadeOutstanding(v, after, id, r, asked, asked.Evaluation().effectiveLimit, key, Critical);
    if r.key == key && !asked.request.priority.Critical? {
      FindSelects(warden.policies, asked.request.key);
      NameIdentifies(warden.policies, p, asked.policy);
      EffectiveLimitCovers(p, asked.used, asked.request.amount, asked.request.priority, asked.window, asked.now);
      OutstandingSplits(Recorded(v, after, id, asked), key, Critical);
      PacedLimitMonotone(p, key.window, asked.now, v.clock);
    }
  }

  lemma MadeInv(warden: Warden, v: View, after: Books, id: nat, r: Record, asked: Pending, key: CounterKey)
    requires warden.WellFormed() && CounterInv(warden, v, key) && PendingOk(warden, v.clock, asked)
    requires Serves(r, asked, key) && Makes(v.books, after, id, r, asked.Evaluation().effectiveLimit, key)
    ensures CounterInv(warden, Recorded(v, after, id, asked), key)
  {
    var u := Recorded(v, after, id, asked);
    MadeWithinHardLimit(warden, v, after, id, r, asked, key);
    forall p: Policy | Governed(warden, key, p) && p.strategy.PreserveForWindow?
      ensures Outstanding(u, key, Critical) <= PacedLimit(p, key.window, u.clock)
    {
      MadePaced(warden, v, after, id, r, asked, p, key);
    }
    forall c | c in u.pending
      ensures PendingOk(warden, u.clock, u.pending[c])
    {
      assert PendingOk(warden, v.clock, v.pending[c]);
    }
  }

  // ---------------------------------------------------------------- what the invariant is good for

  /** At every later instant the units outstanding below critical are within the integer pacing formula. */
  lemma PacedFormula(warden: Warden, v: View, key: CounterKey, p: Policy, t: int)
    requires warden.WellFormed() && CounterInv(warden, v, key) && v.clock <= t
    requires Governed(warden, key, p) && p.strategy.PreserveForWindow?
    ensures
      Outstanding(v, key, Critical)
      <= Min(p.hardLimit - p.hardLimit * p.strategy.emergencyReservePercent / 100,
             p.hardLimit * (if t < key.window.start then 0 else (t - key.window.start) / 1_000_000)
             / (if key.window.end - key.window.start < 1_000_000 then 1 else (key.window.end - key.window.start) / 1_000_000)
             + p.hardLimit * p.strategy.maxSpendAheadPercent / 100)
  {
    PacedLimitMonotone(p, key.window, v.clock, t);
    PacedLimitExact(p, key.window, t);
  }

  /** Non-critical units leave room for the critical ones the emergency reserve still covers. */
  lemma ReserveLeftOver(warden: Warden, v: View, key: CounterKey, p: Policy, amount: nat)
    requires warden.WellFormed() && CounterInv(warden, v, key)
    requires Governed(warden, key, p) && p.strategy.PreserveForWindow?
    requires amount + OutstandingFrom(v, key, Critical) <= EmergencyReserve(p)
    ensures InUse(v.books, key) + amount <= p.hardLimit
  {
    OutstandingSplits(v, key, Critical);
    PacedWithin(p, key.window, v.clock);
  }

  // ---------------------------------------------------------------- capacity kept for higher priorities

  /** The priority a strategy keeps capacity for; nothing is below `Background`. */
  function Level(p: Policy): Priority {
    match p.strategy
    case HardLimitOnly => Background
    case PreserveForWindow(_, _, _) => Critical
    case ReserveCapacity(_, reservedFor) => reservedFor
  }

  /** The priorities below that level, one by one. */
  lemma LevelExact(p: Policy, priority: Priority)
    ensures priority.Below(Level(p)) <==>
            match p.strategy
            case HardLimitOnly => false
            case PreserveForWindow(_, _, _) => priority == Background || priority == Normal || priority == Important
            case ReserveCapacity(_, reservedFor) =>
              match priority
              case Background => reservedFor == Normal || reservedFor == Important || reservedFor == Critical
              case Normal => reservedFor == Important || reservedFor == Critical
              case Important => reservedFor == Critical
              case Critical => false
  {
  }

  /** What the priorities below that level may have outstanding. */
  function Cap(p: Policy): int {
    match p.strategy
    case HardLimitOnly => p.hardLimit
    case PreserveForWindow(_, _, minimum) => if minimum.Some? then p.hardLimit - minimum.value else p.hardLimit
    case ReserveCapacity(units, _) => p.hardLimit - units
  }

  /** Reserved capacity and minimum remaining units are kept free of lower priorities. */
  ghost predicate KeptAt(v: View, p: Policy, key: CounterKey) {
    Outstanding(v, key, Level(p)) <= Cap(p)
  }

  /** A request below the level passes only if it stays within the cap. */
  lemma AllowedBelowCap(p: Policy, used: u64, amount: u64, priority: Priority, window: Window, now: int)
    requires p.Valid() && p.hardLimit < U64_MAX
    requires Allowed(p, used, amount, priority, window, now) && priority.Below(Level(p))
    ensures used + amount <= Cap(p)
  {
    AllowedExactly(p, used, amount, priority, window, now);
  }

  /**
   * A grant keeps the capacity free if its caller was evaluated on the usage the counter still has, or if there is
   * no room below the level at all.
   */
  lemma MadeKept(warden: Warden, v: View, after: Books, id: nat, r: Record, asked: Pending, p: Policy, key: CounterKey)
    requires warden.WellFormed() && v.priority.Keys == v.books.records.Keys && Tallies(v.books, key)
    requires PendingOk(warden, v.clock, asked) && Serves(r, asked, key)
    requires Makes(v.books, after, id, r, asked.Evaluation().effectiveLimit, key)
    requires Governed(warden, key, p) && p.hardLimit < U64_MAX && KeptAt(v, p, key)
    requires asked.used == InUse(v.books, key) || r.key != key || Cap(p) == 0
    ensures KeptAt(Recorded(v, after, id, asked), p, key)
  {
    MadeOutstanding(v, after, id, r, asked, asked.Evaluation().effectiveLimit, key, Level(p));
    if r.key == key && asked.request.priority.Below(Level(p)) {
      FindSelects(warden.policies, asked.request.key);
      NameIdentifies(warden.policies, p, asked.policy);
      AllowedBelowCap(p, asked.used, asked.request.amount, asked.request.priority, asked.window, asked.now);
      OutstandingSplits(v, key, Level(p));
    }
  }

  /** The policies whose kept capacity no interleaving can break. */
  predicate Isolated(p: Policy) {
    match p.strategy
    case HardLimitOnly => true
    case PreserveForWindow(_, _, minimum) =>
      minimum.None? || minimum.value <= EmergencyReserve(p) || minimum.value == p.hardLimit
    case ReserveCapacity(units, reservedFor) => units == p.hardLimit || reservedFor.Background?
  }

  /** With room below the level, the invariant alone keeps the capacity of such a policy. */
  lemma IsolatedKept(warden: Warden, v: View, p: Policy, key: CounterKey)
    requires warden.WellFormed() && CounterInv(warden, v, key) && Governed(warden, key, p) && Isolated(p) && Cap(p) != 0
    ensures KeptAt(v, p, key)
  {
    if p.strategy.PreserveForWindow? {
      PacedWithin(p, key.window, v.clock);
    } else {
      TotalZero(v.books.records, HeldBelow(key, v.priority, Background));
    }
  }

  // ---------------------------------------------------------------- requests for witness runs

  const WINDOW := Window(0, NANOS_PER_MILLI)

  /** The end of `WINDOW`, where pacing no longer holds anything back but the emergency reserve. */
  const INSTANT := NANOS_PER_MILLI

  lemma NotIsolatedAllows(p: Policy, amount: u64)
    requires p.Valid() && p.hardLimit < U64_MAX && !Isolated(p) && 0 < amount <= Cap(p)
    ensures 0 < Cap(p) < p.hardLimit && Background.Below(Level(p))
    ensures Allowed(p, 0, amount, Background, WINDOW, INSTANT)
    ensures Evaluate(p, 0, amount, Background, WINDOW, INSTANT).effectiveLimit > Cap(p)
  {
    if p.strategy.PreserveForWindow? {
      PacedLimitAtEnd(p, WINDOW, INSTANT);
    }
    AllowedExactly(p, 0, amount, Background, WINDOW, INSTANT);
    EffectiveLimitCovers(p, 0, amount, Background, WINDOW, INSTANT);
  }

  lemma NotIsolatedCap(p: Policy)
    requires p.Valid() && p.hardLimit < U64_MAX && !Isolated(p)
    ensures 0 < Cap(p) < p.hardLimit
  {
    if p.strategy.PreserveForWindow? {
      PacedWithin(p, WINDOW, INSTANT);
    }
  }
}
