/** Any number of callers interleaving the broker's two steps over the in-memory store. */
module Protocol {
  import opened Prelude
  import opened Contract
  import opened Accounts
  import opened Memory
  import opened LedgerRuns
  import opened Policies
  import opened Pacing
  import opened Broker
  import opened Spending

  datatype World = World(store: Ledger, clock: int, pending: map<nat, Pending>, priority: map<nat, Priority>)

  /** Settlements run on their own clock, so their instant is unconstrained. */
  datatype Event =
    | Tick(to: int)
    | Ask(caller: nat, request: Request, window: Window, now: int)
    | Submit(caller: nat)
    | Settle(id: nat, commit: bool, at: int)
    | Query(counter: CounterKey, at: int)

  function Start(clock: int): World {
    World(EMPTY, clock, map[], map[])
  }

  function ViewOf(w: World): View {
    View(w.store.books, w.clock, w.pending, w.priority)
  }

  /** The first store step of a caller: read the usage at its clock reading and evaluate the policy. */
  ghost function AskStep(warden: Warden, w: World, caller: nat, request: Request, window: Window, now: int): World {
    var found := Find(warden.policies, request.key);
    if now > w.clock || window.end <= window.start || request.amount == 0
       || found.None? || found.value.unit != request.unit then w
    else
      var read := Read(w.store, CounterOf(found.value, request.key, window), now);
      var asked := Pending(found.value, request, window, read.result.Used(), now);
      w.(store := read.state,
         pending := if asked.Evaluation().denial.None? then w.pending[caller := asked] else w.pending - {caller})
  }

  /** The second store step, on whatever the ledger has become by now. */
  ghost function SubmitStep(warden: Warden, w: World, caller: nat): World {
    if caller !in w.pending then w
    else
      var asked := w.pending[caller];
      var out := Memory.Reserve(w.store, asked.Submission(warden.ttl)).state;
      World(out, w.clock, w.pending - {caller},
            if out.nextId != w.store.nextId then w.priority[out.nextId := asked.request.priority] else w.priority)
  }

  ghost function Step(warden: Warden, w: World, e: Event): World {
    match e
    case Tick(to) => if to >= w.clock then w.(clock := to) else w
    case Ask(caller, request, window, now) => AskStep(warden, w, caller, request, window, now)
    case Submit(caller) => SubmitStep(warden, w, caller)
    case Settle(id, commit, at) => w.(store := Finish(w.store, id, commit, at).state)
    case Query(counter, at) => w.(store := Read(w.store, counter, at).state)
  }

  ghost function Play(warden: Warden, w: World, events: seq<Event>): World
    decreases |events|
  {
    if events == [] then w else Play(warden, Step(warden, w, events[0]), events[1..])
  }

  lemma {:induction false} PlayAppend(warden: Warden, w: World, first: seq<Event>, second: seq<Event>)
    ensures Play(warden, w, first + second) == Play(warden, Play(warden, w, first), second)
    decreases |first|
  {
    if first == [] {
      assert first + second == second;
    } else {
      assert (first + second)[1..] == first[1..] + second;
      PlayAppend(warden, Step(warden, w, first[0]), first[1..], second);
    }
  }

  lemma PlayTwo(warden: Warden, w: World, a: Event, b: Event)
    ensures Play(warden, w, [a, b]) == Step(warden, Step(warden, w, a), b)
  {
    var next := Step(warden, w, a);
    assert [a, b][1..] == [b] && [b][1..] == [];
    assert Play(warden, next, [b]) == Step(warden, next, b);
  }

  /** One `reserve` call with nobody in between is an ask followed by a submit. */
  lemma ReserveIsTwoSteps(warden: Warden, w: World, caller: nat, request: Request, window: Window)
    requires warden.WellFormed() && request.amount > 0 && window.start < window.end
    ensures
      caller !in w.pending ==>
        Play(warden, w, [Ask(caller, request, window, w.clock), Submit(caller)]).store
        == ReserveBudget(warden, w.store, request, window, w.clock).state
  {
    PlayTwo(warden, w, Ask(caller, request, window, w.clock), Submit(caller));
  }

  // ---------------------------------------------------------------- the invariant

  /** Some key is governed by the policy; the others never get to the store. */
  ghost predicate Findable(warden: Warden, p: Policy) {
    exists key :: Find(warden.policies, key) == Some(p)
  }

  /** The policy that requests for this counter are evaluated by, if any, has a hard limit below `u64::MAX`. */
  ghost predicate Bounded(warden: Warden, key: CounterKey) {
    forall p: Policy :: Governed(warden, key, p) && Findable(warden, p) ==> p.hardLimit < U64_MAX
  }

  lemma GovernedBounded(warden: Warden, key: CounterKey, p: Policy)
    requires warden.WellFormed() && Governed(warden, key, p) && p.hardLimit < U64_MAX
    ensures Bounded(warden, key)
  {
    forall q: Policy | Governed(warden, key, q)
      ensures q.hardLimit < U64_MAX
    {
      NameIdentifies(warden.policies, p, q);
    }
  }

  ghost predicate Inv(warden: Warden, w: World, key: CounterKey) {
    Shaped(w.store) && InUse(w.store.books, key) < U64_MAX && CounterInv(warden, ViewOf(w), key)
  }

  lemma StartInv(warden: Warden, clock: int, key: CounterKey)
    ensures Inv(warden, Start(clock), key)
  {
    EmptyTidy(key);
    EmptyInv(warden, clock, key);
  }

  lemma CleanupFrees(s: Ledger, now: int, key: CounterKey)
    requires Shaped(s) && Tallies(s.books, key)
    ensures Shaped(CleanedLedger(s, now)) && Freed(s.books, CleanedLedger(s, now).books, key)
  {
    CleanupShaped(s, now);
    CleanupTallies(s.books, now, key);
    CleanupAdvances(s.books, now);
  }

  lemma FinishCleanedFrees(c: Ledger, id: nat, commit: bool, key: CounterKey)
    requires Shaped(c) && Tallies(c.books, key) && InUse(c.books, key) < U64_MAX
    ensures Shaped(FinishCleaned(c, id, commit).state) && Freed(c.books, FinishCleaned(c, id, commit).state.books, key)
  {
    FinishCleanedShaped(c, id, commit);
    FinishCleanedTidy(c, id, commit, key, InUse(c.books, key));
  }

  lemma FinishFrees(s: Ledger, id: nat, commit: bool, now: int, key: CounterKey)
    requires Shaped(s) && Tallies(s.books, key) && InUse(s.books, key) < U64_MAX
    ensures Shaped(Finish(s, id, commit, now).state) && Freed(s.books, Finish(s, id, commit, now).state.books, key)
  {
    CleanupFrees(s, now, key);
    FinishCleanedFrees(CleanedLedger(s, now), id, commit, key);
    FreedTransitive(s.books, CleanedLedger(s, now).books, Finish(s, id, commit, now).state.books, key);
  }

  /** The reservation a fresh grant makes. */
  function MadeRecord(asked: Pending, ttl: int): Record {
    Record(asked.Target(), asked.request.amount, asked.now + ttl, Active)
  }

  lemma GrantMakes(c: Ledger, asked: Pending, ttl: int, key: CounterKey)
    requires Shaped(c) && Tallies(c.books, key) && InUse(c.books, key) < U64_MAX
    requires !Replays(c, asked.Submission(ttl)) && Fits(c.books, asked.Submission(ttl)) && c.nextId != U64_MAX
    requires asked.Target() == key ==> asked.Evaluation().effectiveLimit < U64_MAX
    ensures
      var t := GrantedLedger(c, asked.Submission(ttl));
      && Shaped(t) && InUse(t.books, key) < U64_MAX
      && Makes(c.books, t.books, t.nextId, MadeRecord(asked, ttl), asked.Evaluation().effectiveLimit, key)
  {
    var req := asked.Submission(ttl);
    ReserveCleanedShaped(c, req);
    GrantTidy(c, req, key, MAX_LIMIT);
  }

  /** The world after a fresh grant on a ledger whose due records are already out. */
  ghost function GrantedWorld(w: World, asked: Pending, ttl: int): World {
    w.(store := GrantedLedger(w.store, asked.Submission(ttl)),
       priority := w.priority[w.store.nextId + 1 := asked.request.priority])
  }

  /** What a submit starts from: its own cleanup is done, and its caller is no longer pending. */
  ghost function ReadyWorld(w: World, caller: nat): World
    requires caller in w.pending
  {
    w.(store := CleanedLedger(w.store, w.pending[caller].now), pending := w.pending - {caller})
  }

  predicate GrantsFresh(c: Ledger, req: ReserveRequest) {
    !Replays(c, req) && Fits(c.books, req) && c.nextId != U64_MAX
  }

  /** A submit is a cleanup, then a grant or nothing. */
  lemma SubmitCases(warden: Warden, w: World, caller: nat)
    requires caller in w.pending && w.pending[caller].Submission(warden.ttl).Validate().Ok?
    ensures
      var asked := w.pending[caller];
      var ready := ReadyWorld(w, caller);
      SubmitStep(warden, w, caller)
      == if GrantsFresh(ready.store, asked.Submission(warden.ttl)) then GrantedWorld(ready, asked, warden.ttl) else ready
  {
  }

  lemma SubmissionValid(warden: Warden, clock: int, asked: Pending)
    requires warden.WellFormed() && PendingOk(warden, clock, asked)
    ensures asked.Submission(warden.ttl).Validate().Ok?
  {
    FindSelects(warden.policies, asked.request.key);
    EffectiveLimitCovers(asked.policy, asked.used, asked.request.amount, asked.request.priority, asked.window, asked.now);
  }

  /** A caller for a bounded counter was evaluated to a limit below `u64::MAX`. */
  lemma LimitBounded(warden: Warden, clock: int, asked: Pending, key: CounterKey)
    requires warden.WellFormed() && Bounded(warden, key) && PendingOk(warden, clock, asked) && asked.Target() == key
    ensures asked.Evaluation().effectiveLimit < U64_MAX
  {
    FindSelects(warden.policies, asked.request.key);
    assert Findable(warden, asked.policy) && Governed(warden, key, asked.policy);
    EffectiveLimitCovers(asked.policy, asked.used, asked.request.amount, asked.request.priority, asked.window, asked.now);
  }

  lemma ReadyInv(warden: Warden, w: World, caller: nat, key: CounterKey)
    requires Inv(warden, w, key) && caller in w.pending
    ensures Inv(warden, ReadyWorld(w, caller), key)
    ensures Freed(w.store.books, ReadyWorld(w, caller).store.books, key)
  {
    var asked := w.pending[caller];
    var u := ViewOf(w).(books := CleanedLedger(w.store, asked.now).books);
    CleanupFrees(w.store, asked.now, key);
    FreedInv(warden, ViewOf(w), u.books, key);
    PendingInv(warden, u, w.pending - {caller}, key);
  }

  lemma GrantInv(warden: Warden, w: World, asked: Pending, key: CounterKey)
    requires warden.WellFormed() && Bounded(warden, key) && Inv(warden, w, key) && PendingOk(warden, w.clock, asked)
    requires GrantsFresh(w.store, asked.Submission(warden.ttl))
    ensures Inv(warden, GrantedWorld(w, asked, warden.ttl), key)
  {
    if asked.Target() == key {
      LimitBounded(warden, w.clock, asked, key);
    }
    GrantMakes(w.store, asked, warden.ttl, key);
    var t := GrantedLedger(w.store, asked.Submission(warden.ttl));
    MadeInv(warden, ViewOf(w), t.books, t.nextId, MadeRecord(asked, warden.ttl), asked, key);
  }

  lemma SubmitInv(warden: Warden, w: World, caller: nat, key: CounterKey)
    requires warden.WellFormed() && Bounded(warden, key) && Inv(warden, w, key)
    ensures Inv(warden, SubmitStep(warden, w, caller), key)
  {
    if caller in w.pending {
      var asked := w.pending[caller];
      assert PendingOk(warden, w.clock, asked);
      SubmissionValid(warden, w.clock, asked);
      SubmitCases(warden, w, caller);
      ReadyInv(warden, w, caller, key);
      if GrantsFresh(ReadyWorld(w, caller).store, asked.Submission(warden.ttl)) {
        GrantInv(warden, ReadyWorld(w, caller), asked, key);
      }
    }
  }

  /** An ask that gets as far as the store. */
  predicate Reads(warden: Warden, w: World, request: Request, window: Window, now: int) {
    && now <= w.clock && window.start < window.end && request.amount > 0
    && Find(warden.policies, request.key).Some? && Find(warden.policies, request.key).value.unit == request.unit
  }

  lemma AskPending(warden: Warden, w: World, caller: nat, request: Request, window: Window, now: int)
    requires AllPendingOk(warden, ViewOf(w)) && Reads(warden, w, request, window, now)
    ensures
      var v := AskStep(warden, w, caller, request, window, now);
      && v == w.(store := CleanedLedger(w.store, now), pending := v.pending)
      && AllPendingOk(warden, ViewOf(v))
  {
    var v := AskStep(warden, w, caller, request, window, now);
    forall c | c in v.pending
      ensures PendingOk(warden, w.clock, v.pending[c])
    {
      assert c in w.pending ==> PendingOk(warden, w.clock, w.pending[c]);
    }
  }

  lemma AskInv(warden: Warden, w: World, caller: nat, request: Request, window: Window, now: int, key: CounterKey)
    requires Inv(warden, w, key)
    ensures Inv(warden, AskStep(warden, w, caller, request, window, now), key)
  {
    if Reads(warden, w, request, window, now) {
      var v := AskStep(warden, w, caller, request, window, now);
      AskPending(warden, w, caller, request, window, now);
      CleanupFrees(w.store, now, key);
      FreedInv(warden, ViewOf(w), v.store.books, key);
      PendingInv(warden, ViewOf(w).(books := v.store.books), v.pending, key);
    }
  }

  lemma StoreFreed(warden: Warden, w: World, store: Ledger, key: CounterKey)
    requires Inv(warden, w, key) && Shaped(store) && Freed(w.store.books, store.books, key)
    ensures Inv(warden, w.(store := store), key)
  {
    FreedInv(warden, ViewOf(w), store.books, key);
  }

  lemma ClockAdvances(warden: Warden, w: World, to: int, key: CounterKey)
    requires Inv(warden, w, key) && w.clock <= to
    ensures Inv(warden, w.(clock := to), key)
  {
    TickInv(warden, ViewOf(w), to, key);
  }

  lemma StepInv(warden: Warden, w: World, e: Event, key: CounterKey)
    requires warden.WellFormed() && Bounded(warden, key) && Inv(warden, w, key)
    ensures Inv(warden, Step(warden, w, e), key)
  {
    match e {
      case Tick(to) =>
        if to >= w.clock {
          ClockAdvances(warden, w, to, key);
        }
      case Ask(caller, request, window, now) =>
        AskInv(warden, w, caller, request, window, now, key);
      case Submit(caller) =>
        SubmitInv(warden, w, caller, key);
      case Settle(id, commit, at) =>
        FinishFrees(w.store, id, commit, at, key);
        StoreFreed(warden, w, Finish(w.store, id, commit, at).state, key);
      case Query(counter, at) =>
        CleanupFrees(w.store, at, key);
        StoreFreed(warden, w, CleanedLedger(w.store, at), key);
    }
  }

  lemma {:induction false} PlayInv(warden: Warden, w: World, events: seq<Event>, key: CounterKey)
    requires warden.WellFormed() && Bounded(warden, key) && Inv(warden, w, key)
    ensures Inv(warden, Play(warden, w, events), key)
    decreases |events|
  {
    if events != [] {
      StepInv(warden, w, events[0], key);
      PlayInv(warden, Step(warden, w, events[0]), events[1..], key);
    }
  }

  /** From the start, for the counter of any policy with a hard limit below `u64::MAX`, whatever the other policies. */
  lemma PlayGoverned(warden: Warden, start: int, events: seq<Event>, p: Policy, key: CounterKey)
    requires warden.WellFormed() && Governed(warden, key, p) && p.hardLimit < U64_MAX
    ensures Inv(warden, Play(warden, Start(start), events), key)
  {
    GovernedBounded(warden, key, p);
    StartInv(warden, start, key);
    PlayInv(warden, Start(start), events, key);
  }

  // ---------------------------------------------------------------- plays are runs of the store

  /** The store call an event makes, if any. */
  ghost function CallsOf(warden: Warden, w: World, e: Event): seq<Op> {
    match e
    case Tick(_) => []
    case Ask(_, request, window, now) =>
      if Reads(warden, w, request, window, now)
      then [ReadOp(CounterOf(Find(warden.policies, request.key).value, request.key, window), now)] else []
    case Submit(caller) => if caller in w.pending then [ReserveOp(w.pending[caller].Submission(warden.ttl))] else []
    case Settle(id, commit, at) => [FinishOp(id, commit, at)]
    case Query(counter, at) => [ReadOp(counter, at)]
  }

  ghost function Calls(warden: Warden, w: World, events: seq<Event>): seq<Op>
    decreases |events|
  {
    if events == [] then [] else CallsOf(warden, w, events[0]) + Calls(warden, Step(warden, w, events[0]), events[1..])
  }

  function Latest(clock: int, events: seq<Event>): int
    decreases |events|
  {
    if events == [] then clock
    else Latest(if events[0].Tick? && events[0].to > clock then events[0].to else clock, events[1..])
  }

  lemma StepIsCall(warden: Warden, w: World, e: Event, rest: seq<Op>)
    ensures Run(w.store, CallsOf(warden, w, e) + rest) == Run(Step(warden, w, e).store, rest)
    ensures Step(warden, w, e).clock == if e.Tick? && e.to > w.clock then e.to else w.clock
  {
    var calls := CallsOf(warden, w, e);
    if calls == [] {
      assert calls + rest == rest;
    } else {
      assert (calls + rest)[1..] == rest;
      assert Apply(w.store, calls[0]) == Step(warden, w, e).store;
    }
  }

  /** What callers do to the store is a run of its operations, so what holds on every run holds in every play. */
  lemma {:induction false} PlayIsRun(warden: Warden, w: World, events: seq<Event>)
    ensures Play(warden, w, events).store == Run(w.store, Calls(warden, w, events))
    ensures Play(warden, w, events).clock == Latest(w.clock, events)
    decreases |events|
  {
    if events != [] {
      var next := Step(warden, w, events[0]);
      StepIsCall(warden, w, events[0], Calls(warden, next, events[1..]));
      PlayIsRun(warden, next, events[1..]);
    }
  }
}
