/** The broker protocol over Redis: callers interleave not just their two store calls but every script of them. */
module RedisProtocol {
  import opened Prelude
  import opened Doubles
  import opened Contract
  import opened Accounts
  import opened Policies
  import opened Pacing
  import opened Broker
  import opened Spending
  import opened Redis
  import opened RedisRuns

  datatype Stage = Stage(keys: Keyspace, clock: int, pending: map<nat, Pending>, priority: map<nat, Priority>)

  /** A cleanup belongs to any call of any caller; it and the settlements run at instants of their own. */
  datatype Event =
    | Tick(to: int)
    | Clean(seconds: int, order: seq<nat>)
    | Ask(caller: nat, request: Request, window: Window, now: int)
    | Submit(caller: nat)
    | Settle(id: nat, commit: bool, seconds: int)

  function Start(clock: int): Stage {
    Stage(EMPTY_KEYSPACE, clock, map[], map[])
  }

  function ViewOf(w: Stage): View {
    View(w.keys.books, w.clock, w.pending, w.priority)
  }

  /** An ask that gets as far as an evaluation. */
  predicate Asks(warden: Warden, w: Stage, request: Request, window: Window, now: int) {
    && now <= w.clock && window.start < window.end && request.amount > 0
    && Find(warden.policies, request.key).Some? && Find(warden.policies, request.key).value.unit == request.unit
  }

  /** The usage script of a caller and the evaluation of what it read. */
  function AskStep(warden: Warden, w: Stage, caller: nat, request: Request, window: Window, now: int): Stage {
    if !Asks(warden, w, request, window, now) then w
    else
      var p := Find(warden.policies, request.key).value;
      var used := Seen(w.keys.books, CounterOf(p, request.key, window)).Used();
      var asked := Pending(p, request, window, used, now);
      w.(pending := if asked.Evaluation().denial.None? then w.pending[caller := asked] else w.pending - {caller})
  }

  /** The state the reserve script of a request leaves. */
  function Reserving(s: Keyspace, req: ReserveRequest): Keyspace {
    ReserveOn(s, req).state
  }

  /** The reserve script of a caller, on whatever the keyspace has become by now. */
  function SubmitStep(warden: Warden, w: Stage, caller: nat): Stage {
    if caller !in w.pending then w
    else
      var asked := w.pending[caller];
      var req := asked.Submission(warden.ttl);
      if Checked(req).Err? then w.(pending := w.pending - {caller})
      else
        var t := Reserving(w.keys, req);
        Stage(t, w.clock, w.pending - {caller},
              if t.sequence != w.keys.sequence then w.priority[t.sequence := asked.request.priority] else w.priority)
  }

  function Act(warden: Warden, w: Stage, e: Event): Stage {
    match e
    case Tick(to) => if to >= w.clock then w.(clock := to) else w
    case Clean(seconds, order) => w.(keys := CleanupBy(w.keys, seconds, order))
    case Ask(caller, request, window, now) => AskStep(warden, w, caller, request, window, now)
    case Submit(caller) => SubmitStep(warden, w, caller)
    case Settle(id, commit, seconds) => w.(keys := Finish(w.keys, id, commit, seconds).state)
  }

  function Play(warden: Warden, w: Stage, events: seq<Event>): Stage
    decreases |events|
  {
    if events == [] then w else Play(warden, Act(warden, w, events[0]), events[1..])
  }

  lemma {:induction false} PlayAppend(warden: Warden, w: Stage, first: seq<Event>, second: seq<Event>)
    ensures Play(warden, w, first + second) == Play(warden, Play(warden, w, first), second)
    decreases |first|
  {
    if first == [] {
      assert first + second == second;
    } else {
      assert (first + second)[1..] == first[1..] + second;
      PlayAppend(warden, Act(warden, w, first[0]), first[1..], second);
    }
  }

  lemma PlayTwo(warden: Warden, w: Stage, a: Event, b: Event)
    ensures Play(warden, w, [a, b]) == Act(warden, Act(warden, w, a), b)
  {
    var next := Act(warden, w, a);
    assert [a, b][1..] == [b] && [b][1..] == [];
    assert Play(warden, next, [b]) == Act(warden, next, b);
  }

  // ---------------------------------------------------------------- one broker call is four scripts

  lemma UsageScripts(warden: Warden, w: Stage, caller: nat, asked: Pending, order: seq<nat>)
    requires Asks(warden, w, asked.request, asked.window, asked.now)
    requires Find(warden.policies, asked.request.key) == Some(asked.policy) && asked.Evaluation().denial.None?
    requires Lists(order, InRange(w.keys, Timestamp(asked.now)))
    requires asked.used == Seen(Sweep(w.keys, order).books, asked.Target()).Used()
    ensures Play(warden, w, [Clean(Timestamp(asked.now), order), Ask(caller, asked.request, asked.window, asked.now)])
         == w.(keys := Sweep(w.keys, order), pending := w.pending[caller := asked])
  {
    PlayTwo(warden, w, Clean(Timestamp(asked.now), order), Ask(caller, asked.request, asked.window, asked.now));
  }

  lemma ReserveScripts(warden: Warden, w: Stage, caller: nat, asked: Pending, order: seq<nat>)
    requires caller in w.pending && w.pending[caller] == asked && Checked(asked.Submission(warden.ttl)).Ok?
    requires Lists(order, InRange(w.keys, Timestamp(asked.now)))
    ensures Play(warden, w, [Clean(Timestamp(asked.now), order), Submit(caller)]).keys
         == ReserveOn(Sweep(w.keys, order), asked.Submission(warden.ttl)).state
  {
    PlayTwo(warden, w, Clean(Timestamp(asked.now), order), Submit(caller));
  }

  /**
   * A usage call whose evaluation passes, and the reserve call after it, are four scripts played back to back: they
   * leave what the two store calls leave when their cleanups walk their ranges in these orders.
   */
  lemma ReserveIsFourScripts(warden: Warden, w: Stage, caller: nat, asked: Pending, first: seq<nat>, second: seq<nat>)
    requires Asks(warden, w, asked.request, asked.window, asked.now)
    requires Find(warden.policies, asked.request.key) == Some(asked.policy) && asked.Evaluation().denial.None?
    requires Checked(asked.Submission(warden.ttl)).Ok?
    requires Lists(first, InRange(w.keys, Timestamp(asked.now)))
    requires Lists(second, InRange(Sweep(w.keys, first), Timestamp(asked.now)))
    requires asked.used == Seen(Sweep(w.keys, first).books, asked.Target()).Used()
    ensures
      var seconds := Timestamp(asked.now);
      Play(warden, w, [Clean(seconds, first), Ask(caller, asked.request, asked.window, asked.now)]
                      + [Clean(seconds, second), Submit(caller)]).keys
      == ReserveOn(Sweep(Sweep(w.keys, first), second), asked.Submission(warden.ttl)).state
  {
    var seconds := Timestamp(asked.now);
    UsageScripts(warden, w, caller, asked, first);
    var v := w.(keys := Sweep(w.keys, first), pending := w.pending[caller := asked]);
    ReserveScripts(warden, v, caller, asked, second);
    PlayAppend(warden, w, [Clean(seconds, first), Ask(caller, asked.request, asked.window, asked.now)],
               [Clean(seconds, second), Submit(caller)]);
  }

  // ---------------------------------------------------------------- the invariant

  /** Every policy that governs the counter has a hard limit below 2^53. */
  ghost predicate Bounded(warden: Warden, key: CounterKey) {
    forall p: Policy :: Governed(warden, key, p) ==> p.hardLimit < TWO_53
  }

  lemma GovernedBounded(warden: Warden, key: CounterKey, p: Policy)
    requires warden.WellFormed() && Governed(warden, key, p) && p.hardLimit < TWO_53
    ensures Bounded(warden, key)
  {
    forall q: Policy | Governed(warden, key, q)
      ensures q.hardLimit < TWO_53
    {
      NameIdentifies(warden.policies, p, q);
    }
  }

  ghost predicate StageInv(warden: Warden, w: Stage, key: CounterKey) {
    Valid(w.keys) && InUse(w.keys.books, key) < TWO_53 && CounterInv(warden, ViewOf(w), key)
  }

  lemma StartInv(warden: Warden, clock: int, key: CounterKey)
    ensures StageInv(warden, Start(clock), key)
  {
    EmptyValid();
    EmptyInv(warden, clock, key);
  }

  /** Scripts that settle or expire free units. */
  lemma SweepFrees(s: Keyspace, order: seq<nat>, key: CounterKey)
    requires Valid(s) && Tallies(s.books, key) && InUse(s.books, key) < TWO_53
    ensures Valid(Sweep(s, order)) && Freed(s.books, Sweep(s, order).books, key)
  {
    SweepValid(s, order);
    SweepTidy(s, order, key, InUse(s.books, key));
  }

  lemma FinishFrees(s: Keyspace, id: nat, commit: bool, now: int, key: CounterKey)
    requires Valid(s) && Tallies(s.books, key) && InUse(s.books, key) < TWO_53
    ensures Valid(Finish(s, id, commit, now).state) && Freed(s.books, Finish(s, id, commit, now).state.books, key)
  {
    FinishValid(s, id, commit, now);
    FinishTidy(s, id, commit, now, key, InUse(s.books, key));
  }

  lemma KeysFreed(warden: Warden, w: Stage, keys: Keyspace, key: CounterKey)
    requires StageInv(warden, w, key) && Valid(keys) && Freed(w.keys.books, keys.books, key)
    ensures StageInv(warden, w.(keys := keys), key)
  {
    FreedInv(warden, ViewOf(w), keys.books, key);
  }

  lemma ClockAdvances(warden: Warden, w: Stage, to: int, key: CounterKey)
    requires StageInv(warden, w, key) && w.clock <= to
    ensures StageInv(warden, w.(clock := to), key)
  {
    TickInv(warden, ViewOf(w), to, key);
  }

  lemma AskPending(warden: Warden, w: Stage, caller: nat, request: Request, window: Window, now: int)
    requires AllPendingOk(warden, ViewOf(w))
    ensures
      var v := AskStep(warden, w, caller, request, window, now);
      v == w.(pending := v.pending) && AllPendingOk(warden, ViewOf(v))
  {
    var v := AskStep(warden, w, caller, request, window, now);
    forall c | c in v.pending
      ensures PendingOk(warden, w.clock, v.pending[c])
    {
      assert c in w.pending ==> PendingOk(warden, w.clock, w.pending[c]);
    }
  }

  lemma AskInv(warden: Warden, w: Stage, caller: nat, request: Request, window: Window, now: int, key: CounterKey)
    requires StageInv(warden, w, key)
    ensures StageInv(warden, AskStep(warden, w, caller, request, window, now), key)
  {
    AskPending(warden, w, caller, request, window, now);
    PendingInv(warden, ViewOf(w), AskStep(warden, w, caller, request, window, now).pending, key);
  }

  // ---------------------------------------------------------------- grants

  /** The reservation a grant makes. */
  function MadeRecord(asked: Pending, ttl: int): Record {
    var req := asked.Submission(ttl);
    Record(req.Target(), Double(req.amount), Timestamp(req.ExpiresAt()), Active)
  }

  lemma NoGrant(s: Keyspace, req: ReserveRequest)
    requires Valid(s) && Reserving(s, req).sequence == s.sequence
    ensures Reserving(s, req) == s
  {
  }

  lemma GrantMakes(s: Keyspace, asked: Pending, ttl: int, key: CounterKey)
    requires Valid(s) && Tallies(s.books, key) && InUse(s.books, key) < TWO_53
    requires Reserving(s, asked.Submission(ttl)).sequence != s.sequence
    requires asked.Target() == key ==> asked.Evaluation().effectiveLimit < TWO_53
    ensures
      var t := Reserving(s, asked.Submission(ttl));
      && Valid(t) && InUse(t.books, key) < TWO_53
      && Makes(s.books, t.books, t.sequence, MadeRecord(asked, ttl), asked.Evaluation().effectiveLimit, key)
      && Serves(MadeRecord(asked, ttl), asked, key)
  {
    var req := asked.Submission(ttl);
    var expiresAt, name := Timestamp(req.ExpiresAt()), ScriptName(req.idempotencyKey);
    ReserveValid(s, req.Target(), req.amount, req.effectiveLimit, expiresAt, name);
    ReserveTidy(s, req.Target(), req.amount, req.effectiveLimit, expiresAt, name, key, TWO_53 - 1);
  }

  /** A caller for a bounded counter was evaluated to a limit below 2^53. */
  lemma LimitBounded(warden: Warden, clock: int, asked: Pending, key: CounterKey)
    requires warden.WellFormed() && Bounded(warden, key) && PendingOk(warden, clock, asked) && asked.Target() == key
    ensures asked.Evaluation().effectiveLimit < TWO_53
  {
    FindSelects(warden.policies, asked.request.key);
    assert Governed(warden, key, asked.policy);
    EffectiveLimitCovers(asked.policy, asked.used, asked.request.amount, asked.request.priority, asked.window, asked.now);
  }

  function GrantedStage(w: Stage, asked: Pending, ttl: int): Stage {
    var t := Reserving(w.keys, asked.Submission(ttl));
    w.(keys := t, priority := w.priority[t.sequence := asked.request.priority])
  }

  predicate GrantsFresh(s: Keyspace, req: ReserveRequest) {
    Checked(req).Ok? && Reserving(s, req).sequence != s.sequence
  }

  /** A submit makes one reservation or none. */
  lemma SubmitCases(warden: Warden, w: Stage, caller: nat)
    requires Valid(w.keys) && caller in w.pending
    ensures
      var asked := w.pending[caller];
      var ready := w.(pending := w.pending - {caller});
      SubmitStep(warden, w, caller)
      == if GrantsFresh(w.keys, asked.Submission(warden.ttl)) then GrantedStage(ready, asked, warden.ttl) else ready
  {
    var req := w.pending[caller].Submission(warden.ttl);
    if Checked(req).Ok? && Reserving(w.keys, req).sequence == w.keys.sequence {
      NoGrant(w.keys, req);
    }
  }

  lemma ReadyInv(warden: Warden, w: Stage, caller: nat, key: CounterKey)
    requires StageInv(warden, w, key) && caller in w.pending
    ensures StageInv(warden, w.(pending := w.pending - {caller}), key)
  {
    PendingInv(warden, ViewOf(w), w.pending - {caller}, key);
  }

  lemma GrantInv(warden: Warden, w: Stage, asked: Pending, key: CounterKey)
    requires warden.WellFormed() && Bounded(warden, key) && StageInv(warden, w, key) && PendingOk(warden, w.clock, asked)
    requires GrantsFresh(w.keys, asked.Submission(warden.ttl))
    ensures StageInv(warden, GrantedStage(w, asked, warden.ttl), key)
  {
    if asked.Target() == key {
      LimitBounded(warden, w.clock, asked, key);
    }
    GrantMakes(w.keys, asked, warden.ttl, key);
    var t := Reserving(w.keys, asked.Submission(warden.ttl));
    MadeInv(warden, ViewOf(w), t.books, t.sequence, MadeRecord(asked, warden.ttl), asked, key);
  }

  lemma SubmitInv(warden: Warden, w: Stage, caller: nat, key: CounterKey)
    requires warden.WellFormed() && Bounded(warden, key) && StageInv(warden, w, key)
    ensures StageInv(warden, SubmitStep(warden, w, caller), key)
  {
    if caller in w.pending {
      var asked := w.pending[caller];
      var ready := w.(pending := w.pending - {caller});
      assert PendingOk(warden, w.clock, asked);
      SubmitCases(warden, w, caller);
      ReadyInv(warden, w, caller, key);
      if GrantsFresh(w.keys, asked.Submission(warden.ttl)) {
        GrantInv(warden, ready, asked, key);
      }
    }
  }

  lemma ActInv(warden: Warden, w: Stage, e: Event, key: CounterKey)
    requires warden.WellFormed() && Bounded(warden, key) && StageInv(warden, w, key)
    ensures StageInv(warden, Act(warden, w, e), key)
  {
    match e {
      case Tick(to) =>
        if to >= w.clock {
          ClockAdvances(warden, w, to, key);
        }
      case Clean(seconds, order) =>
        if Lists(order, InRange(w.keys, seconds)) {
          SweepFrees(w.keys, order, key);
          KeysFreed(warden, w, Sweep(w.keys, order), key);
        }
      case Ask(caller, request, window, now) =>
        AskInv(warden, w, caller, request, window, now, key);
      case Submit(caller) =>
        SubmitInv(warden, w, caller, key);
      case Settle(id, commit, seconds) =>
        FinishFrees(w.keys, id, commit, seconds, key);
        KeysFreed(warden, w, Finish(w.keys, id, commit, seconds).state, key);
    }
  }

  lemma {:induction false} PlayInv(warden: Warden, w: Stage, events: seq<Event>, key: CounterKey)
    requires warden.WellFormed() && Bounded(warden, key) && StageInv(warden, w, key)
    ensures StageInv(warden, Play(warden, w, events), key)
    decreases |events|
  {
    if events != [] {
      ActInv(warden, w, events[0], key);
      PlayInv(warden, Act(warden, w, events[0]), events[1..], key);
    }
  }

  /** From the start, for the counter of any policy with a hard limit below 2^53, whatever the other policies. */
  lemma PlayGoverned(warden: Warden, start: int, events: seq<Event>, p: Policy, key: CounterKey)
    requires warden.WellFormed() && Governed(warden, key, p) && p.hardLimit < TWO_53
    ensures StageInv(warden, Play(warden, Start(start), events), key)
  {
    GovernedBounded(warden, key, p);
    StartInv(warden, start, key);
    PlayInv(warden, Start(start), events, key);
  }

  /** Callers are pending with evaluations that passed, and the keyspace is valid, whatever the numbers. */
  lemma {:induction false} PlayPending(warden: Warden, w: Stage, events: seq<Event>)
    requires AllPendingOk(warden, ViewOf(w)) && Valid(w.keys)
    ensures AllPendingOk(warden, ViewOf(Play(warden, w, events))) && Valid(Play(warden, w, events).keys)
    decreases |events|
  {
    if events != [] {
      ActPending(warden, w, events[0]);
      ActValid(warden, w, events[0]);
      PlayPending(warden, Act(warden, w, events[0]), events[1..]);
    }
  }

  lemma ActPending(warden: Warden, w: Stage, e: Event)
    requires AllPendingOk(warden, ViewOf(w))
    ensures AllPendingOk(warden, ViewOf(Act(warden, w, e)))
  {
    var v := Act(warden, w, e);
    if e.Ask? {
      AskPending(warden, w, e.caller, e.request, e.window, e.now);
    } else {
      forall c | c in v.pending
        ensures PendingOk(warden, v.clock, v.pending[c])
      {
        assert PendingOk(warden, w.clock, w.pending[c]);
      }
    }
  }

  lemma ActValid(warden: Warden, w: Stage, e: Event)
    requires Valid(w.keys)
    ensures Valid(Act(warden, w, e).keys)
  {
    match e {
      case Tick(to) =>
      case Clean(seconds, order) => SweepValid(w.keys, order);
      case Ask(caller, request, window, now) =>
      case Submit(caller) =>
        if caller in w.pending {
          var req := w.pending[caller].Submission(warden.ttl);
          ReserveValid(w.keys, req.Target(), req.amount, req.effectiveLimit, Timestamp(req.ExpiresAt()), ScriptName(req.idempotencyKey));
        }
      case Settle(id, commit, seconds) => FinishValid(w.keys, id, commit, seconds);
    }
  }

  // ---------------------------------------------------------------- plays are runs of scripts

  /** The script that an event runs and that can change the keyspace, if any. */
  function CallsOf(warden: Warden, w: Stage, e: Event): seq<Script> {
    match e
    case Tick(_) => []
    case Clean(seconds, order) => [CleanupAt(seconds, order)]
    case Ask(_, _, _, _) => []
    case Submit(caller) =>
      if caller !in w.pending || Checked(w.pending[caller].Submission(warden.ttl)).Err? then []
      else
        var req := w.pending[caller].Submission(warden.ttl);
        [ReserveWith(req.Target(), req.amount, req.effectiveLimit, Timestamp(req.ExpiresAt()), ScriptName(req.idempotencyKey))]
    case Settle(id, commit, seconds) => [FinishWith(id, commit, seconds)]
  }

  function Calls(warden: Warden, w: Stage, events: seq<Event>): seq<Script>
    decreases |events|
  {
    if events == [] then [] else CallsOf(warden, w, events[0]) + Calls(warden, Act(warden, w, events[0]), events[1..])
  }

  function Latest(clock: int, events: seq<Event>): int
    decreases |events|
  {
    if events == [] then clock
    else Latest(if events[0].Tick? && events[0].to > clock then events[0].to else clock, events[1..])
  }

  lemma ActIsScript(warden: Warden, w: Stage, e: Event, names: map<nat, string>, rest: seq<Script>) returns (later: map<nat, string>)
    ensures Run(World(w.keys, names), CallsOf(warden, w, e) + rest) == Run(World(Act(warden, w, e).keys, later), rest)
    ensures Act(warden, w, e).clock == if e.Tick? && e.to > w.clock then e.to else w.clock
  {
    var calls := CallsOf(warden, w, e);
    if calls == [] {
      later := names;
      assert calls + rest == rest;
    } else {
      assert (calls + rest)[1..] == rest;
      var after := Step(World(w.keys, names), calls[0]);
      later := after.names;
      assert after == World(Act(warden, w, e).keys, later);
    }
  }

  /** What callers do to the keyspace is a run of scripts, whatever names earlier reservations were made under. */
  lemma {:induction false} PlayIsRun(warden: Warden, w: Stage, events: seq<Event>, names: map<nat, string>)
    ensures Play(warden, w, events).keys == Run(World(w.keys, names), Calls(warden, w, events)).keys
    ensures Play(warden, w, events).clock == Latest(w.clock, events)
    decreases |events|
  {
    if events != [] {
      var next := Act(warden, w, events[0]);
      var later := ActIsScript(warden, w, events[0], names, Calls(warden, next, events[1..]));
      PlayIsRun(warden, next, events[1..], later);
    }
  }

  /** An ask at any clock reading up to now leaves its caller pending on the usage of that reading if it passes. */
  lemma AskExactly(warden: Warden, w: Stage, caller: nat, request: Request, window: Window, now: int)
    requires Find(warden.policies, request.key).Some? && Find(warden.policies, request.key).value.unit == request.unit
    requires now <= w.clock && window.start < window.end && request.amount > 0
    ensures
      var p := Find(warden.policies, request.key).value;
      var used := Seen(w.keys.books, CounterKey(StoreKey(p.name, request.key, p.unit), window)).Used();
      var pending := Act(warden, w, Ask(caller, request, window, now)).pending;
      && pending - {caller} == w.pending - {caller}
      && (caller in pending <==> Allowed(p, used, request.amount, request.priority, window, now))
      && (caller in pending ==> pending[caller] == Pending(p, request, window, used, now))
  {
  }
}
