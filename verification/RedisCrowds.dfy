/** Callers of one Redis counter that all ask before any of them submits. */
module RedisCrowds {
  import opened Prelude
  import opened Doubles
  import opened Contract
  import opened Totals
  import opened Accounts
  import opened Policies
  import opened Pacing
  import opened Broker
  import opened Spending
  import opened Redis
  import opened RedisRuns
  import opened RedisProtocol

  /** They ask at one priority, on an empty counter, and are all evaluated to one limit. */
  datatype Crowd = Crowd(p: Policy, key: BudgetKey, priority: Priority, limit: nat) {
    function Counter(): CounterKey {
      CounterOf(p, key, WINDOW)
    }

    function Asked(amount: u64): Pending {
      Pending(p, Request(key, p.unit, amount, priority, None), WINDOW, 0, INSTANT)
    }

    /** What is outstanding below a level when all `used` units are theirs. */
    function Share(used: nat, level: Priority): nat {
      if priority.Below(level) then used else 0
    }
  }

  predicate Passing(c: Crowd, amount: nat) {
    && 0 < amount <= TWO_53
    && c.Asked(amount).Evaluation().denial.None?
    && c.Asked(amount).Evaluation().effectiveLimit == c.limit
  }

  predicate AllPassing(c: Crowd, amounts: seq<nat>)
    decreases |amounts|
  {
    amounts == [] || (Passing(c, amounts[0]) && AllPassing(c, amounts[1..]))
  }

  ghost predicate Admitted(warden: Warden, c: Crowd) {
    && warden.WellFormed() && Find(warden.policies, c.key) == Some(c.p)
    && c.limit <= c.p.hardLimit && c.limit <= I64_MAX
  }

  function AsksOf(c: Crowd, amounts: seq<nat>, first: nat): seq<Event>
    requires AllPassing(c, amounts)
  {
    if amounts == [] then []
    else [Ask(first, c.Asked(amounts[0]).request, WINDOW, INSTANT)] + AsksOf(c, amounts[1..], first + 1)
  }

  function SubmitsOf(n: nat, first: nat): seq<Event> {
    if n == 0 then [] else [Submit(first)] + SubmitsOf(n - 1, first + 1)
  }

  /** The callers from `first` on are pending with these amounts. */
  predicate Queued(w: Stage, c: Crowd, amounts: seq<nat>, first: nat)
    requires AllPassing(c, amounts)
    decreases |amounts|
  {
    amounts == []
    || (first in w.pending && w.pending[first] == c.Asked(amounts[0]) && Queued(w, c, amounts[1..], first + 1))
  }

  // ---------------------------------------------------------------- asking

  lemma OneAsk(warden: Warden, w: Stage, c: Crowd, amount: u64, caller: nat)
    requires Admitted(warden, c) && Passing(c, amount) && w.clock == INSTANT && w.keys == EMPTY_KEYSPACE
    ensures Act(warden, w, Ask(caller, c.Asked(amount).request, WINDOW, INSTANT))
         == w.(pending := w.pending[caller := c.Asked(amount)])
  {
    DoubleExact(0);
  }

  lemma AsksUnfold(warden: Warden, w: Stage, c: Crowd, amounts: seq<nat>, first: nat)
    requires AllPassing(c, amounts) && amounts != []
    ensures
      var ask := Ask(first, c.Asked(amounts[0]).request, WINDOW, INSTANT);
      Play(warden, w, AsksOf(c, amounts, first)) == Play(warden, Act(warden, w, ask), AsksOf(c, amounts[1..], first + 1))
  {
    assert AsksOf(c, amounts, first)[1..] == AsksOf(c, amounts[1..], first + 1);
  }

  /** `v` is `w` but for callers from `first` on. */
  ghost predicate SameBefore(w: Stage, v: Stage, first: nat) {
    && v == w.(pending := v.pending)
    && forall k :: k in w.pending && k < first ==> k in v.pending && v.pending[k] == w.pending[k]
  }

  lemma {:induction false} AsksQueue(warden: Warden, w: Stage, c: Crowd, amounts: seq<nat>, first: nat)
    requires Admitted(warden, c) && AllPassing(c, amounts) && w.clock == INSTANT && w.keys == EMPTY_KEYSPACE
    ensures
      var v := Play(warden, w, AsksOf(c, amounts, first));
      SameBefore(w, v, first) && Queued(v, c, amounts, first)
    decreases |amounts|
  {
    if amounts != [] {
      var u := w.(pending := w.pending[first := c.Asked(amounts[0])]);
      OneAsk(warden, w, c, amounts[0], first);
      AsksUnfold(warden, w, c, amounts, first);
      AsksQueue(warden, u, c, amounts[1..], first + 1);
    }
  }

  // ---------------------------------------------------------------- submitting

  /** The counter holds `used` units, all of them the crowd's. */
  ghost predicate Stands(w: Stage, c: Crowd, level: Priority, used: nat) {
    && Holds(w.keys, c.Counter(), used) && w.priority.Keys == w.keys.books.records.Keys
    && Outstanding(ViewOf(w), c.Counter(), level) == c.Share(used, level)
  }

  lemma OneReserve(warden: Warden, s: Keyspace, c: Crowd, amount: u64, used: nat)
    requires Admitted(warden, c) && Passing(c, amount) && Holds(s, c.Counter(), used) && Passes(Double(used), amount, c.limit)
    ensures
      var asked := c.Asked(amount);
      var t := Reserving(s, asked.Submission(warden.ttl));
      && GrantsFresh(s, asked.Submission(warden.ttl))
      && Holds(t, c.Counter(), used + amount)
      && t.sequence !in s.books.records
      && t.books.records == s.books.records[t.sequence := MadeRecord(asked, warden.ttl)]
      && MadeRecord(asked, warden.ttl).amount == amount
  {
    var req := c.Asked(amount).Submission(warden.ttl);
    FindSelects(warden.policies, c.key);
    PassIsGranted(s, c.Counter(), amount, c.limit, Timestamp(req.ExpiresAt()), "", used);
    DoubleExact(amount);
  }

  lemma OneGrant(warden: Warden, w: Stage, c: Crowd, amount: u64, level: Priority, used: nat)
    requires Admitted(warden, c) && Passing(c, amount) && Stands(w, c, level, used) && Passes(Double(used), amount, c.limit)
    ensures Stands(GrantedStage(w, c.Asked(amount), warden.ttl), c, level, used + amount)
  {
    var asked := c.Asked(amount);
    var t := Reserving(w.keys, asked.Submission(warden.ttl));
    OneReserve(warden, w.keys, c, amount, used);
    HeldAfterGrant(w.keys.books.records, t.sequence, MadeRecord(asked, warden.ttl), w.priority, c.priority, c.Counter(), level);
  }

  /** Who is pending does not matter. */
  lemma StandsAnyway(w: Stage, pending: map<nat, Pending>, c: Crowd, level: Priority, used: nat)
    requires Stands(w, c, level, used)
    ensures Stands(w.(pending := pending), c, level, used)
  {
    assert Outstanding(ViewOf(w.(pending := pending)), c.Counter(), level) == Outstanding(ViewOf(w), c.Counter(), level);
  }

  lemma SubmitIsGrant(warden: Warden, w: Stage, caller: nat)
    requires Valid(w.keys) && caller in w.pending && GrantsFresh(w.keys, w.pending[caller].Submission(warden.ttl))
    ensures Act(warden, w, Submit(caller)) == GrantedStage(w.(pending := w.pending - {caller}), w.pending[caller], warden.ttl)
  {
    SubmitCases(warden, w, caller);
  }

  lemma OneSubmit(warden: Warden, w: Stage, c: Crowd, amount: u64, caller: nat, level: Priority, used: nat)
    requires Admitted(warden, c) && Passing(c, amount) && Stands(w, c, level, used) && Passes(Double(used), amount, c.limit)
    requires caller in w.pending && w.pending[caller] == c.Asked(amount)
    ensures Stands(Act(warden, w, Submit(caller)), c, level, used + amount)
    ensures Act(warden, w, Submit(caller)).pending == w.pending - {caller}
  {
    var ready := w.(pending := w.pending - {caller});
    OneReserve(warden, w.keys, c, amount, used);
    SubmitIsGrant(warden, w, caller);
    StandsAnyway(w, ready.pending, c, level, used);
    OneGrant(warden, ready, c, amount, level, used);
  }

  /** Taking out a caller in front of the queue leaves the queue. */
  lemma {:induction false} QueueStays(w: Stage, u: Stage, c: Crowd, amounts: seq<nat>, first: nat, caller: nat)
    requires AllPassing(c, amounts) && Queued(w, c, amounts, first) && caller < first && u.pending == w.pending - {caller}
    ensures Queued(u, c, amounts, first)
    decreases |amounts|
  {
    if amounts != [] {
      QueueStays(w, u, c, amounts[1..], first + 1, caller);
    }
  }

  lemma SubmitsUnfold(warden: Warden, w: Stage, n: nat, first: nat)
    requires n > 0
    ensures Play(warden, w, SubmitsOf(n, first)) == Play(warden, Act(warden, w, Submit(first)), SubmitsOf(n - 1, first + 1))
  {
    assert SubmitsOf(n, first)[1..] == SubmitsOf(n - 1, first + 1);
  }

  /** The stage after the first submit, and the rest of the queue, which is played from there. */
  lemma FirstSubmit(warden: Warden, w: Stage, c: Crowd, amounts: seq<nat>, first: nat, level: Priority, used: nat)
    returns (u: Stage, rest: seq<nat>, now: nat)
    requires Admitted(warden, c) && AllPassing(c, amounts) && AllPass(used, amounts, c.limit) && amounts != []
    requires Queued(w, c, amounts, first) && Stands(w, c, level, used)
    ensures AllPassing(c, rest) && AllPass(now, rest, c.limit) && |rest| < |amounts|
    ensures Queued(u, c, rest, first + 1) && Stands(u, c, level, now)
    ensures now + Units(rest) == used + Units(amounts)
    ensures Play(warden, w, SubmitsOf(|amounts|, first)) == Play(warden, u, SubmitsOf(|rest|, first + 1))
  {
    now, rest := FirstPasses(used, amounts, c.limit);
    u := Act(warden, w, Submit(first));
    OneSubmit(warden, w, c, amounts[0], first, level, used);
    QueueStays(w, u, c, rest, first + 1, first);
    SubmitsUnfold(warden, w, |amounts|, first);
  }

  lemma {:induction false} SubmitsGrant(warden: Warden, w: Stage, c: Crowd, amounts: seq<nat>, first: nat, level: Priority,
                                        used: nat, total: nat)
    requires Admitted(warden, c) && AllPassing(c, amounts) && AllPass(used, amounts, c.limit)
    requires Queued(w, c, amounts, first) && Stands(w, c, level, used) && total == used + Units(amounts)
    ensures Stands(Play(warden, w, SubmitsOf(|amounts|, first)), c, level, total)
    decreases |amounts|
  {
    if amounts == [] {
      assert total == used;
    } else {
      var u, rest, now := FirstSubmit(warden, w, c, amounts, first, level, used);
      SubmitsGrant(warden, u, c, rest, first + 1, level, now, total);
    }
  }

  lemma StartStands(c: Crowd, pending: map<nat, Pending>, level: Priority)
    ensures Stands(Start(INSTANT).(pending := pending), c, level, 0)
  {
    EmptyValid();
    EmptyConserved();
  }

  /** All callers ask on an empty counter, then all submit: what passes one after the other is all granted. */
  lemma AskThenSubmit(warden: Warden, c: Crowd, amounts: seq<nat>, level: Priority) returns (events: seq<Event>)
    requires Admitted(warden, c) && AllPassing(c, amounts) && AllPass(0, amounts, c.limit)
    ensures Stands(Play(warden, Start(INSTANT), events), c, level, Units(amounts))
  {
    var asks, submits := AsksOf(c, amounts, 0), SubmitsOf(|amounts|, 0);
    AsksQueue(warden, Start(INSTANT), c, amounts, 0);
    var w := Play(warden, Start(INSTANT), asks);
    StartStands(c, w.pending, level);
    SubmitsGrant(warden, w, c, amounts, 0, level, 0, Units(amounts));
    PlayAppend(warden, Start(INSTANT), asks, submits);
    events := asks + submits;
  }
}
