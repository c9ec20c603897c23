/** Any interleaving of Redis scripts, at any instants: what always holds, and up to which limits the guard does. */
module RedisRuns {
  import opened Prelude
  import opened Doubles
  import opened Contract
  import opened Accounts
  import opened Redis

  /** A cleanup says in which order it walks its range; one that lists anything else does not happen. */
  datatype Script =
    | CleanupAt(now: int, order: seq<nat>)
    | ReserveWith(key: CounterKey, amount: nat, limit: nat, expiresAt: int, name: string)
    | FinishWith(id: nat, commit: bool, now: int)

  /** `names` is history: the idempotency key each reservation was made under, if any. */
  datatype World = World(keys: Keyspace, names: map<nat, string>)

  const FRESH := World(EMPTY_KEYSPACE, map[])

  function CleanupBy(s: Keyspace, now: int, order: seq<nat>): Keyspace {
    if Lists(order, InRange(s, now)) then Sweep(s, order) else s
  }

  function Step(w: World, e: Script): World {
    match e
    case CleanupAt(now, order) => w.(keys := CleanupBy(w.keys, now, order))
    case ReserveWith(key, amount, limit, expiresAt, name) =>
      var t := Reserve(w.keys, key, amount, limit, expiresAt, name).state;
      World(t, if t.sequence != w.keys.sequence && name != "" then w.names[t.sequence := name] else w.names)
    case FinishWith(id, commit, now) => w.(keys := Finish(w.keys, id, commit, now).state)
  }

  function Run(w: World, scripts: seq<Script>): World
    decreases |scripts|
  {
    if scripts == [] then w else Run(Step(w, scripts[0]), scripts[1..])
  }

  /** Every reserve for this counter carries a limit of at most `limit`; other counters have their own. */
  predicate Limited(scripts: seq<Script>, key: CounterKey, limit: nat) {
    forall i :: 0 <= i < |scripts| && scripts[i].ReserveWith? && scripts[i].key == key ==> scripts[i].limit <= limit
  }

  // ---------------------------------------------------------------- whatever the numbers

  /** A live reservation made under a key is the one its idempotency field points to. */
  ghost predicate Pointed(w: World) {
    forall id :: id in w.names ==>
      id in w.keys.books.records
      && (Live(w.keys.books.records[id]) ==>
            (w.keys.books.records[id].key, w.names[id]) in w.keys.idempotency
            && w.keys.idempotency[(w.keys.books.records[id].key, w.names[id])] == id)
  }

  /** Reservation `id` was made for this counter under this idempotency key and is active or committed. */
  predicate LiveUnder(w: World, id: nat, key: CounterKey, name: string) {
    && id in w.names && w.names[id] == name
    && id in w.keys.books.records && w.keys.books.records[id].key == key && Live(w.keys.books.records[id])
  }

  lemma ReservePointed(w: World, key: CounterKey, amount: nat, limit: nat, expiresAt: int, name: string)
    requires Valid(w.keys) && Pointed(w)
    ensures Pointed(Step(w, ReserveWith(key, amount, limit, expiresAt, name)))
  {
    var v := Step(w, ReserveWith(key, amount, limit, expiresAt, name));
    forall id | id in v.names
      ensures id in v.keys.books.records
      ensures Live(v.keys.books.records[id]) ==>
                (v.keys.books.records[id].key, v.names[id]) in v.keys.idempotency
                && v.keys.idempotency[(v.keys.books.records[id].key, v.names[id])] == id
    {
      if v.keys != w.keys && id != v.keys.sequence {
        assert id in w.names && id in w.keys.books.records;
        assert v.keys.books.records[id] == w.keys.books.records[id];
      }
    }
  }

  /** Scripts that only change statuses keep live reservations pointed to. */
  lemma SettledPointed(w: World, t: Keyspace)
    requires Pointed(w) && Settles(w.keys, t)
    ensures Pointed(w.(keys := t))
  {
    forall id | id in w.names
      ensures id in t.books.records
      ensures Live(t.books.records[id]) ==>
                (t.books.records[id].key, w.names[id]) in t.idempotency
                && t.idempotency[(t.books.records[id].key, w.names[id])] == id
    {
      assert RecordAdvances(w.keys.books.records[id], t.books.records[id]);
    }
  }

  ghost predicate Inv(w: World) {
    Valid(w.keys) && Pointed(w)
  }

  lemma StepInv(w: World, e: Script)
    requires Inv(w)
    ensures Inv(Step(w, e))
  {
    match e {
      case CleanupAt(now, order) =>
        if Lists(order, InRange(w.keys, now)) {
          SweepValid(w.keys, order);
          SettledPointed(w, Sweep(w.keys, order));
        }
      case ReserveWith(key, amount, limit, expiresAt, name) =>
        ReserveValid(w.keys, key, amount, limit, expiresAt, name);
        ReservePointed(w, key, amount, limit, expiresAt, name);
      case FinishWith(id, commit, now) =>
        FinishValid(w.keys, id, commit, now);
        SettledPointed(w, Finish(w.keys, id, commit, now).state);
    }
  }

  lemma {:induction false} RunInv(w: World, scripts: seq<Script>)
    requires Inv(w)
    ensures Inv(Run(w, scripts))
    decreases |scripts|
  {
    if scripts != [] {
      StepInv(w, scripts[0]);
      RunInv(Step(w, scripts[0]), scripts[1..]);
    }
  }

  /** Over any interleaving, for any amounts and limits, the index is exact and a key has at most one live reservation. */
  lemma IndexAndKeys(scripts: seq<Script>, key: CounterKey, name: string, i: nat, j: nat)
    ensures Indexed(Run(FRESH, scripts).keys)
    ensures LiveUnder(Run(FRESH, scripts), i, key, name) && LiveUnder(Run(FRESH, scripts), j, key, name) ==> i == j
  {
    EmptyValid();
    RunInv(FRESH, scripts);
  }

  // ---------------------------------------------------------------- one counter, under its own limit

  lemma StepTidy(w: World, e: Script, key: CounterKey, limit: nat)
    requires Inv(w) && Tidy(w.keys.books, key, limit) && limit < TWO_53
    requires e.ReserveWith? && e.key == key ==> e.limit <= limit
    ensures Tidy(Step(w, e).keys.books, key, limit)
  {
    match e {
      case CleanupAt(now, order) => SweepTidy(w.keys, order, key, limit);
      case ReserveWith(of, amount, granted, expiresAt, name) =>
        ReserveTidy(w.keys, of, amount, granted, expiresAt, name, key, limit);
      case FinishWith(id, commit, now) => FinishTidy(w.keys, id, commit, now, key, limit);
    }
  }

  lemma {:induction false} RunTidy(w: World, scripts: seq<Script>, key: CounterKey, limit: nat)
    requires Inv(w) && Tidy(w.keys.books, key, limit) && limit < TWO_53 && Limited(scripts, key, limit)
    ensures Tidy(Run(w, scripts).keys.books, key, limit)
    decreases |scripts|
  {
    if scripts != [] {
      StepTidy(w, scripts[0], key, limit);
      StepInv(w, scripts[0]);
      RunTidy(Step(w, scripts[0]), scripts[1..], key, limit);
    }
  }

  /** Over any interleaving a counter whose own limits are below 2^53 is its ledger sums and stays within them. */
  lemma ScriptsSafe(scripts: seq<Script>, key: CounterKey, limit: nat)
    requires Limited(scripts, key, limit) && limit < TWO_53
    ensures Tidy(Run(FRESH, scripts).keys.books, key, limit)
  {
    EmptyValid();
    EmptyConserved();
    RunTidy(FRESH, scripts, key, limit);
  }

  // ---------------------------------------------------------------- from 2^53 on

  function Units(amounts: seq<nat>): nat {
    if amounts == [] then 0 else amounts[0] + Units(amounts[1..])
  }

  /** One after the other, on `used` units, the amounts pass the guard in doubles. */
  predicate AllPass(used: nat, amounts: seq<nat>, limit: nat)
    decreases |amounts|
  {
    amounts == []
    || (1 <= amounts[0] <= TWO_53 && Passes(Double(used), amounts[0], limit) && AllPass(used + amounts[0], amounts[1..], limit))
  }

  /** The first amount passes, and the rest does on what is in use then. */
  lemma FirstPasses(used: nat, amounts: seq<nat>, limit: nat) returns (now: nat, rest: seq<nat>)
    requires AllPass(used, amounts, limit) && amounts != []
    ensures 1 <= amounts[0] <= TWO_53 && Passes(Double(used), amounts[0], limit)
    ensures now == used + amounts[0] && rest == amounts[1..] && |rest| == |amounts| - 1
    ensures AllPass(now, rest, limit) && now + Units(rest) == used + Units(amounts)
  {
    now, rest := used + amounts[0], amounts[1..];
  }

  function Ones(n: nat): (ones: seq<nat>)
    ensures Units(ones) == n
  {
    if n == 0 then [] else [1] + Ones(n - 1)
  }

  /** From a limit of 2^54 on, one unit more passes as long as the limit is not passed yet. */
  lemma OnePasses(used: nat, limit: nat)
    requires used <= limit && TWO_54 <= limit
    ensures Passes(Double(used), 1, limit)
  {
    DoubleExact(1);
    DoubleMonotone(used, limit);
    if used >= TWO_54 {
      OneMoreLost(used);
    } else {
      OneMoreLost(TWO_54);
      TwoTo54();
      DoubleMonotone(used, TWO_54);
      DoubleMonotone(Double(used) + 1, TWO_54 + 1);
      DoubleMonotone(TWO_54, limit);
    }
  }

  lemma {:induction false} OnesPass(used: nat, n: nat, limit: nat)
    requires used + n <= limit + 1 && TWO_54 <= limit
    ensures AllPass(used, Ones(n), limit)
    decreases n
  {
    if n > 0 {
      OnePasses(used, limit);
      OnesPass(used + 1, n - 1, limit);
    }
  }

  /** From a limit of 2^53 on there are amounts that pass one after the other and exceed the limit by one. */
  lemma Overrun(limit: nat) returns (amounts: seq<nat>)
    requires limit >= TWO_53
    ensures AllPass(0, amounts, limit) && Units(amounts) == limit + 1
  {
    if limit >= TWO_54 {
      amounts := Ones(limit + 1);
      OnesPass(0, limit + 1, limit);
    } else {
      amounts := LostUnit(limit);
    }
  }

  /** What is left of the limit beside 2^53 units. */
  function Rest(limit: nat): seq<nat>
    requires limit >= TWO_53
  {
    if limit == TWO_53 then [] else [limit - TWO_53]
  }

  lemma RestPasses(limit: nat)
    requires TWO_53 <= limit < TWO_54
    ensures AllPass(TWO_53 + 1, Rest(limit), limit) && Units(Rest(limit)) == limit - TWO_53
  {
    if limit > TWO_53 {
      OneLostAt53();
      DoubleExact(limit - TWO_53);
      assert Rest(limit)[1..] == [];
      assert AllPass(limit + 1, [], limit);
    }
  }

  lemma OneMore(used: nat, amount: nat, amounts: seq<nat>, limit: nat)
    requires 1 <= amount <= TWO_53 && Passes(Double(used), amount, limit) && AllPass(used + amount, amounts, limit)
    ensures AllPass(used, [amount] + amounts, limit) && Units([amount] + amounts) == amount + Units(amounts)
  {
    assert ([amount] + amounts)[1..] == amounts;
  }

  /** 2^53 units, one more that rounding loses, and the rest of the limit. */
  lemma LostUnit(limit: nat) returns (amounts: seq<nat>)
    requires TWO_53 <= limit < TWO_54
    ensures AllPass(0, amounts, limit) && Units(amounts) == limit + 1
  {
    DoubleExact(0);
    DoubleExact(1);
    DoubleExact(TWO_53);
    DoubleMonotone(TWO_53, limit);
    OneLostAt53();
    RestPasses(limit);
    OneMore(TWO_53, 1, Rest(limit), limit);
    OneMore(0, TWO_53, [1] + Rest(limit), limit);
    amounts := [TWO_53] + ([1] + Rest(limit));
  }

  // ---------------------------------------------------------------- the guard, exactly

  /** The amounts asked for one after the other under one limit. */
  function Asked(key: CounterKey, amounts: seq<nat>, limit: nat): (scripts: seq<Script>)
    ensures |scripts| == |amounts|
    ensures forall i :: 0 <= i < |scripts| ==> scripts[i].ReserveWith? && scripts[i].key == key && scripts[i].limit == limit
  {
    if amounts == [] then [] else [ReserveWith(key, amounts[0], limit, 1, "")] + Asked(key, amounts[1..], limit)
  }

  /** Nothing is committed on the counter and `used` units are reserved, as its records say. */
  ghost predicate Holds(s: Keyspace, key: CounterKey, used: nat) {
    Valid(s) && Tallies(s.books, key) && Usage(s.books, key) == Counter(0, used)
  }

  lemma PassIsGranted(s: Keyspace, key: CounterKey, amount: nat, limit: nat, expiresAt: int, name: string, used: nat)
    requires Holds(s, key, used) && !ReplaysLive(s, key, name)
    requires amount <= TWO_53 && Passes(Double(used), amount, limit)
    ensures
      var t := Reserve(s, key, amount, limit, expiresAt, name).state;
      t == GrantedKeyspace(s, key, amount, expiresAt, name) && Holds(t, key, used + amount)
  {
    assert WithinLimit(s, key, amount, limit) by {
      DoubleExact(0);
      DoubleIdempotent(used);
    }
    DoubleExact(amount);
    ReserveValid(s, key, amount, limit, expiresAt, name);
    GrantTallies(s.books, s.sequence + 1, key, amount, expiresAt, key);
  }

  lemma {:induction false} AllPassGranted(w: World, key: CounterKey, amounts: seq<nat>, limit: nat, used: nat)
    requires Holds(w.keys, key, used) && AllPass(used, amounts, limit)
    ensures Holds(Run(w, Asked(key, amounts, limit)).keys, key, used + Units(amounts))
    decreases |amounts|
  {
    if amounts != [] {
      var e := ReserveWith(key, amounts[0], limit, 1, "");
      var now, rest := FirstPasses(used, amounts, limit);
      PassIsGranted(w.keys, key, amounts[0], limit, 1, "", used);
      AllPassGranted(Step(w, e), key, rest, limit, now);
      assert Asked(key, amounts, limit)[1..] == Asked(key, rest, limit);
    }
  }

  /** Active and committed units of every counter stay within the limit its requests carry, over every run. */
  ghost predicate Respected(limit: nat) {
    forall scripts, key :: Limited(scripts, key, limit) ==>
      Sum(Run(FRESH, scripts).keys.books.records, key, Committed) + Sum(Run(FRESH, scripts).keys.books.records, key, Active) <= limit
  }

  const PROBE := CounterKey(StoreKey("policy", BudgetKey("provider", "domain", "resource", "subject"), Requests), Window(0, 1))

  /** A limit below the largest of the server's integers is respected under every interleaving exactly below 2^53. */
  lemma LimitsExact(limit: nat)
    requires limit < I64_MAX
    ensures Respected(limit) <==> limit < TWO_53
  {
    if limit < TWO_53 {
      forall scripts, key | Limited(scripts, key, limit)
        ensures Sum(Run(FRESH, scripts).keys.books.records, key, Committed) + Sum(Run(FRESH, scripts).keys.books.records, key, Active)
                <= limit
      {
        ScriptsSafe(scripts, key, limit);
      }
    } else {
      var amounts := Overrun(limit);
      EmptyValid();
      EmptyConserved();
      AllPassGranted(FRESH, PROBE, amounts, limit, 0);
      assert Limited(Asked(PROBE, amounts, limit), PROBE, limit);
    }
  }

  // ---------------------------------------------------------------- refused input

  /** Redis refuses the same input, before its first script. */
  lemma RedisRefusesExactly(s: Keyspace, req: ReserveRequest)
    ensures
      var out := StoreReserve(s, req);
      && (out.result.Err? <==> req.amount == 0 || req.hardLimit < req.effectiveLimit || req.ttl <= 0
                               || req.amount >= 0x8000_0000_0000_0000 || req.effectiveLimit >= 0x8000_0000_0000_0000)
      && (out.result.Err? ==> out.state == s && out.result.error.InvalidInput?)
  {
  }

  /** Instants reach the scripts as whole seconds, rounded down before the epoch as well. */
  lemma TimestampFloors(nanos: int)
    ensures Timestamp(nanos) * 1_000_000_000 <= nanos < (Timestamp(nanos) + 1) * 1_000_000_000
  {
  }

  /** A settlement changes the keyspace only for an open reservation, and is refused for an unknown, expired or oversized id. */
  lemma RedisSettlesNothing(s: Keyspace, id: nat, commit: bool, now: int)
    requires id in s.books.records && id < 0x8000_0000_0000_0000 ==> s.books.records[id].status != Active
    ensures
      var out := StoreFinish(s, id, commit, now);
      && out.state == s
      && (out.result.Err? && out.result.error.InvalidInput? <==> id >= 0x8000_0000_0000_0000)
      && (id < 0x8000_0000_0000_0000 ==>
            out.result == if id !in s.books.records then Err(ReservationNotFound)
                          else if s.books.records[id].status == Expired then Err(ReservationExpired)
                          else Ok(()))
  {
  }

  /** An idempotency field whose reservation hash is gone does not stand: it goes, or points to the new reservation. */
  lemma DanglingDropped(s: Keyspace, key: CounterKey, amount: nat, limit: nat, expiresAt: int, name: string)
    requires name != "" && (key, name) in s.idempotency && s.idempotency[(key, name)] !in s.books.records
    ensures
      var out := Reserve(s, key, amount, limit, expiresAt, name);
      && out.state.idempotency
         == (if out.result.allowed then s.idempotency[(key, name) := s.sequence + 1] else s.idempotency - {(key, name)})
      && (out.result.allowed ==> out.result.id == s.sequence + 1)
  {
    var out := Reserve(s, key, amount, limit, expiresAt, name);
    if out.result.allowed {
      assert (s.idempotency - {(key, name)})[(key, name) := s.sequence + 1] == s.idempotency[(key, name) := s.sequence + 1];
    }
  }
}
