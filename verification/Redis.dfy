/**
 * The Redis store: atomic scripts over hashes, a sequence and a sorted set that indexes the open reservations by
 * expiry. Scripts see whole seconds, compute in doubles while the server increments in integers, and the cleanup and
 * the reserve of one call are two scripts.
 */
module Redis {
  import opened Prelude
  import opened Doubles
  import opened Contract
  import opened Accounts

  type IdempotencyField = (CounterKey, string)

  /** Expiries are seconds; `expirations` maps the members of the sorted set to their scores. */
  datatype Keyspace = Keyspace(
    books: Books,
    idempotency: map<IdempotencyField, nat>,
    sequence: nat,
    expirations: map<nat, int>)

  const EMPTY_KEYSPACE := Keyspace(Books(map[], map[]), map[], 0, map[])

  /** `DateTime::timestamp`: whole seconds, rounded down. */
  function Timestamp(nanos: int): int {
    nanos / NANOS_PER_SECOND
  }

  /** `ZRANGEBYSCORE expirations -inf now` */
  function InRange(s: Keyspace, now: int): set<nat> {
    set id | id in s.expirations && s.expirations[id] <= now
  }

  /** The reserve script's reply: whether it allows, the id, the counters, and the expiry. */
  datatype Reply = Reply(allowed: bool, id: nat, usage: Counter, expiresAt: int)

  // ---------------------------------------------------------------- scripts

  /** `tonumber` of both fields of a counter hash, absent fields reading as zero. */
  function Seen(b: Books, key: CounterKey): Counter {
    Counter(Double(Usage(b, key).committed), Double(Usage(b, key).reserved))
  }

  /** `math.max(reserved - amount, 0)` */
  function Less(reserved: nat, amount: nat): nat {
    Double(SatSub(Double(reserved), Double(amount)))
  }

  /** A reservation hash closed: the reduced counter is written back, and a commit increments the other field. */
  function ClosedHash(b: Books, id: nat, status: Status): Books
    requires id in b.records
  {
    var r := b.records[id];
    var counter := Usage(b, r.key);
    Books(
      b.counters[r.key := Counter(if status.Committed? then counter.committed + Double(r.amount) else counter.committed,
                                  Less(counter.reserved, r.amount))],
      b.records[id := r.(status := status)])
  }

  predicate Open(s: Keyspace, id: nat) {
    id in s.books.records && s.books.records[id].status.Active?
  }

  /** One turn of the cleanup loop: close the hash if it is still active, take the id out of the set. */
  function SweepOne(s: Keyspace, id: nat): Keyspace {
    s.(books := if Open(s, id) then ClosedHash(s.books, id, Expired) else s.books,
       expirations := s.expirations - {id})
  }

  /** The loop over `order`. */
  function Sweep(s: Keyspace, order: seq<nat>): Keyspace
    decreases |order|
  {
    if order == [] then s else Sweep(SweepOne(s, order[0]), order[1..])
  }

  /** `order` lists each of `ids` once. */
  predicate Lists(order: seq<nat>, ids: set<nat>) {
    && (forall i :: 0 <= i < |order| ==> order[i] in ids)
    && (forall id :: id in ids ==> id in order)
    && (forall i, j :: 0 <= i < j < |order| ==> order[i] != order[j])
  }

  ghost function SomeOrder(ids: set<nat>): (order: seq<nat>)
    ensures Lists(order, ids)
    decreases ids
  {
    if ids == {} then []
    else
      var id :| id in ids;
      [id] + SomeOrder(ids - {id})
  }

  /** The cleanup script, which walks its range in one order or another. */
  ghost function Cleanup(s: Keyspace, now: int): Keyspace {
    Sweep(s, SomeOrder(InRange(s, now)))
  }

  predicate ReplaysLive(s: Keyspace, key: CounterKey, name: string) {
    && name != "" && (key, name) in s.idempotency
    && s.idempotency[(key, name)] in s.books.records
    && Live(s.books.records[s.idempotency[(key, name)]])
  }

  /** The guard in doubles: on the sum of what it read, on the amount, and on the limit. */
  predicate Passes(used: nat, amount: nat, limit: nat) {
    Double(used + Double(amount)) <= Double(limit)
  }

  predicate WithinLimit(s: Keyspace, key: CounterKey, amount: nat, limit: nat) {
    Passes(Double(Seen(s.books, key).committed + Seen(s.books, key).reserved), amount, limit)
  }

  function GrantedKeyspace(s: Keyspace, key: CounterKey, amount: nat, expiresAt: int, name: string): Keyspace {
    var id := s.sequence + 1;
    Keyspace(
      Granted(s.books, id, key, amount, expiresAt),
      if name == "" then s.idempotency else s.idempotency[(key, name) := id],
      id,
      s.expirations[id := expiresAt])
  }

  /** An idempotency field whose reservation hash is gone is dropped before the request is looked at afresh. */
  function Unpinned(s: Keyspace, key: CounterKey, name: string): Keyspace {
    if name != "" && (key, name) in s.idempotency && s.idempotency[(key, name)] !in s.books.records
    then s.(idempotency := s.idempotency - {(key, name)})
    else s
  }

  /** The reply to a key whose reservation is live: that reservation, whatever was asked for now. */
  function LiveReply(s: Keyspace, key: CounterKey, name: string): Reply
    requires ReplaysLive(s, key, name)
  {
    var id := s.idempotency[(key, name)];
    Reply(true, id, Seen(s.books, key), s.books.records[id].expiresAt)
  }

  function Reserve(s: Keyspace, key: CounterKey, amount: nat, limit: nat, expiresAt: int, name: string): Outcome<Keyspace, Reply> {
    if ReplaysLive(s, key, name) then Outcome(s, LiveReply(s, key, name))
    else
      var t := Unpinned(s, key, name);
      var seen := Seen(t.books, key);
      if !WithinLimit(t, key, amount, limit) then
        Outcome(t, Reply(false, 0, seen, 0))
      else
        var after := GrantedKeyspace(t, key, Double(amount), expiresAt, name);
        Outcome(after, Reply(true, after.sequence, Counter(seen.committed, Double(seen.reserved + Double(amount))), expiresAt))
  }

  /** Result codes of the finish script: 1 done, 2 already done, 0 unknown id, -1 expired. */
  function Finish(s: Keyspace, id: nat, commit: bool, now: int): Outcome<Keyspace, int> {
    if id !in s.books.records then Outcome(s, 0)
    else match s.books.records[id].status
      case Committed => Outcome(s, 2)
      case Refunded => Outcome(s, 2)
      case Expired => Outcome(s, -1)
      case Active =>
        if s.books.records[id].expiresAt <= now
        then Outcome(s.(books := ClosedHash(s.books, id, Expired), expirations := s.expirations - {id}), -1)
        else Outcome(s.(books := ClosedHash(s.books, id, if commit then Committed else Refunded),
                        expirations := s.expirations - {id}), 1)
  }

  // ---------------------------------------------------------------- store calls, if nothing runs between their scripts

  /** The script's stand-in for "no idempotency key" is the empty string, which built keys never are. */
  function ScriptName(name: Option<string>): string {
    if name.Some? then name.value else ""
  }

  function ReplyAnswer(reply: Reply): ReserveAnswer {
    Ok(ReservationResult(
      if reply.allowed then Some(StoreReservation(reply.id, reply.expiresAt * NANOS_PER_SECOND)) else None,
      reply.usage))
  }

  /** What the store makes of a request whose cleanup script left `t`. */
  function ReserveOn(t: Keyspace, req: ReserveRequest): Outcome<Keyspace, ReserveAnswer> {
    var out := Reserve(t, req.Target(), req.amount, req.effectiveLimit, Timestamp(req.ExpiresAt()), ScriptName(req.idempotencyKey));
    Outcome(out.state, ReplyAnswer(out.result))
  }

  /** The checks a store call makes before its scripts. */
  function Checked(req: ReserveRequest): FinishAnswer {
    if req.Validate().Err? then req.Validate()
    else if req.amount > I64_MAX then Err(TooLarge("amount"))
    else if req.effectiveLimit > I64_MAX then Err(TooLarge("effective limit"))
    else Ok(())
  }

  ghost function StoreReserve(s: Keyspace, req: ReserveRequest): Outcome<Keyspace, ReserveAnswer> {
    if Checked(req).Err? then Outcome(s, Err(Checked(req).error))
    else ReserveOn(Cleanup(s, Timestamp(req.now)), req)
  }

  function CodeAnswer(code: int): FinishAnswer {
    if code == 1 || code == 2 then Ok(())
    else if code == 0 then Err(ReservationNotFound)
    else if code == -1 then Err(ReservationExpired)
    else Err(Other("unexpected redis finish result"))
  }

  function StoreFinish(s: Keyspace, id: nat, commit: bool, now: int): Outcome<Keyspace, FinishAnswer> {
    if id > I64_MAX then Outcome(s, Err(TooLarge("reservation id")))
    else
      var out := Finish(s, id, commit, Timestamp(now));
      Outcome(out.state, CodeAnswer(out.result))
  }

  ghost function StoreRead(s: Keyspace, key: CounterKey, now: int): Outcome<Keyspace, Counter> {
    var t := Cleanup(s, Timestamp(now));
    Outcome(t, Seen(t.books, key))
  }

  // ---------------------------------------------------------------- what every script keeps, whatever the numbers

  /** The sorted set holds exactly the active reservations, scored by their expiry. */
  ghost predicate Indexed(s: Keyspace) {
    && (forall id :: id in s.expirations <==> Open(s, id))
    && (forall id :: id in s.expirations ==> s.expirations[id] == s.books.records[id].expiresAt)
  }

  ghost predicate Valid(s: Keyspace) {
    && Indexed(s)
    && Filed(s.books)
    && (forall id :: id in s.books.records ==> 1 <= id <= s.sequence)
    && (forall f :: f in s.idempotency ==>
          s.idempotency[f] in s.books.records && s.books.records[s.idempotency[f]].key == f.0)
  }

  /** Nothing is granted: statuses change, and no id is used. */
  ghost predicate Settles(s: Keyspace, t: Keyspace) {
    && t.idempotency == s.idempotency && t.sequence == s.sequence
    && t.books.records.Keys == s.books.records.Keys
    && RecordsAdvance(s.books.records, t.books.records)
  }

  /** The range query finds exactly what a scan of every reservation would. */
  lemma RangeIsFullScan(s: Keyspace, now: int)
    requires Indexed(s)
    ensures InRange(s, now) == DueIds(s.books.records, now)
  {
  }

  /** One open hash closed and taken out of the index. */
  lemma CloseValid(s: Keyspace, id: nat, status: Status)
    requires Valid(s) && Open(s, id) && !status.Active?
    ensures
      var t := s.(books := ClosedHash(s.books, id, status), expirations := s.expirations - {id});
      Valid(t) && Settles(s, t)
  {
  }

  lemma SweepOneValid(s: Keyspace, id: nat)
    requires Valid(s)
    ensures Valid(SweepOne(s, id)) && Settles(s, SweepOne(s, id))
  {
    if Open(s, id) {
      CloseValid(s, id, Expired);
    } else {
      assert s.expirations - {id} == s.expirations;
    }
  }

  lemma SettlesTransitive(s: Keyspace, t: Keyspace, u: Keyspace)
    requires Settles(s, t) && Settles(t, u)
    ensures Settles(s, u)
  {
    RecordsAdvanceTransitive(s.books.records, t.books.records, u.books.records);
  }

  lemma {:induction false} SweepValid(s: Keyspace, order: seq<nat>)
    requires Valid(s)
    ensures Valid(Sweep(s, order)) && Settles(s, Sweep(s, order))
    decreases |order|
  {
    if order != [] {
      var t := SweepOne(s, order[0]);
      SweepOneValid(s, order[0]);
      SweepValid(t, order[1..]);
      SettlesTransitive(s, t, Sweep(t, order[1..]));
    }
  }

  lemma ReserveValid(s: Keyspace, key: CounterKey, amount: nat, limit: nat, expiresAt: int, name: string)
    requires Valid(s)
    ensures Valid(Reserve(s, key, amount, limit, expiresAt, name).state)
  {
    var t := Reserve(s, key, amount, limit, expiresAt, name).state;
    if t != s {
      assert s.sequence + 1 !in s.expirations;
    }
  }

  lemma FinishValid(s: Keyspace, id: nat, commit: bool, now: int)
    requires Valid(s)
    ensures Valid(Finish(s, id, commit, now).state) && Settles(s, Finish(s, id, commit, now).state)
  {
    if Open(s, id) {
      CloseValid(s, id, Finish(s, id, commit, now).state.books.records[id].status);
    }
  }

  lemma EmptyValid()
    ensures Valid(EMPTY_KEYSPACE)
  {
  }

  // ---------------------------------------------------------------- one counter below 2^53

  /** While a counter stays below 2^53, closing one of its reservations is exact. */
  lemma CloseExact(b: Books, id: nat, status: Status)
    requires id in b.records && b.records[id].amount <= TWO_53 && Usage(b, b.records[id].key).reserved <= TWO_53
    ensures ClosedHash(b, id, status) == Closed(b, id, status)
  {
    var r := b.records[id];
    var reserved := Usage(b, r.key).reserved;
    DoubleExact(r.amount);
    DoubleExact(reserved);
    DoubleExact(SatSub(reserved, r.amount));
  }

  lemma CloseTidy(b: Books, id: nat, status: Status, key: CounterKey, limit: nat)
    requires id in b.records && b.records[id].status.Active? && !status.Active?
    requires Tidy(b, key, limit) && limit < TWO_53
    ensures Tidy(ClosedHash(b, id, status), key, limit)
    ensures InUse(ClosedHash(b, id, status), key) <= InUse(b, key)
  {
    if b.records[id].key == key {
      RecordWithinTally(b, id);
      CloseExact(b, id, status);
      ClosedTallies(b, id, status);
    } else {
      OtherTallies(b, ClosedHash(b, id, status), id, key);
    }
  }

  lemma {:induction false} SweepTidy(s: Keyspace, order: seq<nat>, key: CounterKey, limit: nat)
    requires Tidy(s.books, key, limit) && limit < TWO_53
    ensures Tidy(Sweep(s, order).books, key, limit)
    ensures InUse(Sweep(s, order).books, key) <= InUse(s.books, key)
    decreases |order|
  {
    if order != [] {
      if Open(s, order[0]) {
        CloseTidy(s.books, order[0], Expired, key, limit);
      }
      SweepTidy(SweepOne(s, order[0]), order[1..], key, limit);
    }
  }

  lemma FinishTidy(s: Keyspace, id: nat, commit: bool, now: int, key: CounterKey, limit: nat)
    requires Tidy(s.books, key, limit) && limit < TWO_53
    ensures Tidy(Finish(s, id, commit, now).state.books, key, limit)
    ensures InUse(Finish(s, id, commit, now).state.books, key) <= InUse(s.books, key)
  {
    if Open(s, id) {
      CloseTidy(s.books, id, Finish(s, id, commit, now).state.books.records[id].status, key, limit);
    }
  }

  /** Below 2^53 the guard in doubles is the integer guard, whatever amount is asked for. */
  lemma PassesExactly(used: nat, amount: nat, limit: nat)
    requires used < TWO_53 && limit < TWO_53
    ensures Passes(used, amount, limit) <==> used + amount <= limit
  {
    DoubleExact(limit);
    if amount <= TWO_53 {
      DoubleExact(amount);
      if used + amount <= TWO_53 {
        DoubleExact(used + amount);
      } else {
        DoubleLarge(used + amount);
      }
    } else {
      DoubleLarge(amount);
      DoubleLarge(used + Double(amount));
    }
  }

  lemma SeenExactly(b: Books, key: CounterKey)
    requires InUse(b, key) < TWO_53
    ensures Seen(b, key) == Usage(b, key)
  {
    DoubleExact(Usage(b, key).committed);
    DoubleExact(Usage(b, key).reserved);
  }

  lemma GuardExactly(s: Keyspace, key: CounterKey, amount: nat, limit: nat)
    requires InUse(s.books, key) < TWO_53 && limit < TWO_53
    ensures WithinLimit(s, key, amount, limit) <==> InUse(s.books, key) + amount <= limit
  {
    SeenExactly(s.books, key);
    DoubleExact(InUse(s.books, key));
    PassesExactly(InUse(s.books, key), amount, limit);
  }

  /** A request of another counter leaves this one alone; its own takes it no further than its limit. */
  lemma ReserveTidy(s: Keyspace, of: CounterKey, amount: nat, granted: nat, expiresAt: int, name: string, key: CounterKey, limit: nat)
    requires Valid(s) && Tidy(s.books, key, limit) && limit < TWO_53
    requires of == key ==> granted <= limit
    ensures
      var t := Reserve(s, of, amount, granted, expiresAt, name).state;
      && Tidy(t.books, key, limit)
      && (t.sequence != s.sequence ==>
            InUse(t.books, key) == InUse(s.books, key) + (if of == key then amount else 0)
            && (of == key ==> InUse(t.books, key) <= granted && Double(amount) == amount))
  {
    var t := Reserve(s, of, amount, granted, expiresAt, name).state;
    if t.sequence != s.sequence {
      GrantTallies(s.books, s.sequence + 1, of, Double(amount), expiresAt, key);
      if of == key {
        GuardExactly(s, key, amount, granted);
        DoubleExact(amount);
      }
    }
  }

  // ---------------------------------------------------------------- the server

  lemma {:induction false} SweepAppend(s: Keyspace, order: seq<nat>, id: nat)
    ensures Sweep(s, order + [id]) == SweepOne(Sweep(s, order), id)
    decreases |order|
  {
    if order == [] {
      assert order + [id] == [id] && [id][1..] == [];
      assert Sweep(SweepOne(s, id), []) == SweepOne(s, id);
    } else {
      assert (order + [id])[1..] == order[1..] + [id];
      SweepAppend(SweepOne(s, order[0]), order[1..], id);
    }
  }

  class RedisServer {
    var counters: map<CounterKey, Counter>
    var reservations: map<nat, Record>
    var idempotency: map<IdempotencyField, nat>
    var sequence: nat
    var expirations: map<nat, int>

    ghost function Contents(): Keyspace
      reads this
    {
      Keyspace(Books(counters, reservations), idempotency, sequence, expirations)
    }

    constructor ()
      ensures Contents() == EMPTY_KEYSPACE
    {
      counters, reservations, idempotency, sequence, expirations := map[], map[], map[], 0, map[];
    }

    /** `tonumber(HGET counter_key ...)` of both fields, absent ones reading as zero. */
    method ReadCounter(key: CounterKey) returns (counter: Counter)
      ensures counter == Seen(Contents().books, key)
    {
      counter := if key in counters then counters[key] else EMPTY_COUNTER;
      counter := Counter(Double(counter.committed), Double(counter.reserved));
    }

    /** `HSET` of the reduced counter, `HINCRBY` for a commit, `HSET` of the new status. */
    method CloseHash(id: nat, status: Status)
      requires id in reservations
      modifies this`counters, this`reservations
      ensures Books(counters, reservations) == ClosedHash(old(Books(counters, reservations)), id, status)
    {
      var hash := reservations[id];
      var amount := Double(hash.amount);
      var counter := if hash.key in counters then counters[hash.key] else EMPTY_COUNTER;
      var reserved: int := Double(counter.reserved) - amount;
      counter := Counter(counter.committed, Double(if reserved < 0 then 0 else reserved));
      if status.Committed? {
        counter := Counter(counter.committed + amount, counter.reserved);
      }
      counters := counters[hash.key := counter];
      reservations := reservations[id := hash.(status := status)];
    }

    method SweepMember(id: nat)
      modifies this
      ensures Contents() == SweepOne(old(Contents()), id)
    {
      if id in reservations && reservations[id].status.Active? {
        CloseHash(id, Expired);
      }
      expirations := expirations - {id};
    }

    /** Walks the range of the sorted set, in an order that it reports. */
    method CleanupScript(now: int) returns (ghost order: seq<nat>)
      modifies this
      ensures Lists(order, InRange(old(Contents()), now))
      ensures Contents() == Sweep(old(Contents()), order)
    {
      ghost var before := Contents();
      var range := set id | id in expirations && expirations[id] <= now;
      assert range == InRange(before, now);
      order := SweepMembers(range);
    }

    method SweepMembers(range: set<nat>) returns (ghost order: seq<nat>)
      modifies this
      ensures Lists(order, range)
      ensures Contents() == Sweep(old(Contents()), order)
    {
      ghost var before := Contents();
      var ids := range;
      order := [];
      while ids != {}
        invariant ids <= range && Lists(order, range - ids)
        invariant Contents() == Sweep(before, order)
        decreases ids
      {
        var id :| id in ids;
        SweepAppend(before, order, id);
        SweepMember(id);
        ListsOneMore(order, range - ids, id);
        order, ids := order + [id], ids - {id};
        assert range - ids == range - (ids + {id}) + {id};
      }
      assert range - ids == range;
    }

    /** `INCR` of the sequence, `HINCRBY` of the counter, the new hash and its index and idempotency entries. */
    method CreateReservation(key: CounterKey, units: nat, expiresAt: int, name: string)
      modifies this
      ensures Contents() == GrantedKeyspace(old(Contents()), key, units, expiresAt, name)
    {
      sequence := sequence + 1;
      var counter := if key in counters then counters[key] else EMPTY_COUNTER;
      counters := counters[key := Counter(counter.committed, counter.reserved + units)];
      reservations := reservations[sequence := Record(key, units, expiresAt, Active)];
      expirations := expirations[sequence := expiresAt];
      if name != "" {
        idempotency := idempotency[(key, name) := sequence];
      }
    }

    /** The part of the reserve script that looks the idempotency field up. */
    method ReplayLive(key: CounterKey, name: string) returns (replay: Option<Reply>)
      modifies this`idempotency
      ensures replay.Some? == ReplaysLive(old(Contents()), key, name)
      ensures replay.Some? ==>
                Contents() == old(Contents()) && replay.value == LiveReply(Contents(), key, name)
      ensures replay.None? ==> Contents() == Unpinned(old(Contents()), key, name)
    {
      if name != "" && (key, name) in idempotency {
        var existing := idempotency[(key, name)];
        if existing in reservations {
          if Live(reservations[existing]) {
            var usage := ReadCounter(key);
            return Some(Reply(true, existing, usage, reservations[existing].expiresAt));
          }
        } else {
          idempotency := idempotency - {(key, name)};
        }
      }
      replay := None;
    }

    /** The guard of the reserve script, on the counter it has read. */
    method CheckGuard(key: CounterKey, amount: nat, limit: nat) returns (seen: Counter, passes: bool)
      ensures seen == Seen(Contents().books, key)
      ensures passes == WithinLimit(Contents(), key, amount, limit)
    {
      seen := ReadCounter(key);
      passes := Double(Double(seen.committed + seen.reserved) + Double(amount)) <= Double(limit);
    }

    method ReserveScript(key: CounterKey, amount: nat, limit: nat, expiresAt: int, name: string) returns (reply: Reply)
      modifies this
      ensures Outcome(Contents(), reply) == Reserve(old(Contents()), key, amount, limit, expiresAt, name)
    {
      var replay := ReplayLive(key, name);
      if replay.Some? {
        return replay.value;
      }
      var seen, passes := CheckGuard(key, amount, limit);
      if !passes {
        return Reply(false, 0, seen, 0);
      }
      var units := Double(amount);
      CreateReservation(key, units, expiresAt, name);
      reply := Reply(true, sequence, Counter(seen.committed, Double(seen.reserved + units)), expiresAt);
    }

    method FinishScript(id: nat, commit: bool, now: int) returns (code: int)
      modifies this`counters, this`reservations, this`expirations
      ensures Outcome(Contents(), code) == Finish(old(Contents()), id, commit, now)
    {
      if id !in reservations {
        return 0;
      }
      var hash := reservations[id];
      if hash.status.Committed? || hash.status.Refunded? {
        return 2;
      }
      if hash.status.Expired? {
        return -1;
      }
      if hash.expiresAt <= now {
        CloseHash(id, Expired);
        expirations := expirations - {id};
        return -1;
      }
      CloseHash(id, if commit then Committed else Refunded);
      expirations := expirations - {id};
      code := 1;
    }

    method UsageScript(key: CounterKey) returns (usage: Counter)
      ensures usage == Seen(Contents().books, key)
    {
      usage := ReadCounter(key);
    }

    /** A whole store call, when nothing else runs between its two scripts; `order` is its cleanup's. */
    method ReserveIfAllowed(req: ReserveRequest) returns (answer: ReserveAnswer, ghost order: seq<nat>)
      modifies this
      ensures Checked(req).Err? ==> Contents() == old(Contents()) && answer == Err(Checked(req).error)
      ensures Checked(req).Ok? ==>
                Lists(order, InRange(old(Contents()), Timestamp(req.now)))
                && Outcome(Contents(), answer) == ReserveOn(Sweep(old(Contents()), order), req)
    {
      order := [];
      var checked := Checked(req);
      if checked.Err? {
        answer := Err(checked.error);
        return;
      }
      order := CleanupScript(Timestamp(req.now));
      var reply := ReserveScript(req.Target(), req.amount, req.effectiveLimit, Timestamp(req.ExpiresAt()),
                                 ScriptName(req.idempotencyKey));
      answer := ReplyAnswer(reply);
    }

    method FinishReservation(id: nat, commit: bool, now: int) returns (answer: FinishAnswer)
      modifies this
      ensures Outcome(Contents(), answer) == StoreFinish(old(Contents()), id, commit, now)
    {
      if id > I64_MAX {
        return Err(TooLarge("reservation id"));
      }
      var code := FinishScript(id, commit, Timestamp(now));
      answer := CodeAnswer(code);
    }

    method ReadUsage(key: CounterKey, now: int) returns (usage: Counter, ghost order: seq<nat>)
      modifies this
      ensures Lists(order, InRange(old(Contents()), Timestamp(now)))
      ensures Contents() == Sweep(old(Contents()), order) && usage == Seen(Contents().books, key)
    {
      order := CleanupScript(Timestamp(now));
      usage := UsageScript(key);
    }
  }

  lemma ListsOneMore(order: seq<nat>, ids: set<nat>, id: nat)
    requires Lists(order, ids) && id !in ids
    ensures Lists(order + [id], ids + {id})
  {
    var longer := order + [id];
    forall k | k in ids + {id}
      ensures k in longer
    {
      if k == id {
        assert longer[|order|] == id;
      } else {
        var i :| 0 <= i < |order| && order[i] == k;
        assert longer[i] == k;
      }
    }
  }
}
