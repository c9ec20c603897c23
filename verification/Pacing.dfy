/** Policy evaluation: which requests pass, under which limit, and how much is safe to spend. */
module Pacing {
  import opened Prelude
  import opened Contract
  import opened Policies

  datatype DenialReason =
    | HardLimitReached
    | AheadOfBudgetPace
    | ReservedForHigherPriority
    | MinimumRemainingWouldBeViolated
    | NoMatchingPolicy

  datatype Evaluation = Evaluation(
    effectiveLimit: u64,
    safeToSpendNow: u64,
    reservedRemaining: u64,
    aheadOfPace: bool,
    denial: Option<DenialReason>)

  const NANOS_PER_MILLI := 1_000_000

  /** `Duration::num_milliseconds`, which truncates toward zero. */
  function NumMilliseconds(nanos: int): int {
    if nanos >= 0 then nanos / NANOS_PER_MILLI else -((-nanos) / NANOS_PER_MILLI)
  }

  function NonNegativeMillis(milliseconds: int): nat {
    if milliseconds < 0 then 0 else milliseconds
  }

  function SaturatingU64(value: nat): u64 {
    if value <= U64_MAX then value else U64_MAX
  }

  function PercentOf(value: u64, percent: u8): u64 {
    SaturatingU64(value * percent / 100)
  }

  function DurationMillis(window: Window): nat
    ensures DurationMillis(window) >= 1
  {
    var millis := NonNegativeMillis(NumMilliseconds(window.end - window.start));
    if millis < 1 then 1 else millis
  }

  function ElapsedMillis(window: Window, now: int): nat {
    NonNegativeMillis(NumMilliseconds(now - window.start))
  }

  function IdealSpend(hardLimit: u64, window: Window, now: int): nat {
    hardLimit * ElapsedMillis(window, now) / DurationMillis(window)
  }

  function EmergencyReserve(p: Policy): u64
    requires p.strategy.PreserveForWindow?
  {
    PercentOf(p.hardLimit, p.strategy.emergencyReservePercent)
  }

  function NormalUsableLimit(p: Policy): u64
    requires p.strategy.PreserveForWindow?
  {
    SatSub(p.hardLimit, EmergencyReserve(p))
  }

  function PacedLimit(p: Policy, window: Window, now: int): u64
    requires p.strategy.PreserveForWindow?
  {
    var ideal := SaturatingU64(IdealSpend(p.hardLimit, window, now));
    Min(NormalUsableLimit(p), SatAdd(ideal, PercentOf(p.hardLimit, p.strategy.maxSpendAheadPercent)))
  }

  function Evaluate(p: Policy, used: u64, amount: u64, priority: Priority, window: Window, now: int): Evaluation {
    var limit := p.hardLimit;
    var remaining := SatSub(limit, used);
    if SatAdd(used, amount) > limit then
      Evaluation(limit, 0, 0, false, Some(HardLimitReached))
    else
      match p.strategy
      case HardLimitOnly => Evaluation(limit, remaining, 0, false, None)
      case PreserveForWindow(_, _, minimum) =>
        var reserve := EmergencyReserve(p);
        var usable := NormalUsableLimit(p);
        if priority.Critical? then
          Evaluation(limit, remaining, Min(reserve, remaining), false, None)
        else if SatAdd(used, amount) > usable then
          Evaluation(usable, SatSub(usable, used), remaining, false, Some(ReservedForHigherPriority))
        else
          var paced := PacedLimit(p, window, now);
          if SatAdd(used, amount) > paced then
            Evaluation(paced, SatSub(paced, used), SatSub(reserve, remaining), true, Some(AheadOfBudgetPace))
          else if minimum.Some? && SatSub(limit, WrapAdd(used, amount)) < minimum.value then
            Evaluation(paced, SatSub(paced, used), reserve, false, Some(MinimumRemainingWouldBeViolated))
          else
            Evaluation(paced, SatSub(paced, used), Min(reserve, remaining), used > paced, None)
      case ReserveCapacity(units, reservedFor) =>
        var usable := SatSub(limit, units);
        if priority.Below(reservedFor) && SatAdd(used, amount) > usable then
          Evaluation(usable, SatSub(usable, used), units, false, Some(ReservedForHigherPriority))
        else
          Evaluation(limit, remaining, Min(units, remaining), false, None)
  }

  predicate Allowed(p: Policy, used: u64, amount: u64, priority: Priority, window: Window, now: int) {
    Evaluate(p, used, amount, priority, window, now).denial.None?
  }

  // ---------------------------------------------------------------- arithmetic

  lemma DivMonotone(a: nat, b: nat, d: nat)
    requires a <= b && d >= 1
    ensures a / d <= b / d
  {
    assert a == d * (a / d) + a % d && b == d * (b / d) + b % d;
    if a / d > b / d {
      MulMonotone(d, b / d + 1, a / d);
    }
  }

  /** A percentage of at most one hundred takes no more than the whole. */
  lemma PercentWithin(value: u64, percent: u8)
    requires percent <= 100
    ensures PercentOf(value, percent) == value * percent / 100 <= value
  {
    MulMonotone(value, percent, 100);
    DivMonotone(value * percent, value * 100, 100);
  }

  /** The milliseconds behind the pace: whole ones, none before the window starts, at least one in a window. */
  lemma MillisExact(window: Window, now: int)
    ensures ElapsedMillis(window, now) == (if now < window.start then 0 else (now - window.start) / 1_000_000)
    ensures DurationMillis(window)
         == (if window.end - window.start < 1_000_000 then 1 else (window.end - window.start) / 1_000_000)
  {
  }

  /**
   * Every clamp in the paced limit is exact. With instants in nanoseconds, it is the share of the hard limit that goes
   * with the milliseconds passed, plus the allowance, capped by what the emergency reserve leaves.
   */
  lemma PacedLimitExact(p: Policy, window: Window, now: int)
    requires p.Valid() && p.strategy.PreserveForWindow?
    ensures EmergencyReserve(p) == p.hardLimit * p.strategy.emergencyReservePercent / 100 <= p.hardLimit
    ensures PacedLimit(p, window, now)
         == Min(p.hardLimit - p.hardLimit * p.strategy.emergencyReservePercent / 100,
                p.hardLimit * (if now < window.start then 0 else (now - window.start) / 1_000_000)
                / (if window.end - window.start < 1_000_000 then 1 else (window.end - window.start) / 1_000_000)
                + p.hardLimit * p.strategy.maxSpendAheadPercent / 100)
  {
    PercentWithin(p.hardLimit, p.strategy.emergencyReservePercent);
    PercentWithin(p.hardLimit, p.strategy.maxSpendAheadPercent);
    MillisExact(window, now);
  }

  /** The `u128` products cannot overflow: elapsed milliseconds come from an `i64`, percentages from a `u8`. */
  lemma ProductsFit(hardLimit: u64, window: Window, now: int, percent: u8)
    requires NumMilliseconds(now - window.start) <= I64_MAX
    ensures hardLimit * ElapsedMillis(window, now) <= U128_MAX
    ensures hardLimit * percent <= U128_MAX
  {
    MulMonotone(hardLimit, ElapsedMillis(window, now), I64_MAX);
    MulMonotone(I64_MAX, hardLimit, U64_MAX);
    MulMonotone(hardLimit, percent, 255);
  }

  lemma ElapsedMonotone(window: Window, t1: int, t2: int)
    requires t1 <= t2
    ensures ElapsedMillis(window, t1) <= ElapsedMillis(window, t2)
  {
    if t1 >= window.start {
      DivMonotone(t1 - window.start, t2 - window.start, NANOS_PER_MILLI);
    }
  }

  /** The paced limit never falls as time passes. */
  lemma PacedLimitMonotone(p: Policy, window: Window, t1: int, t2: int)
    requires p.strategy.PreserveForWindow? && t1 <= t2
    ensures PacedLimit(p, window, t1) <= PacedLimit(p, window, t2)
  {
    ElapsedMonotone(window, t1, t2);
    MulMonotone(p.hardLimit, ElapsedMillis(window, t1), ElapsedMillis(window, t2));
    DivMonotone(p.hardLimit * ElapsedMillis(window, t1), p.hardLimit * ElapsedMillis(window, t2), DurationMillis(window));
  }

  lemma ShareAtLeastWhole(k: nat, e: nat, d: nat)
    requires e >= d >= 1
    ensures k * e / d >= k
  {
    MulMonotone(k, d, e);
    DivMonotone(k * d, k * e, d);
    assert k * d / d == k;
  }

  lemma WindowElapsed(window: Window, now: int)
    requires window.start + NANOS_PER_MILLI <= window.end <= now
    ensures ElapsedMillis(window, now) >= DurationMillis(window)
  {
    DivMonotone(NANOS_PER_MILLI, window.end - window.start, NANOS_PER_MILLI);
    ElapsedMonotone(window, window.end, now);
  }

  /** From the end of its window on, a policy is no longer paced: only the emergency reserve is held back. */
  lemma PacedLimitAtEnd(p: Policy, window: Window, now: int)
    requires p.Valid() && p.strategy.PreserveForWindow? && window.start + 1_000_000 <= window.end <= now
    ensures PacedLimit(p, window, now) == p.hardLimit - p.hardLimit * p.strategy.emergencyReservePercent / 100
  {
    PercentWithin(p.hardLimit, p.strategy.emergencyReservePercent);
    WindowElapsed(window, now);
    ShareAtLeastWhole(p.hardLimit, ElapsedMillis(window, now), DurationMillis(window));
  }

  // ---------------------------------------------------------------- decisions

  /** The most a priority may bring the used units to. */
  function Threshold(p: Policy, priority: Priority, window: Window, now: int): int {
    match p.strategy
    case HardLimitOnly => p.hardLimit
    case PreserveForWindow(_, _, minimum) =>
      if priority.Critical? then p.hardLimit
      else Min(PacedLimit(p, window, now), if minimum.Some? then p.hardLimit - minimum.value else p.hardLimit)
    case ReserveCapacity(units, reservedFor) =>
      if priority.Below(reservedFor) then p.hardLimit - units else p.hardLimit
  }

  /** The one kind of policy whose minimum check can be reached with a sum past `u64::MAX`. */
  predicate WrapExposed(p: Policy) {
    && p.hardLimit == U64_MAX
    && p.strategy.PreserveForWindow?
    && EmergencyReserve(p) == 0
    && p.strategy.minimumRemainingUnits.Some?
    && p.strategy.minimumRemainingUnits.value > 0
  }

  lemma PacedWithin(p: Policy, window: Window, now: int)
    requires p.Valid() && p.strategy.PreserveForWindow?
    ensures PacedLimit(p, window, now) <= NormalUsableLimit(p) == p.hardLimit - EmergencyReserve(p)
  {
    PacedLimitExact(p, window, now);
  }

  lemma AllowedWhenPaced(p: Policy, used: u64, amount: u64, priority: Priority, window: Window, now: int)
    requires p.Valid() && p.strategy.PreserveForWindow? && !priority.Critical? && !WrapExposed(p)
    ensures Allowed(p, used, amount, priority, window, now) <==> SatAdd(used, amount) <= Threshold(p, priority, window, now)
  {
    PacedWithin(p, window, now);
    var paced := PacedLimit(p, window, now);
    if SatAdd(used, amount) <= paced {
      assert Allowed(p, used, amount, priority, window, now) <==>
             p.strategy.minimumRemainingUnits.Some? ==>
             SatSub(p.hardLimit, WrapAdd(used, amount)) >= p.strategy.minimumRemainingUnits.value;
      if used + amount <= U64_MAX {
        assert WrapAdd(used, amount) == used + amount;
      }
    }
  }

  /** A request passes exactly when it keeps the used units within the threshold of its priority. */
  lemma AllowedExactly(p: Policy, used: u64, amount: u64, priority: Priority, window: Window, now: int)
    requires p.Valid() && !WrapExposed(p)
    ensures Allowed(p, used, amount, priority, window, now) <==> SatAdd(used, amount) <= Threshold(p, priority, window, now)
    ensures p.hardLimit < U64_MAX ==>
              (Allowed(p, used, amount, priority, window, now) <==> used + amount <= Threshold(p, priority, window, now))
  {
    if p.strategy.PreserveForWindow? && !priority.Critical? {
      AllowedWhenPaced(p, used, amount, priority, window, now);
      PacedWithin(p, window, now);
    }
  }

  /** The priorities that reserved capacity is kept from, one by one. */
  lemma CapacityKeptFrom(p: Policy, used: u64, amount: u64, priority: Priority, window: Window, now: int)
    requires p.Valid() && p.strategy.ReserveCapacity? && p.hardLimit < U64_MAX
    ensures
      var reservedFor := p.strategy.reservedFor;
      var kept := match priority
        case Background => reservedFor == Normal || reservedFor == Important || reservedFor == Critical
        case Normal => reservedFor == Important || reservedFor == Critical
        case Important => reservedFor == Critical
        case Critical => false;
      Allowed(p, used, amount, priority, window, now)
      <==> used + amount <= if kept then p.hardLimit - p.strategy.reservedUnits else p.hardLimit
  {
  }

  /** The numbers of an evaluation, in integers: the limit that bound the request, what is left below it, what is kept. */
  lemma EvaluationExact(p: Policy, used: u64, amount: u64, priority: Priority, window: Window, now: int)
    requires p.Valid()
    ensures
      var e := Evaluate(p, used, amount, priority, window, now);
      var bound := match e.denial
        case Some(HardLimitReached) => p.hardLimit
        case Some(ReservedForHigherPriority) => Ceiling(p, priority)
        case _ => if p.strategy.PreserveForWindow? && !priority.Critical? then PacedLimit(p, window, now) else p.hardLimit;
      && e.effectiveLimit == bound
      && e.safeToSpendNow == (if e.denial == Some(HardLimitReached) || bound <= used then 0 else bound - used)
  {
    if p.strategy.PreserveForWindow? {
      PacedLimitExact(p, window, now);
    }
  }

  /** What a strategy keeps back in the first place. */
  function Kept(p: Policy): nat {
    match p.strategy
    case HardLimitOnly => 0
    case PreserveForWindow(_, emergency, _) => p.hardLimit * emergency / 100
    case ReserveCapacity(units, _) => units
  }

  /** The reported reserve, which every denial computes differently. */
  lemma ReservedRemainingExact(p: Policy, used: u64, amount: u64, priority: Priority, window: Window, now: int)
    requires p.Valid()
    ensures
      var e := Evaluate(p, used, amount, priority, window, now);
      && (e.denial.Some? && e.denial.value.HardLimitReached? ==> e.reservedRemaining == 0)
      && (e.denial.None? || !e.denial.value.HardLimitReached? ==>
            used <= p.hardLimit
            && e.reservedRemaining
               == match e.denial
                  case None => Min(Kept(p), p.hardLimit - used)
                  case Some(ReservedForHigherPriority) =>
                    if p.strategy.ReserveCapacity? then Kept(p) else p.hardLimit - used
                  case Some(AheadOfBudgetPace) => if Kept(p) <= p.hardLimit - used then 0 else Kept(p) - (p.hardLimit - used)
                  case Some(_) => Kept(p))
  {
    if p.strategy.PreserveForWindow? {
      PacedLimitExact(p, window, now);
    }
  }

  /** Every allowed request fits the limit handed to the store, which is the hard limit or the paced limit. */
  lemma EffectiveLimitCovers(p: Policy, used: u64, amount: u64, priority: Priority, window: Window, now: int)
    requires p.Valid() && Allowed(p, used, amount, priority, window, now)
    ensures
      var e := Evaluate(p, used, amount, priority, window, now);
      && SatAdd(used, amount) <= e.effectiveLimit <= p.hardLimit
      && e.effectiveLimit == if p.strategy.PreserveForWindow? && !priority.Critical?
                             then PacedLimit(p, window, now) else p.hardLimit
  {
    if p.strategy.PreserveForWindow? {
      PacedWithin(p, window, now);
    }
  }

  /** The units below which a strategy keeps a priority, before pacing and the minimum come in. */
  function Ceiling(p: Policy, priority: Priority): int {
    match p.strategy
    case HardLimitOnly => p.hardLimit
    case PreserveForWindow(_, emergency, _) =>
      if priority.Critical? then p.hardLimit else p.hardLimit - p.hardLimit * emergency / 100
    case ReserveCapacity(units, reservedFor) =>
      if priority.Below(reservedFor) then p.hardLimit - units else p.hardLimit
  }

  /**
   * A denial names the first bound the total would pass: the hard limit, what is kept for higher priorities, the
   * pace, the minimum. The flag for running ahead of pace says no more than that reason does.
   */
  lemma DenialNamesFirstBound(p: Policy, used: u64, amount: u64, priority: Priority, window: Window, now: int)
    requires p.Valid() && p.hardLimit < U64_MAX
    ensures
      var e := Evaluate(p, used, amount, priority, window, now);
      var total := used + amount;
      && (e.denial == Some(HardLimitReached) <==> total > p.hardLimit)
      && (e.denial == Some(ReservedForHigherPriority) <==> Ceiling(p, priority) < total <= p.hardLimit)
      && (e.denial == Some(AheadOfBudgetPace) <==>
            p.strategy.PreserveForWindow? && !priority.Critical?
            && PacedLimit(p, window, now) < total <= Ceiling(p, priority))
      && (e.denial == Some(MinimumRemainingWouldBeViolated) <==>
            p.strategy.PreserveForWindow? && !priority.Critical? && total <= PacedLimit(p, window, now)
            && p.strategy.minimumRemainingUnits.Some? && total > p.hardLimit - p.strategy.minimumRemainingUnits.value)
      && (e.aheadOfPace <==> e.denial == Some(AheadOfBudgetPace))
  {
    if p.strategy.PreserveForWindow? {
      PacedLimitExact(p, window, now);
      if used + amount <= p.hardLimit {
        assert WrapAdd(used, amount) == used + amount;
      }
    }
  }

  ghost predicate Monotone(p: Policy) {
    forall used: u64, amount: u64, priority: Priority, window: Window, now: int,
           used': u64, amount': u64, priority': Priority, now': int ::
      Allowed(p, used, amount, priority, window, now)
      && used' <= used && amount' <= amount && !priority'.Below(priority) && now <= now'
      ==> Allowed(p, used', amount', priority', window, now')
  }

  lemma ThresholdMonotone(p: Policy, priority: Priority, priority': Priority, window: Window, now: int, now': int)
    requires p.Valid() && !priority'.Below(priority) && now <= now'
    ensures Threshold(p, priority, window, now) <= Threshold(p, priority', window, now')
  {
    if p.strategy.PreserveForWindow? {
      PacedLimitMonotone(p, window, now, now');
      PacedWithin(p, window, now);
    }
  }

  /**
   * Asking for less, with less used, at a higher priority or later in the window never turns an allowed request
   * down, exactly when the policy is not open to wrap-around in its minimum check.
   */
  lemma MonotoneExact(p: Policy)
    requires p.Valid()
    ensures Monotone(p) <==> !WrapExposed(p)
  {
    if WrapExposed(p) {
      var window := Window(0, NANOS_PER_MILLI);
      PacedLimitAtEnd(p, window, NANOS_PER_MILLI);
      assert Allowed(p, U64_MAX, 1, Normal, window, NANOS_PER_MILLI);
      assert !Allowed(p, U64_MAX - 1, 1, Normal, window, NANOS_PER_MILLI);
      assert !Monotone(p);
    } else {
      forall used: u64, amount: u64, priority: Priority, window: Window, now: int,
             used': u64, amount': u64, priority': Priority, now': int
        | Allowed(p, used, amount, priority, window, now)
          && used' <= used && amount' <= amount && !priority'.Below(priority) && now <= now'
        ensures Allowed(p, used', amount', priority', window, now')
      {
        AllowedExactly(p, used, amount, priority, window, now);
        AllowedExactly(p, used', amount', priority', window, now');
        ThresholdMonotone(p, priority, priority', window, now, now');
      }
    }
  }

  // ---------------------------------------------------------------- what a usage query reports

  /** `safe_to_spend_now` of a usage query, which evaluates amount zero at normal priority. */
  function SafeToSpend(p: Policy, used: u64, window: Window, now: int): u64 {
    Evaluate(p, used, 0, Normal, window, now).safeToSpendNow
  }

  ghost predicate SafeToSpendAnswers(p: Policy) {
    forall used: u64, amount: u64, window: Window, now: int :: amount > 0 ==>
      (Allowed(p, used, amount, Normal, window, now) <==> amount <= SafeToSpend(p, used, window, now))
  }

  /** What the policy must look like for the reported number to be the exact answer for normal requests. */
  predicate ReportsExactly(p: Policy) {
    match p.strategy
    case HardLimitOnly => p.hardLimit < U64_MAX
    case PreserveForWindow(_, _, minimum) =>
      && (p.hardLimit < U64_MAX || EmergencyReserve(p) > 0)
      && (minimum.Some? ==> minimum.value <= EmergencyReserve(p))
    case ReserveCapacity(_, reservedFor) => p.hardLimit < U64_MAX && !Normal.Below(reservedFor)
  }

  lemma SafeToSpendSound(p: Policy, used: u64, amount: u64, window: Window, now: int)
    requires p.Valid() && ReportsExactly(p) && amount > 0
    ensures Allowed(p, used, amount, Normal, window, now) <==> amount <= SafeToSpend(p, used, window, now)
  {
    AllowedExactly(p, used, amount, Normal, window, now);
    if p.strategy.PreserveForWindow? {
      PacedWithin(p, window, now);
    }
  }

  lemma SafeToSpendMisleads(p: Policy) returns (used: u64, amount: u64, window: Window, now: int)
    requires p.Valid() && !ReportsExactly(p)
    ensures amount > 0
    ensures Allowed(p, used, amount, Normal, window, now) != (amount <= SafeToSpend(p, used, window, now))
  {
    window, now := Window(0, NANOS_PER_MILLI), NANOS_PER_MILLI;
    if p.strategy.PreserveForWindow? {
      PacedLimitAtEnd(p, window, now);
      PacedWithin(p, window, now);
      var minimum := p.strategy.minimumRemainingUnits;
      if minimum.Some? && minimum.value > EmergencyReserve(p) {
        used, amount := p.hardLimit - minimum.value, 1;
      } else {
        used, amount := U64_MAX, 1;
      }
    } else if p.strategy.ReserveCapacity? && Normal.Below(p.strategy.reservedFor) {
      used, amount := 0, p.hardLimit;
    } else {
      used, amount := U64_MAX, 1;
    }
  }

  /** A positive amount is allowed iff it is at most the reported number, exactly for the policies named above. */
  lemma SafeToSpendExact(p: Policy)
    requires p.Valid()
    ensures SafeToSpendAnswers(p) <==> ReportsExactly(p)
  {
    if ReportsExactly(p) {
      forall used: u64, amount: u64, window: Window, now: int | amount > 0
        ensures Allowed(p, used, amount, Normal, window, now) <==> amount <= SafeToSpend(p, used, window, now)
      {
        SafeToSpendSound(p, used, amount, window, now);
      }
    } else {
      var used, amount, window, now := SafeToSpendMisleads(p);
    }
  }

  ghost predicate SafeToSpendBounds(p: Policy) {
    forall used: u64, amount: u64, window: Window, now: int ::
      amount > 0 && Allowed(p, used, amount, Normal, window, now) ==> amount <= SafeToSpend(p, used, window, now)
  }

  /** The policy keeps normal requests below `u64::MAX`, where sums of used and requested units saturate. */
  predicate StopsShort(p: Policy) {
    match p.strategy
    case HardLimitOnly => p.hardLimit < U64_MAX
    case PreserveForWindow(_, _, _) => p.hardLimit < U64_MAX || EmergencyReserve(p) > 0
    case ReserveCapacity(_, reservedFor) => p.hardLimit < U64_MAX || Normal.Below(reservedFor)
  }

  /** The reported number is an upper bound, no larger amount being allowed, exactly for the policies named above. */
  lemma SafeToSpendBoundsExactly(p: Policy)
    requires p.Valid()
    ensures SafeToSpendBounds(p) <==> StopsShort(p)
  {
    if StopsShort(p) {
      forall used: u64, amount: u64, window: Window, now: int
        | amount > 0 && Allowed(p, used, amount, Normal, window, now)
        ensures amount <= SafeToSpend(p, used, window, now)
      {
        AllowedWithinReport(p, used, amount, window, now);
      }
    } else {
      var window := Window(0, NANOS_PER_MILLI);
      if p.strategy.PreserveForWindow? {
        PacedLimitAtEnd(p, window, NANOS_PER_MILLI);
      }
      assert Allowed(p, U64_MAX, 1, Normal, window, NANOS_PER_MILLI);
    }
  }

  lemma AllowedWithinReport(p: Policy, used: u64, amount: u64, window: Window, now: int)
    requires p.Valid() && StopsShort(p) && amount > 0 && Allowed(p, used, amount, Normal, window, now)
    ensures amount <= SafeToSpend(p, used, window, now)
  {
    if p.strategy.PreserveForWindow? {
      PacedWithin(p, window, now);
      EffectiveLimitCovers(p, used, amount, Normal, window, now);
    }
  }
}
