/** Policies, the validation they pass when built, and which one governs a key. */
module Policies {
  import opened Prelude
  import opened Contract

  datatype Priority = Background | Normal | Important | Critical {
    function Rank(): nat {
      match this
      case Background => 0
      case Normal => 1
      case Important => 2
      case Critical => 3
    }

    predicate Below(other: Priority) {
      Rank() < other.Rank()
    }
  }

  datatype Strategy =
    | HardLimitOnly
    | PreserveForWindow(maxSpendAheadPercent: u8, emergencyReservePercent: u8, minimumRemainingUnits: Option<u64>)
    | ReserveCapacity(reservedUnits: u64, reservedFor: Priority)

  /** `None` components match any value. */
  datatype KeyPattern = KeyPattern(provider: string, domain: Option<string>, resource: Option<string>, subject: Option<string>) {
    predicate Matches(key: BudgetKey) {
      && provider == key.provider
      && (domain.None? || domain.value == key.domain)
      && (resource.None? || resource.value == key.resource)
      && (subject.None? || subject.value == key.subject)
    }

    function Specificity(): nat {
      (if domain.Some? then 1 else 0) + (if resource.Some? then 1 else 0) + (if subject.Some? then 1 else 0)
    }
  }

  datatype Policy = Policy(
    name: string,
    pattern: KeyPattern,
    unit: BudgetUnit,
    hardLimit: u64,
    strategy: Strategy,
    failOpen: bool)
  {
    /** What `BudgetPolicyBuilder::build` guarantees about the numbers. */
    predicate Valid() {
      hardLimit > 0 && ValidateStrategy(strategy, hardLimit).Ok?
    }
  }

  function ValidateStrategy(strategy: Strategy, hardLimit: u64): Result<(), string> {
    match strategy
    case HardLimitOnly => Ok(())
    case PreserveForWindow(ahead, emergency, minimum) =>
      if ahead > 100 then Err("max spend ahead percent must be at most 100")
      else if emergency > 100 then Err("emergency reserve percent must be at most 100")
      else if minimum.Some? && minimum.value > hardLimit then Err("minimum remaining units must not exceed hard limit")
      else Ok(())
    case ReserveCapacity(units, _) =>
      if units == 0 then Err("reserved units must be greater than zero")
      else if units > hardLimit then Err("reserved units must not exceed hard limit")
      else Ok(())
  }

  /** The policies a builder accepts, strategy by strategy. */
  lemma ValidExactly(p: Policy)
    ensures p.Valid() <==>
            && p.hardLimit >= 1
            && (p.strategy.PreserveForWindow? ==>
                  && p.strategy.maxSpendAheadPercent <= 100 && p.strategy.emergencyReservePercent <= 100
                  && (p.strategy.minimumRemainingUnits.Some? ==> p.strategy.minimumRemainingUnits.value <= p.hardLimit))
            && (p.strategy.ReserveCapacity? ==> 1 <= p.strategy.reservedUnits <= p.hardLimit)
  {
  }

  predicate UniqueNames(policies: seq<Policy>) {
    forall i, j :: 0 <= i < j < |policies| ==> policies[i].name != policies[j].name
  }

  /** The last of the most specific policies that match the key. */
  function Find(policies: seq<Policy>, key: BudgetKey): Option<Policy> {
    if policies == [] then None
    else
      var last, best := policies[|policies| - 1], Find(policies[..|policies| - 1], key);
      if last.pattern.Matches(key) && (best.None? || best.value.pattern.Specificity() <= last.pattern.Specificity())
      then Some(last) else best
  }

  // ---------------------------------------------------------------- what selection means

  /** The key with every component that the pattern is exact about set to the pattern's value. */
  function Filled(pattern: KeyPattern, key: BudgetKey): BudgetKey {
    BudgetKey(
      pattern.provider,
      if pattern.domain.Some? then pattern.domain.value else key.domain,
      if pattern.resource.Some? then pattern.resource.value else key.resource,
      if pattern.subject.Some? then pattern.subject.value else key.subject)
  }

  datatype Component = Domain | Resource | Subject

  /** The optional components that the pattern is exact about. */
  function Exact(pattern: KeyPattern): set<Component> {
    set c: Component | (c.Domain? && pattern.domain.Some?) || (c.Resource? && pattern.resource.Some?)
                       || (c.Subject? && pattern.subject.Some?)
  }

  /** The pattern allows the key: filling it in changes nothing. */
  lemma MatchesIsFilled(pattern: KeyPattern, key: BudgetKey)
    ensures pattern.Matches(key) <==> Filled(pattern, key) == key
  {
  }

  lemma ExactParts(pattern: KeyPattern, domain: set<Component>, resource: set<Component>, subject: set<Component>)
    requires domain == if pattern.domain.Some? then {Domain} else {}
    requires resource == if pattern.resource.Some? then {Resource} else {}
    requires subject == if pattern.subject.Some? then {Subject} else {}
    ensures Exact(pattern) == domain + resource + subject
  {
  }

  lemma CountThree<T>(a: set<T>, b: set<T>, c: set<T>)
    requires a !! b && a !! c && b !! c
    ensures |a + b + c| == |a| + |b| + |c|
  {
  }

  lemma SpecificityCounts(pattern: KeyPattern)
    ensures pattern.Specificity() == |Exact(pattern)|
  {
    var domain := if pattern.domain.Some? then {Domain} else {};
    var resource := if pattern.resource.Some? then {Resource} else {};
    var subject := if pattern.subject.Some? then {Subject} else {};
    ExactParts(pattern, domain, resource, subject);
    CountThree(domain, resource, subject);
  }

  /** No policy that fits is exact about more than the one at `i`, and no later one about as much. */
  ghost predicate Governs(policies: seq<Policy>, key: BudgetKey, i: nat)
    requires i < |policies|
  {
    && Filled(policies[i].pattern, key) == key
    && forall j :: 0 <= j < |policies| && Filled(policies[j].pattern, key) == key ==>
         && |Exact(policies[j].pattern)| <= |Exact(policies[i].pattern)|
         && (j > i ==> |Exact(policies[j].pattern)| < |Exact(policies[i].pattern)|)
  }

  lemma GovernsPrefix(policies: seq<Policy>, key: BudgetKey, i: nat)
    requires |policies| > 0 && i < |policies| - 1 && Governs(policies[..|policies| - 1], key, i)
    ensures Governs(policies, key, i) <==>
            !(Filled(policies[|policies| - 1].pattern, key) == key
              && |Exact(policies[i].pattern)| <= |Exact(policies[|policies| - 1].pattern)|)
  {
    var front := policies[..|policies| - 1];
    assert forall j :: 0 <= j < |front| ==> front[j] == policies[j];
  }

  /** The last policy governs if it fits and the one that governs the others does not beat it. */
  lemma GovernsLast(policies: seq<Policy>, key: BudgetKey, i: nat)
    requires |policies| > 0 && i < |policies| - 1 && Governs(policies[..|policies| - 1], key, i)
    requires Filled(policies[|policies| - 1].pattern, key) == key
    requires |Exact(policies[i].pattern)| <= |Exact(policies[|policies| - 1].pattern)|
    ensures Governs(policies, key, |policies| - 1)
  {
    var front := policies[..|policies| - 1];
    assert forall j :: 0 <= j < |front| ==> front[j] == policies[j];
  }

  lemma FindStep(policies: seq<Policy>, key: BudgetKey)
    requires policies != []
    ensures
      var last, best := policies[|policies| - 1], Find(policies[..|policies| - 1], key);
      Find(policies, key)
      == if Filled(last.pattern, key) == key
            && (best.None? || |Exact(best.value.pattern)| <= |Exact(last.pattern)|) then Some(last) else best
  {
    var last, best := policies[|policies| - 1], Find(policies[..|policies| - 1], key);
    MatchesIsFilled(last.pattern, key);
    SpecificityCounts(last.pattern);
    if best.Some? {
      SpecificityCounts(best.value.pattern);
    }
  }

  /** A key finds a policy whenever one fits it, and it is the one that governs the key. */
  lemma {:induction false} FindSelects(policies: seq<Policy>, key: BudgetKey)
    ensures Find(policies, key).None? <==> forall i :: 0 <= i < |policies| ==> Filled(policies[i].pattern, key) != key
    ensures Find(policies, key).Some? ==>
              exists i :: 0 <= i < |policies| && policies[i] == Find(policies, key).value && Governs(policies, key, i)
  {
    if policies != [] {
      var n := |policies| - 1;
      var front := policies[..n];
      FindSelects(front, key);
      FindStep(policies, key);
      assert forall j :: 0 <= j < n ==> front[j] == policies[j];
      if Find(front, key).Some? {
        var i :| 0 <= i < n && front[i] == Find(front, key).value && Governs(front, key, i);
        FindFromFront(policies, key, i);
      } else if Filled(policies[n].pattern, key) == key {
        assert Governs(policies, key, n);
      }
    }
  }

  lemma FindFromFront(policies: seq<Policy>, key: BudgetKey, i: nat)
    requires |policies| > 0 && i < |policies| - 1
    requires Find(policies[..|policies| - 1], key) == Some(policies[i]) && Governs(policies[..|policies| - 1], key, i)
    ensures Find(policies, key).Some? && Filled(policies[i].pattern, key) == key
    ensures exists k :: 0 <= k < |policies| && policies[k] == Find(policies, key).value && Governs(policies, key, k)
  {
    var n := |policies| - 1;
    FindStep(policies, key);
    if Filled(policies[n].pattern, key) == key && |Exact(policies[i].pattern)| <= |Exact(policies[n].pattern)| {
      GovernsLast(policies, key, i);
      assert policies[n] == Find(policies, key).value;
    } else {
      GovernsPrefix(policies, key, i);
      assert policies[i] == Find(policies, key).value;
    }
  }

  /** A policy alone is found by exactly the keys that agree with it in every component it is exact about. */
  lemma FindAlone(p: Policy, key: BudgetKey)
    ensures Find([p], key) == Some(p) <==>
            && key.provider == p.pattern.provider
            && (p.pattern.domain.None? || p.pattern.domain == Some(key.domain))
            && (p.pattern.resource.None? || p.pattern.resource == Some(key.resource))
            && (p.pattern.subject.None? || p.pattern.subject == Some(key.subject))
    ensures Find([p], key) == Some(p) || Find([p], key) == None
  {
    FindStep([p], key);
  }

  /**
   * Of two policies that a key finds alone, the one that is exact about strictly more wins in either order, and of two
   * exact about equally many components, the same or different ones, the later wins.
   */
  lemma FindOfTwo(p: Policy, q: Policy, key: BudgetKey)
    requires Find([p], key) == Some(p) && Find([q], key) == Some(q)
    ensures Exact(p.pattern) < Exact(q.pattern) ==> Find([p, q], key) == Some(q) && Find([q, p], key) == Some(q)
    ensures |Exact(p.pattern)| == |Exact(q.pattern)| ==> Find([p, q], key) == Some(q) && Find([q, p], key) == Some(p)
  {
    FindStep([p], key);
    FindStep([q], key);
    FindStep([p, q], key);
    FindStep([q, p], key);
    assert [p, q][..1] == [p] && [q, p][..1] == [q];
    if Exact(p.pattern) < Exact(q.pattern) {
      StrictlyFewer(Exact(p.pattern), Exact(q.pattern));
    }
  }

  lemma StrictlyFewer(few: set<Component>, more: set<Component>)
    requires few < more
    ensures |few| < |more|
  {
    assert more == few + (more - few);
    var extra :| extra in more - few;
    assert |more - few| > 0;
  }

  /** The name a store key carries identifies the policy, so a counter has one hard limit. */
  lemma NameIdentifies(policies: seq<Policy>, p: Policy, q: Policy)
    requires UniqueNames(policies) && p in policies && q in policies && p.name == q.name
    ensures p == q
  {
    var i :| 0 <= i < |policies| && policies[i] == p;
    var j :| 0 <= j < |policies| && policies[j] == q;
    assert !(i < j) && !(j < i);
  }
}
