/** Sums over the entries of a finite map, and how updates move them. */
module Totals {

  /** The sum of `w` over every entry of `m`. */
  ghost function Total<T>(m: map<nat, T>, w: (nat, T) -> nat): nat
    decreases |m|
  {
    if m == map[] then 0
    else
      var id :| id in m;
      assert |m - {id}| < |m| by { CardinalityAfterRemoval(m, id); }
      w(id, m[id]) + Total(m - {id}, w)
  }

  lemma CardinalityAfterRemoval<T>(m: map<nat, T>, id: nat)
    requires id in m
    ensures |m - {id}| < |m|
  {
    assert (m - {id}).Keys == m.Keys - {id};
    assert |m.Keys - {id}| == |m.Keys| - 1;
  }

  /** The entry to take out first does not matter. */
  lemma {:induction false} TotalRemove<T>(m: map<nat, T>, w: (nat, T) -> nat, id: nat)
    requires id in m
    ensures Total(m, w) == w(id, m[id]) + Total(m - {id}, w)
    decreases |m|
  {
    var first :| first in m && Total(m, w) == w(first, m[first]) + Total(m - {first}, w);
    if first != id {
      CardinalityAfterRemoval(m, first);
      CardinalityAfterRemoval(m, id);
      TotalRemove(m - {first}, w, id);
      TotalRemove(m - {id}, w, first);
      assert m - {first} - {id} == m - {id} - {first};
    }
  }

  lemma TotalUpdate<T>(m: map<nat, T>, w: (nat, T) -> nat, id: nat, v: T)
    ensures id in m ==> Total(m[id := v], w) + w(id, m[id]) == Total(m, w) + w(id, v)
    ensures id !in m ==> Total(m[id := v], w) == Total(m, w) + w(id, v)
  {
    TotalRemove(m[id := v], w, id);
    if id in m {
      TotalRemove(m, w, id);
      assert m[id := v] - {id} == m - {id};
    } else {
      assert m[id := v] - {id} == m;
    }
  }

  /** Entrywise comparison carries over to the sums. */
  lemma {:induction false} TotalAtMost<T, U>(m: map<nat, T>, w: (nat, T) -> nat, n: map<nat, U>, v: (nat, U) -> nat)
    requires m.Keys == n.Keys
    requires forall id :: id in m ==> w(id, m[id]) <= v(id, n[id])
    ensures Total(m, w) <= Total(n, v)
    decreases |m|
  {
    if m == map[] {
      assert n.Keys == {};
      assert n == map[];
    } else {
      var id :| id in m;
      CardinalityAfterRemoval(m, id);
      TotalRemove(m, w, id);
      TotalRemove(n, v, id);
      TotalAtMost(m - {id}, w, n - {id}, v);
    }
  }

  lemma TotalEqual<T, U>(m: map<nat, T>, w: (nat, T) -> nat, n: map<nat, U>, v: (nat, U) -> nat)
    requires m.Keys == n.Keys
    requires forall id :: id in m ==> w(id, m[id]) == v(id, n[id])
    ensures Total(m, w) == Total(n, v)
  {
    TotalAtMost(m, w, n, v);
    TotalAtMost(n, v, m, w);
  }

  /** A weight that splits into two splits the sum. */
  lemma {:induction false} TotalSplit<T>(m: map<nat, T>, w: (nat, T) -> nat, u: (nat, T) -> nat, v: (nat, T) -> nat)
    requires forall id :: id in m ==> w(id, m[id]) == u(id, m[id]) + v(id, m[id])
    ensures Total(m, w) == Total(m, u) + Total(m, v)
    decreases |m|
  {
    if m != map[] {
      var id :| id in m;
      CardinalityAfterRemoval(m, id);
      TotalRemove(m, w, id);
      TotalRemove(m, u, id);
      TotalRemove(m, v, id);
      TotalSplit(m - {id}, w, u, v);
    }
  }

  lemma {:induction false} TotalZero<T>(m: map<nat, T>, w: (nat, T) -> nat)
    requires forall id :: id in m ==> w(id, m[id]) == 0
    ensures Total(m, w) == 0
    decreases |m|
  {
    if m != map[] {
      var id :| id in m;
      CardinalityAfterRemoval(m, id);
      TotalRemove(m, w, id);
      TotalZero(m - {id}, w);
    }
  }

  /** `to` and `back` are inverse to each other between two sets of keys. */
  ghost predicate Renames(keys: set<nat>, names: set<nat>, to: map<nat, nat>, back: map<nat, nat>) {
    && (forall i :: i in keys ==> i in to && to[i] in names && to[i] in back && back[to[i]] == i)
    && (forall j :: j in names ==> j in back && back[j] in keys && back[j] in to && to[back[j]] == j)
  }

  /** Renaming the keys of a map leaves its sum alone. */
  lemma {:induction false} TotalRename<T, U>(m: map<nat, T>, w: (nat, T) -> nat,
                                             n: map<nat, U>, v: (nat, U) -> nat,
                                             to: map<nat, nat>, back: map<nat, nat>)
    requires Renames(m.Keys, n.Keys, to, back)
    requires forall i :: i in m ==> w(i, m[i]) == v(to[i], n[to[i]])
    ensures Total(m, w) == Total(n, v)
    decreases |m|
  {
    if m == map[] {
      assert n == map[];
    } else {
      var i :| i in m;
      CardinalityAfterRemoval(m, i);
      TotalRemove(m, w, i);
      TotalRemove(n, v, to[i]);
      TotalRename(m - {i}, w, n - {to[i]}, v, to, back);
    }
  }
}
