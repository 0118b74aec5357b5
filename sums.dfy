/** Sums over the entries of a string-keyed map, in no particular key order,
    and occurrence counts in a sequence of terms. The index's statistics
    range over its dictionary in Go's unspecified map order; these
    definitions give them a meaning that does not depend on that order. */
module Sums {

  /** The sum of f over the entries of m whose keys are in keys. */
  ghost function SumOver<V>(m: map<string, V>, keys: set<string>, f: V -> nat): nat
    requires keys <= m.Keys
    decreases |keys|
  {
    if keys == {} then 0
    else
      var k :| k in keys;
      f(m[k]) + SumOver(m, keys - {k}, f)
  }

  /** The sum of f over all entries of m. */
  ghost function Sum<V>(m: map<string, V>, f: V -> nat): nat
  {
    SumOver(m, m.Keys, f)
  }

  /** The weight of a count, used to sum the values of a count map. */
  function CountValue(n: nat): nat
  {
    n
  }

  /** Any key may be taken out first: the sum does not depend on the order. */
  lemma {:induction false} SumOverPick<V>(m: map<string, V>, keys: set<string>, f: V -> nat, k: string)
    requires keys <= m.Keys && k in keys
    ensures SumOver(m, keys, f) == f(m[k]) + SumOver(m, keys - {k}, f)
    decreases |keys|
  {
    var j :| j in keys && SumOver(m, keys, f) == f(m[j]) + SumOver(m, keys - {j}, f);
    if j != k {
      SumOverPick(m, keys - {j}, f, k);
      SumOverPick(m, keys - {k}, f, j);
      assert keys - {j} - {k} == keys - {k} - {j};
    }
  }

  /** Maps that agree on f over keys have the same sum over keys. */
  lemma {:induction false} SumOverAgree<V>(m1: map<string, V>, m2: map<string, V>, keys: set<string>, f: V -> nat)
    requires keys <= m1.Keys && keys <= m2.Keys
    requires forall k :: k in keys ==> f(m1[k]) == f(m2[k])
    ensures SumOver(m1, keys, f) == SumOver(m2, keys, f)
    decreases |keys|
  {
    if keys != {} {
      var k :| k in keys;
      SumOverPick(m1, keys, f, k);
      SumOverPick(m2, keys, f, k);
      SumOverAgree(m1, m2, keys - {k}, f);
    }
  }

  /** Storing v at key t replaces t's old contribution, if any, by f(v). */
  lemma SumUpdate<V>(m: map<string, V>, f: V -> nat, t: string, v: V)
    ensures Sum(m[t := v], f) + (if t in m then f(m[t]) else 0) == Sum(m, f) + f(v)
  {
    var m' := m[t := v];
    SumOverPick(m', m'.Keys, f, t);
    assert m'.Keys - {t} == m.Keys - {t};
    SumOverAgree(m', m, m.Keys - {t}, f);
    if t in m {
      SumOverPick(m, m.Keys, f, t);
    } else {
      assert m.Keys - {t} == m.Keys;
    }
  }

  /** A sum over keys is positive exactly when one of its entries is. */
  lemma {:induction false} SumOverPositive<V>(m: map<string, V>, keys: set<string>, f: V -> nat)
    requires keys <= m.Keys
    ensures SumOver(m, keys, f) > 0 <==> exists k :: k in keys && f(m[k]) > 0
    decreases |keys|
  {
    if keys != {} {
      var k :| k in keys;
      SumOverPick(m, keys, f, k);
      SumOverPositive(m, keys - {k}, f);
    }
  }

  /** When every entry weighs at least 1, the sum is at least the number of keys. */
  lemma {:induction false} SumOverAtLeastSize<V>(m: map<string, V>, keys: set<string>, f: V -> nat)
    requires keys <= m.Keys
    requires forall k :: k in keys ==> f(m[k]) >= 1
    ensures SumOver(m, keys, f) >= |keys|
    decreases |keys|
  {
    if keys != {} {
      var k :| k in keys;
      SumOverPick(m, keys, f, k);
      SumOverAtLeastSize(m, keys - {k}, f);
    }
  }

  /** The number of times t occurs in ts. */
  function Occurrences(ts: seq<string>, t: string): nat
  {
    if ts == [] then 0
    else Occurrences(ts[..|ts| - 1], t) + (if ts[|ts| - 1] == t then 1 else 0)
  }

  /** A term occurs at most |ts| times, and at least once exactly when it is in ts. */
  lemma {:induction false} OccurrencesBounds(ts: seq<string>, t: string)
    ensures Occurrences(ts, t) <= |ts|
    ensures Occurrences(ts, t) > 0 <==> t in ts
    decreases |ts|
  {
    if ts != [] {
      var init := ts[..|ts| - 1];
      OccurrencesBounds(init, t);
      assert ts == init + [ts[|ts| - 1]];
    }
  }

  /** A term that is not in ts occurs zero times. */
  lemma {:induction false} OccurrencesAbsent(ts: seq<string>, t: string)
    requires t !in ts
    ensures Occurrences(ts, t) == 0
    decreases |ts|
  {
    if ts != [] {
      OccurrencesAbsent(ts[..|ts| - 1], t);
    }
  }

  /** A prefix one longer is the prefix with one more element. */
  lemma PrefixStep<T>(s: seq<T>, i: nat)
    requires i < |s|
    ensures s[..i + 1] == s[..i] + [s[i]]
  {
  }

  lemma OccurrencesAppend(ts: seq<string>, x: string, t: string)
    ensures Occurrences(ts + [x], t) == Occurrences(ts, t) + (if x == t then 1 else 0)
  {
    assert (ts + [x])[..|ts|] == ts;
  }
}
