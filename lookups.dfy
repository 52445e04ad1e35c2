/** The .NET `ILookup<K, X>` as a value: a sequence of groups, one per key, in
    the order in which `Enumerable.ToLookup` first met each key; together with
    the pieces of sequence reasoning the collections share. */
module Lookups {

  /** No element occurs twice. */
  predicate NoDup<T(==)>(s: seq<T>) {
    forall i, j :: 0 <= i < j < |s| ==> s[i] != s[j]
  }

  /** No key heads two groups. */
  predicate DistinctKeys<K(==), X>(groups: seq<(K, seq<X>)>) {
    forall i, j :: 0 <= i < j < |groups| ==> groups[i].0 != groups[j].0
  }

  /** Every group holds at least one element, as in every `ILookup` that
      `ToLookup` builds. */
  predicate NonEmptyGroups<K, X>(groups: seq<(K, seq<X>)>) {
    forall i :: 0 <= i < |groups| ==> groups[i].1 != []
  }

  /** Any `ILookup`: one group per key, where a group may be empty, as the
      groupings a multimap enumerates are for keys whose collection was
      emptied or created by its indexer. */
  type KeyedGroups<K(==), X> = groups: seq<(K, seq<X>)> | DistinctKeys(groups)
    witness []

  /** An `ILookup` built by `ToLookup`, whose groups are never empty. */
  type Lookup<K(==), X> = groups: seq<(K, seq<X>)> | DistinctKeys(groups) && NonEmptyGroups(groups)
    witness []

  /** The keys of the groups. */
  function KeysOf<K, X>(groups: seq<(K, seq<X>)>): set<K> {
    set i | 0 <= i < |groups| :: groups[i].0
  }

  /** The keys of a sequence of pairs. */
  function PairKeys<K, X>(pairs: seq<(K, X)>): set<K> {
    set i | 0 <= i < |pairs| :: pairs[i].0
  }

  /** The elements of key `k`, in their order in `pairs`. */
  function ValuesOf<K(==), X>(pairs: seq<(K, X)>, k: K): seq<X> {
    if pairs == [] then []
    else ValuesOf(pairs[..|pairs| - 1], k) + (if pairs[|pairs| - 1].0 == k then [pairs[|pairs| - 1].1] else [])
  }

  /** Adds one element to the group of `k`, or opens a new last group for it. */
  function AddToGroups<K(==), X>(groups: seq<(K, seq<X>)>, k: K, x: X): (r: seq<(K, seq<X>)>)
    ensures |r| == if k in KeysOf(groups) then |groups| else |groups| + 1
    ensures KeysOf(r) == KeysOf(groups) + {k}
    ensures forall i :: 0 <= i < |groups| ==> r[i] == (if groups[i].0 == k then (k, groups[i].1 + [x]) else groups[i])
    ensures k !in KeysOf(groups) ==> r[|groups|] == (k, [x])
  {
    if k in KeysOf(groups) then
      var r := seq(|groups|, i requires 0 <= i < |groups| =>
        if groups[i].0 == k then (k, groups[i].1 + [x]) else groups[i]);
      assert forall i :: 0 <= i < |groups| ==> r[i].0 == groups[i].0;
      assert KeysOf(r) == KeysOf(groups);
      r
    else
      var r := groups + [(k, [x])];
      assert r[|groups|].0 == k;
      assert forall i :: 0 <= i < |groups| ==> r[i] == groups[i];
      r
  }

  /** `Enumerable.ToLookup`: groups keyed in order of first appearance, each
      holding its key's elements in input order. */
  function ToLookup<K(==), X>(pairs: seq<(K, X)>): (r: Lookup<K, X>)
    ensures KeysOf(r) == PairKeys(pairs)
    ensures forall i :: 0 <= i < |r| ==> r[i].1 == ValuesOf(pairs, r[i].0)
  {
    if pairs == [] then []
    else
      var init, last := pairs[..|pairs| - 1], pairs[|pairs| - 1];
      var prev := ToLookup(init);
      var r := AddToGroups(prev, last.0, last.1);
      assert PairKeys(pairs) == PairKeys(init) + {last.0} by {
        forall y | y in PairKeys(pairs) ensures y in PairKeys(init) + {last.0} {
          var i :| 0 <= i < |pairs| && pairs[i].0 == y;
          if i < |pairs| - 1 { assert init[i].0 == y; }
        }
      }
      assert DistinctKeys(r) by {
        forall i, j | 0 <= i < j < |r| ensures r[i].0 != r[j].0 {
          if j == |prev| { assert last.0 !in KeysOf(prev); assert r[i].0 == prev[i].0; assert prev[i].0 in KeysOf(prev); }
        }
      }
      assert pairs[..|pairs| - 1] == init;
      forall i | 0 <= i < |r| ensures r[i].1 == ValuesOf(pairs, r[i].0) {
        if i == |prev| {
          assert last.0 !in PairKeys(init);
          ValuesOfAbsent(init, last.0);
        }
      }
      r
  }

  /** A key that does not occur has no elements. */
  lemma {:induction false} ValuesOfAbsent<K, X>(pairs: seq<(K, X)>, k: K)
    requires k !in PairKeys(pairs)
    ensures ValuesOf(pairs, k) == []
  {
    if pairs != [] {
      var init := pairs[..|pairs| - 1];
      assert forall i :: 0 <= i < |init| ==> init[i] == pairs[i];
      assert PairKeys(init) <= PairKeys(pairs) by {
        forall y | y in PairKeys(init) ensures y in PairKeys(pairs) {
          var i :| 0 <= i < |init| && init[i].0 == y;
          assert pairs[i].0 == y;
        }
      }
      assert pairs[|pairs| - 1].0 in PairKeys(pairs);
      ValuesOfAbsent(init, k);
    }
  }
  /** `x` is an element of some group keyed `k`. */
  predicate Listed<K(==), X(==)>(groups: seq<(K, seq<X>)>, k: K, x: X) {
    exists i :: 0 <= i < |groups| && groups[i].0 == k && x in groups[i].1
  }

  /** An element belongs to its key's values exactly when the pair occurs. */
  lemma {:induction false} ValuesOfMembers<K, X>(pairs: seq<(K, X)>, k: K, x: X)
    ensures x in ValuesOf(pairs, k) <==> (k, x) in pairs
  {
    if pairs != [] {
      var init := pairs[..|pairs| - 1];
      assert pairs == init + [pairs[|pairs| - 1]];
      ValuesOfMembers(init, k, x);
    }
  }

  /** Distinct pairs give each key distinct values. */
  lemma {:induction false} ValuesOfNoDup<K, X>(pairs: seq<(K, X)>, k: K)
    requires NoDup(pairs)
    ensures NoDup(ValuesOf(pairs, k))
  {
    if pairs != [] {
      var init, last := pairs[..|pairs| - 1], pairs[|pairs| - 1];
      assert pairs == init + [last];
      assert NoDup(init);
      ValuesOfNoDup(init, k);
      if last.0 == k {
        ValuesOfMembers(init, k, last.1);
        assert last !in init;
      }
    }
  }

  /** `ToLookup` lists exactly the input pairs, and distinct pairs give
      duplicate-free groups. */
  lemma {:induction false} ToLookupListsPairs<K, X>(pairs: seq<(K, X)>, k: K, x: X)
    ensures Listed(ToLookup(pairs), k, x) <==> (k, x) in pairs
    ensures NoDup(pairs) ==> forall i :: 0 <= i < |ToLookup(pairs)| ==> NoDup(ToLookup(pairs)[i].1)
  {
    var r := ToLookup(pairs);
    ValuesOfMembers(pairs, k, x);
    if (k, x) in pairs {
      assert k in PairKeys(pairs);
      var i :| 0 <= i < |r| && r[i].0 == k;
    }
    if NoDup(pairs) {
      forall i | 0 <= i < |r| ensures NoDup(r[i].1) { ValuesOfNoDup(pairs, r[i].0); }
    }
  }

  /** All elements of the groups keyed `k`, in order. */
  function GroupOf<K(==), X>(groups: seq<(K, seq<X>)>, k: K): seq<X> {
    if groups == [] then []
    else (if groups[0].0 == k then groups[0].1 else []) + GroupOf(groups[1..], k)
  }

  /** With distinct keys, a key's elements are those of its one group. */
  lemma {:induction false} GroupOfDistinct<K, X>(groups: seq<(K, seq<X>)>, i: nat)
    requires DistinctKeys(groups) && i < |groups|
    ensures GroupOf(groups, groups[i].0) == groups[i].1
  {
    if i == 0 {
      GroupOfAbsent(groups[1..], groups[0].0);
    } else {
      assert groups[1..][i - 1] == groups[i];
      GroupOfDistinct(groups[1..], i - 1);
    }
  }

  lemma {:induction false} GroupOfAbsent<K, X>(groups: seq<(K, seq<X>)>, k: K)
    requires forall i :: 0 <= i < |groups| ==> groups[i].0 != k
    ensures GroupOf(groups, k) == []
  {
    if groups != [] {
      GroupOfAbsent(groups[1..], k);
    }
  }

  /** The values `m` holds for `k`, or none. */
  function ValuesAt<K, X>(m: map<K, seq<X>>, k: K): seq<X> {
    if k in m then m[k] else []
  }

  /** Appends each group's elements to its key's values, creating missing keys:
      the effect of the `Add(ILookup)` methods of the multimaps. */
  function AppendGroups<K, X>(m: map<K, seq<X>>, groups: seq<(K, seq<X>)>): map<K, seq<X>>
    decreases |groups|
  {
    if groups == [] then m
    else AppendGroups(m[groups[0].0 := ValuesAt(m, groups[0].0) + groups[0].1], groups[1..])
  }

  /** After `AppendGroups`, the keys are the old keys and the group keys, and
      each key holds its old values followed by its groups' elements. */
  lemma {:induction false} AppendGroupsSpec<K, X>(m: map<K, seq<X>>, groups: seq<(K, seq<X>)>)
    ensures AppendGroups(m, groups).Keys == m.Keys + KeysOf(groups)
    ensures forall k :: k in AppendGroups(m, groups) ==> AppendGroups(m, groups)[k] == ValuesAt(m, k) + GroupOf(groups, k)
    decreases |groups|
  {
    if groups != [] {
      var k0 := groups[0].0;
      var m' := m[k0 := ValuesAt(m, k0) + groups[0].1];
      var after := AppendGroups(m', groups[1..]);
      assert AppendGroups(m, groups) == after;
      AppendGroupsSpec(m', groups[1..]);
      KeysOfFirst(groups);
      forall k | k in after ensures after[k] == ValuesAt(m, k) + GroupOf(groups, k) {
        AppendFirstGroup(m, groups, k);
      }
    }
  }

  /** Appending the first group and then the rest gives a key the same
      values as appending all the groups at once. */
  lemma {:induction false} AppendFirstGroup<K, X>(m: map<K, seq<X>>, groups: seq<(K, seq<X>)>, k: K)
    requires groups != []
    ensures ValuesAt(m[groups[0].0 := ValuesAt(m, groups[0].0) + groups[0].1], k) + GroupOf(groups[1..], k)
      == ValuesAt(m, k) + GroupOf(groups, k)
  {
    var first, rest := groups[0], GroupOf(groups[1..], k);
    var m' := m[first.0 := ValuesAt(m, first.0) + first.1];
    if first.0 == k {
      assert GroupOf(groups, k) == first.1 + rest;
      assert ValuesAt(m', k) == ValuesAt(m, k) + first.1;
      assert (ValuesAt(m, k) + first.1) + rest == ValuesAt(m, k) + (first.1 + rest);
    } else {
      assert GroupOf(groups, k) == [] + rest;
      assert [] + rest == rest;
      assert ValuesAt(m', k) == ValuesAt(m, k);
    }
  }

  /** The keys of a non-empty sequence of groups: the first group's key and
      the keys of the rest. */
  lemma {:induction false} KeysOfFirst<K, X>(groups: seq<(K, seq<X>)>)
    requires groups != []
    ensures KeysOf(groups) == {groups[0].0} + KeysOf(groups[1..])
  {
    forall y | y in KeysOf(groups) ensures y in {groups[0].0} + KeysOf(groups[1..]) {
      var i :| 0 <= i < |groups| && groups[i].0 == y;
      if i > 0 { assert groups[1..][i - 1].0 == y; }
    }
    forall y | y in KeysOf(groups[1..]) ensures y in KeysOf(groups) {
      var i :| 0 <= i < |groups[1..]| && groups[1..][i].0 == y;
      assert groups[i + 1].0 == y;
    }
    assert groups[0].0 in KeysOf(groups);
  }

  /** The pairs `(k, x)` for each `x` of `xs`, in order: what
      `xs.ToLookup(_ => k, Id)` groups. */
  function Tagged<K, X>(k: K, xs: seq<X>): (r: seq<(K, X)>)
    ensures |r| == |xs| && forall i :: 0 <= i < |xs| ==> r[i] == (k, xs[i])
  {
    seq(|xs|, i requires 0 <= i < |xs| => (k, xs[i]))
  }

  /** Appending pairs under one key adds their elements to that key only. */
  lemma {:induction false} ValuesOfTagged<K, X>(pairs: seq<(K, X)>, k: K, xs: seq<X>, k': K)
    ensures ValuesOf(pairs + Tagged(k, xs), k') == ValuesOf(pairs, k') + (if k' == k then xs else [])
    decreases |xs|
  {
    if xs != [] {
      var init := xs[..|xs| - 1];
      assert (pairs + Tagged(k, xs))[..|pairs| + |xs| - 1] == pairs + Tagged(k, init);
      ValuesOfTagged(pairs, k, init, k');
      assert xs == init + [xs[|xs| - 1]];
    } else {
      assert pairs + Tagged(k, xs) == pairs;
    }
  }

  /** A key occurs in some pair exactly when it has elements. */
  lemma {:induction false} PairKeysValues<K, X>(pairs: seq<(K, X)>, k: K)
    ensures k in PairKeys(pairs) <==> ValuesOf(pairs, k) != []
  {
    if k in PairKeys(pairs) {
      var i :| 0 <= i < |pairs| && pairs[i].0 == k;
      ValuesOfMembers(pairs, k, pairs[i].1);
    } else {
      ValuesOfAbsent(pairs, k);
    }
  }

  /** `Add(pairs.ToLookup(...))`: each key gains, in order, the elements the
      pairs give it; no other key changes. */
  lemma {:induction false} AppendPairs<K, X>(m: map<K, seq<X>>, pairs: seq<(K, X)>)
    ensures AppendGroups(m, ToLookup(pairs)).Keys == m.Keys + PairKeys(pairs)
    ensures forall k :: k in AppendGroups(m, ToLookup(pairs)) ==>
      AppendGroups(m, ToLookup(pairs))[k] == ValuesAt(m, k) + ValuesOf(pairs, k)
  {
    var g := ToLookup(pairs);
    AppendGroupsSpec(m, g);
    forall k | k in AppendGroups(m, g) ensures AppendGroups(m, g)[k] == ValuesAt(m, k) + ValuesOf(pairs, k) {
      if i :| 0 <= i < |g| && g[i].0 == k {
        GroupOfDistinct(g, i);
      } else {
        GroupOfAbsent(g, k);
        assert k !in PairKeys(pairs);
        ValuesOfAbsent(pairs, k);
      }
    }
  }

  /** `Add(lookup)` with distinct keys: each group's elements follow the
      old values of its key, and a key outside the lookup keeps its values.
      From an empty map this is the lookup itself, as a map. */
  lemma {:induction false} AppendLookupSpec<K, X>(m: map<K, seq<X>>, groups: KeyedGroups<K, X>)
    ensures AppendGroups(m, groups).Keys == m.Keys + KeysOf(groups)
    ensures forall i :: 0 <= i < |groups| ==> AppendGroups(m, groups)[groups[i].0] == ValuesAt(m, groups[i].0) + groups[i].1
    ensures forall k | k in m && k !in KeysOf(groups) :: AppendGroups(m, groups)[k] == m[k]
  {
    AppendGroupsSpec(m, groups);
    forall i | 0 <= i < |groups| ensures AppendGroups(m, groups)[groups[i].0] == ValuesAt(m, groups[i].0) + groups[i].1 {
      GroupOfDistinct(groups, i);
      assert groups[i].0 in KeysOf(groups);
    }
    forall k | k in m && k !in KeysOf(groups) ensures AppendGroups(m, groups)[k] == m[k] {
      GroupOfAbsent(groups, k);
    }
  }
}
