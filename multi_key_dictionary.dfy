/** The two-level keyed store `MultiKeyDictionary<TUpperKey, TLowerKey,
    TValue>`: a dictionary from an upper key to a dictionary from a lower key
    to a value, written in bulk by `AddOrUpdateMany` with two value
    factories, read back as streams of triples, and its static extension
    helpers. Streams are returned sequences; the cancellation token is a
    `Cancellation.Token` oracle. */
module GroupedStore {
  import opened Errors
  import opened Cancellation
  import opened Lookups
  import SpecOption

  type Store<U, L, V> = map<U, map<L, V>>

  /** The inner dictionary of `u`, or an empty one for an absent key (the
      one `AddOrUpdateMany` creates). */
  function InnerOf<U, L, V>(store: Store<U, L, V>, u: U): map<L, V> {
    if u in store then store[u] else map[]
  }

  /** The stored value of the pair `(u, l)`, if any. */
  function Entry<U, L, V>(store: Store<U, L, V>, u: U, l: L): SpecOption.Option<V> {
    if u in store && l in store[u] then SpecOption.Some(store[u][l]) else SpecOption.None
  }

  /** The value one factory call gives the pair `(u, l)` of `inner`:
      `updateValueFactory` of the present value, or `addValueFactory`. */
  function NewValue<U, L, V>(inner: map<L, V>, u: U, l: L, add: (U, L) -> V, upd: (U, L, V) -> V): V {
    if l in inner then upd(u, l, inner[l]) else add(u, l)
  }

  /** The pairs of a lookup, group by group, in order. */
  function Pairs<U, L>(keys: seq<(U, seq<L>)>): seq<(U, L)>
    decreases |keys|
  {
    if keys == [] then []
    else GroupPairs(keys[0].0, keys[0].1) + Pairs(keys[1..])
  }

  /** The pairs of one group: its upper key with each of its lower keys. */
  function GroupPairs<U, L>(u: U, ls: seq<L>): (r: seq<(U, L)>)
    ensures |r| == |ls| && forall j :: 0 <= j < |ls| ==> r[j] == (u, ls[j])
  {
    seq(|ls|, j requires 0 <= j < |ls| => (u, ls[j]))
  }

  /** A pair is one of the lookup's pairs exactly when its group lists it. */
  lemma {:induction false} PairsListed<U, L>(keys: seq<(U, seq<L>)>, u: U, l: L)
    ensures (u, l) in Pairs(keys) <==> Listed(keys, u, l)
    decreases |keys|
  {
    if keys != [] {
      PairsListed(keys[1..], u, l);
      var head := GroupPairs(keys[0].0, keys[0].1);
      assert (u, l) in head <==> keys[0].0 == u && l in keys[0].1 by {
        if (u, l) in head {
          var j :| 0 <= j < |head| && head[j] == (u, l);
        }
        if keys[0].0 == u && l in keys[0].1 {
          var j :| 0 <= j < |keys[0].1| && keys[0].1[j] == l;
          assert head[j] == (u, l);
        }
      }
      if Listed(keys[1..], u, l) {
        var i :| 0 <= i < |keys[1..]| && keys[1..][i].0 == u && l in keys[1..][i].1;
        assert keys[i + 1] == keys[1..][i];
      }
      if Listed(keys, u, l) {
        var i :| 0 <= i < |keys| && keys[i].0 == u && l in keys[i].1;
        if i > 0 {
          assert keys[1..][i - 1] == keys[i];
        }
      }
    }
  }

  /** Keys that are distinct at both levels: what the pointwise reading of
      a bulk write needs. */
  predicate DistinctPairs<U(==), L(==)>(keys: seq<(U, seq<L>)>) {
    DistinctKeys(keys) && forall i :: 0 <= i < |keys| ==> NoDup(keys[i].1)
  }

  // ---------------------------------------------------------------------
  // AddOrUpdateMany, as the function of the store it computes.

  /** The inner loop: for each lower key, poll (before the factory call),
      poll again (before the write), then write. The result is the new inner
      dictionary and whether a poll saw cancellation. Polls are numbered from
      `p`. */
  function UpsertGroup<U, L(==), V>(inner: map<L, V>, u: U, ls: seq<L>, add: (U, L) -> V, upd: (U, L, V) -> V,
                                    token: Token, p: nat): (map<L, V>, bool)
    decreases |ls|
  {
    if ls == [] then (inner, false)
    else if Cancelled(token, p) || Cancelled(token, p + 1) then (inner, true)
    else UpsertGroup(inner[ls[0] := NewValue(inner, u, ls[0], add, upd)], u, ls[1..], add, upd, token, p + 2)
  }

  /** The outer loop: the group of each upper key is created first (and stays
      even when the first poll stops the call), then filled by
      `UpsertGroup`; a stop ends the call and keeps every earlier write. */
  function UpsertMany<U(==), L(==), V>(store: Store<U, L, V>, keys: seq<(U, seq<L>)>, add: (U, L) -> V, upd: (U, L, V) -> V,
                                       token: Token, p: nat): Store<U, L, V>
    decreases |keys|
  {
    if keys == [] then store
    else
      var u := keys[0].0;
      var (inner, stopped) := UpsertGroup(InnerOf(store, u), u, keys[0].1, add, upd, token, p);
      if stopped then store[u := inner]
      else UpsertMany(store[u := inner], keys[1..], add, upd, token, p + 2 * |keys[0].1|)
  }

  /** Reference semantics without cancellation: every lower key of a group
      is written in turn. */
  function UpsertAll<U, L(==), V>(inner: map<L, V>, u: U, ls: seq<L>, add: (U, L) -> V, upd: (U, L, V) -> V): map<L, V>
    decreases |ls|
  {
    if ls == [] then inner
    else UpsertAll(inner[ls[0] := NewValue(inner, u, ls[0], add, upd)], u, ls[1..], add, upd)
  }

  function UpsertGroups<U(==), L(==), V>(store: Store<U, L, V>, keys: seq<(U, seq<L>)>, add: (U, L) -> V, upd: (U, L, V) -> V): Store<U, L, V>
    decreases |keys|
  {
    if keys == [] then store
    else
      var u := keys[0].0;
      UpsertGroups(store[u := UpsertAll(InnerOf(store, u), u, keys[0].1, add, upd)], keys[1..], add, upd)
  }

  /** The first `k` pairs of a lookup, keeping the group of the pair at which
      the cut falls (its group was created before the cut). */
  function Take<U, L>(keys: seq<(U, seq<L>)>, k: nat): seq<(U, seq<L>)>
    decreases |keys|
  {
    if keys == [] then []
    else if k < |keys[0].1| then [(keys[0].0, keys[0].1[..k])]
    else [keys[0]] + Take(keys[1..], k - |keys[0].1|)
  }

  function Min(a: nat, b: nat): nat {
    if a <= b then a else b
  }

  /** A token that is never cancelled lets a group run to its end. */
  lemma {:induction false} UpsertGroupNever<U, L, V>(inner: map<L, V>, u: U, ls: seq<L>, add: (U, L) -> V, upd: (U, L, V) -> V, p: nat)
    ensures UpsertGroup(inner, u, ls, add, upd, Never, p) == (UpsertAll(inner, u, ls, add, upd), false)
    decreases |ls|
  {
    if ls != [] {
      UpsertGroupNever(inner[ls[0] := NewValue(inner, u, ls[0], add, upd)], u, ls[1..], add, upd, p + 2);
    }
  }

  /** Without cancellation, `AddOrUpdateMany` is the reference bulk write. */
  lemma {:induction false} UpsertManyNever<U, L, V>(store: Store<U, L, V>, keys: seq<(U, seq<L>)>, add: (U, L) -> V, upd: (U, L, V) -> V, p: nat)
    ensures UpsertMany(store, keys, add, upd, Never, p) == UpsertGroups(store, keys, add, upd)
    decreases |keys|
  {
    if keys != [] {
      var u := keys[0].0;
      UpsertGroupNever(InnerOf(store, u), u, keys[0].1, add, upd, p);
      UpsertManyNever(store[u := UpsertAll(InnerOf(store, u), u, keys[0].1, add, upd)], keys[1..], add, upd, p + 2 * |keys[0].1|);
    }
  }

  /** A token cancelled after `n` polls lets the group write its first
      `(n - p) / 2` keys: each write costs two polls. */
  lemma {:induction false} UpsertGroupAfter<U, L, V>(inner: map<L, V>, u: U, ls: seq<L>, add: (U, L) -> V, upd: (U, L, V) -> V, n: nat, p: nat)
    requires p <= n
    ensures var k := (n - p) / 2;
      UpsertGroup(inner, u, ls, add, upd, AfterPolls(n), p)
        == if |ls| <= k then (UpsertAll(inner, u, ls, add, upd), false) else (UpsertAll(inner, u, ls[..k], add, upd), true)
    decreases |ls|
  {
    var k := (n - p) / 2;
    if ls != [] {
      if k == 0 {
        assert ls[..k] == [];
      } else {
        var inner' := inner[ls[0] := NewValue(inner, u, ls[0], add, upd)];
        UpsertGroupAfter(inner', u, ls[1..], add, upd, n, p + 2);
        assert (n - (p + 2)) / 2 == k - 1;
        if |ls| > k {
          assert ls[..k][0] == ls[0];
          assert ls[..k][1..] == ls[1..][..k - 1];
        }
      }
    }
  }

  /** A token cancelled after `n` polls makes `AddOrUpdateMany` the reference
      bulk write of the first `n / 2` pairs (counting from poll `p`): no
      write after the stop, every write before it kept. */
  lemma {:induction false} UpsertManyAfter<U, L, V>(store: Store<U, L, V>, keys: seq<(U, seq<L>)>, add: (U, L) -> V, upd: (U, L, V) -> V, n: nat, p: nat)
    requires p <= n
    ensures UpsertMany(store, keys, add, upd, AfterPolls(n), p) == UpsertGroups(store, Take(keys, (n - p) / 2), add, upd)
    decreases |keys|
  {
    if keys != [] {
      var u, ls, k := keys[0].0, keys[0].1, (n - p) / 2;
      UpsertGroupAfter(InnerOf(store, u), u, ls, add, upd, n, p);
      if |ls| <= k {
        var store' := store[u := UpsertAll(InnerOf(store, u), u, ls, add, upd)];
        assert (n - (p + 2 * |ls|)) / 2 == k - |ls|;
        UpsertManyAfter(store', keys[1..], add, upd, n, p + 2 * |ls|);
        assert ([keys[0]] + Take(keys[1..], k - |ls|))[1..] == Take(keys[1..], k - |ls|);
      }
    }
  }

  // ---------------------------------------------------------------------
  // The reference bulk write, pair by pair.

  /** Within one group of distinct lower keys, each listed key gets one
      factory value computed from the old inner dictionary, and every other
      key keeps its value. */
  lemma {:induction false} UpsertAllSpec<U, L, V>(inner: map<L, V>, u: U, ls: seq<L>, add: (U, L) -> V, upd: (U, L, V) -> V)
    requires NoDup(ls)
    ensures UpsertAll(inner, u, ls, add, upd).Keys == inner.Keys + set l | l in ls
    ensures forall l :: l in UpsertAll(inner, u, ls, add, upd) ==>
      UpsertAll(inner, u, ls, add, upd)[l] == if l in ls then NewValue(inner, u, l, add, upd) else inner[l]
    decreases |ls|
  {
    if ls != [] {
      var inner' := inner[ls[0] := NewValue(inner, u, ls[0], add, upd)];
      assert NoDup(ls[1..]) by {
        forall i, j | 0 <= i < j < |ls[1..]| ensures ls[1..][i] != ls[1..][j] {
          assert ls[1..][i] == ls[i + 1] && ls[1..][j] == ls[j + 1];
        }
      }
      assert ls[0] !in ls[1..] by {
        forall j | 0 <= j < |ls[1..]| ensures ls[1..][j] != ls[0] {
          assert ls[1..][j] == ls[j + 1];
        }
      }
      UpsertAllSpec(inner', u, ls[1..], add, upd);
      assert forall l :: l in ls <==> l == ls[0] || l in ls[1..] by {
        assert ls == [ls[0]] + ls[1..];
      }
      forall l | l in ls[1..]
        ensures NewValue(inner', u, l, add, upd) == NewValue(inner, u, l, add, upd)
      {
      }
    }
  }

  /** A pair is listed by a lookup exactly when its first group or the rest
      lists it. */
  lemma {:induction false} ListedCons<U, L>(keys: seq<(U, seq<L>)>, u: U, l: L)
    requires keys != []
    ensures Listed(keys, u, l) <==> (keys[0].0 == u && l in keys[0].1) || Listed(keys[1..], u, l)
  {
    if Listed(keys[1..], u, l) {
      var i :| 0 <= i < |keys[1..]| && keys[1..][i].0 == u && l in keys[1..][i].1;
      assert keys[i + 1] == keys[1..][i];
    }
    if Listed(keys, u, l) {
      var i :| 0 <= i < |keys| && keys[i].0 == u && l in keys[i].1;
      if i > 0 {
        assert keys[1..][i - 1] == keys[i];
      }
    }
  }

  /** The entry a bulk write over `keys` is meant to leave at `(u, l)`: a
      factory value from the old store when listed, the old entry otherwise. */
  function Written<U(==), L(==), V>(store: Store<U, L, V>, keys: seq<(U, seq<L>)>, u: U, l: L,
                                    add: (U, L) -> V, upd: (U, L, V) -> V): SpecOption.Option<V> {
    if Listed(keys, u, l) then SpecOption.Some(NewValue(InnerOf(store, u), u, l, add, upd)) else Entry(store, u, l)
  }

  /** With keys distinct at both levels, the reference bulk write gives every
      listed pair one factory value computed from the old store, leaves every
      other pair as it was, and adds exactly the listed upper keys. */
  lemma {:induction false} UpsertGroupsSpec<U, L, V>(store: Store<U, L, V>, keys: seq<(U, seq<L>)>, add: (U, L) -> V, upd: (U, L, V) -> V)
    requires DistinctPairs(keys)
    ensures UpsertGroups(store, keys, add, upd).Keys == store.Keys + KeysOf(keys)
    ensures forall u, l ::
      Entry(UpsertGroups(store, keys, add, upd), u, l) == Written(store, keys, u, l, add, upd)
    decreases |keys|
  {
    if keys != [] {
      var u0, ls0 := keys[0].0, keys[0].1;
      var store' := store[u0 := UpsertAll(InnerOf(store, u0), u0, ls0, add, upd)];
      var rest := keys[1..];
      assert DistinctPairs(rest) by {
        forall i, j | 0 <= i < j < |rest| ensures rest[i].0 != rest[j].0 {
          assert rest[i] == keys[i + 1] && rest[j] == keys[j + 1];
        }
        forall i | 0 <= i < |rest| ensures NoDup(rest[i].1) {
          assert rest[i] == keys[i + 1];
        }
      }
      assert forall i :: 0 <= i < |rest| ==> rest[i].0 != u0 by {
        forall i | 0 <= i < |rest| ensures rest[i].0 != u0 {
          assert rest[i] == keys[i + 1];
        }
      }
      UpsertGroupsSpec(store', rest, add, upd);
      assert NoDup(ls0);
      UpsertAllSpec(InnerOf(store, u0), u0, ls0, add, upd);
      KeysOfFirst(keys);
      forall u, l
        ensures Entry(UpsertGroups(store, keys, add, upd), u, l) == Written(store, keys, u, l, add, upd)
      {
        ListedCons(keys, u, l);
        if u == u0 {
          assert !Listed(rest, u, l);
        } else {
          assert InnerOf(store', u) == InnerOf(store, u);
        }
      }
    }
  }

  /** `Take` keeps the groups in order, each cut to a prefix. */
  lemma {:induction false} TakeShape<U, L>(keys: seq<(U, seq<L>)>, k: nat)
    ensures |Take(keys, k)| <= |keys|
    ensures forall i :: 0 <= i < |Take(keys, k)| ==>
      Take(keys, k)[i].0 == keys[i].0 && |Take(keys, k)[i].1| <= |keys[i].1|
        && Take(keys, k)[i].1 == keys[i].1[..|Take(keys, k)[i].1|]
    decreases |keys|
  {
    if keys != [] && k >= |keys[0].1| {
      TakeShape(keys[1..], k - |keys[0].1|);
      var t := Take(keys, k);
      forall i | 0 < i < |t| ensures t[i].0 == keys[i].0 && |t[i].1| <= |keys[i].1| && t[i].1 == keys[i].1[..|t[i].1|] {
        assert t[i] == Take(keys[1..], k - |keys[0].1|)[i - 1];
        assert keys[1..][i - 1] == keys[i];
      }
    }
  }

  lemma {:induction false} TakeDistinct<U, L>(keys: seq<(U, seq<L>)>, k: nat)
    requires DistinctPairs(keys)
    ensures DistinctPairs(Take(keys, k))
  {
    TakeShape(keys, k);
    var t := Take(keys, k);
    forall i | 0 <= i < |t| ensures NoDup(t[i].1) {
      var ls := keys[i].1;
      forall a, b | 0 <= a < b < |t[i].1| ensures t[i].1[a] != t[i].1[b] {
        assert t[i].1[a] == ls[a] && t[i].1[b] == ls[b];
      }
    }
  }

  /** The pairs `Take(keys, k)` lists are the first `k` pairs of `keys`. */
  lemma {:induction false} TakePairs<U, L>(keys: seq<(U, seq<L>)>, k: nat)
    ensures Pairs(Take(keys, k)) == Pairs(keys)[..Min(k, |Pairs(keys)|)]
    decreases |keys|
  {
    if keys != [] {
      var u, ls := keys[0].0, keys[0].1;
      var head, all := GroupPairs(u, ls), Pairs(keys);
      assert all == head + Pairs(keys[1..]);
      if k < |ls| {
        var cut := GroupPairs(u, ls[..k]);
        assert Pairs(Take(keys, k)) == cut + [];
        assert cut == all[..k];
      } else {
        TakePairs(keys[1..], k - |ls|);
        var rest := Pairs(keys[1..]);
        var m := Min(k - |ls|, |rest|);
        assert Pairs(Take(keys, k)) == head + Pairs(Take(keys[1..], k - |ls|));
        assert Min(k, |all|) == |head| + m;
        assert all[..|head| + m] == head + rest[..m];
      }
    }
  }

  /** `AddOrUpdateMany` with a token that is never cancelled: every listed
      pair holds its factory value, nothing else changes, and exactly the
      listed upper keys are added. */
  lemma {:induction false} AddOrUpdateManyNever<U, L, V>(store: Store<U, L, V>, keys: seq<(U, seq<L>)>, add: (U, L) -> V, upd: (U, L, V) -> V)
    requires DistinctPairs(keys)
    ensures UpsertMany(store, keys, add, upd, Never, 0).Keys == store.Keys + KeysOf(keys)
    ensures forall u, l :: Entry(UpsertMany(store, keys, add, upd, Never, 0), u, l) == Written(store, keys, u, l, add, upd)
  {
    UpsertManyNever(store, keys, add, upd, 0);
    UpsertGroupsSpec(store, keys, add, upd);
  }

  /** The entry a bulk write stopped after its first `k` pairs leaves at
      `(u, l)`. */
  function WrittenFirst<U(==), L(==), V>(store: Store<U, L, V>, keys: seq<(U, seq<L>)>, k: nat, u: U, l: L,
                                         add: (U, L) -> V, upd: (U, L, V) -> V): SpecOption.Option<V> {
    if (u, l) in Pairs(keys)[..Min(k, |Pairs(keys)|)]
    then SpecOption.Some(NewValue(InnerOf(store, u), u, l, add, upd))
    else Entry(store, u, l)
  }

  /** `AddOrUpdateMany` with a token cancelled after `n` polls: the first
      `n / 2` pairs are written as without cancellation, no later pair is,
      and the upper keys of the groups reached are added. */
  lemma {:induction false} AddOrUpdateManyCancelled<U, L, V>(store: Store<U, L, V>, keys: seq<(U, seq<L>)>, add: (U, L) -> V, upd: (U, L, V) -> V, n: nat)
    requires DistinctPairs(keys)
    ensures UpsertMany(store, keys, add, upd, AfterPolls(n), 0).Keys == store.Keys + KeysOf(Take(keys, n / 2))
    ensures forall u, l ::
      Entry(UpsertMany(store, keys, add, upd, AfterPolls(n), 0), u, l) == WrittenFirst(store, keys, n / 2, u, l, add, upd)
  {
    var t := Take(keys, n / 2);
    var written := UpsertGroups(store, t, add, upd);
    UpsertManyAfter(store, keys, add, upd, n, 0);
    assert UpsertMany(store, keys, add, upd, AfterPolls(n), 0) == written;
    TakeDistinct(keys, n / 2);
    UpsertGroupsSpec(store, t, add, upd);
    TakePairs(keys, n / 2);
    forall u, l ensures Entry(written, u, l) == WrittenFirst(store, keys, n / 2, u, l, add, upd) {
      PairsListed(t, u, l);
      assert Entry(written, u, l) == Written(store, t, u, l, add, upd);
    }
  }

  // ---------------------------------------------------------------------
  // The frame of the bulk write, for any lookup: repeated lower keys within
  // a group, which `ToLookup` keeps, included.

  /** One group's write adds exactly the listed lower keys and leaves every
      other key's value as it was. */
  lemma {:induction false} UpsertAllFrame<U, L, V>(inner: map<L, V>, u: U, ls: seq<L>, add: (U, L) -> V, upd: (U, L, V) -> V)
    ensures UpsertAll(inner, u, ls, add, upd).Keys == inner.Keys + set l | l in ls
    ensures forall l :: l in inner && l !in ls ==> UpsertAll(inner, u, ls, add, upd)[l] == inner[l]
    decreases |ls|
  {
    if ls != [] {
      var inner' := inner[ls[0] := NewValue(inner, u, ls[0], add, upd)];
      UpsertAllFrame(inner', u, ls[1..], add, upd);
      assert forall l :: l in ls <==> l == ls[0] || l in ls[1..] by {
        assert ls == [ls[0]] + ls[1..];
      }
    }
  }

  /** The reference bulk write adds exactly the lookup's upper keys, gives
      every listed pair a value and leaves every unlisted pair as it was. */
  lemma {:induction false} UpsertGroupsFrame<U, L, V>(store: Store<U, L, V>, keys: seq<(U, seq<L>)>, add: (U, L) -> V, upd: (U, L, V) -> V)
    ensures UpsertGroups(store, keys, add, upd).Keys == store.Keys + KeysOf(keys)
    ensures forall u, l :: Listed(keys, u, l) ==> Entry(UpsertGroups(store, keys, add, upd), u, l).Some?
    ensures forall u, l :: !Listed(keys, u, l) ==> Entry(UpsertGroups(store, keys, add, upd), u, l) == Entry(store, u, l)
    decreases |keys|
  {
    if keys != [] {
      var u0, ls0 := keys[0].0, keys[0].1;
      var store' := store[u0 := UpsertAll(InnerOf(store, u0), u0, ls0, add, upd)];
      var after := UpsertGroups(store', keys[1..], add, upd);
      assert UpsertGroups(store, keys, add, upd) == after;
      UpsertGroupsFrame(store', keys[1..], add, upd);
      UpsertAllFrame(InnerOf(store, u0), u0, ls0, add, upd);
      KeysOfFirst(keys);
      forall u, l ensures Listed(keys, u, l) ==> Entry(after, u, l).Some?
        ensures !Listed(keys, u, l) ==> Entry(after, u, l) == Entry(store, u, l)
      {
        ListedCons(keys, u, l);
        if u != u0 {
          assert InnerOf(store', u) == InnerOf(store, u);
        }
      }
    }
  }

  /** A cut of a lookup lists only pairs and upper keys of the lookup. */
  lemma {:induction false} TakeListed<U, L>(keys: seq<(U, seq<L>)>, k: nat)
    ensures KeysOf(Take(keys, k)) <= KeysOf(keys)
    ensures forall u, l :: Listed(Take(keys, k), u, l) ==> Listed(keys, u, l)
  {
    var t := Take(keys, k);
    TakeShape(keys, k);
    forall u | u in KeysOf(t) ensures u in KeysOf(keys) {
      var i :| 0 <= i < |t| && t[i].0 == u;
      assert keys[i].0 == u;
    }
    forall u, l | Listed(t, u, l) ensures Listed(keys, u, l) {
      var i :| 0 <= i < |t| && t[i].0 == u && l in t[i].1;
      var j :| 0 <= j < |t[i].1| && t[i].1[j] == l;
      assert keys[i].1[j] == l;
    }
  }

  /** `AddOrUpdateMany` under any token and for any lookup: the table keeps
      its upper keys and gains only the lookup's, an unlisted pair keeps its
      entry, and without cancellation every listed pair holds a value and
      every upper key of the lookup is added. */
  lemma {:induction false} AddOrUpdateManyFrame<U, L, V>(store: Store<U, L, V>, keys: seq<(U, seq<L>)>, add: (U, L) -> V, upd: (U, L, V) -> V, token: Token)
    requires DistinctKeys(keys)
    ensures store.Keys <= UpsertMany(store, keys, add, upd, token, 0).Keys <= store.Keys + KeysOf(keys)
    ensures forall u, l :: !Listed(keys, u, l) ==> Entry(UpsertMany(store, keys, add, upd, token, 0), u, l) == Entry(store, u, l)
    ensures token == Never ==> UpsertMany(store, keys, add, upd, token, 0).Keys == store.Keys + KeysOf(keys)
    ensures token == Never ==> forall u, l :: Listed(keys, u, l) ==> Entry(UpsertMany(store, keys, add, upd, token, 0), u, l).Some?
  {
    match token
    case Never =>
      UpsertManyNever(store, keys, add, upd, 0);
      UpsertGroupsFrame(store, keys, add, upd);
    case AfterPolls(n) =>
      var t := Take(keys, n / 2);
      UpsertManyAfter(store, keys, add, upd, n, 0);
      UpsertGroupsFrame(store, t, add, upd);
      TakeListed(keys, n / 2);
  }

  /** One step of the outer loop of `AddOrUpdateMany`. */
  lemma {:induction false} UpsertManyAt<U, L, V>(store: Store<U, L, V>, keys: seq<(U, seq<L>)>, i: nat, add: (U, L) -> V, upd: (U, L, V) -> V,
                              token: Token, p: nat, inner: map<L, V>, stopped: bool)
    requires i < |keys|
    requires (inner, stopped) == UpsertGroup(InnerOf(store, keys[i].0), keys[i].0, keys[i].1, add, upd, token, p)
    ensures UpsertMany(store, keys[i..], add, upd, token, p)
      == if stopped then store[keys[i].0 := inner]
         else UpsertMany(store[keys[i].0 := inner], keys[i + 1..], add, upd, token, p + 2 * |keys[i].1|)
  {
    assert keys[i..][0] == keys[i] && keys[i..][1..] == keys[i + 1..];
  }

  /** One step of the inner loop of `AddOrUpdateMany`. */
  lemma {:induction false} UpsertGroupAt<U, L, V>(inner: map<L, V>, u: U, ls: seq<L>, j: nat, add: (U, L) -> V, upd: (U, L, V) -> V,
                               token: Token, p: nat)
    requires j < |ls|
    ensures UpsertGroup(inner, u, ls[j..], add, upd, token, p)
      == if Cancelled(token, p) || Cancelled(token, p + 1) then (inner, true)
         else UpsertGroup(inner[ls[j] := NewValue(inner, u, ls[j], add, upd)], u, ls[j + 1..], add, upd, token, p + 2)
  {
    assert ls[j..][0] == ls[j] && ls[j..][1..] == ls[j + 1..];
  }

  // ---------------------------------------------------------------------
  // The read side.

  /** The query of `GetItems(keys)`: `from upperKey in keys from lowerKey in
      upperKey let upper = TryGetValue(upperKey.Key) from lower in upper
      select (upperKey.Key, lowerKey, lower.TryGetValue(lowerKey))`, over the
      lookup's pairs. The option `from` drops pairs whose upper key has no
      group. */
  function Requested<U(==), L(==), V>(store: Store<U, L, V>, pairs: seq<(U, L)>): seq<(U, L, SpecOption.Option<V>)> {
    SpecOption.SelectManySeq(pairs,
      (p: (U, L)) => SpecOption.TryGetValue(store, p.0),
      (p: (U, L), lower: map<L, V>) => (p.0, p.1, SpecOption.TryGetValue(lower, p.1)))
  }

  /** Each pair with its entry: what `TryRemove` reports. */
  function Annotated<U(==), L(==), V>(store: Store<U, L, V>, pairs: seq<(U, L)>): (r: seq<(U, L, SpecOption.Option<V>)>)
    ensures |r| == |pairs|
    ensures forall i :: 0 <= i < |pairs| ==> r[i] == (pairs[i].0, pairs[i].1, Entry(store, pairs[i].0, pairs[i].1))
  {
    seq(|pairs|, i requires 0 <= i < |pairs| => (pairs[i].0, pairs[i].1, Entry(store, pairs[i].0, pairs[i].1)))
  }

  /** `GetItems(keys)` reports a requested pair, with its entry, exactly when
      its upper key has a group; when every requested upper key has one, it
      reports every pair in order. */
  lemma {:induction false} RequestedSpec<U, L, V>(store: Store<U, L, V>, pairs: seq<(U, L)>, u: U, l: L, o: SpecOption.Option<V>)
    ensures (u, l, o) in Requested(store, pairs) <==> (u, l) in pairs && u in store && o == Entry(store, u, l)
    ensures (forall i :: 0 <= i < |pairs| ==> pairs[i].0 in store) ==> Requested(store, pairs) == Annotated(store, pairs)
  {
    RequestedMember(store, pairs, u, l, o);
    if forall i :: 0 <= i < |pairs| ==> pairs[i].0 in store {
      RequestedAll(store, pairs);
    }
  }

  /** The first requested pair is reported first, when its upper key has a
      group; the rest follow. */
  lemma {:induction false} RequestedFirst<U, L, V>(store: Store<U, L, V>, pairs: seq<(U, L)>)
    requires pairs != []
    ensures Requested(store, pairs)
      == (if pairs[0].0 in store then [(pairs[0].0, pairs[0].1, Entry(store, pairs[0].0, pairs[0].1))] else [])
         + Requested(store, pairs[1..])
  {
  }

  lemma {:induction false} RequestedMember<U, L, V>(store: Store<U, L, V>, pairs: seq<(U, L)>, u: U, l: L, o: SpecOption.Option<V>)
    ensures (u, l, o) in Requested(store, pairs) <==> (u, l) in pairs && u in store && o == Entry(store, u, l)
  {
    if pairs != [] {
      RequestedMember(store, pairs[1..], u, l, o);
      RequestedFirst(store, pairs);
      assert pairs == [pairs[0]] + pairs[1..];
    }
  }

  lemma {:induction false} RequestedAll<U, L, V>(store: Store<U, L, V>, pairs: seq<(U, L)>)
    requires forall i :: 0 <= i < |pairs| ==> pairs[i].0 in store
    ensures Requested(store, pairs) == Annotated(store, pairs)
  {
    if pairs != [] {
      var p := pairs[0];
      assert forall i :: 0 <= i < |pairs[1..]| ==> pairs[1..][i].0 in store by {
        forall i | 0 <= i < |pairs[1..]| ensures pairs[1..][i].0 in store { assert pairs[1..][i] == pairs[i + 1]; }
      }
      RequestedAll(store, pairs[1..]);
      RequestedFirst(store, pairs);
      assert Annotated(store, pairs) == [(p.0, p.1, Entry(store, p.0, p.1))] + Annotated(store, pairs[1..]);
    }
  }

  /** A stored triple. */
  predicate Stored<U, L, V(==)>(store: Store<U, L, V>, t: (U, L, V)) {
    t.0 in store && t.1 in store[t.0] && store[t.0][t.1] == t.2
  }

  // ---------------------------------------------------------------------
  // The class.

  class MultiKeyDictionary<U(==), L(==), V(==)> {
    /** `_items`. Inner dictionaries are held by value: the unsynchronised
        `GetGrouping` hands out the live inner dictionary, the locked one a
        copy, and the model gives the copy. */
    var items: Store<U, L, V>

    constructor()
      ensures items == map[]
    {
      items := map[];
    }

    /** The bulk add-or-update: nested loops over the lookup with two polls
        per lower key, an early return at the first poll that sees
        cancellation, and no roll-back. */
    method AddOrUpdateMany(keys: KeyedGroups<U, L>, add: (U, L) -> V, upd: (U, L, V) -> V, token: Token)
      modifies this
      ensures items == UpsertMany(old(items), keys, add, upd, token, 0)
    {
      ghost var target := UpsertMany(items, keys, add, upd, token, 0);
      var polls: nat := 0;
      var i := 0;
      while i < |keys|
        invariant 0 <= i <= |keys|
        invariant UpsertMany(items, keys[i..], add, upd, token, polls) == target
      {
        var u, ls := keys[i].0, keys[i].1;
        ghost var start := items;
        if u !in items {
          items := items[u := map[]];
        }
        assert items[u] == InnerOf(start, u);
        var stopped := FillGroup(u, ls, add, upd, token, polls);
        assert items == start[u := items[u]];
        UpsertManyAt(start, keys, i, add, upd, token, polls, items[u], stopped);
        if stopped {
          return;
        }
        polls := polls + 2 * |ls|;
        i := i + 1;
      }
    }

    /** The inner loop of `AddOrUpdateMany` over the lower keys `ls` of the
        existing group `u`, polls numbered from `p`: whether a poll saw
        cancellation, and the group as `UpsertGroup` leaves it. No other
        group changes. */
    method FillGroup(u: U, ls: seq<L>, add: (U, L) -> V, upd: (U, L, V) -> V, token: Token, p: nat)
      returns (stopped: bool)
      requires u in items
      modifies this
      ensures u in items && items == old(items)[u := items[u]]
      ensures (items[u], stopped) == UpsertGroup(old(items[u]), u, ls, add, upd, token, p)
    {
      var polls := p;
      var j := 0;
      while j < |ls|
        invariant 0 <= j <= |ls|
        invariant u in items && items == old(items)[u := items[u]]
        invariant polls == p + 2 * j
        invariant UpsertGroup(items[u], u, ls[j..], add, upd, token, polls) == UpsertGroup(old(items[u]), u, ls, add, upd, token, p)
      {
        var l := ls[j];
        UpsertGroupAt(items[u], u, ls, j, add, upd, token, polls);
        if Cancelled(token, polls) {
          return true;
        }
        var previous := items[u];
        var newValue;
        if l in previous {
          newValue := upd(u, l, previous[l]);
        } else {
          newValue := add(u, l);
        }
        // Cancellation is polled again here, after the factory call.
        if Cancelled(token, polls + 1) {
          return true;
        }
        items := items[u := previous[l := newValue]];
        polls := polls + 2;
        j := j + 1;
      }
      assert ls[j..] == [];
      stopped := false;
    }

    /** `GetGrouping`: a cancelled task if cancellation is already requested,
        else the inner dictionary, and the indexer's failure for an absent
        upper key. */
    function GetGrouping(u: U, token: Token): (r: Outcome<map<L, V>>)
      reads this
      ensures r.Ok? <==> !Cancelled(token, 0) && u in items
      ensures r.Ok? ==> r.value == items[u]
      ensures r.Err? ==> r.error == if Cancelled(token, 0) then OperationCanceled else KeyNotFound
    {
      if Cancelled(token, 0) then Err(OperationCanceled)
      else if u in items then Ok(items[u])
      else Err(KeyNotFound)
    }

    /** `GetItems(keys)`: the query results, each after one poll, up to the
        first poll that sees cancellation. */
    method GetItemsFor(keys: KeyedGroups<U, L>, token: Token) returns (r: seq<(U, L, SpecOption.Option<V>)>)
      ensures r == Requested(items, Pairs(keys))[..PollsPassed(token, |Requested(items, Pairs(keys))|)]
    {
      var all := Requested(items, Pairs(keys));
      r := [];
      var i := 0;
      while i < |all|
        invariant 0 <= i <= |all|
        invariant forall k :: 0 <= k < i ==> !Cancelled(token, k)
        invariant r == all[..i]
      {
        if Cancelled(token, i) {
          return;
        }
        r := r + [all[i]];
        i := i + 1;
      }
    }

    /** One enumeration of `_items` and its inner dictionaries, in an order
        the dictionaries do not specify: every stored triple exactly once. */
    method EnumerateItems() returns (all: seq<(U, L, V)>)
      ensures NoDup(all)
      ensures forall t :: t in all <==> Stored(items, t)
    {
      all := [];
      var rest := items.Keys;
      while rest != {}
        invariant rest <= items.Keys
        invariant NoDup(all)
        invariant forall t :: t in all <==> Stored(items, t) && t.0 !in rest
        decreases rest
      {
        var u :| u in rest;
        var lower := items[u];
        var lowerRest := lower.Keys;
        while lowerRest != {}
          invariant lowerRest <= lower.Keys
          invariant NoDup(all)
          invariant forall t :: t in all <==> Stored(items, t) && (t.0 !in rest || (t.0 == u && t.1 !in lowerRest))
          decreases lowerRest
        {
          var l :| l in lowerRest;
          assert (u, l, lower[l]) !in all;
          all := all + [(u, l, lower[l])];
          lowerRest := lowerRest - {l};
        }
        rest := rest - {u};
      }
    }

    /** `GetItems()`: the stored triples, each after one poll, up to the first
        poll that sees cancellation. */
    method GetItems(token: Token) returns (r: seq<(U, L, V)>)
      ensures NoDup(r)
      ensures forall t :: t in r ==> Stored(items, t)
      ensures forall k :: 0 <= k < |r| ==> !Cancelled(token, k)
      ensures (forall t :: Stored(items, t) ==> t in r) || Cancelled(token, |r|)
    {
      var all := EnumerateItems();
      r := [];
      var i := 0;
      while i < |all|
        invariant 0 <= i <= |all|
        invariant forall k :: 0 <= k < i ==> !Cancelled(token, k)
        invariant r == all[..i]
      {
        if Cancelled(token, i) {
          return;
        }
        r := r + [all[i]];
        i := i + 1;
      }
      assert r == all;
    }

    /** The lookup of every stored pair, grouped by upper key: the default
        `keys` of `TryRemove`. */
    method StoredKeys() returns (used: Lookup<U, L>)
      ensures forall u, l :: Listed(used, u, l) <==> Entry(items, u, l).Some?
      ensures forall k :: 0 <= k < |used| ==> NoDup(used[k].1)
    {
      var all := EnumerateItems();
      var pairs := KeyPairs(all);
      StoredKeyPairs(items, all);
      used := ToLookup(pairs);
      forall u, l ensures Listed(used, u, l) <==> Entry(items, u, l).Some? {
        ToLookupListsPairs(pairs, u, l);
      }
      if pairs != [] {
        ToLookupListsPairs(pairs, pairs[0].0, pairs[0].1);
      }
    }

    /** `TryRemove` as written: it reports every requested pair with its
        entry (`None` under a missing upper key), one poll per pair, and
        neither deletes anything nor calls `predicate`. With no `keys` it
        requests every stored pair. It also returns the keys it used. */
    method TryRemove(keys: SpecOption.Option<KeyedGroups<U, L>>, predicate_: (U, L, SpecOption.Option<V>) -> bool, token: Token)
      returns (r: seq<(U, L, SpecOption.Option<V>)>, used: KeyedGroups<U, L>)
      ensures keys.Some? ==> used == keys.value
      ensures keys.None? ==> NonEmptyGroups(used)
      ensures keys.None? ==> forall u, l :: Listed(used, u, l) <==> Entry(items, u, l).Some?
      ensures keys.None? ==> forall k :: 0 <= k < |used| ==> NoDup(used[k].1)
      ensures r == Annotated(items, Pairs(used))[..PollsPassed(token, |Pairs(used)|)]
    {
      if keys.Some? {
        used := keys.value;
      } else {
        used := StoredKeys();
      }
      var ps := Pairs(used);
      r := [];
      var i := 0;
      while i < |ps|
        invariant 0 <= i <= |ps|
        invariant forall k :: 0 <= k < i ==> !Cancelled(token, k)
        invariant r == Annotated(items, ps)[..i]
      {
        if Cancelled(token, i) {
          return;
        }
        var (u, l) := ps[i];
        if u in items {
          if l in items[u] {
            r := r + [(u, l, SpecOption.AsOption(items[u][l]))];
          } else {
            r := r + [(u, l, SpecOption.None)];
          }
        } else {
          r := r + [(u, l, SpecOption.None)];
        }
        i := i + 1;
      }
    }

    /** `Clear` empties the table unless cancellation is requested at entry. */
    method Clear(token: Token)
      modifies this
      ensures items == if Cancelled(token, 0) then old(items) else map[]
    {
      if !Cancelled(token, 0) {
        items := map[];
      }
    }
  }

  // ---------------------------------------------------------------------
  // The static extension helpers.

  /** The key pairs of an enumeration of the stored triples are distinct,
      and they are exactly the pairs that hold a value. */
  lemma {:induction false} StoredKeyPairs<U, L, V>(store: Store<U, L, V>, all: seq<(U, L, V)>)
    requires NoDup(all) && forall t :: t in all <==> Stored(store, t)
    ensures NoDup(KeyPairs(all))
    ensures forall u, l :: (u, l) in KeyPairs(all) <==> Entry(store, u, l).Some?
  {
    var pairs := KeyPairs(all);
    forall a, b | 0 <= a < b < |pairs| ensures pairs[a] != pairs[b] {
      assert all[a] in all && all[b] in all;
      assert all[a] != all[b];
    }
    forall u, l ensures (u, l) in pairs <==> Entry(store, u, l).Some? {
      if Entry(store, u, l).Some? {
        assert Stored(store, (u, l, store[u][l]));
        var k :| 0 <= k < |all| && all[k] == (u, l, store[u][l]);
        assert pairs[k] == (u, l);
      }
      if (u, l) in pairs {
        var k :| 0 <= k < |pairs| && pairs[k] == (u, l);
        assert all[k] in all;
      }
    }
  }

  /** The `(upper, lower)` keys of a sequence of triples. */
  function KeyPairs<U, L, V>(items: seq<(U, L, V)>): (r: seq<(U, L)>)
    ensures |r| == |items|
    ensures forall i :: 0 <= i < |items| ==> r[i] == (items[i].0, items[i].1)
  {
    seq(|items|, i requires 0 <= i < |items| => (items[i].0, items[i].1))
  }

  /** `items.ToDictionary(a => (a.Item1, a.Item2), a => a.Item3)`, for items
      whose key pairs are distinct. */
  function ItemMap<U(==), L(==), V>(items: seq<(U, L, V)>): map<(U, L), V> {
    if items == [] then map[]
    else
      var last := items[|items| - 1];
      ItemMap(items[..|items| - 1])[(last.0, last.1) := last.2]
  }

  /** With distinct key pairs, the dictionary maps each pair to its value. */
  lemma {:induction false} ItemMapSpec<U, L, V>(items: seq<(U, L, V)>)
    requires NoDup(KeyPairs(items))
    ensures forall p :: p in ItemMap(items) <==> p in KeyPairs(items)
    ensures forall i :: 0 <= i < |items| ==> ItemMap(items)[KeyPairs(items)[i]] == items[i].2
  {
    if items != [] {
      var n := |items| - 1;
      var init := items[..n];
      var ks := KeyPairs(items);
      assert KeyPairs(init) == ks[..n];
      assert ks == ks[..n] + [ks[n]];
      assert NoDup(KeyPairs(init)) by {
        forall a, b | 0 <= a < b < n ensures ks[..n][a] != ks[..n][b] {
          assert ks[a] != ks[b];
        }
      }
      ItemMapSpec(init);
      forall i | 0 <= i < |items| ensures ItemMap(items)[ks[i]] == items[i].2 {
        if i < n {
          assert init[i] == items[i];
          assert ks[i] != ks[n];
        }
      }
    }
  }

  /** The upper keys of a sequence of triples. */
  function UpperKeys<U, L, V>(items: seq<(U, L, V)>): set<U> {
    set i | 0 <= i < |items| :: items[i].0
  }

  /** The factory `(a, b) => itemLookup[(a, b)]`; `fallback` is never
      needed, since only listed pairs reach a factory. */
  function ItemValue<U(==), L(==), V>(m: map<(U, L), V>, fallback: V, a: U, b: L): V {
    if (a, b) in m then m[(a, b)] else fallback
  }

  function ItemAdd<U(==), L(==), V>(m: map<(U, L), V>, fallback: V): (U, L) -> V {
    (a, b) => ItemValue(m, fallback, a, b)
  }

  function ItemUpdate<U(==), L(==), V>(m: map<(U, L), V>, fallback: V): (U, L, V) -> V {
    (a, b, _) => ItemValue(m, fallback, a, b)
  }

  /** The extension `AddOrUpdateMany(items)`: a duplicate key pair fails in
      `ToDictionary` before anything is written; otherwise the bulk write of
      the lookup of the key pairs, with both factories reading the given
      value. */
  function AddItems<U(==), L(==), V>(store: Store<U, L, V>, items: seq<(U, L, V)>, token: Token): Outcome<Store<U, L, V>> {
    if !NoDup(KeyPairs(items)) then Err(DuplicateKey)
    else if items == [] then Ok(store)
    else
      var m, fallback := ItemMap(items), items[0].2;
      Ok(UpsertMany(store, ToLookup(KeyPairs(items)), ItemAdd(m, fallback), ItemUpdate(m, fallback), token, 0))
  }

  /** The bulk write behind `AddOrUpdateMany(items)`, without cancellation. */
  function ItemsWrite<U(==), L(==), V>(store: Store<U, L, V>, items: seq<(U, L, V)>): Store<U, L, V>
    requires items != []
  {
    UpsertMany(store, ToLookup(KeyPairs(items)), ItemAdd(ItemMap(items), items[0].2), ItemUpdate(ItemMap(items), items[0].2), Never, 0)
  }

  /** The lookup of distinct key pairs lists each pair once. */
  lemma {:induction false} ItemsLookup<U, L, V>(items: seq<(U, L, V)>)
    requires NoDup(KeyPairs(items)) && items != []
    ensures DistinctPairs(ToLookup(KeyPairs(items)))
    ensures KeysOf(ToLookup(KeyPairs(items))) == UpperKeys(items)
    ensures forall u, l :: Listed(ToLookup(KeyPairs(items)), u, l) <==> (u, l) in KeyPairs(items)
  {
    var pairs := KeyPairs(items);
    ToLookupListsPairs(pairs, pairs[0].0, pairs[0].1);
    forall u, l ensures Listed(ToLookup(pairs), u, l) <==> (u, l) in pairs {
      ToLookupListsPairs(pairs, u, l);
    }
    assert PairKeys(pairs) == UpperKeys(items) by {
      forall y | y in PairKeys(pairs) ensures y in UpperKeys(items) {
        var i :| 0 <= i < |pairs| && pairs[i].0 == y;
      }
      forall y | y in UpperKeys(items) ensures y in PairKeys(pairs) {
        var i :| 0 <= i < |items| && items[i].0 == y;
        assert pairs[i].0 == y;
      }
    }
  }

  lemma {:induction false} BulkWriteOfItems<U, L, V>(store: Store<U, L, V>, items: seq<(U, L, V)>)
    requires NoDup(KeyPairs(items)) && items != []
    ensures ItemsWrite(store, items).Keys == store.Keys + UpperKeys(items)
    ensures forall i :: 0 <= i < |items| ==> Entry(ItemsWrite(store, items), items[i].0, items[i].1) == SpecOption.Some(items[i].2)
    ensures forall u, l :: (u, l) !in KeyPairs(items) ==> Entry(ItemsWrite(store, items), u, l) == Entry(store, u, l)
  {
    var m, fallback := ItemMap(items), items[0].2;
    var keys := ToLookup(KeyPairs(items));
    ItemsLookup(items);
    AddOrUpdateManyNever(store, keys, ItemAdd(m, fallback), ItemUpdate(m, fallback));
    forall i | 0 <= i < |items| ensures Entry(ItemsWrite(store, items), items[i].0, items[i].1) == SpecOption.Some(items[i].2) {
      ItemWritten(store, items, i);
    }
  }

  /** The pair of the `i`-th item gets that item's value. */
  lemma {:induction false} ItemWritten<U, L, V>(store: Store<U, L, V>, items: seq<(U, L, V)>, i: nat)
    requires NoDup(KeyPairs(items)) && i < |items|
    ensures Entry(ItemsWrite(store, items), items[i].0, items[i].1) == SpecOption.Some(items[i].2)
  {
    var m, fallback := ItemMap(items), items[0].2;
    var keys := ToLookup(KeyPairs(items));
    var add, upd := ItemAdd(m, fallback), ItemUpdate(m, fallback);
    var u, l := items[i].0, items[i].1;
    ItemsLookup(items);
    AddOrUpdateManyNever(store, keys, add, upd);
    ItemMapSpec(items);
    assert KeyPairs(items)[i] == (u, l);
    assert ItemValue(m, fallback, u, l) == items[i].2;
  }

  /** Without cancellation, `AddOrUpdateMany(items)` fails exactly on a
      duplicate key pair; otherwise every listed pair holds its given value,
      no other pair changes, and exactly the listed upper keys are added. */
  lemma {:induction false} AddItemsSpec<U, L, V>(store: Store<U, L, V>, items: seq<(U, L, V)>)
    ensures AddItems(store, items, Never).Err? <==> !NoDup(KeyPairs(items))
    ensures AddItems(store, items, Never).Err? ==> AddItems(store, items, Never).error == DuplicateKey
    ensures AddItems(store, items, Never).Ok? ==>
      var r := AddItems(store, items, Never).value;
      && r.Keys == store.Keys + UpperKeys(items)
      && (forall i :: 0 <= i < |items| ==> Entry(r, items[i].0, items[i].1) == SpecOption.Some(items[i].2))
      && (forall u, l :: (u, l) !in KeyPairs(items) ==> Entry(r, u, l) == Entry(store, u, l))
  {
    if NoDup(KeyPairs(items)) && items != [] {
      BulkWriteOfItems(store, items);
    }
  }

  /** A bulk write of the single pair `(u, l)`, as `TryAdd` and `TryUpdate`
      issue it: the group of `u` is created, and the pair written unless
      one of its two polls sees cancellation. */
  lemma {:induction false} UpsertSingle<U, L, V>(store: Store<U, L, V>, u: U, l: L, add: (U, L) -> V, upd: (U, L, V) -> V, token: Token)
    ensures UpsertMany(store, [(u, [l])], add, upd, token, 0)
      == if Cancelled(token, 0) || Cancelled(token, 1) then store[u := InnerOf(store, u)]
         else store[u := InnerOf(store, u)[l := NewValue(InnerOf(store, u), u, l, add, upd)]]
  {
    var inner := InnerOf(store, u);
    assert [l][1..] == [] && [(u, [l])][1..] == [];
    assert UpsertGroup(inner[l := NewValue(inner, u, l, add, upd)], u, [], add, upd, token, 2)
      == (inner[l := NewValue(inner, u, l, add, upd)], false);
  }

  /** The table after `TryAdd` as written, with whether it returned true.
      The flag of its private token source is set exactly when
      `updateValueFactory` runs, that is when the pair is present; the token
      is not passed to `AddOrUpdateMany`, so nothing stops the write of
      `default` (`dflt`) over the present value. */
  function TryAddAsWritten<U(==), L(==), V>(store: Store<U, L, V>, u: U, l: L, value: V, dflt: V): (bool, Store<U, L, V>) {
    (Entry(store, u, l).None?, UpsertMany(store, [(u, [l])], (_, _) => value, (_, _, _) => dflt, Never, 0))
  }

  /** As written, `TryAdd` returns true exactly for an absent pair, but on a
      present pair it overwrites the value with `default`. */
  lemma {:induction false} TryAddAsWrittenSpec<U, L, V>(store: Store<U, L, V>, u: U, l: L, value: V, dflt: V)
    ensures TryAddAsWritten(store, u, l, value, dflt).0 <==> Entry(store, u, l).None?
    ensures TryAddAsWritten(store, u, l, value, dflt).1
      == store[u := InnerOf(store, u)[l := if Entry(store, u, l).None? then value else dflt]]
  {
    UpsertSingle(store, u, l, (_, _) => value, (_, _, _) => dflt, Never);
  }

  /** `TryAdd` with its token passed on: the update factory cancels it, and
      the poll after the factory call (poll 1) sees the cancellation. */
  function TryAddIntended<U(==), L(==), V>(store: Store<U, L, V>, u: U, l: L, value: V, dflt: V): (bool, Store<U, L, V>) {
    var token := if Entry(store, u, l).Some? then AfterPolls(1) else Never;
    (Entry(store, u, l).None?, UpsertMany(store, [(u, [l])], (_, _) => value, (_, _, _) => dflt, token, 0))
  }

  /** The intended `TryAdd`: it adds an absent pair and returns true, or
      leaves the whole table unchanged and returns false. */
  lemma {:induction false} TryAddIntendedSpec<U, L, V>(store: Store<U, L, V>, u: U, l: L, value: V, dflt: V)
    ensures TryAddIntended(store, u, l, value, dflt).0 <==> Entry(store, u, l).None?
    ensures TryAddIntended(store, u, l, value, dflt).0 ==> TryAddIntended(store, u, l, value, dflt).1 == store[u := InnerOf(store, u)[l := value]]
    ensures !TryAddIntended(store, u, l, value, dflt).0 ==> TryAddIntended(store, u, l, value, dflt).1 == store
  {
    UpsertSingle(store, u, l, (_, _) => value, (_, _, _) => dflt, if Entry(store, u, l).Some? then AfterPolls(1) else Never);
  }

  /** The table after `TryUpdate` as written, with whether it returned true.
      Its guard compares `previousValue` with itself and never fires, so a
      present pair always receives `value`; on an absent pair
      `addValueFactory` sets the flag and returns `default`, which is then
      written, because the token is not passed on. */
  function TryUpdateAsWritten<U(==), L(==), V>(store: Store<U, L, V>, u: U, l: L, previousValue: V, value: V, dflt: V): (bool, Store<U, L, V>) {
    (Entry(store, u, l).Some?, UpsertMany(store, [(u, [l])], (_, _) => dflt, (_, _, _) => value, Never, 0))
  }

  /** As written, `TryUpdate` ignores `previousValue`, and on an absent pair
      returns false yet writes `default`. */
  lemma {:induction false} TryUpdateAsWrittenSpec<U, L, V>(store: Store<U, L, V>, u: U, l: L, previousValue: V, value: V, dflt: V)
    ensures TryUpdateAsWritten(store, u, l, previousValue, value, dflt).0 <==> Entry(store, u, l).Some?
    ensures TryUpdateAsWritten(store, u, l, previousValue, value, dflt).1
      == store[u := InnerOf(store, u)[l := if Entry(store, u, l).Some? then value else dflt]]
  {
    UpsertSingle(store, u, l, (_, _) => dflt, (_, _, _) => value, Never);
  }

  /** `TryUpdate` comparing the present value with `previousValue` and
      passing its token on: either factory that cancels is followed by the
      poll that sees it. */
  function TryUpdateIntended<U(==), L(==), V(==)>(store: Store<U, L, V>, u: U, l: L, previousValue: V, value: V, dflt: V): (bool, Store<U, L, V>) {
    var ok := Entry(store, u, l) == SpecOption.Some(previousValue);
    var token := if ok then Never else AfterPolls(1);
    (ok, UpsertMany(store, [(u, [l])], (_, _) => dflt, (_, _, compared) => if compared == previousValue then value else dflt, token, 0))
  }

  /** The intended `TryUpdate`: a pair holding `previousValue` gets `value`
      and the call returns true; otherwise no entry changes (only the empty
      group of a new upper key appears, as in every bulk write) and it
      returns false. */
  lemma {:induction false} TryUpdateIntendedSpec<U, L, V>(store: Store<U, L, V>, u: U, l: L, previousValue: V, value: V, dflt: V)
    ensures TryUpdateIntended(store, u, l, previousValue, value, dflt).0 <==> Entry(store, u, l) == SpecOption.Some(previousValue)
    ensures TryUpdateIntended(store, u, l, previousValue, value, dflt).0 ==>
      TryUpdateIntended(store, u, l, previousValue, value, dflt).1 == store[u := store[u][l := value]]
    ensures !TryUpdateIntended(store, u, l, previousValue, value, dflt).0 ==>
      TryUpdateIntended(store, u, l, previousValue, value, dflt).1 == store[u := InnerOf(store, u)]
  {
    UpsertSingle(store, u, l, (_, _) => dflt, (_, _, compared) => if compared == previousValue then value else dflt,
                 if Entry(store, u, l) == SpecOption.Some(previousValue) then Never else AfterPolls(1));
  }

  /** The extension `AddOrUpdateMany(items)`: `ToDictionary` over the items
      (one dictionary insertion per item, failing on a repeated key pair),
      then the bulk write of the lookup of its keys, whose factories both
      read the dictionary. An empty `items` gives an empty lookup, which
      writes nothing. */
  method AddOrUpdateItems<U(==), L(==), V(==)>(d: MultiKeyDictionary<U, L, V>, items: seq<(U, L, V)>, token: Token)
    returns (r: Outcome<()>)
    modifies d
    ensures AddItems(old(d.items), items, token) == if r.Ok? then Ok(d.items) else Err(r.error)
    ensures r.Err? ==> d.items == old(d.items)
  {
    var itemLookup: map<(U, L), V> := map[];
    var i := 0;
    while i < |items|
      invariant 0 <= i <= |items|
      invariant NoDup(KeyPairs(items[..i]))
      invariant itemLookup == ItemMap(items[..i])
      invariant d.items == old(d.items)
    {
      var (a, b, c) := items[i];
      if (a, b) in itemLookup {
        RepeatedPair(items, i);
        return Err(DuplicateKey);
      }
      FreshPair(items, i);
      itemLookup := itemLookup[(a, b) := c];
      i := i + 1;
    }
    assert items[..|items|] == items;
    if items == [] {
      return Ok(());
    }
    var keyLookup := ToLookup(KeyPairs(items));
    d.AddOrUpdateMany(keyLookup, ItemAdd(itemLookup, items[0].2), ItemUpdate(itemLookup, items[0].2), token);
    r := Ok(());
  }

  /** A key pair already in the dictionary built from the earlier items
      repeats a key pair of the whole sequence. */
  lemma {:induction false} RepeatedPair<U, L, V>(items: seq<(U, L, V)>, i: nat)
    requires i < |items| && NoDup(KeyPairs(items[..i]))
    requires (items[i].0, items[i].1) in ItemMap(items[..i])
    ensures !NoDup(KeyPairs(items))
  {
    ItemMapSpec(items[..i]);
    var k :| 0 <= k < i && KeyPairs(items[..i])[k] == (items[i].0, items[i].1);
    assert items[..i][k] == items[k];
    assert KeyPairs(items)[k] == KeyPairs(items)[i];
  }

  /** A new key pair keeps the key pairs distinct and is inserted into the
      dictionary built so far. */
  lemma {:induction false} FreshPair<U, L, V>(items: seq<(U, L, V)>, i: nat)
    requires i < |items| && NoDup(KeyPairs(items[..i]))
    requires (items[i].0, items[i].1) !in ItemMap(items[..i])
    ensures NoDup(KeyPairs(items[..i + 1]))
    ensures ItemMap(items[..i + 1]) == ItemMap(items[..i])[(items[i].0, items[i].1) := items[i].2]
  {
    ItemMapSpec(items[..i]);
    assert items[..i + 1][..i] == items[..i];
    var before, after := KeyPairs(items[..i]), KeyPairs(items[..i + 1]);
    forall x, y | 0 <= x < y < i + 1 ensures after[x] != after[y] {
      if y == i {
        assert before[x] == after[x];
        assert after[y] == (items[i].0, items[i].1);
      } else {
        assert before[x] != before[y];
      }
    }
  }

  /** `TryAdd` as written. `dflt` stands for `default(TValue)`. */
  method TryAdd<U(==), L(==), V(==)>(d: MultiKeyDictionary<U, L, V>, u: U, l: L, value: V, dflt: V) returns (added: bool)
    modifies d
    ensures (added, d.items) == TryAddAsWritten(old(d.items), u, l, value, dflt)
  {
    // The flag of the private token source: `updateValueFactory` sets it,
    // and runs exactly when the pair is present.
    var cancellationRequested := u in d.items && l in d.items[u];
    d.AddOrUpdateMany([(u, [l])], (_, _) => value, (_, _, _) => dflt, Never);
    added := !cancellationRequested;
  }

  /** `TryAdd` with its token passed to `AddOrUpdateMany`. */
  method TryAddChecked<U(==), L(==), V(==)>(d: MultiKeyDictionary<U, L, V>, u: U, l: L, value: V, dflt: V) returns (added: bool)
    modifies d
    ensures (added, d.items) == TryAddIntended(old(d.items), u, l, value, dflt)
  {
    var present := u in d.items && l in d.items[u];
    // `updateValueFactory` cancels the token between the two polls.
    var token := if present then AfterPolls(1) else Never;
    d.AddOrUpdateMany([(u, [l])], (_, _) => value, (_, _, _) => dflt, token);
    added := !present;
  }

  /** `TryUpdate` as written. */
  method TryUpdate<U(==), L(==), V(==)>(d: MultiKeyDictionary<U, L, V>, u: U, l: L, previousValue: V, value: V, dflt: V)
    returns (updated: bool)
    modifies d
    ensures (updated, d.items) == TryUpdateAsWritten(old(d.items), u, l, previousValue, value, dflt)
  {
    // `addValueFactory` sets the flag and runs exactly when the pair is
    // absent; the guard of `updateValueFactory` compares `previousValue`
    // with itself and never sets it.
    var cancellationRequested := !(u in d.items && l in d.items[u]);
    d.AddOrUpdateMany([(u, [l])], (_, _) => dflt, (_, _, _) => value, Never);
    updated := !cancellationRequested;
  }

  /** `TryUpdate` comparing the stored value and passing its token on. */
  method TryUpdateChecked<U(==), L(==), V(==)>(d: MultiKeyDictionary<U, L, V>, u: U, l: L, previousValue: V, value: V, dflt: V)
    returns (updated: bool)
    modifies d
    ensures (updated, d.items) == TryUpdateIntended(old(d.items), u, l, previousValue, value, dflt)
  {
    var matches := u in d.items && l in d.items[u] && d.items[u][l] == previousValue;
    var token := if matches then Never else AfterPolls(1);
    d.AddOrUpdateMany([(u, [l])], (_, _) => dflt, (_, _, compared) => if compared == previousValue then value else dflt, token);
    updated := matches;
  }

  /** The triples of the test scenarios. */
  function TestItems(): seq<(string, int, string)> {
    [("Test1", 3, "Alice"), ("Test1", 4, "Bob"), ("Test2", 3, "Charles")]
  }

  /** A table holding exactly the test triples is the one the tests
      expect. */
  lemma {:induction false} TestStoreShape(r: Store<string, int, string>)
    requires r.Keys == {"Test1", "Test2"}
    requires Entry(r, "Test1", 3) == SpecOption.Some("Alice") && Entry(r, "Test1", 4) == SpecOption.Some("Bob")
    requires Entry(r, "Test2", 3) == SpecOption.Some("Charles")
    requires forall u, l :: (u, l) !in [("Test1", 3), ("Test1", 4), ("Test2", 3)] ==> Entry(r, u, l).None?
    ensures r == map["Test1" := map[3 := "Alice", 4 := "Bob"], "Test2" := map[3 := "Charles"]]
  {
    assert r["Test1"] == map[3 := "Alice", 4 := "Bob"] by {
      forall l | l in r["Test1"] ensures l == 3 || l == 4 {
        assert Entry(r, "Test1", l).Some?;
      }
    }
    assert r["Test2"] == map[3 := "Charles"] by {
      forall l | l in r["Test2"] ensures l == 3 {
        assert Entry(r, "Test2", l).Some?;
      }
    }
  }

  /** Writing the three test triples into an empty table gives the two
      groups the tests expect. */
  lemma {:induction false} ThreeItemsWritten(items: seq<(string, int, string)>)
    requires |items| == 3 && items[0] == ("Test1", 3, "Alice") && items[1] == ("Test1", 4, "Bob")
    requires items[2] == ("Test2", 3, "Charles")
    ensures AddItems(map[], items, Never) == Ok(map["Test1" := map[3 := "Alice", 4 := "Bob"], "Test2" := map[3 := "Charles"]])
  {
    assert KeyPairs(items) == [("Test1", 3), ("Test1", 4), ("Test2", 3)];
    AddItemsSpec(map[], items);
    assert UpperKeys(items) == {"Test1", "Test2"} by {
      assert items[0].0 == "Test1" && items[2].0 == "Test2";
    }
    TestStoreShape(AddItems(map[], items, Never).value);
  }

  lemma {:induction false} TestItemsWritten()
    ensures AddItems(map[], TestItems(), Never) == Ok(map["Test1" := map[3 := "Alice", 4 := "Bob"], "Test2" := map[3 := "Charles"]])
  {
    ThreeItemsWritten(TestItems());
  }

  /** The table the bulk-write test builds. */
  function TestStore(): Store<string, int, string> {
    map["Test1" := map[3 := "Alice", 4 := "Bob"], "Test2" := map[3 := "Charles"]]
  }

  /** The bulk-write test: three triples written into a new store give the
      groups "Test1" = {3: "Alice", 4: "Bob"} and "Test2" = {3: "Charles"}. */
  method AddOrUpdateItemsScenario() returns (d: MultiKeyDictionary<string, int, string>)
    ensures fresh(d) && d.items == TestStore()
  {
    d := new MultiKeyDictionary<string, int, string>();
    var r := AddOrUpdateItems(d, TestItems(), Never);
    TestItemsWritten();
  }

  /** Reading the test table back: each group by its upper key, and the
      pair ("Test1", 3) with its value "Alice". */
  method GetItemsScenario(d: MultiKeyDictionary<string, int, string>)
    returns (group1: Outcome<map<int, string>>, group2: Outcome<map<int, string>>,
             found: seq<(string, int, SpecOption.Option<string>)>)
    requires d.items == TestStore()
    ensures group1 == Ok(map[3 := "Alice", 4 := "Bob"])
    ensures group2 == Ok(map[3 := "Charles"])
    ensures found == [("Test1", 3, SpecOption.Some("Alice"))]
  {
    group1 := d.GetGrouping("Test1", Never);
    group2 := d.GetGrouping("Test2", Never);
    var query := ToLookup([("Test1", 3)]);
    assert query == [("Test1", [3])];
    assert Pairs(query) == [("Test1", 3)];
    RequestedSpec(d.items, Pairs(query), "Test1", 3, SpecOption.Some("Alice"));
    found := d.GetItemsFor(query, Never);
  }

  /** `TryAdd("Test1", 4, "Dave")` on the test table returns false and, as
      written, puts `default` over "Bob". C#'s `default(string)` is `null`;
      Dafny strings cannot be null, so `""` stands in for it. */
  method TryAddScenario(d: MultiKeyDictionary<string, int, string>)
    returns (added: bool, after: Outcome<map<int, string>>)
    requires d.items == TestStore()
    modifies d
    ensures !added
    ensures after == Ok(map[3 := "Alice", 4 := ""])
  {
    added := TryAdd(d, "Test1", 4, "Dave", "");
    TryAddAsWrittenSpec(TestStore(), "Test1", 4, "Dave", "");
    assert Entry(TestStore(), "Test1", 4) == SpecOption.Some("Bob");
    assert InnerOf(TestStore(), "Test1")[4 := ""] == map[3 := "Alice", 4 := ""];
    after := d.GetGrouping("Test1", Never);
  }
}
