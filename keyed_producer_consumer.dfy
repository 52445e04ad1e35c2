/** `KeyedProducerConsumer<TKey, TItem>`: a write-once dictionary whose
    readers may ask for a key before it is written. A read of a missing key
    returns a pending awaiter that the later write completes.

    The reader/writer lock and `lock (_notifications)` make each public call
    atomic, so each call is one method here. */
module FutureStore {
  import opened Errors
  import opened Lookups
  import opened Stores

  /** `ConsumerReadAwaiter`: one read, completed at most once. `invoked`
      records, in order, the continuations its completion has run. */
  class ConsumerReadAwaiter<V> {
    var isCompleted: bool
    var result: V
    var continuations: seq<Continuation>
    var invoked: seq<Continuation>

    /** A fresh awaiter: not completed, `_result` still `default(TItem)`,
        given here as `dflt`. */
    constructor(dflt: V)
      ensures !isCompleted && result == dflt && continuations == [] && invoked == []
    {
      isCompleted := false;
      result := dflt;
      continuations := [];
      invoked := [];
    }

    /** `OnCompleted` only adds to the delegate chain; a continuation added
        after completion is never run. */
    method OnCompleted(continuation: Continuation)
      modifies this
      ensures continuations == old(continuations) + [continuation]
      ensures isCompleted == old(isCompleted) && result == old(result) && invoked == old(invoked)
    {
      continuations := continuations + [continuation];
    }

    /** `_isCompleted != 0`: whether the read has completed. */
    function IsCompleted(): (r: bool)
      reads this
      ensures r <==> isCompleted
    {
      isCompleted
    }

    /** `GetResult`: the stored result, which is still `default` until the
        awaiter completes. */
    function GetResult(): (r: V)
      reads this
      ensures r == result
    {
      result
    }

    /** The compare-and-swap on `_isCompleted` lets only the first call
        through: it stores the item, marks the awaiter completed and runs the
        continuations registered so far. Every later call changes nothing. */
    method SetResult(item: V)
      modifies this
      ensures old(isCompleted) ==> isCompleted == old(isCompleted) && result == old(result) && invoked == old(invoked)
      ensures !old(isCompleted) ==> isCompleted && result == item && invoked == old(invoked) + old(continuations)
      ensures continuations == old(continuations)
      ensures IsCompleted() && (old(isCompleted) ==> GetResult() == old(result))
    {
      if !isCompleted {
        isCompleted := true;
        result := item;
        invoked := invoked + continuations;
      }
    }
  }

  class KeyedProducerConsumer<K(==), V> {
    var items: map<K, V>
    var notifications: map<K, seq<ConsumerReadAwaiter<V>>>
    /** `default(TItem)`, the result of an awaiter not yet completed. */
    const dflt: V

    /** The awaiters waiting for `key`, oldest first. */
    function Waiting(key: K): seq<ConsumerReadAwaiter<V>>
      reads this
    {
      if key in notifications then notifications[key] else []
    }

    /** The awaiters waiting for `key`, as the objects a write may change. */
    function WaitingSet(key: K): set<ConsumerReadAwaiter<V>>
      reads this
    {
      set w | w in Waiting(key)
    }

    /** Every awaiter in some notification list. */
    function Listed(): set<ConsumerReadAwaiter<V>>
      reads this
    {
      set k, w | k in notifications && w in notifications[k] :: w
    }

    /** What each call keeps true: a key is either stored or waited for,
        never both; a notification list is never empty, and it holds
        distinct, pending awaiters that no other list shares. */
    ghost predicate Valid()
      reads this, Listed()
    {
      && items.Keys !! notifications.Keys
      && (forall k | k in notifications :: notifications[k] != [])
      && (forall k, w | k in notifications && w in notifications[k] :: !w.isCompleted)
      && (forall k | k in notifications :: NoDup(notifications[k]))
      && (forall k1, k2, w | k1 in notifications && k2 in notifications && w in notifications[k1] && w in notifications[k2] :: k1 == k2)
    }

    /** The empty store. */
    constructor(dflt: V)
      ensures Valid() && items == map[] && notifications == map[] && this.dflt == dflt
    {
      items := map[];
      notifications := map[];
      this.dflt := dflt;
    }

    /** The store filled from `pairs` by `Dictionary.Add`, which throws at
        the first repeated key. */
    static method Create(pairs: seq<(K, V)>, dflt: V) returns (r: Outcome<KeyedProducerConsumer<K, V>>)
      ensures r.Err? ==> FromPairs(pairs) == Err(r.error)
      ensures r.Ok? ==> FromPairs(pairs) == Ok(r.value.items)
      ensures r.Ok? ==> fresh(r.value) && r.value.Valid() && r.value.notifications == map[] && r.value.dflt == dflt
    {
      var m: map<K, V> := map[];
      var i := 0;
      while i < |pairs|
        invariant 0 <= i <= |pairs|
        invariant FromPairs(pairs[..i]) == Ok(m)
      {
        assert pairs[..i + 1][..i] == pairs[..i];
        if pairs[i].0 in m {
          FailureSticks(pairs, i + 1);
          return Err(DuplicateKey);
        }
        m := m[pairs[i].0 := pairs[i].1];
        i := i + 1;
      }
      assert pairs[..i] == pairs;
      var store := new KeyedProducerConsumer(dflt);
      store.items := m;
      r := Ok(store);
    }

    /** `AddOrReplace(key, item)`. `Dictionary.Add` throws on a key already
        stored, before any awaiter is touched, so the store is write-once.
        For a new key it stores the item, completes every awaiter waiting
        for the key with that item, and drops the key's list. */
    method AddOrReplace(key: K, item: V) returns (r: Outcome<()>)
      requires Valid()
      modifies this, WaitingSet(key)
      ensures Valid()
      ensures r.Err? <==> key in old(items)
      ensures r.Err? ==> r.error == DuplicateKey && items == old(items) && notifications == old(notifications)
      ensures r.Err? ==> old(Waiting(key)) == []
      ensures r.Ok? ==> items == old(items)[key := item] && notifications == old(notifications) - {key}
      ensures r.Ok? ==> forall w | w in old(Waiting(key)) ::
        w.isCompleted && w.result == item && w.invoked == old(w.invoked) + old(w.continuations)
      ensures forall w | w in old(Waiting(key)) :: w.continuations == old(w.continuations)
    {
      if key in items {
        return Err(DuplicateKey);
      }
      items := items[key := item];
      if key in notifications {
        var awaiters := notifications[key];
        var i := 0;
        while i < |awaiters|
          invariant 0 <= i <= |awaiters|
          invariant items == old(items)[key := item] && notifications == old(notifications)
          invariant forall j :: 0 <= j < i ==>
            awaiters[j].isCompleted && awaiters[j].result == item
            && awaiters[j].invoked == old(awaiters[j].invoked) + old(awaiters[j].continuations)
          invariant forall j :: i <= j < |awaiters| ==>
            awaiters[j].isCompleted == old(awaiters[j].isCompleted) && awaiters[j].invoked == old(awaiters[j].invoked)
          invariant forall j :: 0 <= j < |awaiters| ==> awaiters[j].continuations == old(awaiters[j].continuations)
        {
          awaiters[i].SetResult(item);
          i := i + 1;
        }
        notifications := notifications - {key};
      }
      r := Ok(());
      assert Valid() by {
        forall k, w | k in notifications && w in notifications[k] ensures !w.isCompleted {
          assert w !in WaitingSet(key);
        }
      }
    }

    /** `GetItem(key)`. For a stored key: a new awaiter, already completed
        with the stored item, and the store unchanged. Otherwise: a new,
        pending awaiter appended to the key's notification list, which is
        created when missing. */
    method GetItem(key: K) returns (w: ConsumerReadAwaiter<V>)
      requires Valid()
      modifies this
      ensures Valid() && fresh(w) && w.continuations == [] && w.invoked == []
      ensures items == old(items)
      ensures key in items ==> w.isCompleted && w.result == items[key] && notifications == old(notifications)
      ensures key !in items ==> !w.isCompleted && w.result == dflt
      ensures key !in items ==> notifications == old(notifications)[key := old(Waiting(key)) + [w]]
    {
      if key in items {
        w := new ConsumerReadAwaiter(dflt);
        w.SetResult(items[key]);
      } else {
        var awaiters := if key in notifications then notifications[key] else [];
        w := new ConsumerReadAwaiter(dflt);
        notifications := notifications[key := awaiters + [w]];
        assert Valid() by {
          forall k, u | k in notifications && u in notifications[k] ensures !u.isCompleted {
            if k != key || u != w { assert u in old(Listed()); }
          }
          assert NoDup(awaiters + [w]) by {
            assert w !in awaiters by { assert forall u | u in awaiters :: u in old(Listed()); }
          }
          forall k1, k2, u | k1 in notifications && k2 in notifications && u in notifications[k1] && u in notifications[k2]
            ensures k1 == k2
          {
            if u == w {
              assert forall k | k in old(notifications) :: w !in old(notifications)[k];
            }
          }
        }
      }
    }
  }

  /** A read issued before the write and a read issued after it both
      resolve to the written value; a failed second write leaves that
      value in place. */
  method ReadBeforeAndAfterWriteScenario(dflt: int, h: int, other: int)
    returns (early: ConsumerReadAwaiter<int>, late: ConsumerReadAwaiter<int>, again: Outcome<()>)
    ensures early.isCompleted && early.result == h
    ensures late.isCompleted && late.result == h
    ensures again == Err(DuplicateKey)
  {
    var store := new KeyedProducerConsumer<string, int>(dflt);
    early := store.GetItem("Hello");
    var _ := store.AddOrReplace("Hello", h);
    late := store.GetItem("Hello");
    again := store.AddOrReplace("Hello", other);
  }

  /** Reads of "World", "Foo" and "Bar" issued before any write each resolve
      to their own key's value once the writes for "World", "Bar" and "Foo"
      have happened, in that order. */
  method DelayedReadsScenario(dflt: int, hWorld: int, hFoo: int, hBar: int)
    returns (s1: ConsumerReadAwaiter<int>, s2: ConsumerReadAwaiter<int>, s3: ConsumerReadAwaiter<int>)
    ensures s1.isCompleted && s1.result == hWorld
    ensures s2.isCompleted && s2.result == hFoo
    ensures s3.isCompleted && s3.result == hBar
  {
    var store;
    store, s1, s2, s3 := PendingReads(dflt);
    var _ := store.AddOrReplace("World", hWorld);
    var _ := store.AddOrReplace("Bar", hBar);
    var _ := store.AddOrReplace("Foo", hFoo);
  }

  /** Reads of "World", "Foo" and "Bar" on an empty store: three distinct
      pending awaiters, each the only one waiting for its key. */
  method PendingReads(dflt: int) returns (store: KeyedProducerConsumer<string, int>, s1: ConsumerReadAwaiter<int>, s2: ConsumerReadAwaiter<int>, s3: ConsumerReadAwaiter<int>)
    ensures fresh(store) && fresh(s1) && fresh(s2) && fresh(s3)
    ensures store.Valid() && store.items == map[] && s1 != s2 && s1 != s3 && s2 != s3
    ensures store.Waiting("World") == [s1] && store.Waiting("Foo") == [s2] && store.Waiting("Bar") == [s3]
  {
    store := new KeyedProducerConsumer<string, int>(dflt);
    s1 := store.GetItem("World");
    s2 := store.GetItem("Foo");
    s3 := store.GetItem("Bar");
  }

  /** Completing an awaiter twice: the second item is ignored and the
      continuation runs once. */
  method SetResultTwiceScenario(dflt: int, first: int, second: int, c: Continuation)
    returns (w: ConsumerReadAwaiter<int>)
    ensures w.isCompleted && w.GetResult() == first && w.invoked == [c]
  {
    w := new ConsumerReadAwaiter(dflt);
    w.OnCompleted(c);
    w.SetResult(first);
    w.SetResult(second);
  }
}
