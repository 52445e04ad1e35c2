/** `KeyedListDictionary<TKey, TValue>`: a dictionary from each key to a
    list of values, handed out by reference. Unlike `Bag`, its indexers never
    create a key; only `Add` does. */
module KeyedLists {
  import opened Errors
  import opened Lookups
  import opened Lists

  /** `KeyedListDictionary<TKey, TValue>.ValueCollection`: the values
      under one key, in a `List<TValue>`. */
  class ValueCollection<K, V(==)> {
    const key: K
    var values: seq<V>

    /** `new ValueCollection(key, values)` copies the values into a new
        list; `new ValueCollection(key)` is the case of no values. */
    constructor(key: K, collection: seq<V>)
      ensures this.key == key && values == collection
    {
      this.key := key;
      values := collection;
    }

    function Count(): (n: nat)
      reads this
      ensures n == |values|
    {
      |values|
    }

    /** `Contains`: a linear search of the list. */
    function Contains(item: V): (r: bool)
      reads this
      ensures r <==> exists i :: 0 <= i < |values| && values[i] == item
    {
      item in values
    }

    /** `ICollection<TValue>.Add`: appends one item. */
    method AddItem(item: V)
      modifies this
      ensures values == old(values) + [item]
    {
      values := values + [item];
    }

    /** `Add(IEnumerable<TValue>)` and `Add(params TValue[])`:
        `List.AddRange`, which appends every item in order. */
    method Add(items: seq<V>)
      modifies this
      ensures values == old(values) + items
    {
      values := values + items;
    }

    /** `ICollection<TValue>.Remove`: takes out the first occurrence and
        reports whether there was one. */
    method RemoveItem(item: V) returns (removed: bool)
      modifies this
      ensures removed <==> item in old(values)
      ensures values == RemoveFirst(old(values), item)
      ensures multiset(values) == multiset(old(values)) - multiset{item}
    {
      removed := item in values;
      RemoveFirstMultiset(values, item);
      values := RemoveFirst(values, item);
    }

    /** `Remove(IEnumerable<TValue>)`: one occurrence per listed item is
        taken out; an item with no occurrence left changes nothing. */
    method Remove(items: seq<V>)
      modifies this
      ensures values == RemoveEach(old(values), items)
      ensures multiset(values) == multiset(old(values)) - multiset(items)
    {
      var i := 0;
      while i < |items|
        invariant 0 <= i <= |items|
        invariant RemoveEach(values, items[i..]) == RemoveEach(old(values), items)
      {
        assert items[i..][1..] == items[i + 1..];
        var _ := RemoveItem(items[i]);
        i := i + 1;
      }
      assert items[i..] == [];
      RemoveEachMultiset(old(values), items);
    }

    method Clear()
      modifies this
      ensures values == []
    {
      values := [];
    }

    /** `CopyTo(array, arrayIndex)`, as `List<T>.CopyTo` does it: a negative
        index or a destination without room for every value throws before
        anything is copied. */
    method CopyTo(a: array<V>, arrayIndex: int) returns (r: Outcome<()>)
      modifies a
      ensures r.Err? <==> arrayIndex < 0 || a.Length - arrayIndex < |values|
      ensures r.Err? ==> r.error == (if arrayIndex < 0 then ArgumentOutOfRange else ArgumentInvalid)
      ensures r.Err? ==> a[..] == old(a[..])
      ensures r.Ok? ==> a[..] == old(a[..])[..arrayIndex] + values + old(a[..])[arrayIndex + |values|..]
    {
      if arrayIndex < 0 {
        return Err(ArgumentOutOfRange);
      }
      if a.Length - arrayIndex < |values| {
        return Err(ArgumentInvalid);
      }
      var i := 0;
      while i < |values|
        invariant 0 <= i <= |values|
        invariant forall j :: 0 <= j < a.Length ==>
          a[j] == if arrayIndex <= j < arrayIndex + i then values[j - arrayIndex] else old(a[j])
      {
        a[arrayIndex + i] := values[i];
        i := i + 1;
      }
      assert a[..] == old(a[..])[..arrayIndex] + values + old(a[..])[arrayIndex + |values|..] by {
        forall j | 0 <= j < a.Length
          ensures a[j] == (old(a[..])[..arrayIndex] + values + old(a[..])[arrayIndex + |values|..])[j]
        {
        }
      }
      r := Ok(());
    }
  }

  class KeyedListDictionary<K(==), V(==)> {
    var items: map<K, ValueCollection<K, V>>

    /** The collections the dictionary holds. */
    function Collections(): set<ValueCollection<K, V>>
      reads this
    {
      items.Values
    }

    /** Each collection sits under its own key; since a collection has one
        key, no two keys share a collection. */
    ghost predicate Valid()
      reads this
    {
      forall k | k in items :: items[k].key == k
    }

    /** The dictionary as a value: each key with the values of its
        collection. */
    function Contents(): map<K, seq<V>>
      reads this, Collections()
    {
      map k | k in items :: items[k].values
    }

    /** `new KeyedListDictionary(items)`: one new collection per group,
        holding a copy of the group's values. */
    constructor(lookup: KeyedGroups<K, V>)
      ensures Valid() && Contents() == AppendGroups(map[], lookup)
      ensures forall k | k in items :: fresh(items[k])
    {
      items := map[];
      new;
      var i := 0;
      while i < |lookup|
        invariant 0 <= i <= |lookup|
        invariant Valid() && forall k | k in items :: fresh(items[k])
        invariant AppendGroups(Contents(), lookup[i..]) == AppendGroups(map[], lookup)
        invariant forall j :: i <= j < |lookup| ==> lookup[j].0 !in items
      {
        var group := lookup[i];
        Insert(group.0, group.1);
        assert lookup[i..][0] == group && lookup[i..][1..] == lookup[i + 1..];
        i := i + 1;
      }
    }

    /** `_items.Add(key, new ValueCollection(key, values))` for a key not
        yet present. */
    method Insert(key: K, values: seq<V>)
      requires Valid() && key !in items
      modifies this
      ensures Valid() && Contents() == old(Contents())[key := ValuesAt(old(Contents()), key) + values]
      ensures key in items && fresh(items[key]) && items == old(items)[key := items[key]]
    {
      ghost var before := Contents();
      var c := new ValueCollection(key, values);
      items := items[key := c];
      assert ValuesAt(before, key) + values == values;
      assert Contents() == before[key := values] by {
        assert Contents().Keys == before.Keys + {key};
      }
    }

    /** `new KeyedListDictionary()`: no keys. */
    constructor Empty()
      ensures Valid() && Contents() == map[]
    {
      items := map[];
    }

    /** `new KeyedListDictionary(IEnumerable<KeyValuePair<TKey, TValue>>)`:
        the dictionary of `pairs.ToLookup(...)`. Each key holds its values in
        input order. */
    static method OfPairs(pairs: seq<(K, V)>) returns (b: KeyedListDictionary<K, V>)
      ensures fresh(b) && b.Valid()
      ensures b.Contents().Keys == PairKeys(pairs)
      ensures forall k | k in b.Contents() :: b.Contents()[k] == ValuesOf(pairs, k)
    {
      b := new KeyedListDictionary(Lookups.ToLookup(pairs));
      AppendPairs(map[], pairs);
    }

    /** `Keys`. */
    function Keys(): (r: set<K>)
      reads this, Collections()
      ensures r == Contents().Keys
    {
      items.Keys
    }

    /** `Count`: the number of keys. */
    function Count(): (n: nat)
      reads this, Collections()
      ensures n == |Contents()|
    {
      assert items.Keys == Contents().Keys;
      |items|
    }

    function ContainsKey(key: K): (r: bool)
      reads this, Collections()
      ensures r <==> key in Contents()
    {
      key in items
    }

    /** Both indexers, `ILookup<TKey, TValue>.this[key]` and the public
        `this[key]`: the key's collection, and a `KeyNotFoundException` for a
        missing key, which neither adds. */
    function Get(key: K): (r: Outcome<ValueCollection<K, V>>)
      reads this, Collections()
      ensures r.Ok? <==> key in Contents()
      ensures r.Ok? ==> r.value in Collections() && r.value.values == Contents()[key]
      ensures r.Err? ==> r.error == KeyNotFound
    {
      if key in items then Ok(items[key]) else Err(KeyNotFound)
    }

    method Clear()
      modifies this
      ensures Valid() && Contents() == map[]
    {
      items := map[];
    }

    /** `GetOrCreate`: the key's collection, created empty and added when
        missing. */
    method GetOrCreate(key: K) returns (c: ValueCollection<K, V>)
      requires Valid()
      modifies this
      ensures Valid() && c.key == key && c in Collections()
      ensures Contents() == old(Contents())[key := ValuesAt(old(Contents()), key)]
      ensures Count() == old(Count()) + (if old(ContainsKey(key)) then 0 else 1)
      ensures key in old(items) ==> c == old(items)[key] && items == old(items)
      ensures key !in old(items) ==> fresh(c) && items == old(items)[key := c]
      ensures items == old(items)[key := c]
    {
      if key in items {
        c := items[key];
        assert c in items.Values;
        return;
      }
      c := new ValueCollection(key, []);
      items := items[key := c];
      assert key in items && items[key] == c;
    }

    /** One step of `Add(ILookup)`: `GetOrCreate(key).Add(values)`. */
    method AppendTo(key: K, values: seq<V>)
      requires Valid()
      modifies this, Collections()
      ensures Valid() && Contents() == old(Contents())[key := ValuesAt(old(Contents()), key) + values]
      ensures forall k | k in old(items) :: k in items && items[k] == old(items)[k]
      ensures forall k | k in items :: k in old(items) || fresh(items[k])
    {
      var c := GetOrCreate(key);
      AddToCollection(c, values);
    }

    /** `Add(values)` on the collection of a present key, through the
        reference the dictionary handed out: only that key's values change. */
    method AddToCollection(c: ValueCollection<K, V>, values: seq<V>)
      requires Valid() && c.key in items && items[c.key] == c
      modifies c
      ensures Contents() == old(Contents())[c.key := old(Contents())[c.key] + values]
    {
      ghost var before := Contents();
      c.Add(values);
      forall k | k in items ensures items[k] == c || items[k].values == before[k] {
        assert items[k].key == k;
      }
    }

    /** `Add(ILookup)`: each group's values are appended, in order, to its
        key's collection, which is created when missing. Existing keys keep
        their collection objects. */
    method Add(lookup: KeyedGroups<K, V>)
      requires Valid()
      modifies this, Collections()
      ensures Valid() && Contents() == AppendGroups(old(Contents()), lookup)
      ensures forall k | k in old(items) :: k in items && items[k] == old(items)[k]
    {
      var i := 0;
      while i < |lookup|
        invariant 0 <= i <= |lookup|
        invariant Valid()
        invariant AppendGroups(Contents(), lookup[i..]) == AppendGroups(old(Contents()), lookup)
        invariant forall k | k in old(items) :: k in items && items[k] == old(items)[k]
        invariant forall k | k in items :: k in old(items) || fresh(items[k])
      {
        var group := lookup[i];
        AppendTo(group.0, group.1);
        assert lookup[i..][0] == group && lookup[i..][1..] == lookup[i + 1..];
        i := i + 1;
      }
    }

    /** `GetEnumerator`: `this[key]` for each key of `Keys`, so one grouping
        per key, over the key's live collection, in the dictionary's order,
        which this model leaves open. */
    method Groupings() returns (r: seq<(K, ValueCollection<K, V>)>)
      ensures forall i, j :: 0 <= i < j < |r| ==> r[i].0 != r[j].0
      ensures forall k | k in items :: exists i :: 0 <= i < |r| && r[i].0 == k
      ensures forall i :: 0 <= i < |r| ==> r[i].0 in items && r[i].1 == items[r[i].0]
    {
      r := [];
      var remaining := items.Keys;
      while remaining != {}
        invariant remaining <= items.Keys
        invariant forall i :: 0 <= i < |r| ==> r[i].0 in items && r[i].0 !in remaining && r[i].1 == items[r[i].0]
        invariant forall i, j :: 0 <= i < j < |r| ==> r[i].0 != r[j].0
        invariant forall k | k in items && k !in remaining :: exists i :: 0 <= i < |r| && r[i].0 == k
        decreases remaining
      {
        var k :| k in remaining;
        ghost var prev := r;
        r := r + [(k, items[k])];
        remaining := remaining - {k};
        forall k' | k' in items && k' !in remaining ensures exists i :: 0 <= i < |r| && r[i].0 == k' {
          if k' == k {
            assert r[|prev|].0 == k;
          } else {
            var i :| 0 <= i < |prev| && prev[i].0 == k';
            assert r[i] == prev[i];
          }
        }
      }
    }
  }
}
