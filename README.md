# LiveCollections in Dafny

This project models the collection and option types at the centre of the
LiveCollections C# libraries and proves properties about them:

- **`MultiKeyDictionary<TUpperKey, TLowerKey, TValue>`**: a two-level store
  from an upper key to a dictionary from a lower key to a value. It is
  written in bulk by `AddOrUpdateMany` with an add factory and an update
  factory. It is read back as streams of triples. It also has the static
  helpers bulk `AddOrUpdateMany(items)`, `TryAdd` and `TryUpdate` (module
  `GroupedStore`).
- **`KeyedProducerConsumer<TKey, TItem>`** and
  **`AwaitableDictionary<TKey, TItem>`**: write-once dictionaries whose
  readers may ask for a key before it is written. Such a read returns a
  pending awaiter, and the later write completes it (modules `FutureStore`
  and `AwaitableStore`, sharing `Stores`).
- **`Bag<TKey, TValue>`** and **`KeyedListDictionary<TKey, TValue>`**:
  dictionaries from a key to a mutable list of values (modules `Bags` and
  `KeyedLists`).
- **The option algebra**, with its LINQ operators:
  - the `Option<T>` of SpecializedCollections (`SpecOption`);
  - the `Option<T>` of SpecializedCollections3 (`Option3`);
  - the Monadic `Option<T>`, `Result<T1, T2>`, `Choice<T1, T2>` and
    `OptionalParam<T>` (`MonadicOption`, `MonadicResult`, `MonadicChoice`,
    `OptionalParams`).

Shared modules:

- `Errors`: the exceptions the code throws, as an `Outcome` datatype.
- `Cancellation`: the cancellation token.
- `Lookups`: `ILookup` as a sequence of groups with distinct keys, and
  .NET's `ToLookup`, which groups in order of first appearance.
- `Lists`: `List.Remove`, which removes the first occurrence.

Conventions of the model:

- **Classes where the source mutates.** Object state that C# mutates is a
  Dafny `class`: the store, the awaiters, the bag and its value
  collections. Its methods carry `modifies` clauses and state the whole
  new state. The option types and the static LINQ helpers are datatypes
  and functions.
- **Exceptions are results.** A thrown exception is an `Err` of `Outcome`:
  `KeyNotFoundException`, a duplicate `Dictionary.Add`, a cancelled task,
  `IndexOutOfRangeException`, and the two `CopyTo` argument errors.
- **`default(T)` is a parameter.** It is an explicit `dflt` parameter, or a
  `dflt` field of the store.
- **Cancellation is an oracle.** A `CancellationToken` is a `Token`:
  `Never`, or `AfterPolls(n)`, which reports cancellation from the `n`-th
  poll of `IsCancellationRequested` in a call onward. This covers every
  moment at which another party could cancel. `TryAdd` and `TryUpdate` own
  their token source and cancel it from inside a factory, so there the
  model computes the cancellation itself.
- **Continuations are numbers.** A continuation handed to `OnCompleted` is
  known by a number. An awaiter records, in order, the numbers its
  completion has invoked.
- **Dictionary order is left open.** .NET does not specify the enumeration
  order of a `Dictionary`. So the enumerations (`GetItems()`, the default
  keys of `TryRemove`, `Bag.GetEnumerator`, `Bag.ToLookup`,
  `KeyedListDictionary.GetEnumerator`) choose the next key with `:|`. Their
  contracts hold for every order. One order is fixed on purpose: the
  `itemLookup.Keys` that the static `AddOrUpdateMany(items)` walks
  (MultiKeyDictionary.cs:206) is taken to be the order in which the items
  first name each upper key. That is what a freshly filled .NET
  `Dictionary` yields, although .NET does not promise it. It matters only
  under cancellation, where it decides which pairs are written before the
  token fires.
- **Streams are sequences.** An `IObservable` or `IEnumerable` result is the
  sequence of items it would deliver. The observables of
  `MultiKeyDictionary` (MultiKeyDictionary.cs:62-79, 90-104, 108-137) call
  only `OnNext`. They never call `OnCompleted`, and on cancellation they
  `return null` without calling `OnError`. So the end of a model sequence is
  not a completion signal the source ever sends, and a cancelled stream
  looks to its observer like one that is still open.

Where the code and its own description differ, the model follows the code:

- `TryRemove` deletes nothing and never calls its predicate. The model
  reports each requested pair with its entry.
- `GetGrouping` of an absent upper key throws `KeyNotFoundException`
  (`Err(KeyNotFound)`).
- The static `TryAdd` and `TryUpdate` behave as in the Findings below.

## Model

| member | source | states |
|---|---|---|
| Cancellation.PollsPassed | LiveCollections/SpecializedCollections/MultiKeyDictionary.cs:70-76 | the number of items a polled stream delivers: no poll before it reports cancellation, and the poll at it does unless the stream ran out |
| Cancellation.CancelledIsMonotone | LiveCollections/SpecializedCollections/MultiKeyDictionary.cs:34-48 | once a token reports cancellation, every later poll does too |
| Lookups.ToLookupListsPairs | LiveCollections/SpecializedCollections/Bag.cs:178 | a pair is listed in `ToLookup(pairs)` exactly when it is one of the pairs; groups of distinct pairs hold distinct values |
| Lookups.ValuesOfMembers | LiveCollections/SpecializedCollections/Bag.cs:178 | a key's group in `ToLookup` holds exactly the values paired with that key |
| Lookups.AppendGroupsSpec | LiveCollections/SpecializedCollections/Bag.cs:133-138 | appending a lookup to a multimap adds the lookup's keys, and each key's list becomes its old list followed by its group |
| Lookups.AppendLookupSpec | LiveCollections/SpecializedCollections3/IFiniteRelation.cs:123-128 | for groups with distinct keys, empty ones included, each group lands under its key after that key's old values, and keys outside the lookup are untouched |
| Lookups.AppendPairs | LiveCollections/SpecializedCollections/Bag.cs:19-21 | adding pairs through `ToLookup`: each key's list grows by exactly the values paired with it, in order |
| Lists.RemoveFirstMultiset | LiveCollections/SpecializedCollections/Bag.cs:96-98 | `List.Remove` takes exactly one occurrence of the item out of the multiset of values |
| Lists.RemoveFirstCuts | LiveCollections/SpecializedCollections/Bag.cs:96-98 | `List.Remove` of a present item cuts out its first occurrence and keeps the rest in order |
| Lists.RemoveEachMultiset | LiveCollections/SpecializedCollections/Bag.cs:90-94 | removing items one by one takes the multiset of the items out of the values |
| Stores.FromPairsSpec | ReactiveCollections/AwaitableDictionary/KeyedProducerConsumer.cs:50-55 | filling the dictionary from pairs fails with a duplicate key exactly when two pairs share a key; otherwise it holds exactly the given pairs |
| Stores.FailureSticks | ReactiveCollections/AwaitableDictionary/KeyedProducerConsumer.cs:52-54 | once a prefix of the pairs has thrown, the whole fill throws the same error |
| GroupedStore.MultiKeyDictionary.constructor | LiveCollections/SpecializedCollections/MultiKeyDictionary.cs:22-23 | a new table is empty |
| GroupedStore.MultiKeyDictionary.AddOrUpdateMany | LiveCollections/SpecializedCollections/MultiKeyDictionary.cs:25-54 | for any lookup, empty groups included, the table after the loop is the polled bulk upsert of the old table: missing groups are created (an empty group leaves an empty inner dictionary), then each pair gets a factory value until a poll reports cancellation |
| GroupedStore.MultiKeyDictionary.FillGroup | LiveCollections/SpecializedCollections/MultiKeyDictionary.cs:32-50 | the inner loop over one group: it stops at the first poll that sees cancellation, and the group afterwards is the polled group upsert while every other group is untouched |
| GroupedStore.UpsertManyNever | LiveCollections/SpecializedCollections/MultiKeyDictionary.cs:25-54 | with a token that never cancels, the polled write is the plain write of every pair, group by group |
| GroupedStore.UpsertGroupNever | LiveCollections/SpecializedCollections/MultiKeyDictionary.cs:32-50 | with a token that never cancels, one group's loop writes every lower key and never stops early |
| GroupedStore.UpsertManyAfter | LiveCollections/SpecializedCollections/MultiKeyDictionary.cs:34-48 | a token that cancels at poll `n` stops the write after the first `(n - p) / 2` pairs, two polls per pair, while still creating the group being entered |
| GroupedStore.UpsertGroupAfter | LiveCollections/SpecializedCollections/MultiKeyDictionary.cs:34-48 | within one group, cancellation at poll `n` writes exactly the first `(n - p) / 2` lower keys and reports the stop |
| GroupedStore.UpsertAllSpec | LiveCollections/SpecializedCollections/MultiKeyDictionary.cs:38-49 | writing distinct lower keys adds them to the inner dictionary; each gets `updateValueFactory` of its old value, or `addValueFactory` when absent; other keys keep their values |
| GroupedStore.UpsertGroupsSpec | LiveCollections/SpecializedCollections/MultiKeyDictionary.cs:26-50 | for a lookup with distinct pairs, the table gains the lookup's upper keys, and every pair holds what the factories give its old entry, every other pair its old entry |
| GroupedStore.AddOrUpdateManyNever | LiveCollections/SpecializedCollections/MultiKeyDictionary.cs:25-54 | without cancellation `AddOrUpdateMany` writes every listed pair from the factories and leaves all other pairs alone |
| GroupedStore.AddOrUpdateManyCancelled | LiveCollections/SpecializedCollections/MultiKeyDictionary.cs:34-48 | cancellation at poll `n` of the call writes exactly the first `n / 2` pairs of the lookup, in lookup order, and nothing after them |
| GroupedStore.AddOrUpdateManyFrame | LiveCollections/SpecializedCollections/MultiKeyDictionary.cs:25-54 | for any lookup with distinct upper keys, repeated lower keys included, and any token: existing upper keys stay, only the lookup's upper keys are added, and every unlisted pair keeps its entry; without cancellation every upper key of the lookup is added and every listed pair holds a value |
| GroupedStore.UpsertGroupsFrame | LiveCollections/SpecializedCollections/MultiKeyDictionary.cs:26-50 | for any lookup, the reference bulk write adds exactly its upper keys, gives every listed pair a value and keeps every unlisted entry |
| GroupedStore.TakePairs | LiveCollections/SpecializedCollections/MultiKeyDictionary.cs:26-32 | truncating a lookup to its first `k` pairs keeps exactly the first `k` pairs of its pair stream |
| GroupedStore.PairsListed | LiveCollections/SpecializedCollections/MultiKeyDictionary.cs:63-64 | a pair is in the pair stream of a lookup exactly when the lookup lists it |
| GroupedStore.MultiKeyDictionary.GetGrouping | LiveCollections/SpecializedCollections/MultiKeyDictionary.cs:56-59 | the group of an upper key that is stored, unless cancellation was already requested; otherwise a cancelled task or `KeyNotFoundException`, in that priority |
| GroupedStore.RequestedSpec | LiveCollections/SpecializedCollections/MultiKeyDictionary.cs:63-68 | `GetItems(keys)` reports a requested pair, with its stored entry, exactly when its upper key has a group; when every upper key has one, it reports every pair in order |
| GroupedStore.MultiKeyDictionary.GetItemsFor | LiveCollections/SpecializedCollections/MultiKeyDictionary.cs:61-80 | for any lookup, empty groups included, the stream is the query's result cut off at the first poll that reports cancellation |
| GroupedStore.MultiKeyDictionary.EnumerateItems | LiveCollections/SpecializedCollections/MultiKeyDictionary.cs:91-93 | every stored triple appears exactly once, and nothing else appears |
| GroupedStore.MultiKeyDictionary.GetItems | LiveCollections/SpecializedCollections/MultiKeyDictionary.cs:89-105 | a duplicate-free stream of stored triples, each delivered after a poll that did not cancel; it is complete unless the poll after the last item cancelled |
| GroupedStore.MultiKeyDictionary.StoredKeys | LiveCollections/SpecializedCollections/MultiKeyDictionary.cs:109 | the default keys of `TryRemove` list exactly the stored pairs, with no lower key twice in a group |
| GroupedStore.MultiKeyDictionary.TryRemove | LiveCollections/SpecializedCollections/MultiKeyDictionary.cs:107-138 | each requested pair is reported with its entry (`None` when absent or under a missing upper key), one poll per pair, until a poll cancels; the requested keys may be any lookup, empty groups included; the default keys are every stored pair, in non-empty groups |
| GroupedStore.MultiKeyDictionary.Clear | LiveCollections/SpecializedCollections/MultiKeyDictionary.cs:82-87 | the table is emptied unless cancellation was requested, in which case it is unchanged |
| GroupedStore.KeyPairs | LiveCollections/SpecializedCollections/MultiKeyDictionary.cs:205 | the key pair of each triple, position by position |
| GroupedStore.ItemMapSpec | LiveCollections/SpecializedCollections/MultiKeyDictionary.cs:205 | when no key pair repeats, `ToDictionary` maps exactly the triples' key pairs, each to its value |
| GroupedStore.ItemsLookup | LiveCollections/SpecializedCollections/MultiKeyDictionary.cs:206 | the key lookup built from the items lists exactly their key pairs, once each, under exactly their upper keys |
| GroupedStore.BulkWriteOfItems | LiveCollections/SpecializedCollections/MultiKeyDictionary.cs:203-208 | writing distinct triples stores each triple's value under its pair, adds the new upper keys, and leaves every other entry as it was |
| GroupedStore.AddItemsSpec | LiveCollections/SpecializedCollections/MultiKeyDictionary.cs:203-208 | the bulk helper throws a duplicate-key error exactly when two triples share a key pair; otherwise it is the bulk write |
| GroupedStore.AddOrUpdateItems | LiveCollections/SpecializedCollections/MultiKeyDictionary.cs:203-208 | the table afterwards is the bulk helper's result, and on a duplicate key pair the table is unchanged |
| GroupedStore.UpsertSingle | LiveCollections/SpecializedCollections/MultiKeyDictionary.cs:224-232 | a one-pair write polls twice around one factory call and, when neither poll cancels, stores that call's value |
| GroupedStore.TryAddAsWrittenSpec | LiveCollections/SpecializedCollections/MultiKeyDictionary.cs:222-235 | `TryAdd` as written reports success exactly when the pair was absent, and then stores the value; a present pair is overwritten with `default` |
| GroupedStore.TryAdd | LiveCollections/SpecializedCollections/MultiKeyDictionary.cs:222-235 | the answer and the new table are those of `TryAdd` as written |
| GroupedStore.TryAddIntendedSpec | LiveCollections/SpecializedCollections/MultiKeyDictionary.cs:222-235 | the corrected `TryAdd` succeeds exactly when the pair was absent, and then stores the value; otherwise the table is unchanged |
| GroupedStore.TryAddChecked | LiveCollections/SpecializedCollections/MultiKeyDictionary.cs:222-235 | the answer and the new table are those of the corrected `TryAdd` |
| GroupedStore.TryUpdateAsWrittenSpec | LiveCollections/SpecializedCollections/MultiKeyDictionary.cs:250-270 | `TryUpdate` as written succeeds exactly when the pair is present, whatever its value, and then stores the new value; an absent pair gets `default` written |
| GroupedStore.TryUpdate | LiveCollections/SpecializedCollections/MultiKeyDictionary.cs:250-270 | the answer and the new table are those of `TryUpdate` as written |
| GroupedStore.TryUpdateIntendedSpec | LiveCollections/SpecializedCollections/MultiKeyDictionary.cs:250-270 | the corrected `TryUpdate` succeeds exactly when the stored value equals `previousValue`, and then stores the new value; otherwise no entry changes |
| GroupedStore.TryUpdateChecked | LiveCollections/SpecializedCollections/MultiKeyDictionary.cs:250-270 | the answer and the new table are those of the corrected `TryUpdate` |
| GroupedStore.TestItemsWritten | LiveCollections/SpecializedCollections.Tests/MultiKeyDictionaryTests.cs:9-18 | the three test triples, written into an empty table, give the groups Test1 = {3: Alice, 4: Bob} and Test2 = {3: Charles} |
| GroupedStore.AddOrUpdateItemsScenario | LiveCollections/SpecializedCollections.Tests/MultiKeyDictionaryTests.cs:16-18 | the test's table after the bulk write is exactly those two groups |
| GroupedStore.GetItemsScenario | LiveCollections/SpecializedCollections.Tests/MultiKeyDictionaryTests.cs:25-35 | `GetGrouping` of Test1 and Test2 give the expected groups, and the lookup of (Test1, 3) gives Alice |
| GroupedStore.TryAddScenario | LiveCollections/SpecializedCollections.Tests/MultiKeyDictionaryTests.cs:21 | `TryAdd("Test1", 4, "Dave")` answers false, as the test expects, but leaves `default` in place of Bob (`null` in C#; the model writes `""`, since Dafny strings cannot be null) |
| SpecOption.AsEnumerableSpec | LiveCollections/SpecializedCollections/Some.cs:10-12 | `Some` enumerates its one value and `None` nothing |
| SpecOption.TryGetValueSpec | LiveCollections/SpecializedCollections/Option.cs:14-17 | the dictionary lookup is `Some(v)` exactly when the key is stored with `v`, and `None` exactly when the key is absent |
| SpecOption.BindLaws | LiveCollections/SpecializedCollections/Option.cs:25-32 | `Bind` obeys the monad laws, with `AsOption` as unit and `None` absorbing |
| SpecOption.SelectSpec | LiveCollections/SpecializedCollections/Option.cs:34-35 | `Select` maps the value of `Some`, keeps `None`, and obeys the functor laws |
| SpecOption.AnySpec | LiveCollections/SpecializedCollections/Option.cs:37-50 | the three `Any` overloads hold exactly when there is a value that satisfies the predicate, equals the comparison, or exists |
| SpecOption.WhereSpec | LiveCollections/SpecializedCollections/Option.cs:52-53 | `Where` keeps the option exactly when its value satisfies the predicate, and is `None` otherwise |
| SpecOption.FirstOrNoneSpec | LiveCollections/SpecializedCollections/Option.cs:71-84 | `FirstOrNone` is `None` exactly when no `Some` matches, and otherwise the earliest matching `Some` |
| SpecOption.FirstSpec | LiveCollections/SpecializedCollections/Option.cs:86-110 | `First` throws `IndexOutOfRangeException` exactly when nothing matches and otherwise gives the earliest match; `FirstOrDefault` gives that match or the default |
| SpecOption.SelectManySpec | LiveCollections/SpecializedCollections/Option.cs:112-124 | the LINQ `from a in s from b in f(a) select g(a, b)` has a value exactly when both stages do, and it is `g` of both |
| SpecOption.SelectManyBindIsBind | LiveCollections/SpecializedCollections/Option.cs:126-133 | the two-argument `SelectMany` is `Bind` |
| SpecOption.FlattenSpec | LiveCollections/SpecializedCollections/Option.cs:135-142 | flattening unwraps one layer, and flattening a `Select` is `Bind` |
| SpecOption.ValuesMembers | LiveCollections/SpecializedCollections/Option.cs:144-152 | a value is in the flattened sequence exactly when one of the options is `Some` of it |
| SpecOption.ValuesAppend | LiveCollections/SpecializedCollections/Option.cs:144-152 | flattening distributes over concatenation, so order is kept |
| SpecOption.ValuesSingleton | LiveCollections/SpecializedCollections/Option.cs:144-152 | flattening one option is enumerating it |
| SpecOption.SelectManySeqIsValues | LiveCollections/SpecializedCollections/Option.cs:161-170 | the sequence query is the one-element query applied to each element, flattened in order |
| SpecOption.FlattenSeqSpec | LiveCollections/SpecializedCollections/Option.cs:180-187 | flattening `Option<IEnumerable>` gives the wrapped sequence or the empty one |
| SpecOption.AggregateSpec | LiveCollections/SpecializedCollections/Option.cs:198-218 | both `Aggregate` overloads are a left fold over the option's enumeration, followed by the result selector |
| SpecOption.ContainsSpec | LiveCollections/SpecializedCollections/Option.cs:220-231 | `Contains` holds exactly when the option is `Some` of the comparand, and agrees with `Any(comparison)` |
| SpecOption.OptionTestsExpectations | LiveCollections/SpecializedCollections.Tests/OptionTests.cs:14-55 | the four option tests: the lookup of Test1 is `Some(5)`, the query over Test1 and Test2 gives 11, and a query over a missing key gives nothing |
| Option3.AsEnumerableSpec | LiveCollections/SpecializedCollections3/Some.cs:10-12 | `Some` enumerates its one value and `None` nothing |
| Option3.BindLaws | LiveCollections/SpecializedCollections3/Option.cs:23-30 | `Bind` obeys the monad laws |
| Option3.SelectSpec | LiveCollections/SpecializedCollections3/Option.cs:32-33 | `Select` maps the value and obeys the functor laws |
| Option3.WhereSpec | LiveCollections/SpecializedCollections3/Option.cs:35-42 | `Where` keeps the option exactly when its value matches, and two filters compose into one |
| Option3.FirstOrNoneSpec | LiveCollections/SpecializedCollections3/Option.cs:44-57 | `FirstOrNone` is `None` exactly when nothing matches, and otherwise the earliest match |
| Option3.FirstSpec | LiveCollections/SpecializedCollections3/Option.cs:59-83 | `First` throws exactly when nothing matches; `FirstOrDefault` falls back to the default |
| Option3.SelectManySpec | LiveCollections/SpecializedCollections3/Option.cs:85-97 | the two-stage query has a value exactly when both stages do |
| Option3.SelectManyBindIsBind | LiveCollections/SpecializedCollections3/Option.cs:99-106 | the two-argument `SelectMany` is `Bind` |
| Option3.FlattenSpec | LiveCollections/SpecializedCollections3/Option.cs:108-115 | flattening unwraps one layer, and flattening a `Select` is `Bind` |
| Option3.AggregateSpec | LiveCollections/SpecializedCollections3/Option.cs:117-137 | both `Aggregate` overloads are a left fold over the enumeration |
| Option3.ContainsSpec | LiveCollections/SpecializedCollections3/Option.cs:139-150 | `Contains` holds exactly when the option is `Some` of the comparand |
| MonadicOption.CasesSpec | LiveCollections/Monadic/Option.cs:33-64 | `Some(v)` has the value `v` and `None` has none; `TryGet` and `GetValue` read the value or fall back to the alternative |
| MonadicOption.TryGetSpec | LiveCollections/Monadic/Option.cs:33-51 | `TryGet` reports `HasValue`, and its out value is `GetValue` of the same default |
| MonadicOption.IfSpec | LiveCollections/Monadic/Option.cs:24-48 | each `If` overload runs or returns the action on the value, or the alternative, and the overloads agree with one another |
| MonadicOption.BindLaws | LiveCollections/Monadic/Option.cs:53-54 | `Bind` obeys the monad laws with `Some` as unit |
| MonadicOption.SelectSpec | LiveCollections/Monadic/Option.cs:74-75 | `Select` maps the value and obeys the functor laws |
| MonadicOption.FlattenSpec | LiveCollections/Monadic/Option.cs:77-78 | flattening unwraps one layer, and flattening a `Select` is `Bind` |
| MonadicOption.SelectManySpec | LiveCollections/Monadic/Option.cs:80-81 | the two-stage query has a value exactly when both stages do, and it is the result selector of both |
| MonadicOption.SelectManyBindIsBind | LiveCollections/Monadic/Option.cs:83-84 | the two-argument `SelectMany` is `Bind` |
| MonadicOption.FlattenSeqSpec | LiveCollections/Monadic/Option.cs:86-87 | flattening `Option<IEnumerable>` gives the wrapped sequence or the empty one |
| MonadicOption.ValuesMembers | LiveCollections/Monadic/Option.cs:89-90 | a value is in the flattened sequence exactly when some option holds it |
| MonadicOption.ValuesAppend | LiveCollections/Monadic/Option.cs:89-90 | flattening distributes over concatenation |
| MonadicOption.ValuesSingleton | LiveCollections/Monadic/Option.cs:89-90 | flattening one option is enumerating it |
| MonadicOption.WhereSpec | LiveCollections/Monadic/Option.cs:92-93 | `Where` keeps the option exactly when its value matches, and two filters compose into one |
| MonadicOption.AsEnumerableSpec | LiveCollections/Monadic/Option.cs:95-96 | the enumeration has one element, the value, exactly when there is a value |
| MonadicResult.SwapSpec | LiveCollections/Monadic/Result.cs:21-22 | `Swap` exchanges the two sides, keeps the value, and undoes itself |
| MonadicResult.IfSpec | LiveCollections/Monadic/Result.cs:24-37 | each `If` overload picks the success or the failure branch, and the overloads agree |
| MonadicResult.TryGetSpec | LiveCollections/Monadic/Result.cs:39-59 | each `TryGet` reports whether its side is held and otherwise returns the alternate; the two are mirror images under `Swap` |
| MonadicResult.BindLaws | LiveCollections/Monadic/Result.cs:84-85 | `Bind` obeys the monad laws, and a failure passes through unchanged |
| MonadicResult.FlattenSpec | LiveCollections/Monadic/Result.cs:87-88 | flattening unwraps a nested success and keeps a failure |
| MonadicResult.SelectManySpec | LiveCollections/Monadic/Result.cs:90-91 | the query succeeds exactly when both stages do; otherwise it carries the first failure |
| MonadicResult.SelectManyBindIsBind | LiveCollections/Monadic/Result.cs:93-94 | the two-argument `SelectMany` is `Bind` |
| MonadicResult.ToOptionSpec | LiveCollections/Monadic/Result.cs:96-97 | the option has a value exactly on success, that value, and conversion commutes with `Bind` |
| MonadicResult.AsEnumerableSpec | LiveCollections/Monadic/Result.cs:99-100 | the enumeration is the success value alone, or empty, and it equals the enumeration of `ToOption` |
| MonadicChoice.SwapSpec | LiveCollections/Monadic/Choice.cs:23-24 | `Swap` exchanges the two sides and undoes itself |
| MonadicChoice.IfSpec | LiveCollections/Monadic/Choice.cs:26-39 | each `If` overload picks the branch of the held side, and the overloads agree |
| MonadicChoice.TryGetSpec | LiveCollections/Monadic/Choice.cs:41-61 | each `TryGet` reports whether its side is held and otherwise returns the alternate |
| MonadicChoice.EqualsCoreConflates | LiveCollections/Monadic/Choice.cs:66-68 | as written, `First(1)` equals `First(2)` and `First(0)` equals `Second(0)`, because the comparison of the second values escapes the `IsFirst` test |
| MonadicChoice.EqualsCoreReflexive | LiveCollections/Monadic/Choice.cs:66-80 | as written, equality is still reflexive and a choice never equals null |
| MonadicChoice.EqualsIntendedSpec | LiveCollections/Monadic/Choice.cs:66-68 | the corrected equality holds exactly for the same side with the same value, and it is symmetric |
| MonadicChoice.BindLaws | LiveCollections/Monadic/Choice.cs:98-99 | `Bind` obeys the monad laws, and the second side passes through |
| MonadicChoice.FlattenSpec | LiveCollections/Monadic/Choice.cs:101-102 | flattening unwraps a nested first choice and keeps a second one |
| MonadicChoice.SelectManySpec | LiveCollections/Monadic/Choice.cs:104-105 | the query gives a first choice exactly when both stages do; otherwise the first second choice met |
| MonadicChoice.SelectManyBindIsBind | LiveCollections/Monadic/Choice.cs:107-108 | the two-argument `SelectMany` is `Bind` |
| MonadicChoice.SelectSpec | LiveCollections/Monadic/Choice.cs:110-119 | the two-selector `Select` keeps the side and maps its value; `Select` and `SelectSecond` map one side, are mirror images under `Swap`, and compose into the two-selector form |
| OptionalParams.OrSpec | LiveCollections/Monadic/OptionalParam.cs:12-21 | the `\|` operator gives the held value of a constructed or implicitly converted parameter, and the alternative for a `default` one |
| OptionalParams.OrDependsOnlyOnHeld | LiveCollections/Monadic/OptionalParam.cs:20-21 | a held value ignores the alternative, and all empty parameters give the alternative |
| FutureStore.ConsumerReadAwaiter.constructor | ReactiveCollections/AwaitableDictionary/KeyedProducerConsumer.cs:18-22 | a new awaiter is pending, with result `default` and no continuations |
| FutureStore.ConsumerReadAwaiter.OnCompleted | ReactiveCollections/AwaitableDictionary/KeyedProducerConsumer.cs:28-30 | the continuation is added to the chain, and nothing else changes |
| FutureStore.ConsumerReadAwaiter.IsCompleted | ReactiveCollections/AwaitableDictionary/KeyedProducerConsumer.cs:32-36 | true exactly when the awaiter's completion flag is set |
| FutureStore.ConsumerReadAwaiter.GetResult | ReactiveCollections/AwaitableDictionary/KeyedProducerConsumer.cs:38-40 | the stored result: `default` until the first `SetResult`, its item afterwards |
| FutureStore.ConsumerReadAwaiter.SetResult | ReactiveCollections/AwaitableDictionary/KeyedProducerConsumer.cs:42-47 | the first call completes the awaiter with the item and runs the registered continuations once; a later call changes nothing |
| FutureStore.KeyedProducerConsumer.constructor | ReactiveCollections/AwaitableDictionary/KeyedProducerConsumer.cs:67-70 | an empty store with no waiting readers |
| FutureStore.KeyedProducerConsumer.Create | ReactiveCollections/AwaitableDictionary/KeyedProducerConsumer.cs:50-55 | filling from pairs throws on the first repeated key; otherwise the store holds exactly the pairs and no reader waits |
| FutureStore.KeyedProducerConsumer.AddOrReplace | ReactiveCollections/AwaitableDictionary/KeyedProducerConsumer.cs:72-89 | a stored key throws a duplicate-key error and changes nothing; a new key is stored, every reader waiting for it is completed with the item, and its list is dropped; the store invariant is kept |
| FutureStore.KeyedProducerConsumer.GetItem | ReactiveCollections/AwaitableDictionary/KeyedProducerConsumer.cs:91-116 | for a stored key, a new awaiter already completed with the item; otherwise a new pending awaiter appended to the key's list; the stored items never change |
| FutureStore.ReadBeforeAndAfterWriteScenario | LiveCollections/KeyedProducerConsumer.Test/UnitTest1.cs:10-15 | a read before and a read after writing "Hello" both resolve to its value, and writing "Hello" again fails |
| FutureStore.DelayedReadsScenario | LiveCollections/KeyedProducerConsumer.Test/UnitTest1.cs:17-36 | reads of World, Foo and Bar issued before the writes each resolve to their own key's value |
| FutureStore.PendingReads | LiveCollections/KeyedProducerConsumer.Test/UnitTest1.cs:27-31 | the three early reads leave three distinct awaiters, each the only one waiting for its key, and nothing stored |
| FutureStore.SetResultTwiceScenario | ReactiveCollections/AwaitableDictionary/KeyedProducerConsumer.cs:42-47 | completing twice keeps the first item and runs the continuation once |
| AwaitableStore.DictionaryReadAwaiter.constructor | ReactiveCollections/AwaitableDictionary/AwaitableDictionary.cs:17-20 | a new awaiter is pending, with result `default` and no continuations |
| AwaitableStore.DictionaryReadAwaiter.OnCompleted | ReactiveCollections/AwaitableDictionary/AwaitableDictionary.cs:26-28 | the continuation is added to the chain, and nothing else changes |
| AwaitableStore.DictionaryReadAwaiter.IsCompleted | ReactiveCollections/AwaitableDictionary/AwaitableDictionary.cs:30 | true exactly when the awaiter's completion flag is set |
| AwaitableStore.DictionaryReadAwaiter.GetResult | ReactiveCollections/AwaitableDictionary/AwaitableDictionary.cs:32-34 | the stored result: `default` until a `SetResult`, the latest item afterwards |
| AwaitableStore.DictionaryReadAwaiter.SetResult | ReactiveCollections/AwaitableDictionary/AwaitableDictionary.cs:36-40 | every call stores the item, marks the awaiter completed and runs the registered continuations, with no guard against a second call |
| AwaitableStore.AwaitableDictionary.constructor | ReactiveCollections/AwaitableDictionary/AwaitableDictionary.cs:60-63 | an empty store with no waiting readers |
| AwaitableStore.AwaitableDictionary.Create | ReactiveCollections/AwaitableDictionary/AwaitableDictionary.cs:43-48 | filling from pairs throws on the first repeated key; otherwise the store holds exactly the pairs |
| AwaitableStore.AwaitableDictionary.AddOrReplace | ReactiveCollections/AwaitableDictionary/AwaitableDictionary.cs:65-82 | a stored key throws and changes nothing; a new key is stored and completes every reader waiting for it |
| AwaitableStore.AwaitableDictionary.GetItem | ReactiveCollections/AwaitableDictionary/AwaitableDictionary.cs:84-109 | for a stored key, a completed awaiter with the item; otherwise a pending awaiter appended to the key's list |
| AwaitableStore.ImmediateReadScenario | ReactiveCollections/AwaitableDictionary.Test/UnitTest1.cs:9-14 | a read after writing "Hello" resolves to its value |
| AwaitableStore.DelayedReadsScenario | ReactiveCollections/AwaitableDictionary.Test/UnitTest1.cs:16-35 | reads of World, Foo and Bar issued before the writes each resolve to their own key's value |
| AwaitableStore.PendingReads | ReactiveCollections/AwaitableDictionary.Test/UnitTest1.cs:26-30 | the three early reads leave three distinct awaiters, each the only one waiting for its key, and nothing stored |
| AwaitableStore.SetResultTwiceScenario | ReactiveCollections/AwaitableDictionary/AwaitableDictionary.cs:36-40 | completing twice keeps the second item and runs the continuation twice |
| Bags.ValueCollection.constructor | LiveCollections/SpecializedCollections/Bag.cs:61-64 | the collection has its key and the given values |
| Bags.ValueCollection.Count | LiveCollections/SpecializedCollections/Bag.cs:70 | the number of values, repetitions included |
| Bags.ValueCollection.Contains | LiveCollections/SpecializedCollections/Bag.cs:108-110 | true exactly when some value equals the item |
| Bags.ValueCollection.AddItem | LiveCollections/SpecializedCollections/Bag.cs:100-102 | the item is appended |
| Bags.ValueCollection.Add | LiveCollections/SpecializedCollections/Bag.cs:80-88 | the items are appended in order |
| Bags.ValueCollection.RemoveItem | LiveCollections/SpecializedCollections/Bag.cs:96-98 | reports whether the item was present, and removes its first occurrence: one copy fewer in the multiset |
| Bags.ValueCollection.Remove | LiveCollections/SpecializedCollections/Bag.cs:90-94 | removes one occurrence per item, so the multiset loses exactly the items' multiset |
| Bags.ValueCollection.Clear | LiveCollections/SpecializedCollections/Bag.cs:104-106 | no values remain |
| Bags.ValueCollection.CopyTo | LiveCollections/SpecializedCollections/Bag.cs:112-114 | a negative index or too short an array throws and leaves the array unchanged; otherwise the values are copied from the index and the rest of the array is kept |
| Bags.Bag.constructor | LiveCollections/SpecializedCollections/Bag.cs:39-52 | the bag holds exactly the lookup's groups, each in a new collection; an empty group, as another bag enumerates, gives its key an empty collection |
| Bags.Bag.OfPairs | LiveCollections/SpecializedCollections/Bag.cs:54-56 | the bag holds exactly the keys of the pairs, each with its values in order |
| Bags.Bag.Keys | LiveCollections/SpecializedCollections/Bag.cs:28-29 | the keys of the bag |
| Bags.Bag.Count | LiveCollections/SpecializedCollections/Bag.cs:31 | the number of keys |
| Bags.Bag.ContainsKey | LiveCollections/SpecializedCollections/Bag.cs:35 | true exactly when the key has a collection |
| Bags.Bag.Get | LiveCollections/SpecializedCollections/Bag.cs:33 | the lookup indexer gives the key's own collection, or throws `KeyNotFoundException` |
| Bags.Bag.Clear | LiveCollections/SpecializedCollections/Bag.cs:37 | the bag is empty |
| Bags.Bag.GetOrCreate | LiveCollections/SpecializedCollections/Bag.cs:117-131 | the key's existing collection, or a new empty one that is added; the count grows by one exactly when the key was missing |
| Bags.Bag.AppendTo | LiveCollections/SpecializedCollections/Bag.cs:134-137 | one step of `Add`: the key's list grows by the values, and existing collections stay the same objects |
| Bags.Bag.AddToCollection | LiveCollections/SpecializedCollections/Bag.cs:136 | appending through the handed-out collection of a key changes that key's values, by the appended ones, and no other key's |
| Bags.Bag.Add | LiveCollections/SpecializedCollections/Bag.cs:133-138 | every group is appended under its key, keys are created as needed, even for an empty group, and existing collections stay the same objects |
| Bags.Bag.Groupings | LiveCollections/SpecializedCollections/Bag.cs:160-164 | every key once, each with its own collection |
| Bags.Bag.ToLookup | LiveCollections/SpecializedCollections/Bag.cs:170-179 | a lookup of exactly the keys with values, each group equal to the key's values; keys with empty collections vanish |
| Bags.AddValues | LiveCollections/SpecializedCollections/Bag.cs:11-17 | adding values under a key is adding the lookup of those values |
| Bags.AddValuesSpec | LiveCollections/SpecializedCollections/Bag.cs:11-17 | no values leave the bag unchanged, not even creating the key; otherwise the key's list grows by the values |
| Bags.AddPairs | LiveCollections/SpecializedCollections/Bag.cs:19-21 | adding pairs is adding their lookup |
| KeyedLists.ValueCollection.constructor | LiveCollections/SpecializedCollections3/IFiniteRelation.cs:54-61 | the collection has its key and a copy of the values |
| KeyedLists.ValueCollection.Count | LiveCollections/SpecializedCollections3/IFiniteRelation.cs:67 | the number of values |
| KeyedLists.ValueCollection.Contains | LiveCollections/SpecializedCollections3/IFiniteRelation.cs:103-105 | true exactly when some value equals the item |
| KeyedLists.ValueCollection.AddItem | LiveCollections/SpecializedCollections3/IFiniteRelation.cs:95-97 | the item is appended |
| KeyedLists.ValueCollection.Add | LiveCollections/SpecializedCollections3/IFiniteRelation.cs:77-83 | `AddRange` appends the items in order |
| KeyedLists.ValueCollection.RemoveItem | LiveCollections/SpecializedCollections3/IFiniteRelation.cs:91-93 | reports presence and removes the first occurrence |
| KeyedLists.ValueCollection.Remove | LiveCollections/SpecializedCollections3/IFiniteRelation.cs:85-89 | removes one occurrence per item, in multiset terms |
| KeyedLists.ValueCollection.Clear | LiveCollections/SpecializedCollections3/IFiniteRelation.cs:99-101 | no values remain |
| KeyedLists.ValueCollection.CopyTo | LiveCollections/SpecializedCollections3/IFiniteRelation.cs:107-109 | the `List.CopyTo` errors, or the values copied in at the index |
| KeyedLists.KeyedListDictionary.constructor | LiveCollections/SpecializedCollections3/IFiniteRelation.cs:26-36 | the dictionary holds exactly the lookup's groups, empty ones included |
| KeyedLists.KeyedListDictionary.Empty | LiveCollections/SpecializedCollections3/IFiniteRelation.cs:42-48 | the empty dictionary |
| KeyedLists.KeyedListDictionary.OfPairs | LiveCollections/SpecializedCollections3/IFiniteRelation.cs:38-40 | the dictionary holds exactly the keys of the pairs, each with its values in order |
| KeyedLists.KeyedListDictionary.Keys | LiveCollections/SpecializedCollections3/IFiniteRelation.cs:10-11 | the keys |
| KeyedLists.KeyedListDictionary.Count | LiveCollections/SpecializedCollections3/IFiniteRelation.cs:13-14 | the number of keys |
| KeyedLists.KeyedListDictionary.ContainsKey | LiveCollections/SpecializedCollections3/IFiniteRelation.cs:22 | true exactly when the key is present |
| KeyedLists.KeyedListDictionary.Get | LiveCollections/SpecializedCollections3/IFiniteRelation.cs:16-20 | both indexers give the key's collection, or throw `KeyNotFoundException` |
| KeyedLists.KeyedListDictionary.Clear | LiveCollections/SpecializedCollections3/IFiniteRelation.cs:24 | the dictionary is empty |
| KeyedLists.KeyedListDictionary.GetOrCreate | LiveCollections/SpecializedCollections3/IFiniteRelation.cs:112-121 | the existing collection, or a new empty one that is added |
| KeyedLists.KeyedListDictionary.AppendTo | LiveCollections/SpecializedCollections3/IFiniteRelation.cs:124-127 | one step of `Add`: the key's list grows by the group |
| KeyedLists.KeyedListDictionary.AddToCollection | LiveCollections/SpecializedCollections3/IFiniteRelation.cs:126 | appending through the handed-out collection of a key changes that key's values, by the appended ones, and no other key's |
| KeyedLists.KeyedListDictionary.Add | LiveCollections/SpecializedCollections3/IFiniteRelation.cs:123-128 | every group is appended under its key, a key being created even for an empty group, and existing collections stay the same objects |
| KeyedLists.KeyedListDictionary.Groupings | LiveCollections/SpecializedCollections3/IFiniteRelation.cs:132-136 | every key once, each with its own collection |

## Left out

- Locking: the reader/writer locks of `ReadWriteLockedMultiKeyDictionary` and of the two future stores, and `lock (_notifications)`. They make each public call atomic, so each call is one method here. Interleavings of calls are not modelled.
- `ReadWriteLockedMultiKeyDictionary` itself, a decorator. The snapshot copy of its `GetGrouping` is modelled: the model hands out the group as a value. The live-reference aliasing of the unlocked `GetGrouping` is not modelled. Two of its token choices are not modelled either. Its `AddOrUpdateMany` calls the base method without the token (MultiKeyDictionary.cs:147), so once the lock is held the bulk write never stops on cancellation. Its `TryRemove` passes the outer `cancellationToken` to the base method rather than the linked `cts.Token` (MultiKeyDictionary.cs:197). The model's cancellation-aware `AddOrUpdateMany` is that of the base class.
- Reactive Extensions: `IObservable` results become the sequences they would deliver. The model has one call per subscription. So it does not capture that `TryRemove` assigns its captured `keys` parameter (`keys = keys ?? …`, MultiKeyDictionary.cs:109), which makes a second subscription to the same observable reuse the first subscription's snapshot of the stored keys. The `IObservable` `SelectMany` overloads of the SpecializedCollections option are not modelled, because they need Rx.
- The async machinery: `Task`, `OptionAsyncMethodBuilder`, `ResultAsyncMethodBuilder`, the option and result awaiters and `GetAwaiter`. Continuations are numbered logs; the code behind them is not modelled.
- `Result.Try`/`Run` and `ExceptionHelpers`: exceptions as control flow cannot be expressed in Dafny.
- `ForEach`/`ForEachAsync` on the SpecializedCollections option, and the `Action` overload of `If` on the Monadic types. They only perform effects: `If` is modelled as the list of effects it would perform.
- `AsResult` of the SpecializedCollections option: internal and marked untested in the source.
- The `SelectMany` of `Option<TSource>` with a collection selector (SpecializedCollections/Option.cs:172-178). Its pattern tests whether the option is a `Some<IEnumerable<TSource>>`. That test never succeeds: `Some<T>` is sealed, C# generic classes are invariant, and no `TSource` equals `IEnumerable<TSource>`, so a `Some<TSource>` is never a `Some<IEnumerable<TSource>>`. The method therefore always returns the empty sequence, and the model has no member for that constant.
- The two-parameter `Option<TSuccess, TFailure>` of SpecializedCollections3: an empty abstract class with no members.
- The `TryGetValue` extension of `MultiKeyDictionary` (MultiKeyDictionary.cs:272-278). It awaits the first element of an `IObservable`. `GetItemsFor` is modelled, and so is the query the extension reads.
- `ToString`, `GetHashCode` and `DebuggerDisplay`. The tests' `GetHashCode()` values are parameters of the scenario methods.
- Custom comparers: every key and value uses default equality. This affects `IEqualityComparer` parameters and the `comparer` of `Contains` and `Any`.
- `Bag`'s `collectionConstructor` and `dictionaryConstructor`. Only the default `List<TValue>` collection and `Dictionary` are modelled. A null lookup passed to the `Bag` constructor is modelled as the empty lookup.
- `Disposable` and the other helpers in KeyedProducerConsumer.cs after line 118: infrastructure outside the store's behaviour.
- `IsReadOnly` and the value collections' enumerators: their values are the `values` field.
- `GroupedStore.TryUpdate`: does not model the `NullReferenceException` that `previousValue.Equals` throws for a null `previousValue`, because the model has no null references.
- `Bags.Bag.Add` / `KeyedLists.KeyedListDictionary.Add`: the lookup is a value, so `bag.Add(bag)` appends a snapshot of the bag's own groups. In the source the groupings a multimap enumerates are its live lists. `Bag.Add(bag)` therefore enumerates a `List` while appending to it, and .NET throws `InvalidOperationException`. For `KeyedListDictionary` the outcome depends on how `List.AddRange` copies a collection that wraps the target list. This self-aliasing is not modelled.
- `FutureStore.KeyedProducerConsumer.Valid` / `AwaitableStore.AwaitableDictionary.Valid`: the invariant that every awaiter still listed under a key is not completed is a choice of the model, not a guarantee of the source. `SetResult` is public (KeyedProducerConsumer.cs:42-47, AwaitableDictionary.cs:36-40), so a caller holding an awaiter from `GetItem` can complete it while it is still listed. The model does not cover that caller: its `AddOrReplace` requires `Valid()`, whereas the source would still complete the other awaiters, and for that one would skip it (the guarded `SetResult` of `KeyedProducerConsumer`) or overwrite its result (the unguarded one of `AwaitableDictionary`).
- `FutureStore.KeyedProducerConsumer.AddOrReplace` / `AwaitableStore.AwaitableDictionary.AddOrReplace`: continuations are logged per awaiter, so the order in which the continuations of different awaiters run is not captured.
- Integer widths: all counts are unbounded, since the collections are far below `int.MaxValue`.

## Findings

| source | as written | input that shows it | evidently intended | confidence | as-written member | corrected member |
|---|---|---|---|---|---|---|
| LiveCollections/Monadic/Choice.cs:66-68 | `other.IsFirst && Equals(Value1, other.Value1) \|\| Equals(Value2, other.Value2)` parses as `(… && …) \|\| …`, so two choices whose unused second slots both hold `default` compare equal | `First(1)` against `First(2)`: both `Value2` are `default`, so `EqualsCore` is true | equal exactly when both hold the same side with equal values | not executed | MonadicChoice.EqualsCoreConflates | MonadicChoice.EqualsIntendedSpec |
| LiveCollections/SpecializedCollections/MultiKeyDictionary.cs:226-232 | `TryAdd` cancels its own token source but never passes `cts.Token` to `AddOrUpdateMany`, so the write goes ahead with the update factory's `default` | `TryAdd("Test1", 4, "Dave")` on the test table answers false but replaces Bob with `default` | a present pair is left alone and false is returned | not executed | GroupedStore.TryAddAsWrittenSpec | GroupedStore.TryAddIntendedSpec |
| LiveCollections/SpecializedCollections/MultiKeyDictionary.cs:256-266 | `TryUpdate` compares `previousValue` with itself instead of with `comparedValue`, and its token is not passed either, so any present pair is overwritten and an absent pair gets `default` written | a pair stored with 1, `TryUpdate(…, previousValue: 2, value: 3)` answers true and stores 3; for an absent pair it answers false but stores `default` | update only when the stored value equals `previousValue`, and never write on failure | not executed | GroupedStore.TryUpdateAsWrittenSpec | GroupedStore.TryUpdateIntendedSpec |
