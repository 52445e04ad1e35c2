/** The `Option<T>` of the SpecializedCollections library, its two cases
    `Some<T>` and `None<T>`, and the static combinators of its `Option`
    class. Delegates are total functions; `IEnumerable` is a sequence. */
module SpecOption {
  import opened Errors
  import Lists

  datatype Option<+T> = None | Some(value: T)

  /** `Some.AsEnumerable` yields the value once, `None.AsEnumerable` nothing. */
  function AsEnumerable<T>(o: Option<T>): seq<T> {
    match o
    case Some(v) => [v]
    case None => []
  }

  lemma {:induction false} AsEnumerableSpec<T>(o: Option<T>, x: T)
    ensures |AsEnumerable(o)| == if o.Some? then 1 else 0
    ensures x in AsEnumerable(o) <==> o == Some(x)
  {
  }

  /** The dictionary lookup as an option. */
  function TryGetValue<K, V>(dictionary: map<K, V>, key: K): Option<V> {
    if key in dictionary then AsOption(dictionary[key]) else None
  }

  lemma {:induction false} TryGetValueSpec<K, V>(dictionary: map<K, V>, key: K, v: V)
    ensures TryGetValue(dictionary, key) == Some(v) <==> key in dictionary && dictionary[key] == v
    ensures TryGetValue(dictionary, key) == None <==> key !in dictionary
  {
  }

  function AsOption<T>(value: T): Option<T> {
    Some(value)
  }

  function Bind<T, R>(option: Option<T>, binding: T -> Option<R>): Option<R> {
    match option
    case Some(a) => binding(a)
    case None => None
  }

  /** `Bind` is the bind of a monad whose unit is `AsOption`. */
  lemma {:induction false} BindLaws<T, R, S>(a: T, option: Option<T>, f: T -> Option<R>, g: R -> Option<S>)
    ensures Bind(AsOption(a), f) == f(a)
    ensures Bind(None, f) == None
    ensures Bind(option, x => AsOption(x)) == option
    ensures Bind(Bind(option, f), g) == Bind(option, x => Bind(f(x), g))
  {
  }

  function Select<T, R>(option: Option<T>, mapping: T -> R): Option<R> {
    Bind(option, a => AsOption(mapping(a)))
  }

  /** `Select` maps the value and keeps `None`; it is a functor map. */
  lemma {:induction false} SelectSpec<T, R, S>(a: T, option: Option<T>, f: T -> R, g: R -> S)
    ensures Select(Some(a), f) == Some(f(a))
    ensures Select(None, f) == None
    ensures Select(option, x => x) == option
    ensures Select(Select(option, f), g) == Select(option, x => g(f(x)))
  {
    if option.Some? {
      assert Select(option, x => x) == AsOption(option.value);
      assert Select(Select(option, f), g) == AsOption(g(f(option.value)));
    }
  }

  function Any<T>(option: Option<T>, pred: T -> bool): bool {
    match option
    case Some(a) => pred(a)
    case None => false
  }

  /** `Any(comparison)`, with the default equality comparer. */
  function AnyEqual<T(==)>(option: Option<T>, comparison: T): bool {
    Any(option, a => a == comparison)
  }

  /** `Any()` with no predicate. */
  function AnySome<T>(option: Option<T>): bool {
    Any(option, _ => true)
  }

  lemma {:induction false} AnySpec<T>(option: Option<T>, pred: T -> bool, comparison: T)
    ensures Any(option, pred) <==> option.Some? && pred(option.value)
    ensures AnySome(option) <==> option.Some?
    ensures AnyEqual(option, comparison) <==> option == Some(comparison)
  {
  }

  function Where<T>(option: Option<T>, pred: T -> bool): Option<T> {
    if Any(option, pred) then option else None
  }

  /** `Where` keeps a value exactly when it satisfies the predicate. */
  lemma {:induction false} WhereSpec<T>(option: Option<T>, pred: T -> bool)
    ensures Where(option, pred).Some? <==> option.Some? && pred(option.value)
    ensures Where(option, pred).Some? ==> Where(option, pred) == option
  {
  }

  /** `o` is a `Some` whose value satisfies `predicate`. */
  predicate Matches<T>(o: Option<T>, pred: T -> bool) {
    o.Some? && pred(o.value)
  }

  /** The `foreach` of `FirstOrNone`: the first matching `Some`. */
  function FirstOrNone<T>(options: seq<Option<T>>, pred: T -> bool): Option<T> {
    if options == [] then None
    else if Matches(options[0], pred) then options[0]
    else FirstOrNone(options[1..], pred)
  }

  /** `FirstOrNone` is `None` exactly when nothing matches, and otherwise the
      element at the first matching position. */
  lemma {:induction false} FirstOrNoneSpec<T>(options: seq<Option<T>>, pred: T -> bool)
    ensures FirstOrNone(options, pred).None? <==> forall i :: 0 <= i < |options| ==> !Matches(options[i], pred)
    ensures FirstOrNone(options, pred).Some? ==>
      exists i :: 0 <= i < |options| && options[i] == FirstOrNone(options, pred) && Matches(options[i], pred)
        && forall j :: 0 <= j < i ==> !Matches(options[j], pred)
  {
    if options != [] && !Matches(options[0], pred) {
      FirstOrNoneSpec(options[1..], pred);
      if FirstOrNone(options, pred).Some? {
        var i :| 0 <= i < |options[1..]| && options[1..][i] == FirstOrNone(options, pred) && Matches(options[1..][i], pred)
          && forall j :: 0 <= j < i ==> !Matches(options[1..][j], pred);
        assert options[i + 1] == FirstOrNone(options, pred);
        assert forall j :: 0 < j < i + 1 ==> options[j] == options[1..][j - 1];
      }
      assert forall i :: 0 < i < |options| ==> options[i] == options[1..][i - 1];
    }
  }

  /** `FirstOrNone()` with no pred: the first `Some`. */
  function FirstOrNoneAll<T>(options: seq<Option<T>>): Option<T> {
    FirstOrNone(options, _ => true)
  }

  function FirstOrDefault<T>(options: seq<Option<T>>, pred: T -> bool, defaultValue: T): T {
    match FirstOrNone(options, pred)
    case Some(item) => item
    case None => defaultValue
  }

  /** The predicate-free overload, spelled `FirsOrDefault` in the source. */
  function FirstSomeOrDefault<T>(options: seq<Option<T>>, defaultValue: T): T {
    FirstOrDefault(options, _ => true, defaultValue)
  }

  /** `First` throws `IndexOutOfRangeException` when nothing matches. */
  function First<T>(options: seq<Option<T>>, pred: T -> bool): Outcome<T> {
    match FirstOrNone(options, pred)
    case Some(item) => Ok(item)
    case None => Err(IndexOutOfRange)
  }

  function FirstSome<T>(options: seq<Option<T>>): Outcome<T> {
    First(options, _ => true)
  }

  /** `First` fails exactly when no element matches, `FirstOrDefault` then
      gives the default, and otherwise both give the first match. */
  lemma {:induction false} FirstSpec<T>(options: seq<Option<T>>, pred: T -> bool, defaultValue: T)
    ensures First(options, pred).Err? <==> forall i :: 0 <= i < |options| ==> !Matches(options[i], pred)
    ensures First(options, pred).Err? ==>
      First(options, pred).error == IndexOutOfRange && FirstOrDefault(options, pred, defaultValue) == defaultValue
    ensures First(options, pred).Ok? ==>
      exists i :: 0 <= i < |options| && options[i] == Some(First(options, pred).value) && pred(options[i].value)
        && FirstOrDefault(options, pred, defaultValue) == options[i].value
        && forall j :: 0 <= j < i ==> !Matches(options[j], pred)
  {
    FirstOrNoneSpec(options, pred);
  }

  function SelectMany<S, C, R>(source: Option<S>, collectionSelector: S -> Option<C>, resultSelector: (S, C) -> R): Option<R> {
    match source
    case Some(outer) =>
      (match collectionSelector(outer)
       case Some(b) => AsOption(resultSelector(outer, b))
       case None => None)
    case None => None
  }

  /** The query `from a in source from b in f(a) select g(a, b)` has a value
      exactly when both stages do. */
  lemma {:induction false} SelectManySpec<S, C, R>(source: Option<S>, f: S -> Option<C>, g: (S, C) -> R)
    ensures SelectMany(source, f, g).Some? <==> source.Some? && f(source.value).Some?
    ensures SelectMany(source, f, g).Some? ==> SelectMany(source, f, g).value == g(source.value, f(source.value).value)
    ensures SelectMany(source, f, g) == Bind(source, a => Select(f(a), b => g(a, b)))
  {
  }

  /** The two-argument `SelectMany`. */
  function SelectManyBind<S, R>(source: Option<S>, selector: S -> Option<R>): Option<R> {
    match source
    case Some(outer) => selector(outer)
    case None => None
  }

  lemma {:induction false} SelectManyBindIsBind<S, R>(source: Option<S>, selector: S -> Option<R>)
    ensures SelectManyBind(source, selector) == Bind(source, selector)
  {
  }

  /** `SelectMany` of an `Option<Option<T>>`. */
  function Flatten<T>(source: Option<Option<T>>): Option<T> {
    match source
    case Some(result) => result
    case None => None
  }

  lemma {:induction false} FlattenSpec<T, R>(o: Option<T>, option: Option<T>, f: T -> Option<R>)
    ensures Flatten(Some(o)) == o
    ensures Flatten<T>(None) == None
    ensures Flatten(Select(option, f)) == Bind(option, f)
  {
  }

  /** `SelectMany` of a sequence of options: the `Some` payloads in order. */
  function Values<T>(source: seq<Option<T>>): seq<T> {
    if source == [] then []
    else
      (match source[0]
       case Some(result) => [result]
       case None => []) + Values(source[1..])
  }

  /** `Values` distributes over concatenation; with `Values([o]) ==
      AsEnumerable(o)` this fixes it on every sequence. */
  lemma {:induction false} ValuesAppend<T>(s: seq<Option<T>>, t: seq<Option<T>>)
    ensures Values(s + t) == Values(s) + Values(t)
    decreases |s|
  {
    if s == [] {
      assert s + t == t;
    } else {
      assert (s + t)[1..] == s[1..] + t;
      ValuesAppend(s[1..], t);
    }
  }

  lemma {:induction false} ValuesSingleton<T>(o: Option<T>)
    ensures Values([o]) == AsEnumerable(o)
  {
  }

  /** `Values` keeps exactly the payloads of the `Some` elements. */
  lemma {:induction false} ValuesMembers<T>(s: seq<Option<T>>, x: T)
    ensures x in Values(s) <==> Some(x) in s
  {
    if s != [] {
      assert s == [s[0]] + s[1..];
      ValuesMembers(s[1..], x);
    }
  }

  /** The query `from x in source from c in f(x) select g(x, c)` over a
      sequence: a result for each element whose stage gives `Some`. */
  function SelectManySeq<S, C, R>(source: seq<S>, collectionSelector: S -> Option<C>, resultSelector: (S, C) -> R): seq<R> {
    if source == [] then []
    else
      (match collectionSelector(source[0])
       case Some(some) => [resultSelector(source[0], some)]
       case None => []) + SelectManySeq(source[1..], collectionSelector, resultSelector)
  }

  /** `SelectManySeq` is the one-element query applied to each element,
      flattened by `Values`. */
  lemma {:induction false} SelectManySeqIsValues<S, C, R>(source: seq<S>, f: S -> Option<C>, g: (S, C) -> R)
    ensures SelectManySeq(source, f, g) == Values(seq(|source|, i requires 0 <= i < |source| => SelectMany(Some(source[i]), f, g)))
  {
    if source != [] {
      SelectManySeqIsValues(source[1..], f, g);
      var all := seq(|source|, i requires 0 <= i < |source| => SelectMany(Some(source[i]), f, g));
      assert all[1..] == seq(|source[1..]|, i requires 0 <= i < |source[1..]| => SelectMany(Some(source[1..][i]), f, g));
    }
  }

  /** `SelectMany` of an `Option<IEnumerable<T>>`. */
  function FlattenSeq<T>(source: Option<seq<T>>): seq<T> {
    match source
    case Some(result) => result
    case None => []
  }

  lemma {:induction false} FlattenSeqSpec<T>(xs: seq<T>)
    ensures FlattenSeq(Some(xs)) == xs
    ensures FlattenSeq<T>(None) == []
  {
  }

  /** The three-argument `Aggregate`. */
  function Aggregate<S, A, R>(option: Option<S>, seed: A, func: (A, S) -> A, resultSelector: A -> R): R {
    var acc := match option
      case Some(result) => func(seed, result)
      case None => seed;
    resultSelector(acc)
  }

  /** The two-argument `Aggregate`. */
  function Fold<S, R>(option: Option<S>, seed: R, func: (R, S) -> R): R {
    match option
    case Some(source) => func(seed, source)
    case None => seed
  }

  /** The aggregates fold the option's enumeration, which has at most one
      element, onto the seed. */
  lemma {:induction false} AggregateSpec<S, A, R>(option: Option<S>, seed: A, func: (A, S) -> A, resultSelector: A -> R)
    ensures Fold(option, seed, func) == Lists.FoldLeft(AsEnumerable(option), seed, func)
    ensures Aggregate(option, seed, func, resultSelector) == resultSelector(Lists.FoldLeft(AsEnumerable(option), seed, func))
  {
    if option.Some? {
      assert AsEnumerable(option)[1..] == [];
    }
  }

  function Contains<T(==)>(option: Option<T>, comparand: T): bool {
    match option
    case Some(result) => comparand == result
    case None => false
  }

  lemma {:induction false} ContainsSpec<T>(option: Option<T>, comparand: T)
    ensures Contains(option, comparand) <==> option == Some(comparand)
    ensures Contains(option, comparand) == AnyEqual(option, comparand)
  {
  }

  /** The expectations of the option tests: a dictionary lookup gives `Some 5`,
      the query over two present keys gives 11, and a missing key on either
      side gives no value. */
  lemma {:induction false} OptionTestsExpectations()
    ensures var d := map["Test1" := 5, "Test2" := 6];
      && TryGetValue(d, "Test1") == Some(5)
      && Contains(SelectMany(TryGetValue(d, "Test1"), _ => TryGetValue(d, "Test2"), (a, b) => a + b), 11)
      && !AnySome(SelectMany(TryGetValue(d, "a"), _ => TryGetValue(d, "Test2"), (a, b) => a + b))
      && !Contains(SelectMany(TryGetValue(d, "Test1"), _ => TryGetValue(d, "b"), (a, b) => a + b), 11)
  {
  }
}
