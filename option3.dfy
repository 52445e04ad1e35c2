/** The `Option<T>` of the SpecializedCollections3 library, its cases
    `Some<T>` and `None<T>`, and the static combinators of its `Option`
    class. It is a separate type from the option of SpecializedCollections
    and has a smaller set of combinators. */
module Option3 {
  import opened Errors
  import Lists

  datatype Option<+T> = None | Some(value: T)

  function AsEnumerable<T>(o: Option<T>): seq<T> {
    match o
    case Some(v) => [v]
    case None => []
  }

  lemma {:induction false} AsEnumerableSpec<T>(o: Option<T>, x: T)
    ensures |AsEnumerable(o)| == if o.Some? then 1 else 0
    ensures x in AsEnumerable(o) <==> o == Some(x)
  {
  }

  function AsOption<T>(value: T): Option<T> {
    Some(value)
  }

  function Bind<T, R>(option: Option<T>, binding: T -> Option<R>): Option<R> {
    match option
    case Some(a) => binding(a)
    case None => None
  }

  /** `Bind` applies the binder to a value and propagates `None`; it is the
      bind of a monad whose unit is `AsOption`. */
  lemma {:induction false} BindLaws<T, R, S>(a: T, option: Option<T>, f: T -> Option<R>, g: R -> Option<S>)
    ensures Bind(AsOption(a), f) == f(a)
    ensures Bind(None, f) == None
    ensures Bind(option, x => AsOption(x)) == option
    ensures Bind(Bind(option, f), g) == Bind(option, x => Bind(f(x), g))
  {
  }

  function Select<T, R>(option: Option<T>, mapping: T -> R): Option<R> {
    Bind(option, a => AsOption(mapping(a)))
  }

  lemma {:induction false} SelectSpec<T, R, S>(a: T, option: Option<T>, f: T -> R, g: R -> S)
    ensures Select(Some(a), f) == Some(f(a))
    ensures Select(None, f) == None
    ensures Select(option, x => x) == option
    ensures Select(Select(option, f), g) == Select(option, x => g(f(x)))
  {
    if option.Some? {
      assert Select(option, x => x) == AsOption(option.value);
      assert Select(Select(option, f), g) == AsOption(g(f(option.value)));
    }
  }

  function Where<T>(option: Option<T>, pred: T -> bool): Option<T> {
    match option
    case Some(a) => if pred(a) then option else None
    case None => None
  }

  /** `Where` keeps a value exactly when it satisfies the predicate, and two
      filters compose into one. */
  lemma {:induction false} WhereSpec<T>(option: Option<T>, pred: T -> bool, other: T -> bool)
    ensures Where(option, pred).Some? <==> option.Some? && pred(option.value)
    ensures Where(option, pred).Some? ==> Where(option, pred) == option
    ensures Where(Where(option, pred), other) == Where(option, x => pred(x) && other(x))
  {
  }

  predicate Matches<T>(o: Option<T>, pred: T -> bool) {
    o.Some? && pred(o.value)
  }

  /** The `foreach` of `FirstOrNone`: the first matching `Some`. */
  function FirstOrNone<T>(options: seq<Option<T>>, pred: T -> bool): Option<T> {
    if options == [] then None
    else
      match options[0]
      case Some(i) => if pred(i) then options[0] else FirstOrNone(options[1..], pred)
      case None => FirstOrNone(options[1..], pred)
  }

  /** `FirstOrNone` is `None` exactly when nothing matches, and otherwise the
      element at the first matching position. */
  lemma {:induction false} FirstOrNoneSpec<T>(options: seq<Option<T>>, pred: T -> bool)
    ensures FirstOrNone(options, pred).None? <==> forall i :: 0 <= i < |options| ==> !Matches(options[i], pred)
    ensures FirstOrNone(options, pred).Some? ==>
      exists i :: 0 <= i < |options| && options[i] == FirstOrNone(options, pred) && Matches(options[i], pred)
        && forall j :: 0 <= j < i ==> !Matches(options[j], pred)
  {
    if options != [] && !Matches(options[0], pred) {
      FirstOrNoneSpec(options[1..], pred);
      if FirstOrNone(options, pred).Some? {
        var i :| 0 <= i < |options[1..]| && options[1..][i] == FirstOrNone(options, pred) && Matches(options[1..][i], pred)
          && forall j :: 0 <= j < i ==> !Matches(options[1..][j], pred);
        assert options[i + 1] == FirstOrNone(options, pred);
        assert forall j :: 0 < j < i + 1 ==> options[j] == options[1..][j - 1];
      }
      assert forall i :: 0 < i < |options| ==> options[i] == options[1..][i - 1];
    }
  }

  function FirstOrNoneAll<T>(options: seq<Option<T>>): Option<T> {
    FirstOrNone(options, _ => true)
  }

  function FirstOrDefault<T>(options: seq<Option<T>>, pred: T -> bool, defaultValue: T): T {
    match FirstOrNone(options, pred)
    case Some(item) => item
    case None => defaultValue
  }

  /** The predicate-free overload, spelled `FirsOrDefault` in the source. */
  function FirstSomeOrDefault<T>(options: seq<Option<T>>, defaultValue: T): T {
    FirstOrDefault(options, _ => true, defaultValue)
  }

  function First<T>(options: seq<Option<T>>, pred: T -> bool): Outcome<T> {
    match FirstOrNone(options, pred)
    case Some(item) => Ok(item)
    case None => Err(IndexOutOfRange)
  }

  function FirstSome<T>(options: seq<Option<T>>): Outcome<T> {
    First(options, _ => true)
  }

  /** `First` fails exactly when no element matches, `FirstOrDefault` then
      gives `defaultValue`, and otherwise both give the first match. */
  lemma {:induction false} FirstSpec<T>(options: seq<Option<T>>, pred: T -> bool, defaultValue: T)
    ensures First(options, pred).Err? <==> forall i :: 0 <= i < |options| ==> !Matches(options[i], pred)
    ensures First(options, pred).Err? ==>
      First(options, pred).error == IndexOutOfRange && FirstOrDefault(options, pred, defaultValue) == defaultValue
    ensures First(options, pred).Ok? ==>
      exists i :: 0 <= i < |options| && options[i] == Some(First(options, pred).value) && pred(options[i].value)
        && FirstOrDefault(options, pred, defaultValue) == options[i].value
        && forall j :: 0 <= j < i ==> !Matches(options[j], pred)
  {
    FirstOrNoneSpec(options, pred);
  }

  function SelectMany<S, C, R>(source: Option<S>, collectionSelector: S -> Option<C>, resultSelector: (S, C) -> R): Option<R> {
    match source
    case Some(outer) =>
      (match collectionSelector(outer)
       case Some(b) => AsOption(resultSelector(outer, b))
       case None => None)
    case None => None
  }

  /** The three-argument query has a value exactly when both stages do. */
  lemma {:induction false} SelectManySpec<S, C, R>(source: Option<S>, f: S -> Option<C>, g: (S, C) -> R)
    ensures SelectMany(source, f, g).Some? <==> source.Some? && f(source.value).Some?
    ensures SelectMany(source, f, g).Some? ==> SelectMany(source, f, g).value == g(source.value, f(source.value).value)
    ensures SelectMany(source, f, g) == Bind(source, a => Select(f(a), b => g(a, b)))
  {
  }

  function SelectManyBind<S, R>(source: Option<S>, selector: S -> Option<R>): Option<R> {
    match source
    case Some(outer) => selector(outer)
    case None => None
  }

  lemma {:induction false} SelectManyBindIsBind<S, R>(source: Option<S>, selector: S -> Option<R>)
    ensures SelectManyBind(source, selector) == Bind(source, selector)
  {
  }

  function Flatten<T>(source: Option<Option<T>>): Option<T> {
    match source
    case Some(result) => result
    case None => None
  }

  lemma {:induction false} FlattenSpec<T, R>(o: Option<T>, option: Option<T>, f: T -> Option<R>)
    ensures Flatten(Some(o)) == o
    ensures Flatten<T>(None) == None
    ensures Flatten(Select(option, f)) == Bind(option, f)
  {
  }

  function Aggregate<S, A, R>(option: Option<S>, seed: A, func: (A, S) -> A, resultSelector: A -> R): R {
    var acc := match option
      case Some(result) => func(seed, result)
      case None => seed;
    resultSelector(acc)
  }

  function Fold<S, R>(option: Option<S>, seed: R, func: (R, S) -> R): R {
    match option
    case Some(source) => func(seed, source)
    case None => seed
  }

  /** The aggregates fold at most one element onto the seed. */
  lemma {:induction false} AggregateSpec<S, A, R>(option: Option<S>, seed: A, func: (A, S) -> A, resultSelector: A -> R)
    ensures Fold(option, seed, func) == Lists.FoldLeft(AsEnumerable(option), seed, func)
    ensures Aggregate(option, seed, func, resultSelector) == resultSelector(Lists.FoldLeft(AsEnumerable(option), seed, func))
  {
    if option.Some? {
      assert AsEnumerable(option)[1..] == [];
    }
  }

  function Contains<T(==)>(option: Option<T>, comparand: T): bool {
    match option
    case Some(result) => comparand == result
    case None => false
  }

  lemma {:induction false} ContainsSpec<T>(option: Option<T>, comparand: T)
    ensures Contains(option, comparand) <==> option == Some(comparand)
  {
  }
}
