/** The sealed `Option<T>` of the Monadic library and its `Linq.Option`
    extensions. The class holds a `HasValue` flag and a `Value`; its shared
    `NoneValue` instance is the constructor `NoneValue`. An `Action`
    delegate is modelled as a function giving the effect it performs, and
    the `Action` overloads of `If` return the log of effects performed. */
module MonadicOption {
  datatype Option<+T> = NoneValue | Some(value: T) {
    predicate HasValue() {
      Some?
    }

    /** `If(action, alternateAction)` with two actions. */
    function IfDo<E>(action: T -> E, alternateAction: E): seq<E> {
      if HasValue() then [action(value)] else [alternateAction]
    }

    /** `If(action)` with one action. */
    function IfDoSome<E>(action: T -> E): seq<E> {
      if HasValue() then [action(value)] else []
    }

    /** `If(Func<T,R>, Func<R>)`: the alternative is a thunk. */
    function IfThen<R>(action: T -> R, alternateAction: () -> R): R {
      if HasValue() then action(value) else alternateAction()
    }

    /** `If(Func<T,R>, R)`: the alternative is a value. */
    function IfElse<R>(action: T -> R, alternateAction: R): R {
      if HasValue() then action(value) else alternateAction
    }

    /** `TryGet(out value)`: `dflt` stands for `default(T)`. */
    function TryGet(dflt: T): (bool, T) {
      (HasValue(), if HasValue() then value else dflt)
    }

    function GetValue(alternativeValue: T): T {
      if HasValue() then value else alternativeValue
    }

    function Bind<R>(binder: T -> Option<R>): Option<R> {
      if HasValue() then binder(value) else NoneValue
    }
  }

  /** The `Option.Some` extension. */
  function AsSome<T>(value: T): Option<T> {
    Some(value)
  }

  /** The `Option.None` factory. */
  function None<T>(): Option<T> {
    NoneValue
  }

  lemma {:induction false} CasesSpec<T>(v: T, dflt: T)
    ensures AsSome(v).HasValue() && AsSome(v).value == v
    ensures !None<T>().HasValue()
    ensures AsSome(v).TryGet(dflt) == (true, v) && None<T>().TryGet(dflt) == (false, dflt)
    ensures AsSome(v).GetValue(dflt) == v && None<T>().GetValue(dflt) == dflt
  {
  }

  /** `GetValue` and `TryGet` agree: the flag is `HasValue`, and the value is
      the held one or the alternative. */
  lemma {:induction false} TryGetSpec<T>(o: Option<T>, dflt: T)
    ensures o.TryGet(dflt).0 <==> o.HasValue()
    ensures o.TryGet(dflt).1 == o.GetValue(dflt)
    ensures o.HasValue() ==> o.GetValue(dflt) == o.value
  {
  }

  /** Every `If` overload takes the first branch exactly when a value is
      present, and the overloads agree with one another. */
  lemma {:induction false} IfSpec<T, E, R>(o: Option<T>, f: T -> E, e: E, g: T -> R, alt: () -> R)
    ensures o.HasValue() ==> o.IfDo(f, e) == [f(o.value)] && o.IfThen(g, alt) == g(o.value)
    ensures !o.HasValue() ==> o.IfDo(f, e) == [e] && o.IfThen(g, alt) == alt()
    ensures o.IfDoSome(f) == (if o.HasValue() then o.IfDo(f, e) else [])
    ensures o.IfElse(g, alt()) == o.IfThen(g, alt)
  {
  }

  /** `Bind` is the bind of a monad whose unit is `AsSome`. */
  lemma {:induction false} BindLaws<T, R, S>(a: T, o: Option<T>, f: T -> Option<R>, g: R -> Option<S>)
    ensures AsSome(a).Bind(f) == f(a)
    ensures None<T>().Bind(f) == NoneValue
    ensures o.Bind(x => AsSome(x)) == o
    ensures o.Bind(f).Bind(g) == o.Bind(x => f(x).Bind(g))
  {
  }

  function Select<S, R>(source: Option<S>, selector: S -> R): Option<R> {
    source.Bind(x => AsSome(selector(x)))
  }

  lemma {:induction false} SelectSpec<S, R, Q>(a: S, source: Option<S>, f: S -> R, g: R -> Q)
    ensures Select(AsSome(a), f) == Some(f(a))
    ensures Select(None(), f) == NoneValue
    ensures Select(source, x => x) == source
    ensures Select(Select(source, f), g) == Select(source, x => g(f(x)))
  {
    if source.Some? {
      assert source.HasValue();
      assert Select(source, x => x) == AsSome(source.value);
      assert Select(Select(source, f), g) == AsSome(g(f(source.value)));
    }
  }

  /** `SelectMany` of an `Option<Option<T>>`. */
  function Flatten<T>(source: Option<Option<T>>): Option<T> {
    source.Bind(x => x)
  }

  lemma {:induction false} FlattenSpec<T, R>(o: Option<T>, source: Option<T>, f: T -> Option<R>)
    ensures Flatten(AsSome(o)) == o
    ensures Flatten<T>(NoneValue) == NoneValue
    ensures Flatten(Select(source, f)) == source.Bind(f)
  {
  }

  /** The three-argument `SelectMany` of a query expression. */
  function SelectMany<S, I, R>(source: Option<S>, optionSelector: S -> Option<I>, resultSelector: (S, I) -> R): Option<R> {
    source.Bind(x => optionSelector(x).Bind(y => AsSome(resultSelector(x, y))))
  }

  /** A value comes out exactly when both stages give one. */
  lemma {:induction false} SelectManySpec<S, I, R>(source: Option<S>, f: S -> Option<I>, g: (S, I) -> R)
    ensures SelectMany(source, f, g).HasValue() <==> source.HasValue() && f(source.value).HasValue()
    ensures SelectMany(source, f, g).HasValue() ==> SelectMany(source, f, g).value == g(source.value, f(source.value).value)
  {
    if source.HasValue() {
      var a := source.value;
      assert SelectMany(source, f, g) == f(a).Bind(y => AsSome(g(a, y)));
      if f(a).HasValue() {
        assert SelectMany(source, f, g) == Some(g(a, f(a).value));
      } else {
        assert SelectMany(source, f, g) == NoneValue;
      }
    }
  }

  /** The two-argument `SelectMany`. */
  function SelectManyBind<S, R>(source: Option<S>, resultSelector: S -> Option<R>): Option<R> {
    source.Bind(x => resultSelector(x))
  }

  lemma {:induction false} SelectManyBindIsBind<S, R>(source: Option<S>, f: S -> Option<R>)
    ensures SelectManyBind(source, f) == source.Bind(f)
  {
  }

  /** `SelectMany` of an `Option<IEnumerable<T>>`. */
  function FlattenSeq<T>(source: Option<seq<T>>): seq<T> {
    source.IfElse(a => a, [])
  }

  lemma {:induction false} FlattenSeqSpec<T>(xs: seq<T>)
    ensures FlattenSeq(AsSome(xs)) == xs
    ensures FlattenSeq<T>(None()) == []
  {
  }

  function AsEnumerable<T>(source: Option<T>): seq<T> {
    source.IfThen(a => [a], () => [])
  }

  lemma {:induction false} AsEnumerableSpec<T>(o: Option<T>, x: T)
    ensures |AsEnumerable(o)| == if o.HasValue() then 1 else 0
    ensures x in AsEnumerable(o) <==> o == Some(x)
  {
  }

  /** `SelectMany` of an `IEnumerable<Option<T>>`: each option contributes
      `Repeat(b, 1)` or `Empty`. */
  function Values<T>(source: seq<Option<T>>): seq<T> {
    if source == [] then []
    else source[0].IfElse(b => [b], []) + Values(source[1..])
  }

  /** `Values` distributes over concatenation and sends one option to its
      `AsEnumerable`, which fixes it on every sequence. */
  lemma {:induction false} ValuesAppend<T>(s: seq<Option<T>>, t: seq<Option<T>>)
    ensures Values(s + t) == Values(s) + Values(t)
    decreases |s|
  {
    if s == [] {
      assert s + t == t;
    } else {
      assert (s + t)[1..] == s[1..] + t;
      ValuesAppend(s[1..], t);
    }
  }

  lemma {:induction false} ValuesSingleton<T>(o: Option<T>)
    ensures Values([o]) == AsEnumerable(o)
  {
  }

  /** `Values` keeps exactly the held values. */
  lemma {:induction false} ValuesMembers<T>(s: seq<Option<T>>, x: T)
    ensures x in Values(s) <==> Some(x) in s
  {
    if s != [] {
      assert s == [s[0]] + s[1..];
      ValuesMembers(s[1..], x);
    }
  }

  function Where<T>(source: Option<T>, pred: T -> bool): Option<T> {
    source.Bind(a => if pred(a) then source else NoneValue)
  }

  /** `Where` keeps a value exactly when it satisfies the predicate. */
  lemma {:induction false} WhereSpec<T>(source: Option<T>, pred: T -> bool, other: T -> bool)
    ensures Where(source, pred).HasValue() <==> source.HasValue() && pred(source.value)
    ensures Where(source, pred).HasValue() ==> Where(source, pred) == source
    ensures Where(Where(source, pred), other) == Where(source, x => pred(x) && other(x))
  {
  }
}
