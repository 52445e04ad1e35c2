/** The `Result<T1, T2>` of the Monadic library: a success carrying a `T1`
    or a failure carrying a `T2`, and the static `Result` extensions. */
module MonadicResult {
  import MonadicOption

  datatype Result<+T1, +T2> = Success(value1: T1) | Failure(value2: T2) {
    predicate IsSuccess() {
      Success?
    }

    function Swap(): Result<T2, T1> {
      match this
      case Success(v) => Failure(v)
      case Failure(v) => Success(v)
    }

    /** `If(Action<T1>, Action<T2>)`: the log of the one effect performed. */
    function IfDo<E>(action1: T1 -> E, action2: T2 -> E): seq<E> {
      match this
      case Success(v) => [action1(v)]
      case Failure(v) => [action2(v)]
    }

    function IfThen<T>(action1: T1 -> T, action2: T2 -> T): T {
      match this
      case Success(v) => action1(v)
      case Failure(v) => action2(v)
    }

    function IfElse<T>(result1: T, result2: T): T {
      if IsSuccess() then result1 else result2
    }

    /** `TryGet(out T1 result, alternate)`. */
    function TryGet1(alternate: T1): (bool, T1) {
      match this
      case Success(v) => (true, v)
      case Failure(_) => (false, alternate)
    }

    /** `TryGet(out T2 result, alternate)`. */
    function TryGet2(alternate: T2): (bool, T2) {
      match this
      case Success(_) => (false, alternate)
      case Failure(v) => (true, v)
    }
  }

  /** `Swap` exchanges the sides keeping the carried value, and is an
      involution. */
  lemma {:induction false} SwapSpec<T1, T2>(r: Result<T1, T2>)
    ensures r.Swap().IsSuccess() <==> !r.IsSuccess()
    ensures r.IsSuccess() ==> r.Swap().value2 == r.value1
    ensures !r.IsSuccess() ==> r.Swap().value1 == r.value2
    ensures r.Swap().Swap() == r
  {
  }

  /** Every `If` overload takes the success branch exactly when
      `IsSuccess`, and the overloads agree with one another. */
  lemma {:induction false} IfSpec<T1, T2, E>(r: Result<T1, T2>, f: T1 -> E, g: T2 -> E, e1: E, e2: E)
    ensures r.IsSuccess() ==> r.IfDo(f, g) == [f(r.value1)] && r.IfThen(f, g) == f(r.value1) && r.IfElse(e1, e2) == e1
    ensures !r.IsSuccess() ==> r.IfDo(f, g) == [g(r.value2)] && r.IfThen(f, g) == g(r.value2) && r.IfElse(e1, e2) == e2
    ensures r.IfDo(f, g) == [r.IfThen(f, g)]
    ensures r.IfElse(e1, e2) == r.IfThen(_ => e1, _ => e2)
  {
  }

  /** The first `TryGet` reports a success, the second a failure, and each
      is the other one applied to the swapped result. */
  lemma {:induction false} TryGetSpec<T1, T2>(r: Result<T1, T2>, a1: T1, a2: T2)
    ensures r.TryGet1(a1) == if r.IsSuccess() then (true, r.value1) else (false, a1)
    ensures r.TryGet2(a2) == if r.IsSuccess() then (false, a2) else (true, r.value2)
    ensures r.TryGet2(a2) == r.Swap().TryGet1(a2)
    ensures r.TryGet1(a1) == r.Swap().TryGet2(a1)
  {
  }

  function Bind<S, R, T2>(source: Result<S, T2>, binder: S -> Result<R, T2>): Result<R, T2> {
    if source.IsSuccess() then binder(source.value1) else Failure(source.value2)
  }

  /** `Bind` is the bind of a monad whose unit is `Success`; a failure's
      value passes through unchanged. */
  lemma {:induction false} BindLaws<S, R, Q, T2>(a: S, e: T2, source: Result<S, T2>, f: S -> Result<R, T2>, g: R -> Result<Q, T2>)
    ensures Bind(Success(a), f) == f(a)
    ensures Bind(Failure(e), f) == Failure(e)
    ensures Bind(source, x => Success(x)) == source
    ensures Bind(Bind(source, f), g) == Bind(source, x => Bind(f(x), g))
  {
  }

  /** `SelectMany` of a nested result: `Bind` with the identity. */
  function Flatten<T1, T2>(source: Result<Result<T1, T2>, T2>): Result<T1, T2> {
    Bind(source, x => x)
  }

  lemma {:induction false} FlattenSpec<T1, T2>(inner: Result<T1, T2>, e: T2)
    ensures Flatten(Success(inner)) == inner
    ensures Flatten<T1, T2>(Failure(e)) == Failure(e)
  {
  }

  function SelectMany<S, I, R, T2>(source: Result<S, T2>, intermediateSelector: S -> Result<I, T2>, resultSelector: (S, I) -> R): Result<R, T2> {
    Bind(source, x => Bind(intermediateSelector(x), y => Success(resultSelector(x, y))))
  }

  /** The query succeeds exactly when both stages do, and otherwise carries
      the first failure. */
  lemma {:induction false} SelectManySpec<S, I, R, T2>(source: Result<S, T2>, f: S -> Result<I, T2>, g: (S, I) -> R)
    ensures SelectMany(source, f, g).IsSuccess() <==> source.IsSuccess() && f(source.value1).IsSuccess()
    ensures SelectMany(source, f, g).IsSuccess() ==> SelectMany(source, f, g).value1 == g(source.value1, f(source.value1).value1)
    ensures !source.IsSuccess() ==> SelectMany(source, f, g) == Failure(source.value2)
    ensures source.IsSuccess() && !f(source.value1).IsSuccess() ==> SelectMany(source, f, g) == Failure(f(source.value1).value2)
  {
    if source.IsSuccess() {
      var a := source.value1;
      assert SelectMany(source, f, g) == Bind(f(a), y => Success(g(a, y)));
      if f(a).IsSuccess() {
        assert SelectMany(source, f, g) == Success(g(a, f(a).value1));
      } else {
        assert SelectMany(source, f, g) == Failure(f(a).value2);
      }
    }
  }

  function SelectManyBind<S, R, T2>(source: Result<S, T2>, resultSelector: S -> Result<R, T2>): Result<R, T2> {
    Bind(source, x => resultSelector(x))
  }

  lemma {:induction false} SelectManyBindIsBind<S, R, T2>(source: Result<S, T2>, f: S -> Result<R, T2>)
    ensures SelectManyBind(source, f) == Bind(source, f)
  {
  }

  function ToOption<T1, T2>(result: Result<T1, T2>): MonadicOption.Option<T1> {
    result.IfThen(a => MonadicOption.AsSome(a), _ => MonadicOption.None())
  }

  /** A success becomes the option holding its value, a failure no value;
      `Bind` on results agrees with `Bind` on their options. */
  lemma {:induction false} ToOptionSpec<S, R, T2>(result: Result<S, T2>, f: S -> Result<R, T2>)
    ensures ToOption(result).HasValue() <==> result.IsSuccess()
    ensures result.IsSuccess() ==> ToOption(result).value == result.value1
    ensures ToOption(Bind(result, f)) == ToOption(result).Bind(x => ToOption(f(x)))
  {
  }

  function AsEnumerable<T1, T2>(result: Result<T1, T2>): seq<T1> {
    result.IfThen(a => [a], _ => [])
  }

  lemma {:induction false} AsEnumerableSpec<T1, T2>(result: Result<T1, T2>, x: T1)
    ensures |AsEnumerable(result)| == if result.IsSuccess() then 1 else 0
    ensures x in AsEnumerable(result) <==> result == Success(x)
    ensures AsEnumerable(result) == MonadicOption.AsEnumerable(ToOption(result))
  {
  }
}
