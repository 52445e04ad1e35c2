/** The `Choice<T1, T2>` class of the Monadic library and its
    `Linq.Choice` extensions. A choice holds a first value or a second
    value; the class stores both `Value1` and `Value2`, and the one that
    was not given keeps its `default`, which matters to `EqualsCore`. */
module MonadicChoice {
  datatype Choice<+T1, +T2> = First(first: T1) | Second(second: T2) {
    predicate IsFirst() {
      First?
    }

    /** The `Value1` property; `d1` stands for `default(T1)`. */
    function Value1(d1: T1): T1 {
      if IsFirst() then first else d1
    }

    /** The `Value2` property; `d2` stands for `default(T2)`. */
    function Value2(d2: T2): T2 {
      if IsFirst() then d2 else second
    }

    function Swap(): Choice<T2, T1> {
      match this
      case First(v) => Second(v)
      case Second(v) => First(v)
    }

    /** `If(Action<T1>, Action<T2>)`: the log of the one effect performed. */
    function IfDo<E>(action1: T1 -> E, action2: T2 -> E): seq<E> {
      match this
      case First(v) => [action1(v)]
      case Second(v) => [action2(v)]
    }

    function IfThen<T>(action1: T1 -> T, action2: T2 -> T): T {
      match this
      case First(v) => action1(v)
      case Second(v) => action2(v)
    }

    function IfElse<T>(result1: T, result2: T): T {
      if IsFirst() then result1 else result2
    }

    /** `TryGet(out T1 result, alternate)`. */
    function TryGet1(alternate: T1): (bool, T1) {
      match this
      case First(v) => (true, v)
      case Second(_) => (false, alternate)
    }

    /** `TryGet(out T2 result, alternate)`. */
    function TryGet2(alternate: T2): (bool, T2) {
      match this
      case First(_) => (false, alternate)
      case Second(v) => (true, v)
    }
  }

  /** The extension factories `FirstChoiceOf` and `SecondChoiceOf`. */
  function FirstChoiceOf<T1, T2>(value: T1): Choice<T1, T2> {
    First(value)
  }

  function SecondChoiceOf<T1, T2>(value: T2): Choice<T1, T2> {
    Second(value)
  }

  /** `Swap` moves the held value to the other side and is an involution. */
  lemma {:induction false} SwapSpec<T1, T2>(c: Choice<T1, T2>)
    ensures c.Swap().IsFirst() <==> !c.IsFirst()
    ensures c.IsFirst() ==> c.Swap().second == c.first
    ensures !c.IsFirst() ==> c.Swap().first == c.second
    ensures c.Swap().Swap() == c
  {
  }

  /** Every `If` overload dispatches on `IsFirst`. */
  lemma {:induction false} IfSpec<T1, T2, E>(c: Choice<T1, T2>, f: T1 -> E, g: T2 -> E, e1: E, e2: E)
    ensures c.IsFirst() ==> c.IfDo(f, g) == [f(c.first)] && c.IfThen(f, g) == f(c.first) && c.IfElse(e1, e2) == e1
    ensures !c.IsFirst() ==> c.IfDo(f, g) == [g(c.second)] && c.IfThen(f, g) == g(c.second) && c.IfElse(e1, e2) == e2
    ensures c.IfDo(f, g) == [c.IfThen(f, g)]
    ensures c.IfElse(e1, e2) == c.IfThen(_ => e1, _ => e2)
  {
  }

  /** Each `TryGet` reports its own side, and the two mirror each other
      through `Swap`. */
  lemma {:induction false} TryGetSpec<T1, T2>(c: Choice<T1, T2>, a1: T1, a2: T2)
    ensures c.TryGet1(a1) == if c.IsFirst() then (true, c.first) else (false, a1)
    ensures c.TryGet2(a2) == if c.IsFirst() then (false, a2) else (true, c.second)
    ensures c.TryGet2(a2) == c.Swap().TryGet1(a2)
    ensures c.TryGet1(a1) == c.Swap().TryGet2(a1)
  {
  }

  /** A reference that may be `null`. */
  datatype Nullable<+T> = Null | NonNull(obj: T)

  /** `EqualsCore(other)` as written: `other` is nullable, `d1` and `d2` are
      the defaults the unheld side carries, and `&&` binds tighter than
      `||`, so a match on `Value2` suffices whatever either side holds. */
  function EqualsCore<T1(==), T2(==)>(this_: Choice<T1, T2>, other: Nullable<Choice<T1, T2>>, d1: T1, d2: T2): bool {
    other.NonNull?
      && ((other.obj.IsFirst() && this_.Value1(d1) == other.obj.Value1(d1))
          || this_.Value2(d2) == other.obj.Value2(d2))
  }


  /** The defect, concretely: with `int` on both sides, `First(1)` equals
      `First(2)`, and `First(0)` equals `Second(0)`, because both first
      choices carry `Value2 == default(int) == 0`. */
  lemma {:induction false} EqualsCoreConflates()
    ensures EqualsCore<int, int>(First(1), NonNull(First(2)), 0, 0)
    ensures EqualsCore<int, int>(First(0), NonNull(Second(0)), 0, 0)
    ensures !EqualsIntended<int, int>(First(1), NonNull(First(2)))
  {
  }

  /** As written it still is reflexive and rejects `null`, so the
      `ReferenceEquals` short-cuts of `Equals` and `==` change nothing. */
  lemma {:induction false} EqualsCoreReflexive<T1, T2>(c: Choice<T1, T2>, d1: T1, d2: T2)
    ensures EqualsCore(c, NonNull(c), d1, d2)
    ensures !EqualsCore(c, Null, d1, d2)
  {
  }

  /** The intended equality: the same side, holding equal values. */
  function EqualsIntended<T1(==), T2(==)>(this_: Choice<T1, T2>, other: Nullable<Choice<T1, T2>>): bool {
    other.NonNull?
      && this_.IsFirst() == other.obj.IsFirst()
      && (if this_.IsFirst() then this_.first == other.obj.first else this_.second == other.obj.second)
  }

  /** The corrected `EqualsCore` is value equality of choices, whatever the
      defaults: reflexive, symmetric and independent of the unheld side. */
  lemma {:induction false} EqualsIntendedSpec<T1, T2>(c: Choice<T1, T2>, other: Nullable<Choice<T1, T2>>)
    ensures EqualsIntended(c, other) <==> other == NonNull(c)
    ensures other.NonNull? ==> (EqualsIntended(c, other) <==> EqualsIntended(other.obj, NonNull(c)))
  {
  }

  function Bind<S, R, T2>(source: Choice<S, T2>, binder: S -> Choice<R, T2>): Choice<R, T2> {
    if source.IsFirst() then binder(source.first) else Second(source.second)
  }

  /** `Bind` is the bind of a monad whose unit is `First`; a second choice
      passes through unchanged. */
  lemma {:induction false} BindLaws<S, R, Q, T2>(a: S, e: T2, source: Choice<S, T2>, f: S -> Choice<R, T2>, g: R -> Choice<Q, T2>)
    ensures Bind(First(a), f) == f(a)
    ensures Bind(Second(e), f) == Second(e)
    ensures Bind(source, x => First(x)) == source
    ensures Bind(Bind(source, f), g) == Bind(source, x => Bind(f(x), g))
  {
  }

  /** `SelectMany` of a nested choice. */
  function Flatten<T1, T2>(source: Choice<Choice<T1, T2>, T2>): Choice<T1, T2> {
    Bind(source, a => a)
  }

  lemma {:induction false} FlattenSpec<T1, T2>(inner: Choice<T1, T2>, e: T2)
    ensures Flatten(First(inner)) == inner
    ensures Flatten<T1, T2>(Second(e)) == Second(e)
  {
  }

  function SelectMany<S, I, R, T2>(source: Choice<S, T2>, intermediateSelector: S -> Choice<I, T2>, resultSelector: (S, I) -> R): Choice<R, T2> {
    Bind(source, x => Bind(intermediateSelector(x), y => First(resultSelector(x, y))))
  }

  /** Two first choices combine; otherwise the first second-choice value is
      carried. */
  lemma {:induction false} SelectManySpec<S, I, R, T2>(source: Choice<S, T2>, f: S -> Choice<I, T2>, g: (S, I) -> R)
    ensures SelectMany(source, f, g).IsFirst() <==> source.IsFirst() && f(source.first).IsFirst()
    ensures SelectMany(source, f, g).IsFirst() ==> SelectMany(source, f, g).first == g(source.first, f(source.first).first)
    ensures !source.IsFirst() ==> SelectMany(source, f, g) == Second(source.second)
    ensures source.IsFirst() && !f(source.first).IsFirst() ==> SelectMany(source, f, g) == Second(f(source.first).second)
  {
    if source.IsFirst() {
      var a := source.first;
      assert SelectMany(source, f, g) == Bind(f(a), y => First(g(a, y)));
      if f(a).IsFirst() {
        assert SelectMany(source, f, g) == First(g(a, f(a).first));
      } else {
        assert SelectMany(source, f, g) == Second(f(a).second);
      }
    }
  }

  function SelectManyBind<S, R, T2>(source: Choice<S, T2>, resultSelector: S -> Choice<R, T2>): Choice<R, T2> {
    Bind(source, resultSelector)
  }

  lemma {:induction false} SelectManyBindIsBind<S, R, T2>(source: Choice<S, T2>, f: S -> Choice<R, T2>)
    ensures SelectManyBind(source, f) == Bind(source, f)
  {
  }

  /** The two-selector `Select`. */
  function SelectBoth<S1, R1, S2, R2>(source: Choice<S1, S2>, selector1: S1 -> R1, selector2: S2 -> R2): Choice<R1, R2> {
    if source.IsFirst() then First(selector1(source.first)) else Second(selector2(source.second))
  }

  function Select<S, R, T2>(source: Choice<S, T2>, selector: S -> R): Choice<R, T2> {
    SelectBoth(source, selector, a => a)
  }

  function SelectSecond<T1, S, R>(source: Choice<T1, S>, selector: S -> R): Choice<T1, R> {
    SelectBoth(source, a => a, selector)
  }

  /** `SelectBoth` maps whichever side is held and keeps the side; `Select`
      maps only the first side, `SelectSecond` only the second, and the
      three relate through `Bind` and `Swap`. */
  lemma {:induction false} SelectSpec<S1, R1, S2, R2>(c: Choice<S1, S2>, f: S1 -> R1, g: S2 -> R2)
    ensures SelectBoth(c, f, g).IsFirst() <==> c.IsFirst()
    ensures c.IsFirst() ==> SelectBoth(c, f, g).first == f(c.first)
    ensures !c.IsFirst() ==> SelectBoth(c, f, g).second == g(c.second)
    ensures Select(c, f) == Bind(c, x => First(f(x)))
    ensures !c.IsFirst() ==> Select(c, f) == Second(c.second)
    ensures c.IsFirst() ==> SelectSecond(c, g) == First(c.first)
    ensures SelectSecond(c, g) == Select(c.Swap(), g).Swap()
    ensures SelectBoth(c, f, g) == SelectSecond(Select(c, f), g)
  {
  }
}
