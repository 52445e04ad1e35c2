/** The `OptionalParam<T>` struct of the Monadic library: a flag and a
    value, read back through the `|` operator. */
module OptionalParams {
  datatype OptionalParam<+T> = OptionalParam(hasValue: bool, value: T)

  /** The constructor `new OptionalParam<T>(value)`. */
  function New<T>(value: T): OptionalParam<T> {
    OptionalParam(true, value)
  }

  /** The implicit conversion from `T`. */
  function Implicit<T>(value: T): OptionalParam<T> {
    New(value)
  }

  /** `default(OptionalParam<T>)`: both fields zeroed; `dflt` stands for
      `default(T)`. */
  function Default<T>(dflt: T): OptionalParam<T> {
    OptionalParam(false, dflt)
  }

  /** The operator `optional | alternativeValue`. */
  function Or<T>(optional: OptionalParam<T>, alternativeValue: T): T {
    if optional.hasValue then optional.value else alternativeValue
  }

  /** A constructed parameter always wins over the alternative, the default
      one never does, and the conversion is the constructor. */
  lemma {:induction false} OrSpec<T>(x: T, alt: T, dflt: T)
    ensures Or(New(x), alt) == x
    ensures Or(Default(dflt), alt) == alt
    ensures Implicit(x) == New(x)
    ensures Or(Implicit(x), alt) == x
  {
  }

  /** `|` depends only on the held value when there is one, and only on the
      alternative otherwise. */
  lemma {:induction false} OrDependsOnlyOnHeld<T>(o: OptionalParam<T>, p: OptionalParam<T>, alt: T, alt2: T)
    ensures o.hasValue ==> Or(o, alt) == Or(o, alt2) == o.value
    ensures !o.hasValue && !p.hasValue ==> Or(o, alt) == Or(p, alt) == alt
  {
  }
}
