/** `List<T>.Remove`, which drops the first occurrence of an item, and the
    `Remove(IEnumerable)` loops built on it. */
module Lists {

  /** The list with the first occurrence of `x` taken out; unchanged when
      `x` does not occur. */
  function RemoveFirst<T(==)>(s: seq<T>, x: T): seq<T> {
    if s == [] then []
    else if s[0] == x then s[1..]
    else [s[0]] + RemoveFirst(s[1..], x)
  }

  /** Removes one occurrence of each listed item, in turn. */
  function RemoveEach<T(==)>(s: seq<T>, items: seq<T>): seq<T>
    decreases |items|
  {
    if items == [] then s else RemoveEach(RemoveFirst(s, items[0]), items[1..])
  }

  /** An item that does not occur is not removed. */
  lemma {:induction false} RemoveFirstAbsent<T>(s: seq<T>, x: T)
    requires x !in s
    ensures RemoveFirst(s, x) == s
  {
    if s != [] {
      assert s[0] != x && x !in s[1..];
      RemoveFirstAbsent(s[1..], x);
      assert s == [s[0]] + s[1..];
    }
  }

  /** `RemoveFirst` cuts the list at the first occurrence of `x`. */
  lemma {:induction false} RemoveFirstCuts<T>(s: seq<T>, x: T) returns (i: nat)
    requires x in s
    ensures i < |s| && s[i] == x && x !in s[..i]
    ensures RemoveFirst(s, x) == s[..i] + s[i + 1..]
  {
    if s[0] == x {
      i := 0;
    } else {
      assert x in s[1..];
      var j := RemoveFirstCuts(s[1..], x);
      i := j + 1;
      assert s[..i] == [s[0]] + s[1..][..j];
      assert s[i + 1..] == s[1..][j + 1..];
    }
  }

  /** `RemoveFirst` takes exactly one occurrence of `x` away, if there is one. */
  lemma {:induction false} RemoveFirstMultiset<T>(s: seq<T>, x: T)
    ensures multiset(RemoveFirst(s, x)) == multiset(s) - multiset{x}
  {
    if x in s {
      var i := RemoveFirstCuts(s, x);
      var before, after := s[..i], s[i + 1..];
      assert s == before + [x] + after;
      assert multiset(s) == multiset(before) + multiset{x} + multiset(after);
      assert multiset(before + after) == multiset(before) + multiset(after);
    } else {
      RemoveFirstAbsent(s, x);
    }
  }

  /** Removing a list of items takes away one occurrence per item, as a
      multiset difference does. */
  lemma {:induction false} RemoveEachMultiset<T>(s: seq<T>, items: seq<T>)
    ensures multiset(RemoveEach(s, items)) == multiset(s) - multiset(items)
    decreases |items|
  {
    if items != [] {
      var s' := RemoveFirst(s, items[0]);
      RemoveFirstMultiset(s, items[0]);
      RemoveEachMultiset(s', items[1..]);
      assert items == [items[0]] + items[1..];
      assert multiset(items) == multiset{items[0]} + multiset(items[1..]);
      DifferenceOfSum(multiset(s), multiset{items[0]}, multiset(items[1..]));
    }
  }

  /** Taking away `b` and then `c` is taking away their sum. */
  lemma {:induction false} DifferenceOfSum<T>(a: multiset<T>, b: multiset<T>, c: multiset<T>)
    ensures (a - b) - c == a - (b + c)
  {
    forall y ensures ((a - b) - c)[y] == (a - (b + c))[y] { }
  }

  /** Items none of which occur leave the list as it was. */
  lemma {:induction false} RemoveEachAbsent<T>(s: seq<T>, items: seq<T>)
    requires forall i :: 0 <= i < |items| ==> items[i] !in s
    ensures RemoveEach(s, items) == s
    decreases |items|
  {
    if items != [] {
      RemoveFirstAbsent(s, items[0]);
      RemoveEachAbsent(s, items[1..]);
    }
  }

  /** The left fold of a sequence, the reference for the option folds. */
  function FoldLeft<S, A>(s: seq<S>, seed: A, func: (A, S) -> A): A
    decreases |s|
  {
    if s == [] then seed else FoldLeft(s[1..], func(seed, s[0]), func)
  }
}
