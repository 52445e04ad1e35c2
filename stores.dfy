/** What the two keyed future stores, `KeyedProducerConsumer` and
    `AwaitableDictionary`, have in common: the dictionary their constructors
    fill from initial pairs, and the continuations their awaiters hold. */
module Stores {
  import opened Errors
  import opened Lookups

  /** A continuation handed to `OnCompleted`. The code behind an `Action`
      delegate is not part of this model: each continuation is known by a
      number, and an awaiter records the numbers it has invoked. */
  type Continuation = nat

  /** No key occurs in two of the pairs. */
  predicate UniqueKeys<K(==), V>(pairs: seq<(K, V)>) {
    forall i, j :: 0 <= i < j < |pairs| ==> pairs[i].0 != pairs[j].0
  }

  /** `Dictionary.Add` applied to each pair in turn, starting from an empty
      dictionary: the first key met a second time throws. */
  function FromPairs<K(==), V>(pairs: seq<(K, V)>): Outcome<map<K, V>>
    decreases |pairs|
  {
    if pairs == [] then Ok(map[])
    else
      var last := pairs[|pairs| - 1];
      match FromPairs(pairs[..|pairs| - 1])
      case Err(e) => Err(e)
      case Ok(m) => if last.0 in m then Err(DuplicateKey) else Ok(m[last.0 := last.1])
  }

  /** Filling a dictionary from pairs fails, with a duplicate key, exactly
      when two pairs share a key; otherwise the dictionary holds exactly the
      given pairs. */
  lemma {:induction false} FromPairsSpec<K, V>(pairs: seq<(K, V)>)
    ensures FromPairs(pairs).Ok? <==> UniqueKeys(pairs)
    ensures FromPairs(pairs).Err? ==> FromPairs(pairs).error == DuplicateKey
    ensures FromPairs(pairs).Ok? ==> FromPairs(pairs).value.Keys == PairKeys(pairs)
    ensures FromPairs(pairs).Ok? ==>
      forall i :: 0 <= i < |pairs| ==> FromPairs(pairs).value[pairs[i].0] == pairs[i].1
    decreases |pairs|
  {
    if pairs != [] {
      var init, last := pairs[..|pairs| - 1], pairs[|pairs| - 1];
      FromPairsSpec(init);
      assert PairKeys(pairs) == PairKeys(init) + {last.0} by {
        forall y | y in PairKeys(pairs) ensures y in PairKeys(init) + {last.0} {
          var i :| 0 <= i < |pairs| && pairs[i].0 == y;
          if i < |pairs| - 1 { assert init[i].0 == y; }
        }
      }
      if FromPairs(init).Ok? {
        if last.0 in FromPairs(init).value {
          var i :| 0 <= i < |init| && init[i].0 == last.0;
          assert pairs[i].0 == pairs[|pairs| - 1].0;
        } else {
          assert UniqueKeys(pairs) by {
            forall i, j | 0 <= i < j < |pairs| ensures pairs[i].0 != pairs[j].0 {
              if j < |pairs| - 1 {
                assert init[i] == pairs[i] && init[j] == pairs[j];
              } else {
                assert init[i].0 in PairKeys(init);
              }
            }
          }
          forall i | 0 <= i < |pairs| ensures FromPairs(pairs).value[pairs[i].0] == pairs[i].1 {
            if i < |pairs| - 1 {
              assert init[i] == pairs[i];
              assert pairs[i].0 in PairKeys(init);
            }
          }
        }
      } else {
        assert !UniqueKeys(pairs) by {
          var i, j :| 0 <= i < j < |init| && init[i].0 == init[j].0;
          assert pairs[i] == init[i] && pairs[j] == init[j];
        }
      }
    }
  }

  /** Once filling from a prefix has failed, filling from any longer prefix
      fails with the same error. */
  lemma {:induction false} FailureSticks<K, V>(pairs: seq<(K, V)>, n: nat)
    requires 0 < n <= |pairs| && FromPairs(pairs[..n]).Err?
    ensures FromPairs(pairs) == FromPairs(pairs[..n])
    decreases |pairs| - n
  {
    if n < |pairs| {
      assert pairs[..n + 1][..n] == pairs[..n];
      FailureSticks(pairs, n + 1);
    } else {
      assert pairs[..n] == pairs;
    }
  }
}
