/** A cooperative CancellationToken seen as an oracle.

    The code polls `IsCancellationRequested` at fixed points. Polls are
    numbered 0, 1, 2, ... within one call. A token that is never cancelled
    answers false at every poll; a token cancelled after `n` polls answers
    false to the first `n` polls and true from then on. Once set, a real token
    stays set, so every behaviour of a token over one call is one of these. */
module Cancellation {

  datatype Token = Never | AfterPolls(n: nat)

  /** What poll number `poll` of the current call observes. */
  predicate Cancelled(token: Token, poll: nat) {
    token.AfterPolls? && poll >= token.n
  }

  /** The number of polls, out of `total`, that see no cancellation. */
  function PollsPassed(token: Token, total: nat): (k: nat)
    ensures k <= total
    ensures forall i :: 0 <= i < k ==> !Cancelled(token, i)
    ensures k < total ==> Cancelled(token, k)
  {
    match token
    case Never => total
    case AfterPolls(n) => if n < total then n else total
  }

  /** A token never goes back to "not cancelled". */
  lemma {:induction false} CancelledIsMonotone(token: Token, i: nat, j: nat)
    requires i <= j && Cancelled(token, i)
    ensures Cancelled(token, j)
  {
  }
}
