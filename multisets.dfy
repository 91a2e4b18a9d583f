/** A counting fact about multisets that both graph containers' proofs need. */
module Multisets {

  /** Appending `x` adds one occurrence of `x` and leaves every other count alone. */
  lemma CountAfterAppend<X>(s: seq<X>, x: X, y: X)
    ensures multiset(s + [x])[y] == multiset(s)[y] + (if x == y then 1 else 0)
  {
    assert multiset(s + [x]) == multiset(s) + multiset{x};
  }
}
