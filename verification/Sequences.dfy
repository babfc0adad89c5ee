/** Sequences whose elements are told apart, and their places. */
module Sequences {
  ghost predicate Distinct<T>(s: seq<T>) {
    forall i, j :: 0 <= i < j < |s| ==> s[i] != s[j]
  }

  /** The element at `i`, and null outside the sequence. */
  ghost function At(s: seq<object>, i: int): object? {
    if 0 <= i < |s| then s[i] else null
  }

  lemma AtIs(s: seq<object>, i: int)
    ensures At(s, i) == if 0 <= i < |s| then s[i] else null
  {
  }
}
