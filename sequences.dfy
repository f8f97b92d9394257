/** Generic facts about sequences that the table and codec proofs lean on. */
module Sequences {

  /** Concatenation regroups freely. */
  lemma ConcatAssociative<T>(x: seq<T>, y: seq<T>, z: seq<T>)
    ensures (x + y) + z == x + (y + z)
  {
  }

  /** A prefix one longer is the prefix followed by the next element. */
  lemma PrefixSnoc<T>(s: seq<T>, c: nat)
    requires c < |s|
    ensures s[..c + 1] == s[..c] + [s[c]]
  {
  }

  /** Splitting off the last element of `b`, with and without the prefix `a`. */
  lemma SnocSplit<T>(a: seq<T>, b: seq<T>)
    requires |b| > 0
    ensures b[..|b| - 1] + [b[|b| - 1]] == b
    ensures (a + b[..|b| - 1]) + [b[|b| - 1]] == a + b
  {
  }
}
