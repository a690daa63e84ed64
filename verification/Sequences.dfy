/**
 Facts about concatenation, stated once for the modules that build and read byte strings and
 lists. Sequence equality is extensional, so each regrouping that an encoder or a parser makes has
 to be named where it is used; naming it here keeps those proofs from searching for it among the
 other sequences in scope.
 */
module Sequences {
  lemma AppendNone<T>(s: seq<T>)
    ensures s + [] == s && [] + s == s
  {}

  lemma Regroup3<T>(a: seq<T>, b: seq<T>, c: seq<T>)
    ensures a + (b + c) == a + b + c
  {}

  lemma Regroup4<T>(a: seq<T>, b: seq<T>, c: seq<T>, d: seq<T>)
    ensures a + (b + c + d) == a + b + c + d
  {}

  /** The two halves of a concatenation. */
  lemma Halves<T>(a: seq<T>, b: seq<T>)
    ensures (a + b)[..|a|] == a && (a + b)[|a|..] == b
  {}
}
