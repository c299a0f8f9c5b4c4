/** The common part of the iterators (src/main/iterator.cpp). */
module Iterators {
  /* Every container moves an iterator by a signed number of ranks; the direction of the
     iterator decides what forward means to its user. */

  /** raw_iterator::advance: the number of ranks to move. */
  function Directed(reverse: bool, n: int): int {
    if reverse then -n else n
  }

  /** raw_iterator::remaining. */
  function Remaining(reverse: bool, index: int, count: nat): int {
    if reverse then index + 1 else count - index
  }

  /** raw_iterator::max_advance. */
  function MaxAdvance(reverse: bool, index: int, count: nat): int {
    if reverse then index else count - index - 1
  }

  /** The rank of the k-th of n elements in a direction. */
  function Place(reverse: bool, k: int, n: int): int {
    if reverse then n - 1 - k else k
  }

  /** The elements in a direction. */
  function Along<T>(all: seq<T>, reverse: bool): (s: seq<T>)
    ensures |s| == |all| && forall i :: 0 <= i < |all| ==> s[i] == all[Place(reverse, i, |all|)]
  {
    seq(|all|, i requires 0 <= i < |all| => all[Place(reverse, i, |all|)])
  }

  lemma AlongForwards<T>(all: seq<T>)
    ensures Along(all, false) == all
  {
  }

  function Numbers(n: nat): seq<int> {
    seq(n, i => i)
  }

  /** The first elements in a direction. */
  ghost predicate Visited<T>(all: seq<T>, reverse: bool, vs: seq<T>) {
    |vs| <= |all| && forall i {:trigger VisitedAt(all, reverse, vs, i)} :: 0 <= i < |vs| ==> VisitedAt(all, reverse, vs, i)
  }

  ghost predicate VisitedAt<T>(all: seq<T>, reverse: bool, vs: seq<T>, i: nat)
    requires i < |vs| <= |all|
  {
    vs[i] == all[Place(reverse, i, |all|)]
  }

  lemma VisitOne<T>(all: seq<T>, reverse: bool, vs: seq<T>, x: T)
    requires Visited(all, reverse, vs) && |vs| < |all| && x == all[Place(reverse, |vs|, |all|)]
    ensures Visited(all, reverse, vs + [x])
  {
    forall i: nat | i <= |vs| ensures VisitedAt(all, reverse, vs + [x], i) {
      if i < |vs| { assert VisitedAt(all, reverse, vs, i); }
    }
  }

  lemma VisitedAll<T>(all: seq<T>, reverse: bool, vs: seq<T>)
    requires Visited(all, reverse, vs) && |vs| == |all|
    ensures vs == Along(all, reverse)
  {
    forall i: nat | i < |vs| ensures vs[i] == Along(all, reverse)[i] { assert VisitedAt(all, reverse, vs, i); }
  }
}
