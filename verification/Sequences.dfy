/** Sequences without repetition, and their members as sets. */
module Sequences {

  ghost predicate NoDup<T>(q: seq<T>) {
    forall i, j :: 0 <= i < j < |q| ==> q[i] != q[j]
  }

  ghost function Elems<T>(q: seq<T>): (e: set<T>)
  {
    set x | x in q
  }

  lemma PositionsDiffer<T>(q: seq<T>, i: nat)
    requires NoDup(q) && i < |q|
    ensures forall j :: 0 <= j < |q| && j != i ==> q[j] != q[i]
  {
  }

  lemma NoDupEmpty<T>()
    ensures NoDup<T>([])
  {
  }

  lemma NoDupCons<T>(x: T, q: seq<T>)
    requires NoDup(q) && x !in q
    ensures NoDup([x] + q)
  {
  }

  lemma NoDupAppend<T>(q: seq<T>, x: T)
    requires NoDup(q) && x !in q
    ensures NoDup(q + [x])
  {
  }
}
