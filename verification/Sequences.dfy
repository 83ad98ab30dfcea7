module Sequences {

  /** Concatenation is associative; an empty middle part can be left out. */
  lemma Regroup<T>(a: seq<T>, b: seq<T>, c: seq<T>)
    ensures (a + b) + c == a + (b + c)
    ensures b == [] ==> a + (b + c) == a + c
  {
  }

  function Concat<T>(xs: seq<seq<T>>): seq<T> {
    if xs == [] then [] else xs[0] + Concat(xs[1..])
  }

  lemma NothingToJoin<T>(a: seq<T>)
    ensures [] + a == a == a + []
  {
  }
}
