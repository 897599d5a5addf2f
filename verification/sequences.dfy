/** Two facts about appending sequences that the trace-building loops and the
    lemmas about how a trace ends rely on. */
module Sequences {

  /** Appending to a sequence in two steps is appending the two parts at once. */
  lemma AppendAssoc<E>(a: seq<E>, b: seq<E>, c: seq<E>)
    ensures a + (b + c) == (a + b) + c
  {
  }

  /** The last two elements of `a + b` are those of `b` when `b` has them. */
  lemma EndsOfAppend<E>(a: seq<E>, b: seq<E>)
    requires 1 <= |b|
    ensures (a + b)[|a + b| - 1] == b[|b| - 1]
    ensures 2 <= |b| ==> (a + b)[|a + b| - 2] == b[|b| - 2]
  {
  }
}
