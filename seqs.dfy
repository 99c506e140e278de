/**
 * Small facts of sequence algebra. Proofs about the scanners call these instead of asking
 * the solver to regroup concatenations in a context full of recursive definitions.
 */
module Seqs {

  /** The head and tail of a concatenation whose left part is not empty. */
  lemma AppendHead<T>(a: seq<T>, b: seq<T>)
    requires a != []
    ensures (a + b)[0] == a[0] && (a + b)[1..] == a[1..] + b
  {
  }

  /** Putting the head of `a` back in front of its tail, before more text. */
  lemma HeadTail<T>(a: seq<T>, t: seq<T>)
    requires a != []
    ensures [a[0]] + (a[1..] + t) == a + t
  {
    assert a == [a[0]] + a[1..];
  }

  /** Concatenation regrouped. */
  lemma SeqAssoc<T>(x: seq<T>, y: seq<T>, z: seq<T>)
    ensures x + (y + z) == (x + y) + z
  {
  }

  /** An element in none of three pieces is not in their concatenation. */
  lemma NotInJoin<T>(a: seq<T>, sep: seq<T>, b: seq<T>, x: T)
    requires x !in a && x !in sep && x !in b
    ensures x !in a + sep + b
  {
  }

  /** Five pieces regrouped so that the first stands apart. */
  lemma Regroup<T>(a: seq<T>, p: seq<T>, x: seq<T>, q: seq<T>, b: seq<T>)
    ensures a + p + x + q + b == a + (p + x + q + b)
  {
  }
}
