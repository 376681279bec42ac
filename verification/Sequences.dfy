/** Rearrangements of concatenations, stated once so that proofs can use them by name. */
module Sequences {

  lemma Associative<T>(a: seq<T>, b: seq<T>, c: seq<T>)
    ensures (a + b) + c == a + (b + c)
  {
  }

  lemma NothingAdded<T>(a: seq<T>)
    ensures [] + a == a == a + []
  {
  }

  /** The first element of the left part comes off a concatenation. */
  lemma OffTheFront<T>(x: seq<T>, t: seq<T>)
    requires x != []
    ensures (x + t)[0] == x[0] && (x + t)[1..] == x[1..] + t
    ensures x + t == [x[0]] + (x[1..] + t)
  {
  }

  lemma Rejoin<T>(x: seq<T>, n: nat)
    requires n <= |x|
    ensures x == x[..n] + x[n..]
  {
  }

  lemma DropDrop<T>(x: seq<T>, i: nat, j: nat)
    requires i + j <= |x|
    ensures x[i..][j..] == x[i + j..]
  {
  }

  lemma TakeDrop<T>(a: seq<T>, b: seq<T>)
    ensures (a + b)[..|a|] == a && (a + b)[|a|..] == b
  {
  }
}
