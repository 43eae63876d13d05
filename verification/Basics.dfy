/** The smaller of two numbers, and how concatenation groups. */
module Basics {
  function Least(a: nat, b: nat): nat {
    if a <= b then a else b
  }

  lemma Associate<T>(a: seq<T>, b: seq<T>, c: seq<T>)
    ensures a + (b + c) == a + b + c
  {
  }
}
