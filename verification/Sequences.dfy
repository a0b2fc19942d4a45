/** Small functions on sequences and on natural numbers. */
module Sequences {

  /** The first `n` elements, or all of them. */
  function Take<T>(s: seq<T>, n: nat): seq<T> { if n < |s| then s[..n] else s }

  /** What is left of `a` after `b`. */
  function Less(a: nat, b: nat): nat { if a > b then a - b else 0 }

  function ElemsOf<T(==)>(q: seq<T>): set<T> { set x | x in q }
}
