/** Positions in sequences of distinct elements, such as linked lists. */
module Sequences {
  predicate Distinct<T(==)>(s: seq<T>) {
    forall i, j | 0 <= i < j < |s| :: s[i] != s[j]
  }

  /** No two elements have the same key. */
  predicate UniqueBy<T>(s: seq<T>, keyOf: T -> string) {
    forall i, j | 0 <= i < j < |s| :: keyOf(s[i]) != keyOf(s[j])
  }

  /** The first position whose key is this one, or the length. */
  function Position<T>(s: seq<T>, keyOf: T -> string, key: string): (i: nat)
    ensures i <= |s|
    ensures i < |s| ==> keyOf(s[i]) == key
    ensures forall j | 0 <= j < i :: keyOf(s[j]) != key
  {
    if s == [] || keyOf(s[0]) == key then 0 else 1 + Position(s[1..], keyOf, key)
  }

  /** The first position of an element. */
  function IndexOf<T(==)>(s: seq<T>, x: T): (i: nat)
    requires x in s
    ensures i < |s| && s[i] == x
  {
    if s[0] == x then 0 else 1 + IndexOf(s[1..], x)
  }
}
