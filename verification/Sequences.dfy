/** Sequences read as sets. */
module Sequences {
  ghost function Elems<T>(s: seq<T>): set<T> { set e | e in s }

  ghost predicate NoDup<T>(s: seq<T>) { forall i, j :: 0 <= i < j < |s| ==> s[i] != s[j] }
}
