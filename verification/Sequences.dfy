/** What the lists of nodes and of addresses have in common. */
module Sequences {
  ghost predicate Distinct<T>(s: seq<T>)
  {
    forall i, j :: 0 <= i < j < |s| ==> s[i] != s[j]
  }

  ghost function Members<T>(s: seq<T>): set<T>
  {
    set x | x in s
  }
}
