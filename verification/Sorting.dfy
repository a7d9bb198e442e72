/** Sorting by insertion, on values: the function that the sort loops of the difficulty rule and of the filter
    matcher are proved against. */
module Sorting {
  ghost predicate Ascending(s: seq<int>) {
    forall i, j :: 0 <= i <= j < |s| ==> s[i] <= s[j]
  }

  function Insert(s: seq<int>, t: int): (r: seq<int>)
    ensures |r| == |s| + 1
  {
    if s == [] || s[|s| - 1] <= t then s + [t] else Insert(s[..|s| - 1], t) + [s[|s| - 1]]
  }

  function Sorted(s: seq<int>): (r: seq<int>)
    ensures |r| == |s|
  {
    if s == [] then [] else Insert(Sorted(s[..|s| - 1]), s[|s| - 1])
  }

  lemma {:induction false} InsertHolds(s: seq<int>, t: int)
    ensures multiset(Insert(s, t)) == multiset(s) + multiset{t}
    decreases |s|
  {
    if s != [] && s[|s| - 1] > t {
      InsertHolds(s[..|s| - 1], t);
      assert s == s[..|s| - 1] + [s[|s| - 1]];
    }
  }

  lemma {:induction false} InsertAscends(s: seq<int>, t: int)
    requires Ascending(s)
    ensures Ascending(Insert(s, t))
    ensures forall k :: 0 <= k < |s| + 1 ==> Insert(s, t)[k] == t || (|s| > 0 && Insert(s, t)[k] <= s[|s| - 1])
    decreases |s|
  {
    if s != [] && s[|s| - 1] > t {
      InsertAscends(s[..|s| - 1], t);
    }
  }

  lemma {:induction false} SortedIsSorted(s: seq<int>)
    ensures Ascending(Sorted(s)) && multiset(Sorted(s)) == multiset(s)
    decreases |s|
  {
    if s != [] {
      var last := |s| - 1;
      SortedIsSorted(s[..last]);
      InsertHolds(Sorted(s[..last]), s[last]);
      InsertAscends(Sorted(s[..last]), s[last]);
      assert s == s[..last] + [s[last]];
    }
  }
}
