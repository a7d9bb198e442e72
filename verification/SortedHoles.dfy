/** Lists of holes kept in ascending height order:
    the shape shared by the ledger's
    outstanding[] and gaveUp[] arrays. */
module SortedHoles {
  import opened FixedWidth

  datatype Hole<T> = Hole(height: u32, info: T)

  ghost predicate Ascending<T>(s: seq<Hole<T>>) {
    forall i, j :: 0 <= i < j < |s| ==> s[i].height < s[j].height
  }

  ghost function Heights<T>(s: seq<Hole<T>>): set<int> {
    set i | 0 <= i < |s| :: s[i].height
  }

  /** Every height before position i is below h, and the one at i is not. */
  ghost predicate IsLowerBound<T>(s: seq<Hole<T>>, h: int, i: nat) {
    && i <= |s|
    && (forall k :: 0 <= k < i ==> s[k].height < h)
    && (i < |s| ==> h <= s[i].height)
  }

  /** The first position whose height is not below h. */
  function LowerBound<T>(s: seq<Hole<T>>, h: u32): (i: nat)
    ensures IsLowerBound(s, h, i)
  {
    LowerBoundFrom(s, h, 0)
  }

  function LowerBoundFrom<T>(s: seq<Hole<T>>, h: u32, from: nat): (i: nat)
    requires from <= |s|
    ensures from <= i <= |s|
    ensures forall k :: from <= k < i ==> s[k].height < h
    ensures i < |s| ==> h <= s[i].height
    decreases |s| - from
  {
    if from < |s| && s[from].height < h then LowerBoundFrom(s, h, from + 1) else from
  }

  lemma LowerBoundUnique<T>(s: seq<Hole<T>>, h: u32, i: nat)
    requires IsLowerBound(s, h, i)
    ensures i == LowerBound(s, h)
  {
  }

  predicate Holds<T>(s: seq<Hole<T>>, h: u32) {
    var i := LowerBound(s, h);
    i < |s| && s[i].height == h
  }

  function InsertAt<T>(s: seq<T>, i: nat, e: T): seq<T>
    requires i <= |s|
  {
    s[..i] + [e] + s[i..]
  }

  function RemoveAt<T>(s: seq<T>, i: nat): seq<T>
    requires i < |s|
  {
    s[..i] + s[i + 1..]
  }

  function Remove<T>(s: seq<Hole<T>>, h: u32): seq<Hole<T>> {
    if Holds(s, h) then RemoveAt(s, LowerBound(s, h)) else s
  }

  lemma {:induction false} ConcatHeights<T>(a: seq<Hole<T>>, b: seq<Hole<T>>)
    ensures Heights(a + b) == Heights(a) + Heights(b)
  {
    var s := a + b;
    forall k | 0 <= k < |a| ensures a[k].height in Heights(s) {
      assert s[k] == a[k];
    }
    forall k | 0 <= k < |b| ensures b[k].height in Heights(s) {
      assert s[|a| + k] == b[k];
    }
  }

  lemma {:induction false} ConcatAscending<T>(a: seq<Hole<T>>, b: seq<Hole<T>>)
    requires Ascending(a) && Ascending(b)
    requires a != [] && b != [] ==> a[|a| - 1].height < b[0].height
    ensures Ascending(a + b)
  {
  }

  lemma {:induction false} SingletonHeights<T>(e: Hole<T>)
    ensures Heights([e]) == {e.height} && Ascending([e])
  {
    assert [e][0] == e;
  }

  lemma {:induction false} HoldsIsMembership<T>(s: seq<Hole<T>>, h: u32)
    requires Ascending(s)
    ensures Holds(s, h) <==> h in Heights(s)
  {
    if h in Heights(s) {
      var k :| 0 <= k < |s| && s[k].height == h;
      var i := LowerBound(s, h);
      assert s[i].height <= s[k].height;
    }
  }

  lemma {:induction false} RemoveAtHeights<T>(s: seq<Hole<T>>, i: nat)
    requires Ascending(s) && i < |s|
    ensures Ascending(RemoveAt(s, i))
    ensures Heights(RemoveAt(s, i)) == Heights(s) - {s[i].height}
  {
    var a, b := s[..i], s[i + 1..];
    ConcatAscending(a, b);
    ConcatHeights(a, b);
    ConcatHeights(a, [s[i]]);
    ConcatHeights(a + [s[i]], b);
    SingletonHeights(s[i]);
    assert a + [s[i]] + b == s;
    assert s[i].height !in Heights(a) && s[i].height !in Heights(b);
  }

  lemma {:induction false} RemoveHeights<T>(s: seq<Hole<T>>, h: u32)
    requires Ascending(s)
    ensures Ascending(Remove(s, h))
    ensures Heights(Remove(s, h)) == Heights(s) - {h}
  {
    HoldsIsMembership(s, h);
    if Holds(s, h) {
      RemoveAtHeights(s, LowerBound(s, h));
    }
  }

  lemma {:induction false} InsertAtAscending<T>(s: seq<Hole<T>>, i: nat, e: Hole<T>)
    requires Ascending(s) && IsLowerBound(s, e.height, i)
    requires i < |s| ==> s[i].height != e.height
    ensures Ascending(InsertAt(s, i, e))
  {
    ConcatAscending(s[..i], [e]);
    ConcatAscending(s[..i] + [e], s[i..]);
  }

  lemma {:induction false} InsertAtHeights<T>(s: seq<Hole<T>>, i: nat, e: Hole<T>)
    requires Ascending(s) && IsLowerBound(s, e.height, i)
    requires i < |s| ==> s[i].height != e.height
    ensures var r := InsertAt(s, i, e);
            Ascending(r) && Heights(r) == Heights(s) + {e.height} && IsLowerBound(r, e.height, i) && r[i] == e
  {
    InsertAtAscending(s, i, e);
    SingletonHeights(e);
    ConcatHeights(s[..i], [e]);
    ConcatHeights(s[..i] + [e], s[i..]);
    ConcatHeights(s[..i], s[i..]);
    assert s[..i] + s[i..] == s;
  }

  /** Dropping the lowest hole and then inserting keeps the order. */
  lemma {:induction false} ReplaceFirstHeights<T>(s: seq<Hole<T>>, i: nat, e: Hole<T>)
    requires Ascending(s) && s != [] && IsLowerBound(s, e.height, i)
    requires i < |s| ==> s[i].height != e.height
    ensures var r := InsertAt(s[1..], if i > 0 then i - 1 else 0, e);
            Ascending(r) && Heights(r) == (Heights(s) - {s[0].height}) + {e.height}
  {
    var j := if i > 0 then i - 1 else 0;
    RemoveAtHeights(s, 0);
    assert RemoveAt(s, 0) == s[1..];
    assert forall k :: 0 <= k < |s[1..]| ==> s[1..][k] == s[k + 1];
    InsertAtHeights(s[1..], j, e);
  }

  /** An ascending list splits at h into the holes below h and the rest. */
  lemma {:induction false} SplitHeights<T>(s: seq<Hole<T>>, h: u32, i: nat)
    requires Ascending(s) && IsLowerBound(s, h, i)
    ensures Ascending(s[..i]) && Ascending(s[i..])
    ensures forall x :: x in Heights(s[..i]) <==> x in Heights(s) && x < h
    ensures forall x :: x in Heights(s[i..]) <==> x in Heights(s) && h <= x
  {
    var a, b := s[..i], s[i..];
    assert a + b == s;
    ConcatHeights(a, b);
    forall x | x in Heights(b) ensures h <= x {
      var k :| 0 <= k < |b| && b[k].height == x;
      assert b[k] == s[i + k];
    }
  }

  /** Cutting after position k - 1 keeps exactly the holes above that one. */
  lemma {:induction false} CutAfterHeights<T>(s: seq<Hole<T>>, k: nat)
    requires Ascending(s) && 0 < k <= |s| && s[k - 1].height < U32_MAX
    ensures Ascending(s[k..]) && s[k - 1].height in Heights(s)
    ensures forall x :: x in Heights(s[k..]) <==> x in Heights(s) && s[k - 1].height < x
  {
    SplitHeights(s, s[k - 1].height + 1, k);
  }

  lemma {:induction false} FirstIsLeast<T>(s: seq<Hole<T>>)
    requires Ascending(s) && s != []
    ensures s[0].height in Heights(s)
    ensures forall x :: x in Heights(s) ==> s[0].height <= x
  {
  }

  ghost predicate SameHeights<S, T>(a: seq<Hole<S>>, b: seq<Hole<T>>) {
    |a| == |b| && forall i :: 0 <= i < |a| ==> a[i].height == b[i].height
  }

  lemma {:induction false} SameHeightsKeep<S, T>(a: seq<Hole<S>>, b: seq<Hole<T>>)
    requires SameHeights(a, b)
    ensures Heights(a) == Heights(b)
    ensures Ascending(a) <==> Ascending(b)
  {
    assert forall x :: x in Heights(a) ==> x in Heights(b);
  }
}
