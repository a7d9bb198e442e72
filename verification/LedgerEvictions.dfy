/** Evictions. */
module LedgerEvictions {
  // What a full outstanding[] lets go: which heights a request leaves there, and when
  // nothing falls out.

  import opened FixedWidth
  import opened SortedHoles
  import opened LedgerSpec
  import opened LedgerHistory

  // ---- sizes ----------------------------------------------------------------

  lemma SubsetSize(a: set<int>, b: set<int>)
    requires a <= b
    ensures |a| <= |b|
    ensures |a| == |b| ==> a == b
  {
    assert a + (b - a) == b && a * (b - a) == {};
  }

  lemma {:induction false} HeightsSize<T>(s: seq<Hole<T>>)
    requires Ascending(s)
    ensures |Heights(s)| == |s|
    decreases |s|
  {
    if s == [] {
      assert Heights(s) == {};
    } else {
      RemoveAtHeights(s, 0);
      FirstIsLeast(s);
      HeightsSize(RemoveAt(s, 0));
    }
  }

  // ---- which heights stay ---------------------------------------------------

  ghost function Above(u: set<int>, x: int, last: int): (r: set<int>)
    ensures forall y :: y in r <==> y in u && x < y != last
  {
    set y | y in u && x < y != last
  }

  /** Of all the heights u held or requested, those that stay: the last one requested, and
      each with fewer than OUTSTANDING_MAX - 1 others above it. */
  ghost predicate Stays(u: set<int>, last: int, x: int) {
    x in u && (x == last || |Above(u, x, last)| < OUTSTANDING_MAX - 1)
  }

  /** The list l holds just what stays, and is full if that is not everything. */
  ghost predicate Kept(u: set<int>, last: int, l: set<int>) {
    && last in l && |l| <= OUTSTANDING_MAX
    && (forall x :: x in l <==> Stays(u, last, x))
    && (l == u || |l| == OUTSTANDING_MAX)
  }

  /** l with h pushed in; a full list gives up its least height. */
  ghost predicate Pushed(l: set<int>, h: int, r: set<int>) {
    if h in l then r == l
    else if |l| < OUTSTANDING_MAX then r == l + {h}
    else exists m :: m in l && (forall x :: x in l ==> m <= x) && r == (l - {m}) + {h}
  }

  /** With room for everything, everything stays. */
  lemma SmallStays(u: set<int>, last: int)
    requires last in u && |u| <= OUTSTANDING_MAX
    ensures Kept(u, last, u)
  {
    forall x | x in u && x != last ensures Stays(u, last, x) {
      SubsetSize(Above(u, x, last), u - {x} - {last});
    }
  }

  lemma PushFirst(l: set<int>, h: int, r: set<int>)
    requires |l| <= OUTSTANDING_MAX && Pushed(l, h, r)
    ensures Kept(l + {h}, h, r)
  {
    var u := l + {h};
    if h in l || |l| < OUTSTANDING_MAX {
      assert r == u;
      SmallStays(u, h);
    } else {
      var m :| m in l && (forall x :: x in l ==> m <= x) && r == (l - {m}) + {h};
      assert Above(u, m, h) == l - {m};
      forall x | x in l && x != m ensures Stays(u, h, x) {
        SubsetSize(Above(u, x, h), l - {m} - {x});
      }
      assert !Stays(u, h, m);
    }
  }

  /** The next height pushes, and the rule holds with it as the last one. */
  lemma PushNext(u: set<int>, h: int, l: set<int>, r: set<int>)
    requires Kept(u, h, l) && Pushed(l, h + 1, r)
    ensures Kept(u + {h + 1}, h + 1, r)
  {
    if h + 1 in l {
      PushHeld(u, h, l);
    } else if |l| < OUTSTANDING_MAX {
      assert r == u + {h + 1};
      SmallStays(u + {h + 1}, h + 1);
    } else {
      var m :| m in l && (forall x :: x in l ==> m <= x) && r == (l - {m}) + {h + 1};
      assert |r| == OUTSTANDING_MAX;
      if h + 1 in u { PushBack(u, h, l, m, r); } else { PushNew(u, h, l, m, r); }
    }
  }

  /** How the count above a height moves when the last height does. */
  lemma CountMoves(u: set<int>, h: int, x: int)
    requires h in u
    ensures x > h ==> Above(u + {h + 1}, x, h + 1) == Above(u, x, h)
    ensures x < h && h + 1 in u ==> |Above(u + {h + 1}, x, h + 1)| == |Above(u, x, h)|
    ensures x < h && h + 1 !in u ==> |Above(u + {h + 1}, x, h + 1)| == |Above(u, x, h)| + 1
  {
    var now, was := Above(u + {h + 1}, x, h + 1), Above(u, x, h);
    if x < h {
      if h + 1 in u {
        var rest := now - {h};
        assert now == rest + {h} && was == rest + {h + 1};
      } else {
        assert now == was + {h};
      }
    }
  }

  lemma PushHeld(u: set<int>, h: int, l: set<int>)
    requires Kept(u, h, l) && h + 1 in l
    ensures Kept(u + {h + 1}, h + 1, l)
  {
    assert Stays(u, h, h + 1);
    assert u + {h + 1} == u;
    assert Above(u, h, h + 1) == Above(u, h + 1, h);
    forall x: int ensures x in l <==> Stays(u, h + 1, x) { CountMoves(u, h, x); }
  }

  /** A height pushed out before is pushed back in: then only heights from h up are left. */
  lemma PushBack(u: set<int>, h: int, l: set<int>, m: int, r: set<int>)
    requires Kept(u, h, l) && |l| == OUTSTANDING_MAX && h + 1 !in l && h + 1 in u
    requires m in l && (forall x :: x in l ==> m <= x) && r == (l - {m}) + {h + 1} && |r| == OUTSTANDING_MAX
    ensures Kept(u + {h + 1}, h + 1, r)
  {
    assert !Stays(u, h, h + 1);
    assert u + {h + 1} == u;
    assert Above(u, h, h + 1) == Above(u, h + 1, h);
    forall x | x < h ensures x !in l && !Stays(u, h + 1, x) {
      SubsetSize(Above(u, h + 1, h), Above(u, x, h));
      CountMoves(u, h, x);
    }
    assert m == h;
    forall x: int ensures x in r <==> Stays(u, h + 1, x) { CountMoves(u, h, x); }
  }

  lemma PushNew(u: set<int>, h: int, l: set<int>, m: int, r: set<int>)
    requires Kept(u, h, l) && |l| == OUTSTANDING_MAX && h + 1 !in u
    requires m in l && (forall x :: x in l ==> m <= x) && r == (l - {m}) + {h + 1} && |r| == OUTSTANDING_MAX
    ensures Kept(u + {h + 1}, h + 1, r)
  {
    NewCounts(u, h, l, m);
    forall x: int ensures x in r <==> Stays(u + {h + 1}, h + 1, x) { PushNewAt(u, h, l, m, r, x); }
    hide Stays, Above;
  }

  lemma PushNewAt(u: set<int>, h: int, l: set<int>, m: int, r: set<int>, x: int)
    requires Kept(u, h, l) && |l| == OUTSTANDING_MAX && h + 1 !in u && m in l && (forall x :: x in l ==> m <= x)
    requires r == (l - {m}) + {h + 1}
    ensures x in r <==> Stays(u + {h + 1}, h + 1, x)
  {
    hide *;
    var v := u + {h + 1};
    NewCounts(u, h, l, m);
    KeptAt(u, h, l, h);
    CountMoves(u, h, x);
    if x in u && m < x < h { NewBetween(u, h, m, x); }
    KeptAt(u, h, l, x);
    KeptAt(u, h, l, m);
    StaysIs(u, h, x);
    StaysIs(v, h + 1, x);
  }

  lemma KeptAt(u: set<int>, last: int, l: set<int>, x: int)
    requires Kept(u, last, l)
    ensures last in u && (x in l <==> Stays(u, last, x))
  {
    assert Stays(u, last, last);
  }

  lemma StaysIs(u: set<int>, last: int, x: int)
    ensures Stays(u, last, x) <==> x in u && (x == last || |Above(u, x, last)| < OUTSTANDING_MAX - 1)
  {
  }

  /** What is above the last height and above the least one when a new height pushes the least one out. */
  lemma NewCounts(u: set<int>, h: int, l: set<int>, m: int)
    requires Kept(u, h, l) && |l| == OUTSTANDING_MAX && h + 1 !in u && m in l && (forall x :: x in l ==> m <= x)
    ensures Above(u + {h + 1}, h, h + 1) == Above(u, h, h)
    ensures m <= h && (m == h <==> |Above(u, h, h)| >= OUTSTANDING_MAX - 1)
    ensures m < h ==> |Above(u, m, h)| == OUTSTANDING_MAX - 2
  {
    hide Stays, Kept;
    KeptAt(u, h, l, h);
    KeptAt(u, h, l, m);
    StaysIs(u, h, m);
    forall x | x in l ensures x in u { KeptAt(u, h, l, x); StaysIn(u, h, x); }
    KeptLast(u, h, l);
    if m == h {
      SubsetSize(l - {h}, Above(u, h, h));
    } else {
      SubsetSize(Above(u, h, h), Above(u, m, h));
      SubsetSize(l - {m} - {h}, Above(u, m, h));
    }
  }

  lemma KeptLast(u: set<int>, last: int, l: set<int>)
    requires Kept(u, last, l)
    ensures last in l
  {
    hide Stays;
  }

  lemma NewBetween(u: set<int>, h: int, m: int, x: int)
    requires x in u && m < x < h
    ensures |Above(u, x, h)| + 1 <= |Above(u, m, h)|
  {
    SubsetSize(Above(u, x, h) + {x}, Above(u, m, h));
  }

  // ---- one insertion, one range ---------------------------------------------

  lemma InsertPushes(out: seq<Outstanding>, h: u32, peer: u128, port: u16, now: u32)
    requires Ascending(out) && |out| <= OUTSTANDING_MAX && forall x :: x in Heights(out) ==> x < U32_MAX
    ensures var r := Insert(out, h, peer, port, now);
            && Pushed(Heights(out), h, Heights(r.0))
            && (r.1 == NO_DROP <==> h in Heights(out) || |out| < OUTSTANDING_MAX)
  {
    InsertKeeps(out, h, peer, port, now);
    HoldsIsMembership(out, h);
    HeightsSize(out);
    if !Holds(out, h) && |out| == OUTSTANDING_MAX {
      InsertFull(out, h, peer, port, now);
      FirstIsLeast(out);
    }
    hide Heights, Ascending, LowerBoundFrom, InsertAt;
  }

  /** What a range leaves in the list, and when nothing falls out. */
  ghost predicate Ranged(out: seq<Outstanding>, from: int, end: int, list: seq<Outstanding>, dropped: seq<u32>) {
    var u := Heights(out) + Span(from, end);
    && Ascending(list) && |list| <= OUTSTANDING_MAX
    && Kept(u, end - 1, Heights(list))
    && (dropped == [] <==> |u| <= OUTSTANDING_MAX)
  }

  lemma KeptWhole(u: set<int>, last: int, l: set<int>)
    requires Kept(u, last, l) && |u| <= OUTSTANDING_MAX
    ensures l == u
  {
    SmallStays(u, last);
    forall x: int ensures x in l <==> x in u {
      KeptAt(u, last, l, x);
      KeptAt(u, last, u, x);
    }
  }

  lemma AddSize(u: set<int>, h: int)
    ensures |u + {h}| == if h in u then |u| else |u| + 1
  {
    if h in u { assert u + {h} == u; }
  }

  lemma RangeFirst(out: seq<Outstanding>, h: u32, peer: u128, port: u16, now: u32)
    requires Ascending(out) && |out| <= OUTSTANDING_MAX && h < U32_MAX && forall x :: x in Heights(out) ==> x < U32_MAX
    ensures var r := Insert(out, h, peer, port, now);
            Ranged(out, h, h + 1, r.0, if r.1 != NO_DROP then [r.1] else [])
  {
    hide Heights, Ascending, Insert, Pushed, Kept;
    InsertKeeps(out, h, peer, port, now);
    InsertPushes(out, h, peer, port, now);
    HeightsSize(out);
    PushFirst(Heights(out), h, Heights(Insert(out, h, peer, port, now).0));
    assert Span(h, h + 1) == {h};
    AddSize(Heights(out), h);
  }

  lemma RangeNext(out: seq<Outstanding>, from: nat, h: u32, list: seq<Outstanding>, dropped: seq<u32>,
                  peer: u128, port: u16, now: u32)
    requires from < h < U32_MAX && Ranged(out, from, h, list, dropped)
    requires Ascending(out) && forall x :: x in Heights(out) ==> x < U32_MAX
    ensures var r := Insert(list, h, peer, port, now);
            Ranged(out, from, h + 1, r.0, if r.1 != NO_DROP then dropped + [r.1] else dropped)
  {
    hide *;
    var was, l, r := Heights(out) + Span(from, h), Heights(list), Insert(list, h, peer, port, now);
    RangedMeans(out, from, h, list, dropped);
    SpanNext(Heights(out), from, h);
    KeptBelowMax(out, from, h, l);
    InsertKeeps(list, h, peer, port, now);
    InsertPushes(list, h, peer, port, now);
    HeightsSize(list);
    PushNext(was, h - 1, l, Heights(r.0));
    NextFits(was, h, l, r.1, dropped);
    RangedIs(out, from, h + 1, r.0, if r.1 != NO_DROP then dropped + [r.1] else dropped);
  }

  lemma SpanNext(u: set<int>, from: int, h: int)
    requires from <= h
    ensures u + Span(from, h + 1) == u + Span(from, h) + {h}
  {
    assert Span(from, h + 1) == Span(from, h) + {h};
  }

  lemma KeptBelowMax(out: seq<Outstanding>, from: nat, h: u32, l: set<int>)
    requires h < U32_MAX && Kept(Heights(out) + Span(from, h), h - 1, l) && forall x :: x in Heights(out) ==>
             x < U32_MAX
    ensures forall x :: x in l ==> x < U32_MAX
  {
    forall x | x in l ensures x < U32_MAX {
      KeptAt(Heights(out) + Span(from, h), h - 1, l, x);
      StaysIn(Heights(out) + Span(from, h), h - 1, x);
    }
  }

  /** Nothing falls out over the next insertion exactly when it fits, given the same so far. */
  lemma NextFits(was: set<int>, h: u32, l: set<int>, drop: u32, dropped: seq<u32>)
    requires Kept(was, h - 1, l)
    requires drop == NO_DROP <==> h in l || |l| < OUTSTANDING_MAX
    requires dropped == [] <==> |was| <= OUTSTANDING_MAX
    ensures (if drop != NO_DROP then dropped + [drop] else dropped) == [] <==> |was + {h}| <= OUTSTANDING_MAX
  {
    AddSize(was, h);
    if |was| <= OUTSTANDING_MAX { KeptWhole(was, h - 1, l); }
    hide Kept;
  }

  lemma RangedIs(out: seq<Outstanding>, from: nat, end: nat, list: seq<Outstanding>, dropped: seq<u32>)
    requires Ascending(list) && |list| <= OUTSTANDING_MAX &&
             Kept(Heights(out) + Span(from, end), end - 1, Heights(list))
    requires dropped == [] <==> |Heights(out) + Span(from, end)| <= OUTSTANDING_MAX
    ensures Ranged(out, from, end, list, dropped)
  {
  }

  lemma StaysIn(u: set<int>, last: int, x: int)
    requires Stays(u, last, x)
    ensures x in u
  {
  }

  /** After a request for [from..end) the list holds exactly the heights that stay of those it held and those
      requested; nothing falls out exactly when they all fit. */
  lemma {:induction false} RangeStays(out: seq<Outstanding>, from: nat, end: nat, peer: u128, port: u16, now: u32)
    requires from < end <= U32_MAX && Ascending(out) && |out| <= OUTSTANDING_MAX
    requires forall x :: x in Heights(out) ==> x < U32_MAX
    ensures var r := InsertRange(out, from, end, peer, port, now);
            var u := Heights(out) + Span(from, end);
            && Ascending(r.0)
            && (forall x :: x in Heights(r.0) <==> Stays(u, end - 1, x))
            && (r.1 == [] <==> |u| <= OUTSTANDING_MAX)
    ensures var r := InsertRange(out, from, end, peer, port, now); Ranged(out, from, end, r.0, r.1)
    decreases end
  {
    hide Heights, Ascending, Insert, Stays;
    var before := InsertRange(out, from, end - 1, peer, port, now);
    RangeUnfolds(out, from, end, peer, port, now);
    hide InsertRange;
    if from + 1 == end {
      RangeFirst(out, from, peer, port, now);
    } else {
      RangeStays(out, from, end - 1, peer, port, now);
      hide Ranged;
      RangeNext(out, from, end - 1, before.0, before.1, peer, port, now);
    }
    var r := InsertRange(out, from, end, peer, port, now);
    RangedMeans(out, from, end, r.0, r.1);
    forall x: int ensures x in Heights(r.0) <==> Stays(Heights(out) + Span(from, end), end - 1, x) {
      KeptAt(Heights(out) + Span(from, end), end - 1, Heights(r.0), x);
    }
  }

  lemma RangeUnfolds(out: seq<Outstanding>, from: nat, end: nat, peer: u128, port: u16, now: u32)
    requires from < end <= U32_MAX
    ensures var before := InsertRange(out, from, end - 1, peer, port, now);
            var last := Insert(before.0, end - 1, peer, port, now);
            && (from + 1 == end ==> before == (out, []))
            && InsertRange(out, from, end, peer, port, now) ==
                 (last.0, if last.1 != NO_DROP then before.1 + [last.1] else before.1)
  {
    hide Insert;
  }

  lemma RangedMeans(out: seq<Outstanding>, from: nat, end: nat, list: seq<Outstanding>, dropped: seq<u32>)
    requires Ranged(out, from, end, list, dropped)
    ensures var u := Heights(out) + Span(from, end);
            && Ascending(list) && |list| <= OUTSTANDING_MAX && Kept(u, end - 1, Heights(list))
            && (Heights(list) == u || |Heights(list)| == OUTSTANDING_MAX)
            && (dropped == [] <==> |u| <= OUTSTANDING_MAX)
  {
    hide Heights, Ascending, Stays;
  }

  // ---- calls that let nothing go --------------------------------------------

  /** What a caller can check before the call: everything it adds fits beside what is there. */
  ghost predicate Fits(s: State, op: Op) {
    match op
    case RequestOp(startH, stopH, _, _, _) =>
      var from := Max(startH, s.abandonedBelow);
      stopH < from || |Heights(s.outstanding) + Span(from, stopH + 1)| <= OUTSTANDING_MAX
    case HeaderRaceOp(h) =>
      h < s.abandonedBelow || h in Heights(s.outstanding) || |s.outstanding| < OUTSTANDING_MAX
    case _ => true
  }

  lemma RequestEvicts(w: World, op: Op)
    requires Sound(w) && Allowed(w.s, op) && op.RequestOp?
    ensures Evictions(w.s, op) == {} <==> Fits(w.s, op)
  {
    hide Heights, Ascending, InsertRange, Span;
    var s, from := w.s, Max(op.startH, w.s.abandonedBelow);
    if from <= op.stopH {
      RangeStays(s.outstanding, from, op.stopH + 1, op.peer, op.port, op.now);
      var dropped := InsertRange(s.outstanding, from, op.stopH + 1, op.peer, op.port, op.now).1;
      assert Evictions(s, op) == Elems(dropped);
      ElemsEmpty(dropped);
    } else {
      assert Evictions(s, op) == Elems([]);
      ElemsEmpty([]);
    }
  }

  lemma HeaderRaceEvicts(w: World, op: Op)
    requires Sound(w) && Allowed(w.s, op) && op.HeaderRaceOp?
    ensures Evictions(w.s, op) == {} <==> Fits(w.s, op)
  {
    hide Heights, Ascending, Insert, FlagHeaderRace, LowerBoundFrom;
    HoldsIsMembership(w.s.outstanding, op.h);
    if w.s.abandonedBelow <= op.h && !Holds(w.s.outstanding, op.h) { InsertPushes(w.s.outstanding, op.h, 0, 0, 0); }
  }

  /** A call evicts nothing exactly when what it adds fits. */
  lemma StepEvicts(w: World, op: Op)
    requires Sound(w) && Allowed(w.s, op)
    ensures Evictions(w.s, op) == {} <==> Fits(w.s, op)
  {
    hide Heights, Ascending, InsertRange, Insert, Sound, MarkHeaderRace, RecordRequested, Span;
    match op
    case RequestOp(_, _, _, _, _) => RequestEvicts(w, op);
    case HeaderRaceOp(_) => HeaderRaceEvicts(w, op);
    case _ =>
  }

  lemma ElemsEmpty(s: seq<u32>)
    ensures Elems(s) == {} <==> s == []
  {
    if s != [] { assert s[0] in Elems(s); }
  }

  // ---- every run ------------------------------------------------------------

  /** At no point of the run is an eviction on record. */
  ghost predicate NoneEvicted(w: World, ops: seq<Op>)
    decreases |ops|
  {
    Play(w, ops).k.evicted == {} && (ops == [] || NoneEvicted(w, ops[..|ops| - 1]))
  }

  ghost predicate AlwaysFits(w: World, ops: seq<Op>)
    decreases |ops|
  {
    ops == [] || (AlwaysFits(w, ops[..|ops| - 1]) && Fits(Play(w, ops[..|ops| - 1]).s, ops[|ops| - 1]))
  }

  lemma EvictedNext(w: World, op: Op)
    requires w.k.evicted == {}
    ensures Next(w, op).k.evicted == Evictions(w.s, op)
  {
    hide Apply, MarkHeaderRace, RecordRequested;
  }

  /** A lawful run never has an eviction on record exactly when everything that its calls add fits. */
  lemma {:induction false} NothingFallsOut(start: u32, ops: seq<Op>)
    requires 0 < start < U32_MAX && Lawful(Born(start), ops)
    ensures NoneEvicted(Born(start), ops) <==> AlwaysFits(Born(start), ops)
    decreases |ops|
  {
    hide Apply, Evictions, Fits, Recorded, Sound, Allowed;
    if ops != [] {
      var before, op := ops[..|ops| - 1], ops[|ops| - 1];
      RunKeeps(Born(start), before);
      NothingFallsOut(start, before);
      var w := Play(Born(start), before);
      if NoneEvicted(Born(start), before) {
        NoneNow(Born(start), before);
        EvictedNext(w, op);
        StepEvicts(w, op);
      }
    }
  }

  lemma NoneNow(w: World, ops: seq<Op>)
    requires NoneEvicted(w, ops)
    ensures Play(w, ops).k.evicted == {}
  {
  }

  // ---- what the record says of a height -------------------------------------

  /** No rewind after operation i cuts the height. */
  ghost predicate Uncut(ops: seq<Op>, i: nat, h: int) {
    forall j :: i < j < |ops| && ops[j].RewindOp? ==> ops[j].next == 0 || h < ops[j].next
  }

  /** Some operation of the run pushed the height out, and no later rewind cut it. */
  ghost predicate Fell(w: World, ops: seq<Op>, h: int) {
    exists i: nat :: i < |ops| && FellAt(w, ops, i, h)
  }

  ghost predicate FellAt(w: World, ops: seq<Op>, i: nat, h: int)
    requires i < |ops|
  {
    h in Evictions(Play(w, ops[..i]).s, ops[i]) && Uncut(ops, i, h)
  }

  /** Some operation of the run reported the height evaluated, and no later rewind cut it. */
  ghost predicate Seen(ops: seq<Op>, h: int) {
    exists i: nat :: i < |ops| && SeenAt(ops, i, h)
  }

  ghost predicate SeenAt(ops: seq<Op>, i: nat, h: int)
    requires i < |ops|
  {
    ops[i].EvaluateOp? && ops[i].h == h && Uncut(ops, i, h)
  }

  /** This operation leaves what is on record of the height. */
  predicate Leaves(op: Op, h: int) { op.RewindOp? ==> op.next == 0 || h < op.next }

  lemma UncutMore(ops: seq<Op>, op: Op, i: nat, h: int)
    requires i < |ops|
    ensures Uncut(ops + [op], i, h) <==> Uncut(ops, i, h) && Leaves(op, h)
  {
    var more := ops + [op];
    assert more[|ops|] == op && forall j :: 0 <= j < |ops| ==> more[j] == ops[j];
  }

  lemma FellMore(w: World, ops: seq<Op>, op: Op, h: int)
    ensures Fell(w, ops + [op], h) <==> (Fell(w, ops, h) && Leaves(op, h)) || h in Evictions(Play(w, ops).s, op)
  {
    hide Evictions, Play, Uncut, Leaves;
    var more := ops + [op];
    assert more[..|ops|] == ops && more[|ops|] == op;
    assert Uncut(more, |ops|, h) by { UncutLast(more, h); }
    forall i: nat | i < |ops| ensures FellAt(w, more, i, h) <==> FellAt(w, ops, i, h) && Leaves(op, h) {
      assert more[..i] == ops[..i] && more[i] == ops[i];
      UncutMore(ops, op, i, h);
    }
    if h in Evictions(Play(w, ops).s, op) { assert FellAt(w, more, |ops|, h); }
    if Fell(w, ops, h) && Leaves(op, h) {
      var i: nat :| i < |ops| && FellAt(w, ops, i, h);
      assert FellAt(w, more, i, h);
    }
  }

  lemma UncutLast(ops: seq<Op>, h: int)
    requires ops != []
    ensures Uncut(ops, |ops| - 1, h)
  {
  }

  lemma SeenMore(ops: seq<Op>, op: Op, h: int)
    ensures Seen(ops + [op], h) <==> (Seen(ops, h) && Leaves(op, h)) || (op.EvaluateOp? && op.h == h)
  {
    hide Uncut, Leaves;
    var more := ops + [op];
    assert more[|ops|] == op;
    assert Uncut(more, |ops|, h) by { UncutLast(more, h); }
    forall i: nat | i < |ops| ensures SeenAt(more, i, h) <==> SeenAt(ops, i, h) && Leaves(op, h) {
      assert more[i] == ops[i];
      UncutMore(ops, op, i, h);
    }
    if op.EvaluateOp? && op.h == h { assert SeenAt(more, |ops|, h); }
    if Seen(ops, h) && Leaves(op, h) {
      var i: nat :| i < |ops| && SeenAt(ops, i, h);
      assert SeenAt(more, i, h);
    }
  }

  lemma RecordedOf(k: History, s: State, op: Op, h: nat)
    ensures h in Recorded(k, s, op).evicted <==> (h in k.evicted && Leaves(op, h)) || h in Evictions(s, op)
    ensures h in Recorded(k, s, op).evaluated <==> (h in k.evaluated && Leaves(op, h)) || (op.EvaluateOp? && op.h == h)
  {
    hide Apply, MarkHeaderRace, RecordRequested;
  }

  /** The record of evictions and evaluations says what the operations of the run did. */
  lemma {:induction false} RecordTells(start: u32, ops: seq<Op>, h: nat)
    ensures h in Play(Born(start), ops).k.evicted <==> Fell(Born(start), ops, h)
    ensures h in Play(Born(start), ops).k.evaluated <==> Seen(ops, h)
    decreases |ops|
  {
    hide Apply, Recorded, Evictions, Leaves, FellAt, SeenAt;
    if ops != [] {
      var before, op := ops[..|ops| - 1], ops[|ops| - 1];
      RecordTells(start, before, h);
      assert ops == before + [op];
      FellMore(Born(start), before, op, h);
      SeenMore(before, op, h);
      var w := Play(Born(start), before);
      RecordedOf(w.k, w.s, op, h);
    }
  }
}
