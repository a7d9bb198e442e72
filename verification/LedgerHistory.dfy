/** Runs of the ledger. */
module LedgerHistory {
  // Runs of the scan ledger, with the history the ledger itself does not keep:
  // which heights were evaluated, which fell out of a full outstanding[], and
  // which were given up below the hard floor.

  import opened FixedWidth
  import opened SortedHoles
  import opened LedgerSpec

  datatype Op =
    | RequestOp(startH: u32, stopH: u32, peer: u128, port: u16, now: u32)
    | EvaluateOp(h: u32)
    | HeaderRaceOp(h: u32)
    | LosePeerOp(peer: u128, port: u16)
    | RetireOp
    | NextOp(now: u32)
    | CommitOp(startH: u32, stopH: u32, peer: u128, port: u16, now: u32)
    | MissedOp(startH: u32, stopH: u32)
    | ReArmOp(h: u32)
    | ReArmRunOp(startH: u32, maxRun: nat)
    | AbandonGaveUpOp(clamp: u32)
    | AbandonUnscannableOp(lo: u32, floor: u32)
    | RetireFloorOp(newFloor: u32)
    | RewindOp(next: u32)
    | RestartOp

  function Apply(s: State, op: Op): State {
    match op
    case RequestOp(startH, stopH, peer, port, now) => RecordRequested(s, startH, stopH, peer, port, now).0
    case EvaluateOp(h) => MarkEvaluated(s, h)
    case HeaderRaceOp(h) => MarkHeaderRace(s, h).0
    case LosePeerOp(peer, port) => ReArmPeer(s, peer, port)
    case RetireOp => RetireCapped(s)
    case NextOp(now) => NextRerequest(s, now)
    case CommitOp(startH, stopH, peer, port, now) => CommitRerequest(s, startH, stopH, peer, port, now)
    case MissedOp(startH, stopH) => MarkOffersMissedLivePeer(s, startH, stopH)
    case ReArmOp(h) => ReArmGaveUp(s, h).0
    case ReArmRunOp(startH, maxRun) => ReArmParkedRun(s, startH, maxRun).0
    case AbandonGaveUpOp(clamp) => AbandonGaveUpBelow(s, clamp).state
    case AbandonUnscannableOp(lo, floor) => AbandonUnscannableBelow(s, lo, floor).0
    case RetireFloorOp(newFloor) => RetireAbandonedTo(s, newFloor).0
    case RewindOp(next) => RewindTo(s, next).0
    case RestartOp => Restored(s)
  }

  /** What the peer manager promises: ranges are requested contiguously (or start at
      or below the floor), and a header race names at most the next height. */
  ghost predicate Allowed(s: State, op: Op) {
    match op
    case RequestOp(startH, stopH, _, _, _) =>
      stopH < U32_MAX && (startH <= s.requestedThrough + 1 || startH <= s.abandonedBelow)
    case HeaderRaceOp(h) => h < U32_MAX && (h <= s.requestedThrough + 1 || h <= s.abandonedBelow)
    case _ => true
  }

  datatype History = History(evaluated: set<int>, evicted: set<int>, abandoned: set<int>)

  predicate Within(x: int, from: int, end: int) { from <= x < end }

  ghost function Span(from: int, end: int): (r: set<int>)
    ensures forall x :: x in r <==> from <= x < end
  {
    set x: int | from <= x < end && Within(x, from, end)
  }

  ghost function Below(h: int): (r: set<int>)
    ensures forall x :: x in r <==> 0 <= x < h
  {
    Span(0, h)
  }

  /** The heights an operation pushes out of a full outstanding[]. */
  ghost function Evictions(s: State, op: Op): set<int> {
    match op
    case RequestOp(startH, stopH, peer, port, now) =>
      (set d | d in RecordRequested(s, startH, stopH, peer, port, now).1)
    case HeaderRaceOp(h) =>
      var d := MarkHeaderRace(s, h).1; if d == NO_DROP then {} else {d}
    case _ => {}
  }

  /** A reorganisation at `next` voids what is known about `next` and above; every other
      operation only adds to the history. A height counts as abandoned once it has
      been below the floor. */
  ghost function Recorded(k: History, s: State, op: Op): History {
    var floor := Below(Apply(s, op).abandonedBelow);
    match op
    case RewindOp(next) =>
      if next == 0 then k
      else History(k.evaluated * Below(next), k.evicted * Below(next), (k.abandoned * Below(next)) + floor)
    case EvaluateOp(h) => k.(evaluated := k.evaluated + {h}, abandoned := k.abandoned + floor)
    case _ => k.(evicted := k.evicted + Evictions(s, op), abandoned := k.abandoned + floor)
  }

  datatype World = World(s: State, k: History)

  ghost function Born(start: u32): World { World(Init(start), History({}, {}, {})) }

  ghost function Next(w: World, op: Op): World { World(Apply(w.s, op), Recorded(w.k, w.s, op)) }

  ghost function Play(w: World, ops: seq<Op>): World
    decreases |ops|
  {
    if ops == [] then w else Next(Play(w, ops[..|ops| - 1]), ops[|ops| - 1])
  }

  /** Every operation of the run meets the caller contract where it is made. */
  ghost predicate Lawful(w: World, ops: seq<Op>)
    decreases |ops|
  {
    ops == [] || (Lawful(w, ops[..|ops| - 1]) && Allowed(Play(w, ops[..|ops| - 1]).s, ops[|ops| - 1]))
  }

  ghost function Holes(s: State): set<int> { Heights(s.outstanding) + Heights(s.gaveUp) }

  ghost function Settled(k: History): set<int> { k.evaluated + k.evicted + k.abandoned }

  // ---- the invariants -------------------------------------------------------

  /** start <= scannedThrough + 1 <= requestedThrough + 1, nothing wraps, lists fit. */
  ghost predicate Ordered(s: State) {
    && 0 < s.start <= s.scannedThrough + 1 <= s.requestedThrough + 1 <= U32_MAX
    && |s.outstanding| <= OUTSTANDING_MAX && |s.gaveUp| <= GAVEUP_MAX
    && Ascending(s.outstanding) && Ascending(s.gaveUp)
  }

  /** Every hole lies between the floor and the highest requested height. */
  ghost predicate HolesInRange(s: State) {
    && (forall h :: h in Heights(s.outstanding) ==> s.abandonedBelow <= h <= s.requestedThrough)
    && (forall h :: h in Heights(s.gaveUp) ==> s.abandonedBelow <= h <= s.requestedThrough)
  }

  /** No requested height is lost, and none under the scan mark was skipped unseen. */
  ghost predicate Accounted(w: World) {
    && (forall h :: w.s.start <= h <= w.s.requestedThrough ==> h in Settled(w.k) + Holes(w.s))
    && (forall h :: w.s.start <= h <= w.s.scannedThrough ==> h in Settled(w.k))
  }

  /** The floor's heights are on record, and a zero floor means nothing ever was abandoned. */
  ghost predicate FloorOnRecord(w: World) {
    && Below(w.s.abandonedBelow) <= w.k.abandoned
    && (w.s.abandonedBelow == 0 ==> w.k.abandoned == {})
  }

  ghost predicate Sound(w: World) {
    Ordered(w.s) && HolesInRange(w.s) && Accounted(w) && FloorOnRecord(w)
  }

  // ---- two steps every operation is made of ---------------------------------

  /** Nothing is lost when every hole stays a hole or is settled, and every newly
      requested height is one or the other. */
  lemma ConserveKeeps(w: World, s': State, k': History)
    requires Sound(w) && Ordered(s') && HolesInRange(s') && FloorOnRecord(World(s', k'))
    requires s'.start == w.s.start && s'.scannedThrough == w.s.scannedThrough
    requires Settled(w.k) <= Settled(k')
    requires Holes(w.s) <= Holes(s') + Settled(k')
    requires forall h :: w.s.requestedThrough < h <= s'.requestedThrough ==> h in Settled(k') + Holes(s')
    ensures Sound(World(s', k'))
  {
    forall h | s'.start <= h <= s'.requestedThrough ensures h in Settled(k') + Holes(s') {
      if h <= w.s.requestedThrough { assert h in Settled(w.k) + Holes(w.s); }
    }
    forall h | s'.start <= h <= s'.scannedThrough ensures h in Settled(k') {
      assert h in Settled(w.k);
    }
  }

  lemma FirstHoleIsLeast(s: State)
    requires Ascending(s.outstanding) && Ascending(s.gaveUp)
    ensures forall h :: h in Holes(s) ==> FirstHole(s) <= h
    ensures FirstHole(s) < U32_MAX ==> FirstHole(s) in Holes(s)
  {
    if s.outstanding != [] { FirstIsLeast(s.outstanding); }
    if s.gaveUp != [] { FirstIsLeast(s.gaveUp); }
  }

  /** The mark stops short of the first hole, so it passes settled heights alone. */
  lemma AdvanceKeeps(w: World)
    requires Sound(w)
    ensures Sound(World(Advanced(w.s), w.k))
  {
    FirstHoleIsLeast(w.s);
    forall h | w.s.start <= h <= Advanced(w.s).scannedThrough ensures h in Settled(w.k) {
      assert h in Settled(w.k) + Holes(w.s);
    }
  }

  // ---- each operation -------------------------------------------------------

  lemma InsertKeeps(out: seq<Outstanding>, h: u32, peer: u128, port: u16, now: u32)
    requires Ascending(out) && |out| <= OUTSTANDING_MAX
    requires forall x :: x in Heights(out) ==> x < U32_MAX
    ensures var r := Insert(out, h, peer, port, now);
            && Ascending(r.0) && |r.0| <= OUTSTANDING_MAX
            && Heights(r.0) == (Heights(out) - {r.1}) + {h}
            && (r.1 != NO_DROP ==> r.1 in Heights(out) && r.1 != h && |out| == OUTSTANDING_MAX)
  {
    var i := LowerBound(out, h);
    HoldsIsMembership(out, h);
    if i < |out| && out[i].height == h {
      SameHeightsKeep(out, Insert(out, h, peer, port, now).0);
    } else if |out| >= OUTSTANDING_MAX {
      InsertFull(out, h, peer, port, now);
    } else {
      InsertAtHeights(out, i, Fresh(h, peer, port, now));
    }
  }

  lemma InsertFull(out: seq<Outstanding>, h: u32, peer: u128, port: u16, now: u32)
    requires Ascending(out) && |out| == OUTSTANDING_MAX && !Holds(out, h)
    ensures var r := Insert(out, h, peer, port, now);
            && Ascending(r.0) && |r.0| == OUTSTANDING_MAX
            && r.1 == out[0].height && r.1 in Heights(out)
            && Heights(r.0) == (Heights(out) - {r.1}) + {h}
  {
    ReplaceFirstHeights(out, LowerBound(out, h), Fresh(h, peer, port, now));
    FirstIsLeast(out);
  }

  ghost function Elems(s: seq<u32>): set<int> { set d | d in s }

  /** `list` is `out` with [from..end) inserted, less what `dropped` records. */
  ghost predicate Requested(out: seq<Outstanding>, from: int, end: int, list: seq<Outstanding>, dropped: set<int>) {
    && Ascending(list) && |list| <= OUTSTANDING_MAX
    && Heights(list) <= Heights(out) + Span(from, end)
    && Heights(out) + Span(from, end) <= Heights(list) + dropped
  }

  lemma InsertStep(out: seq<Outstanding>, from: int, h: u32, list: seq<Outstanding>, dropped: set<int>,
                   peer: u128, port: u16, now: u32)
    requires 0 <= from <= h < U32_MAX && Requested(out, from, h, list, dropped)
    requires forall x :: x in Heights(out) ==> x < U32_MAX
    ensures var r := Insert(list, h, peer, port, now);
            Requested(out, from, h + 1, r.0, dropped + (if r.1 != NO_DROP then {r.1} else {}))
  {
    assert forall x :: x in Heights(list) ==> x in Heights(out) + Span(from, h);
    InsertKeeps(list, h, peer, port, now);
    assert Span(from, h + 1) == Span(from, h) + {h};
  }

  lemma InsertNothing(out: seq<Outstanding>, from: int)
    requires Ascending(out) && |out| <= OUTSTANDING_MAX
    ensures Requested(out, from, from, out, Elems([]))
  {
  }

  lemma {:induction false} InsertRangeKeeps(out: seq<Outstanding>, from: nat, end: nat, peer: u128, port: u16, now: u32)
    requires from <= end <= U32_MAX
    requires Ascending(out) && |out| <= OUTSTANDING_MAX
    requires forall x :: x in Heights(out) ==> x < U32_MAX
    ensures var r := InsertRange(out, from, end, peer, port, now); Requested(out, from, end, r.0, Elems(r.1))
    decreases end
  {
    hide Requested, Insert;
    if from < end {
      var before := InsertRange(out, from, end - 1, peer, port, now);
      InsertRangeKeeps(out, from, end - 1, peer, port, now);
      InsertStep(out, from, end - 1, before.0, Elems(before.1), peer, port, now);
      var last := Insert(before.0, end - 1, peer, port, now);
      var r := InsertRange(out, from, end, peer, port, now);
      assert Elems(r.1) == Elems(before.1) + (if last.1 != NO_DROP then {last.1} else {});
    } else {
      InsertNothing(out, from);
    }
  }

  lemma RequestKeeps(w: World, op: Op)
    requires Sound(w) && op.RequestOp? && Allowed(w.s, op)
    ensures Sound(Next(w, op))
  {
    hide Heights, Ascending, InsertRange, Insert;
    var from := Max(op.startH, w.s.abandonedBelow);
    var s', k' := Next(w, op).s, Next(w, op).k;
    if from <= op.stopH {
      InsertRangeKeeps(w.s.outstanding, from, op.stopH + 1, op.peer, op.port, op.now);
      var ins := InsertRange(w.s.outstanding, from, op.stopH + 1, op.peer, op.port, op.now);
      assert Evictions(w.s, op) == Elems(ins.1);
      assert forall h :: h in Heights(ins.0) ==> h in Heights(w.s.outstanding) + Span(from, op.stopH + 1);
      forall h | w.s.requestedThrough < h <= op.stopH ensures h in Settled(k') + Holes(s') {
        assert from <= h ==> h in Heights(w.s.outstanding) + Span(from, op.stopH + 1);
      }
    }
    ConserveKeeps(w, s', k');
  }

  lemma HeaderRaceState(s: State, h: u32)
    requires Ordered(s) && HolesInRange(s) && s.abandonedBelow <= h < U32_MAX
    ensures var (r, d) := MarkHeaderRace(s, h);
            && r == s.(outstanding := r.outstanding, requestedThrough := r.requestedThrough)
            && s.requestedThrough <= r.requestedThrough <= Max(s.requestedThrough, h)
            && Ordered(r) && h <= r.requestedThrough
            && Heights(r.outstanding) == (Heights(s.outstanding) - {d}) + {h}
            && (d != NO_DROP ==> d in Heights(s.outstanding))
  {
    HoldsIsMembership(s.outstanding, h);
    if Holds(s.outstanding, h) {
      SameHeightsKeep(s.outstanding, FlagHeaderRace(s.outstanding, h));
    } else {
      InsertKeeps(s.outstanding, h, 0, 0, 0);
      var out := Insert(s.outstanding, h, 0, 0, 0).0;
      SameHeightsKeep(out, FlagHeaderRace(out, h));
    }
  }

  lemma HeaderRaceKeeps(w: World, op: Op)
    requires Sound(w) && op.HeaderRaceOp? && Allowed(w.s, op)
    ensures Sound(Next(w, op))
  {
    hide Heights, Ascending, Insert, FlagHeaderRace;
    if w.s.abandonedBelow <= op.h {
      HeaderRaceState(w.s, op.h);
    }
    ConserveKeeps(w, Next(w, op).s, Next(w, op).k);
  }

  lemma EvaluateKeeps(w: World, op: Op)
    requires Sound(w) && op.EvaluateOp?
    ensures Sound(Next(w, op))
  {
    RemoveHeights(w.s.outstanding, op.h);
    RemoveHeights(w.s.gaveUp, op.h);
    var s := w.s.(outstanding := Remove(w.s.outstanding, op.h), gaveUp := Remove(w.s.gaveUp, op.h));
    ConserveKeeps(w, s, Next(w, op).k);
    AdvanceKeeps(World(s, Next(w, op).k));
  }

  /** An operation that only edits retry state. */
  lemma RetryEditKeeps(w: World, op: Op)
    requires Sound(w) && (op.LosePeerOp? || op.CommitOp? || op.MissedOp? || op.RestartOp?)
    ensures Sound(Next(w, op))
  {
    SameHeightsKeep(w.s.outstanding, Apply(w.s, op).outstanding);
    ConserveKeeps(w, Next(w, op).s, Next(w, op).k);
  }

  lemma ParkKeeps(gave: seq<Parked>, h: u32, v: Verdict)
    requires Ascending(gave) && |gave| <= GAVEUP_MAX
    ensures var r := Park(gave, h, v);
            && Ascending(r.0) && |r.0| <= GAVEUP_MAX
            && Heights(r.0) == Heights(gave) + (if r.1 then {h} else {})
  {
    var i := LowerBound(gave, h);
    if i < |gave| && gave[i].height == h {
      SameHeightsKeep(gave, Park(gave, h, v).0);
    } else if |gave| < GAVEUP_MAX {
      InsertAtHeights(gave, i, Hole(h, v));
    }
  }

  lemma {:induction false} RetireFromKeeps(out: seq<Outstanding>, gave: seq<Parked>, i: nat)
    requires i <= |out| && Ascending(out) && Ascending(gave) && |gave| <= GAVEUP_MAX
    ensures var r := RetireFrom(out, gave, i);
            && Ascending(r.0) && Ascending(r.1) && |r.0| <= |out| && |r.1| <= GAVEUP_MAX
            && Heights(r.0) + Heights(r.1) == Heights(out) + Heights(gave)
    decreases |out| - i
  {
    if i < |out| && out[i].info.attempts >= MAX_ATTEMPTS && Park(gave, out[i].height, VerdictOf(out[i].info)).1 {
      ParkKeeps(gave, out[i].height, VerdictOf(out[i].info));
      RemoveAtHeights(out, i);
      RetireFromKeeps(RemoveAt(out, i), Park(gave, out[i].height, VerdictOf(out[i].info)).0, i);
    } else if i < |out| {
      RetireFromKeeps(out, gave, i + 1);
    }
  }

  lemma RetireKeeps(w: World, op: Op)
    requires Sound(w) && (op.RetireOp? || op.NextOp?)
    ensures Sound(Next(w, op))
  {
    hide Heights, Ascending, RetireFrom;
    RetireFromKeeps(w.s.outstanding, w.s.gaveUp, 0);
    SameHeightsKeep(RetireCapped(w.s).outstanding, Apply(w.s, op).outstanding);
    assert Holes(Next(w, op).s) == Holes(w.s);
    RangeFromHoles(w.s, Next(w, op).s);
    ConserveKeeps(w, Next(w, op).s, Next(w, op).k);
  }

  lemma RangeFromHoles(s: State, s': State)
    requires HolesInRange(s) && Holes(s') == Holes(s)
    requires s'.abandonedBelow == s.abandonedBelow && s'.requestedThrough == s.requestedThrough
    ensures HolesInRange(s')
  {
    assert forall h :: h in Holes(s') ==> h in Heights(s.outstanding) || h in Heights(s.gaveUp);
    assert Heights(s'.outstanding) <= Holes(s') && Heights(s'.gaveUp) <= Holes(s');
  }

  /** What a re-arm changes besides retry state: at most the scan mark, which may advance. */
  ghost predicate ReArmed(s: State, r: State) {
    && Ordered(r) && HolesInRange(r) && Holes(r) == Holes(s)
    && r.start == s.start && r.abandonedBelow == s.abandonedBelow && r.requestedThrough == s.requestedThrough
    && (r.scannedThrough == s.scannedThrough || r.scannedThrough == Advanced(s).scannedThrough)
  }

  /** The lists after a successful re-arm: the height has left gaveUp for outstanding. */
  lemma ReArmGaveUpLists(s: State, h: u32)
    requires Ordered(s) && HolesInRange(s) && ReArmGaveUp(s, h).1
    ensures var r := ReArmGaveUp(s, h).0;
            && Ascending(r.outstanding) && Ascending(r.gaveUp)
            && |r.outstanding| <= OUTSTANDING_MAX && |r.gaveUp| == |s.gaveUp| - 1
            && h in Heights(s.gaveUp)
            && Heights(r.gaveUp) == Heights(s.gaveUp) - {h}
            && Heights(r.outstanding) == Heights(s.outstanding) + {h}
  {
    HoldsIsMembership(s.gaveUp, h);
    RemoveAtHeights(s.gaveUp, LowerBound(s.gaveUp, h));
    InsertKeeps(s.outstanding, h, 0, 0, 0);
    SameHeightsKeep(Insert(s.outstanding, h, 0, 0, 0).0, ReArmGaveUp(s, h).0.outstanding);
  }

  /** The mark depends only on the set of holes. */
  lemma AdvancedByHoles(s: State, r: State)
    requires Ascending(s.outstanding) && Ascending(s.gaveUp) && Ascending(r.outstanding) && Ascending(r.gaveUp)
    requires Holes(s) == Holes(r)
    requires r.requestedThrough == s.requestedThrough && r.scannedThrough == s.scannedThrough
    ensures FirstHole(s) == FirstHole(r) && Advanced(s).scannedThrough == Advanced(r).scannedThrough
  {
    FirstHoleIsLeast(s);
    FirstHoleIsLeast(r);
  }

  lemma ReArmGaveUpKeeps(s: State, h: u32)
    requires Ordered(s) && HolesInRange(s)
    ensures ReArmed(s, ReArmGaveUp(s, h).0)
  {
    if ReArmGaveUp(s, h).1 {
      ReArmGaveUpLists(s, h);
      var r := ReArmGaveUp(s, h).0;
      assert Holes(r) == Holes(s);
      RangeFromHoles(s, r);
      AdvancedByHoles(s, r.(scannedThrough := s.scannedThrough));
    }
  }

  lemma ReArmInPlaceKeeps(s: State, h: u32)
    requires Ordered(s) && HolesInRange(s) && Holds(s.outstanding, h)
    ensures ReArmed(s, ReArmInPlace(s, h))
  {
    SameHeightsKeep(s.outstanding, ReArmInPlace(s, h).outstanding);
  }

  lemma ReArmedTwice(s: State, r: State, t: State)
    requires Ordered(s) && HolesInRange(s) && ReArmed(s, r) && ReArmed(r, t)
    ensures ReArmed(s, t)
  {
    AdvancedByHoles(s, r.(scannedThrough := s.scannedThrough));
  }

  lemma {:induction false} ReArmRunKeeps(s: State, h: u32, budget: nat)
    requires Ordered(s) && HolesInRange(s)
    ensures ReArmed(s, ReArmRun(s, h, budget).0)
    decreases budget
  {
    hide Heights, Ascending, Holes, Advanced, ReArmGaveUp, ReArmInPlace, LowerBoundFrom;
    if budget > 0 && h >= s.abandonedBelow {
      var r := if Holds(s.outstanding, h) then ReArmInPlace(s, h) else ReArmGaveUp(s, h).0;
      if Holds(s.outstanding, h) { ReArmInPlaceKeeps(s, h); } else { ReArmGaveUpKeeps(s, h); }
      if h < U32_MAX {
        ReArmRunKeeps(r, h + 1, budget - 1);
        ReArmedTwice(s, r, ReArmRun(r, h + 1, budget - 1).0);
      }
    }
  }

  lemma ReArmKeeps(w: World, op: Op)
    requires Sound(w) && (op.ReArmOp? || op.ReArmRunOp?)
    ensures Sound(Next(w, op))
  {
    hide Heights, Ascending, ReArmGaveUp, ReArmRun;
    var r := if op.ReArmOp? then ReArmGaveUp(w.s, op.h).0 else ReArmRun(w.s, op.startH, op.maxRun).0;
    if op.ReArmOp? { ReArmGaveUpKeeps(w.s, op.h); } else { ReArmRunKeeps(w.s, op.startH, op.maxRun); }
    var k := Next(w, op).k;
    AdvanceKeeps(w);
    if r.scannedThrough == w.s.scannedThrough {
      ConserveKeeps(w, r, k);
    } else {
      ConserveKeeps(World(Advanced(w.s), w.k), r, k);
    }
    AdvanceKeeps(World(r, k));
  }

  /** Abandoning parks' prefix drops exactly the parked heights under the new floor,
      and no outstanding hole is under it. */
  lemma AbandonGaveUpLists(s: State, clamp: u32)
    requires Ordered(s) && HolesInRange(s)
    ensures var r := AbandonGaveUpBelow(s, clamp);
            && Ascending(r.state.gaveUp) && |r.state.gaveUp| <= |s.gaveUp|
            && (forall h :: h in Heights(r.state.gaveUp) <==> h in Heights(s.gaveUp) && r.state.abandonedBelow <= h)
            && (forall h :: h in Heights(s.outstanding) ==> r.state.abandonedBelow <= h)
            && (r.count > 0 <==> r.state.abandonedBelow > s.abandonedBelow)
            && (r.count > 0 ==> r.high in Heights(s.gaveUp) && r.state.abandonedBelow == r.high + 1)
  {
    hide LowerBoundFrom;
    var target := if s.outstanding != [] then Min(clamp, s.outstanding[0].height) else clamp;
    var k := LowerBound(s.gaveUp, target);
    if s.outstanding != [] { FirstIsLeast(s.outstanding); }
    if k > 0 {
      assert s.gaveUp[k - 1].height in Heights(s.gaveUp);
      hide Heights, Ascending;
      CutAfterHeights(s.gaveUp, k);
    } else {
      assert s.gaveUp[0..] == s.gaveUp;
    }
  }

  lemma AbandonGaveUpKeeps(w: World, op: Op)
    requires Sound(w) && op.AbandonGaveUpOp?
    ensures Sound(Next(w, op))
  {
    AbandonGaveUpLists(w.s, op.clamp);
    ConserveKeeps(w, Next(w, op).s, Next(w, op).k);
  }

  lemma AbandonUnscannableKeeps(w: World, op: Op)
    requires Sound(w) && op.AbandonUnscannableOp?
    ensures Sound(Next(w, op))
  {
    hide Heights, Ascending;
    var s := w.s;
    var o, g := LowerBound(s.outstanding, op.floor), LowerBound(s.gaveUp, op.floor);
    SplitHeights(s.outstanding, op.floor, o);
    SplitHeights(s.gaveUp, op.floor, g);
    if AbandonUnscannableBelow(s, op.lo, op.floor).1 == 0 {
      ConserveKeeps(w, s, Next(w, op).k);
    } else {
      var t := s.(outstanding := s.outstanding[o..], gaveUp := s.gaveUp[g..],
                  abandonedBelow := Max(s.abandonedBelow, op.floor));
      ConserveKeeps(w, t, Next(w, op).k);
      AdvanceKeeps(World(t, Next(w, op).k));
    }
  }

  lemma RetireFloorKeeps(w: World, op: Op)
    requires Sound(w) && op.RetireFloorOp?
    ensures Sound(Next(w, op))
  {
    ConserveKeeps(w, Next(w, op).s, Next(w, op).k);
  }

  lemma RewindKeeps(w: World, op: Op)
    requires Sound(w) && op.RewindOp?
    ensures Sound(Next(w, op))
  {
    hide Heights, Ascending;
    if op.next > 0 {
      var s, k := w.s, Next(w, op).k;
      SplitHeights(s.outstanding, op.next, LowerBound(s.outstanding, op.next));
      SplitHeights(s.gaveUp, op.next, LowerBound(s.gaveUp, op.next));
      var t := CutTo(s, op.next);
      forall h | t.start <= h <= t.requestedThrough ensures h in Settled(k) + Holes(t) {
        assert h in Settled(w.k) + Holes(s);
      }
      forall h | t.start <= h <= t.scannedThrough ensures h in Settled(k) {
        assert h in Settled(w.k);
      }
      AdvanceKeeps(World(t, k));
    }
  }

  // ---- every run ------------------------------------------------------------

  lemma StepKeeps(w: World, op: Op)
    requires Sound(w) && Allowed(w.s, op)
    ensures Sound(Next(w, op))
  {
    match op
    case RequestOp(_, _, _, _, _) => RequestKeeps(w, op);
    case EvaluateOp(_) => EvaluateKeeps(w, op);
    case HeaderRaceOp(_) => HeaderRaceKeeps(w, op);
    case LosePeerOp(_, _) => RetryEditKeeps(w, op);
    case RetireOp => RetireKeeps(w, op);
    case NextOp(_) => RetireKeeps(w, op);
    case CommitOp(_, _, _, _, _) => RetryEditKeeps(w, op);
    case MissedOp(_, _) => RetryEditKeeps(w, op);
    case ReArmOp(_) => ReArmKeeps(w, op);
    case ReArmRunOp(_, _) => ReArmKeeps(w, op);
    case AbandonGaveUpOp(_) => AbandonGaveUpKeeps(w, op);
    case AbandonUnscannableOp(_, _) => AbandonUnscannableKeeps(w, op);
    case RetireFloorOp(_) => RetireFloorKeeps(w, op);
    case RewindOp(_) => RewindKeeps(w, op);
    case RestartOp => RetryEditKeeps(w, op);
  }

  lemma {:induction false} RunKeeps(w: World, ops: seq<Op>)
    requires Sound(w) && Lawful(w, ops)
    ensures Sound(Play(w, ops))
    decreases |ops|
  {
    if ops != [] {
      RunKeeps(w, ops[..|ops| - 1]);
      StepKeeps(Play(w, ops[..|ops| - 1]), ops[|ops| - 1]);
    }
  }

  /** In every lawful run from a birth height, each requested height is evaluated,
      outstanding, parked, evicted from a full list or abandoned below the floor, and
      each height under the scan mark is evaluated, evicted or abandoned. */
  lemma NoSilentLoss(start: u32, ops: seq<Op>)
    requires 0 < start < U32_MAX && Lawful(Born(start), ops)
    ensures var w := Play(Born(start), ops);
            && w.s.start <= w.s.scannedThrough + 1 <= w.s.requestedThrough + 1
            && (forall h :: w.s.start <= h <= w.s.requestedThrough ==>
                  h in w.k.evaluated || h in Heights(w.s.outstanding) || h in Heights(w.s.gaveUp) ||
                  h in w.k.evicted || h in w.k.abandoned)
            && (forall h :: w.s.start <= h <= w.s.scannedThrough ==>
                  h in w.k.evaluated || h in w.k.evicted || h in w.k.abandoned)
  {
    RunKeeps(Born(start), ops);
    var w := Play(Born(start), ops);
    forall h | w.s.start <= h <= w.s.requestedThrough
      ensures h in w.k.evaluated || h in Heights(w.s.outstanding) || h in Heights(w.s.gaveUp) ||
              h in w.k.evicted || h in w.k.abandoned
    {
      assert h in Settled(w.k) + Holes(w.s);
    }
    forall h | w.s.start <= h <= w.s.scannedThrough
      ensures h in w.k.evaluated || h in w.k.evicted || h in w.k.abandoned
    {
      assert h in Settled(w.k);
    }
  }
}
