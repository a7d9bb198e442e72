/** The marks. */
module LedgerMarks {
  // What moves the floor and the scan mark over whole runs, and how far.

  import opened FixedWidth
  import opened SortedHoles
  import opened LedgerSpec
  import opened LedgerHistory

  // ---- what moves the marks -------------------------------------------------

  ghost predicate MarksClimb(s: State, r: State) {
    && r.start == s.start && s.scannedThrough <= r.scannedThrough
    && s.requestedThrough <= r.requestedThrough && s.abandonedBelow <= r.abandonedBelow
  }

  lemma AdvancedClimbs(s: State)
    ensures MarksClimb(s, Advanced(s))
  {
  }

  lemma ReArmGaveUpClimbs(s: State, h: u32)
    ensures MarksClimb(s, ReArmGaveUp(s, h).0) && ReArmGaveUp(s, h).0.abandonedBelow == s.abandonedBelow
  {
  }

  lemma {:induction false} ReArmRunClimbs(s: State, h: u32, budget: nat)
    ensures MarksClimb(s, ReArmRun(s, h, budget).0)
    decreases budget
  {
    hide ReArmGaveUp, ReArmInPlace;
    if budget > 0 && h >= s.abandonedBelow {
      ReArmGaveUpClimbs(s, h);
      var r := if Holds(s.outstanding, h) then ReArmInPlace(s, h) else ReArmGaveUp(s, h).0;
      assert MarksClimb(s, r) by { ReArmInPlaceClimbs(s, h); }
      if h < U32_MAX {
        ReArmRunClimbs(r, h + 1, budget - 1);
      }
    }
  }

  lemma ReArmInPlaceClimbs(s: State, h: u32)
    ensures Holds(s.outstanding, h) ==> MarksClimb(s, ReArmInPlace(s, h))
  {
  }

  /** From any state at all: the floor falls exactly when the abandoned band is retired to a floor below it and not
      below the start, and then to that floor and nothing else changes; the start and the two marks fall exactly in a
      rewind to a height below them, or at them. */
  lemma OnlyRetireAndRewindLower(s: State, op: Op)
    ensures !op.RetireFloorOp? && !op.RewindOp? ==> MarksClimb(s, Apply(s, op))
    ensures op.RewindOp? ==> Apply(s, op).abandonedBelow == s.abandonedBelow
    ensures op.RetireFloorOp? ==>
              var floor := Apply(s, op).abandonedBelow;
              Apply(s, op) == s.(abandonedBelow := floor) &&
              (floor == s.abandonedBelow || s.start <= floor == op.newFloor < s.abandonedBelow)
    ensures Apply(s, op).abandonedBelow < s.abandonedBelow <==>
              op.RetireFloorOp? && s.start <= op.newFloor < s.abandonedBelow
    ensures Apply(s, op).scannedThrough < s.scannedThrough <==> op.RewindOp? && 0 < op.next <= s.scannedThrough
    ensures Apply(s, op).requestedThrough < s.requestedThrough <==> op.RewindOp? && 0 < op.next <= s.requestedThrough
    ensures Apply(s, op).start < s.start <==> op.RewindOp? && 0 < op.next < s.start
  {
    hide RetireFrom, Insert, InsertRange, ReArmGaveUp, ReArmRun, LowerBound, Remove;
    if op.ReArmRunOp? { ReArmRunClimbs(s, op.startH, op.maxRun); }
    if op.ReArmOp? { ReArmGaveUpClimbs(s, op.h); }
  }

  // ---- the two abandoning calls ---------------------------------------------

  /** The guard under which each abandoning call raises the floor: a parked hole below the clamp and below every
      outstanding hole; or a floor above what is left to surface. */
  predicate RaisesFloor(s: State, op: Op) {
    match op
    case AbandonGaveUpOp(clamp) =>
      s.gaveUp != [] && s.gaveUp[0].height < clamp &&
      (s.outstanding == [] || s.gaveUp[0].height < s.outstanding[0].height)
    case AbandonUnscannableOp(lo, floor) => lo != 0 && floor != 0 && SurfacedFrom(s, lo) < floor
    case _ => false
  }

  /** The floor rises exactly in those two calls, each under its guard. */
  lemma FloorRises(s: State, op: Op)
    requires Ordered(s) && HolesInRange(s)
    ensures Apply(s, op).abandonedBelow > s.abandonedBelow <==> RaisesFloor(s, op)
  {
    OnlyRetireAndRewindLower(s, op);
    hide RetireFrom, Insert, InsertRange, ReArmGaveUp, ReArmRun, Remove, LowerBoundFrom, Heights, Ascending;
    match op
    case ReArmRunOp(startH, maxRun) => ReArmRunKeeps(s, startH, maxRun);
    case ReArmOp(h) => ReArmGaveUpClimbs(s, h);
    case AbandonGaveUpOp(clamp) => AbandonGaveUpLists(s, clamp); FirstParked(s, clamp);
    case _ =>
  }

  lemma FirstParked(s: State, clamp: u32)
    ensures AbandonGaveUpBelow(s, clamp).count > 0 <==> RaisesFloor(s, AbandonGaveUpOp(clamp))
  {
    hide LowerBoundFrom;
  }

  /** A hole that was outstanding before the call lies below the floor after it. */
  ghost predicate PassesOutstanding(s: State, op: Op) {
    exists h :: h in Heights(s.outstanding) && h < Apply(s, op).abandonedBelow
  }

  /** The floor passes an outstanding hole exactly when the second abandoning call raises it to a height above the
      lowest one. */
  lemma FloorPasses(s: State, op: Op)
    requires Ordered(s) && HolesInRange(s)
    ensures PassesOutstanding(s, op) <==>
              op.AbandonUnscannableOp? && RaisesFloor(s, op) && s.outstanding != [] &&
                  s.outstanding[0].height < op.floor
  {
    FloorRises(s, op);
    if s.outstanding != [] { FirstIsLeast(s.outstanding); }
    match op
    case AbandonGaveUpOp(clamp) =>
      AbandonGaveUpLists(s, clamp);
      hide AbandonGaveUpBelow, Heights, Ascending, RaisesFloor;
    case AbandonUnscannableOp(lo, floor) =>
      UnscannableFloor(s, lo, floor);
      hide AbandonUnscannableBelow, Heights, Ascending, SurfacedFrom;
    case _ =>
      hide Apply, Heights, Ascending;
  }

  lemma UnscannableFloor(s: State, lo: u32, floor: u32)
    ensures AbandonUnscannableBelow(s, lo, floor).0.abandonedBelow ==
            if RaisesFloor(s, AbandonUnscannableOp(lo, floor)) then Max(s.abandonedBelow, floor) else s.abandonedBelow
  {
    hide LowerBound, SurfacedFrom;
  }

  /** AbandonGaveUpBelow raises the floor exactly when it dropped a parked hole, never
      past an outstanding one, and every height at or above the start that it newly
      covers was settled before or parked. */
  lemma AbandonGaveUpIsSurfaced(w: World, clamp: u32)
    requires Sound(w)
    ensures var r := AbandonGaveUpBelow(w.s, clamp);
            && (r.count > 0 <==> r.state.abandonedBelow > w.s.abandonedBelow)
            && (forall h :: h in Heights(w.s.outstanding) ==> r.state.abandonedBelow <= h)
            && (forall h :: w.s.start <= h && w.s.abandonedBelow <= h < r.state.abandonedBelow ==>
                  h in w.k.evaluated || h in w.k.evicted || h in w.k.abandoned || h in Heights(w.s.gaveUp))
  {
    AbandonGaveUpLists(w.s, clamp);
    var r := AbandonGaveUpBelow(w.s, clamp);
    hide Heights;
    forall h | w.s.start <= h && w.s.abandonedBelow <= h < r.state.abandonedBelow
      ensures h in w.k.evaluated || h in w.k.evicted || h in w.k.abandoned || h in Heights(w.s.gaveUp)
    {
      assert h in Settled(w.k) + Holes(w.s);
    }
  }

  /** AbandonUnscannableBelow raises the floor exactly when it reports heights, to the
      block floor; with a low edge inside the ledger it reports only heights above
      the scan mark and at or above the old floor, so nothing is surfaced twice. */
  lemma AbandonUnscannableIsSurfaced(w: World, lo: u32, floor: u32)
    requires Sound(w)
    ensures var r := AbandonUnscannableBelow(w.s, lo, floor);
            && (r.1 > 0 <==> r.0.abandonedBelow > w.s.abandonedBelow)
            && (r.1 > 0 ==> r.0.abandonedBelow == floor && w.s.abandonedBelow <= floor - r.1)
            && (r.1 > 0 && lo >= w.s.start ==> w.s.scannedThrough < floor - r.1)
  {
    hide LowerBound;
    AdvancedClimbs(w.s);
  }

  // ---- rewinding ------------------------------------------------------------

  lemma AdvancedTwice(s: State)
    ensures Advanced(Advanced(s)) == Advanced(s)
  {
  }

  /** After a rewind nothing at or above `next` is scanned, requested or a hole. */
  lemma RewindCuts(s: State, next: u32)
    requires Ordered(s) && next > 0
    ensures var r := RewindTo(s, next).0;
            && r.start <= next && r.scannedThrough < next && r.requestedThrough < next
            && (forall h :: h in Holes(r) <==> h in Holes(s) && h < next)
  {
    SplitHeights(s.outstanding, next, LowerBound(s.outstanding, next));
    SplitHeights(s.gaveUp, next, LowerBound(s.gaveUp, next));
  }

  lemma CutAgain(s: State, next: u32)
    requires next > 0 && s.start <= next && s.scannedThrough < next && s.requestedThrough < next
    requires forall h :: h in Holes(s) ==> h < next
    ensures CutTo(s, next) == s
  {
    assert forall i :: 0 <= i < |s.outstanding| ==> s.outstanding[i].height in Holes(s);
    assert forall i :: 0 <= i < |s.gaveUp| ==> s.gaveUp[i].height in Holes(s);
    LowerBoundUnique(s.outstanding, next, |s.outstanding|);
    LowerBoundUnique(s.gaveUp, next, |s.gaveUp|);
  }

  /** A rewind cuts exactly when its height is below the start or not above everything requested. */
  lemma CutsWhen(s: State, next: u32)
    requires Ordered(s) && HolesInRange(s) && next > 0
    ensures CutTo(s, next) == s <==> s.start <= next && s.requestedThrough < next
  {
    if s.start <= next && s.requestedThrough < next { CutAgain(s, next); }
    hide LowerBound;
  }

  /** A rewind changes nothing exactly when its height is 0, or not below the start and above everything requested
      while the mark has nothing to catch up with. Its flag tells whether the ledger changed except when only the mark
      does. */
  lemma RewindFlagTells(s: State, next: u32)
    requires Ordered(s) && HolesInRange(s)
    ensures RewindTo(s, next).0 == s <==>
              next == 0 || (s.start <= next && s.requestedThrough < next && Ceiling(s) <= s.scannedThrough)
    ensures (RewindTo(s, next).1 <==> RewindTo(s, next).0 != s) <==>
              next == 0 || next < s.start || next <= s.requestedThrough || Ceiling(s) <= s.scannedThrough
  {
    if next > 0 {
      CutsWhen(s, next);
      RewindChanges(s, next);
    }
    hide RewindTo, CutTo, Ordered, HolesInRange;
  }

  /** What a rewind changes: what it cuts, and the mark. */
  lemma RewindChanges(s: State, next: u32)
    requires Ordered(s) && next > 0
    ensures RewindTo(s, next).1 <==> CutTo(s, next) != s
    ensures RewindTo(s, next).0 == s <==> CutTo(s, next) == s && Ceiling(s) <= s.scannedThrough
  {
    hide LowerBoundFrom, Ascending;
  }

  /** A second rewind to the same height changes nothing and reports so. */
  lemma RewindIsIdempotent(s: State, next: u32)
    requires Ordered(s)
    ensures RewindTo(RewindTo(s, next).0, next) == (RewindTo(s, next).0, false)
  {
    if next > 0 {
      RewindCuts(s, next);
      CutAgain(RewindTo(s, next).0, next);
      AdvancedTwice(CutTo(s, next));
    }
  }

  // ---- the mark as a walk ---------------------------------------------------

  /** The reference: step one height at a time while the next one is requested and not a hole. */
  ghost function Walk(mark: int, requested: int, holes: set<int>): int
    decreases requested - mark
  {
    if mark < requested && mark + 1 !in holes then Walk(mark + 1, requested, holes) else mark
  }

  lemma {:induction false} WalkStops(mark: int, requested: int, holes: set<int>, stop: int)
    requires mark <= stop <= requested
    requires forall h :: mark < h <= stop ==> h !in holes
    requires stop == requested || stop + 1 in holes
    ensures Walk(mark, requested, holes) == stop
    decreases stop - mark
  {
    if mark < stop { WalkStops(mark + 1, requested, holes, stop); }
  }

  ghost predicate HolesAhead(s: State) {
    && (forall h :: h in Heights(s.outstanding) ==> s.scannedThrough < h)
    && (forall h :: h in Heights(s.gaveUp) ==> s.scannedThrough < h)
  }

  /** The closed form in Advance is the one-height walk when every hole is ahead of the mark. */
  lemma AdvanceIsWalk(s: State)
    requires Ordered(s) && HolesAhead(s)
    ensures Advanced(s).scannedThrough == Walk(s.scannedThrough, s.requestedThrough, Holes(s))
  {
    FirstHoleIsLeast(s);
    WalkStops(s.scannedThrough, s.requestedThrough, Holes(s), Advanced(s).scannedThrough);
  }

  /** A hole at or below the mark stops the closed form, so the two agree then exactly
      when the walk cannot take its first step either. */
  lemma AdvanceIsWalkIff(s: State)
    requires Ordered(s)
    ensures Advanced(s).scannedThrough == Walk(s.scannedThrough, s.requestedThrough, Holes(s)) <==>
              HolesAhead(s) || s.scannedThrough == s.requestedThrough || s.scannedThrough + 1 in Holes(s)
  {
    if HolesAhead(s) {
      AdvanceIsWalk(s);
    } else {
      FirstHoleIsLeast(s);
      WalkClimbs(s.scannedThrough, s.requestedThrough, Holes(s));
    }
  }

  lemma {:induction false} WalkClimbs(mark: int, requested: int, holes: set<int>)
    ensures Walk(mark, requested, holes) >= mark
    ensures mark < requested && mark + 1 !in holes ==> Walk(mark, requested, holes) > mark
    decreases requested - mark
  {
    if mark < requested { WalkClimbs(mark + 1, requested, holes); }
  }

  // ---- runs that never look back --------------------------------------------

  /** The operation does not re-request or header-race a height at or below the mark. */
  ghost predicate LooksForward(s: State, op: Op) {
    match op
    case RequestOp(startH, stopH, _, _, _) => s.scannedThrough < Max(startH, s.abandonedBelow)
    case HeaderRaceOp(h) => h < s.abandonedBelow || s.scannedThrough < h || h in Heights(s.outstanding)
    case _ => true
  }

  ghost predicate AlwaysForward(w: World, ops: seq<Op>)
    decreases |ops|
  {
    ops == [] || (AlwaysForward(w, ops[..|ops| - 1]) && LooksForward(Play(w, ops[..|ops| - 1]).s, ops[|ops| - 1]))
  }

  lemma AdvancedKeepsAhead(s: State)
    requires Ascending(s.outstanding) && Ascending(s.gaveUp) && HolesAhead(s) && s.requestedThrough < U32_MAX
    ensures HolesAhead(Advanced(s)) && Holes(Advanced(s)) == Holes(s)
  {
    FirstHoleIsLeast(s);
    assert Heights(s.outstanding) <= Holes(s) && Heights(s.gaveUp) <= Holes(s);
    assert forall h :: h in Heights(s.outstanding) ==> h in Holes(s);
    assert forall h :: h in Heights(s.gaveUp) ==> h in Holes(s);
  }

  lemma RequestKeepsAhead(w: World, op: Op)
    requires Sound(w) && HolesAhead(w.s) && Allowed(w.s, op) && LooksForward(w.s, op) && op.RequestOp?
    ensures HolesAhead(Apply(w.s, op))
  {
    hide Heights, Ascending, InsertRange;
    var from := Max(op.startH, w.s.abandonedBelow);
    if from <= op.stopH {
      InsertRangeKeeps(w.s.outstanding, from, op.stopH + 1, op.peer, op.port, op.now);
      assert forall h :: h in Heights(Apply(w.s, op).outstanding) ==>
                           h in Heights(w.s.outstanding) + Span(from, op.stopH + 1);
    }
  }

  lemma CutKeepsAhead(w: World, op: Op)
    requires Sound(w) && HolesAhead(w.s)
    requires op.RewindOp? || op.AbandonUnscannableOp? || op.AbandonGaveUpOp? || op.EvaluateOp?
    ensures HolesAhead(Apply(w.s, op))
  {
    hide Heights, Ascending;
    var s := w.s;
    match op
    case RewindOp(next) =>
      if next > 0 {
        SplitHeights(s.outstanding, next, LowerBound(s.outstanding, next));
        SplitHeights(s.gaveUp, next, LowerBound(s.gaveUp, next));
        AdvancedKeepsAhead(CutTo(s, next));
      }
    case AbandonUnscannableOp(lo, floor) =>
      var o, g := LowerBound(s.outstanding, floor), LowerBound(s.gaveUp, floor);
      SplitHeights(s.outstanding, floor, o);
      SplitHeights(s.gaveUp, floor, g);
      AdvancedKeepsAhead(s.(outstanding := s.outstanding[o..], gaveUp := s.gaveUp[g..],
                            abandonedBelow := Max(s.abandonedBelow, floor)));
    case AbandonGaveUpOp(clamp) =>
      AbandonGaveUpLists(s, clamp);
    case EvaluateOp(h) =>
      RemoveHeights(s.outstanding, h);
      RemoveHeights(s.gaveUp, h);
      AdvancedKeepsAhead(s.(outstanding := Remove(s.outstanding, h), gaveUp := Remove(s.gaveUp, h)));
  }

  lemma ReArmKeepsAhead(w: World, op: Op)
    requires Sound(w) && HolesAhead(w.s) && (op.ReArmOp? || op.ReArmRunOp?)
    ensures HolesAhead(Apply(w.s, op))
  {
    hide Heights, ReArmGaveUp, ReArmRun;
    var r := if op.ReArmOp? then ReArmGaveUp(w.s, op.h).0 else ReArmRun(w.s, op.startH, op.maxRun).0;
    if op.ReArmOp? { ReArmGaveUpKeeps(w.s, op.h); } else { ReArmRunKeeps(w.s, op.startH, op.maxRun); }
    AdvancedKeepsAhead(w.s);
    AdvancedKeepsAhead(r);
  }

  lemma StepKeepsAhead(w: World, op: Op)
    requires Sound(w) && HolesAhead(w.s) && Allowed(w.s, op) && LooksForward(w.s, op)
    ensures HolesAhead(Apply(w.s, op))
  {
    hide Insert, InsertRange, RetireFrom, ReArmRun, ReArmGaveUp, Advanced, LowerBoundFrom, Remove, Heights;
    match op
    case RequestOp(_, _, _, _, _) => RequestKeepsAhead(w, op);
    case HeaderRaceOp(h) => if w.s.abandonedBelow <= h { HeaderRaceState(w.s, h); }
    case EvaluateOp(_) => CutKeepsAhead(w, op);
    case LosePeerOp(_, _) => SameHeightsKeep(w.s.outstanding, Apply(w.s, op).outstanding);
    case CommitOp(_, _, _, _, _) => SameHeightsKeep(w.s.outstanding, Apply(w.s, op).outstanding);
    case MissedOp(_, _) => SameHeightsKeep(w.s.outstanding, Apply(w.s, op).outstanding);
    case RestartOp => SameHeightsKeep(w.s.outstanding, Apply(w.s, op).outstanding);
    case RetireOp => RetireFromKeeps(w.s.outstanding, w.s.gaveUp, 0);
    case NextOp(_) =>
      RetireFromKeeps(w.s.outstanding, w.s.gaveUp, 0);
      SameHeightsKeep(RetireCapped(w.s).outstanding, Apply(w.s, op).outstanding);
    case ReArmOp(_) => ReArmKeepsAhead(w, op);
    case ReArmRunOp(_, _) => ReArmKeepsAhead(w, op);
    case AbandonGaveUpOp(_) => CutKeepsAhead(w, op);
    case AbandonUnscannableOp(_, _) => CutKeepsAhead(w, op);
    case RetireFloorOp(_) =>
    case RewindOp(_) => CutKeepsAhead(w, op);
  }

  /** In every run that only looks forward, each advance is the one-height walk. */
  lemma {:induction false} ForwardRunsWalk(start: u32, ops: seq<Op>)
    requires 0 < start < U32_MAX && Lawful(Born(start), ops) && AlwaysForward(Born(start), ops)
    ensures var s := Play(Born(start), ops).s;
            HolesAhead(s) && Advanced(s).scannedThrough == Walk(s.scannedThrough, s.requestedThrough, Holes(s))
    decreases |ops|
  {
    RunKeeps(Born(start), ops);
    if ops != [] {
      var before := ops[..|ops| - 1];
      RunKeeps(Born(start), before);
      ForwardRunsWalk(start, before);
      StepKeepsAhead(Play(Born(start), before), ops[|ops| - 1]);
    }
    AdvanceIsWalk(Play(Born(start), ops).s);
  }

  // ---- where the holes are --------------------------------------------------

  /** In every lawful run both hole lists are strictly ascending and within their arrays, and every hole lies between
      the floor and the highest requested height. */
  lemma HolesStayInRange(start: u32, ops: seq<Op>)
    requires 0 < start < U32_MAX && Lawful(Born(start), ops)
    ensures var s := Play(Born(start), ops).s;
            && (forall i, j :: 0 <= i < j < |s.outstanding| ==> s.outstanding[i].height < s.outstanding[j].height)
            && (forall i, j :: 0 <= i < j < |s.gaveUp| ==> s.gaveUp[i].height < s.gaveUp[j].height)
            && |s.outstanding| <= OUTSTANDING_MAX && |s.gaveUp| <= GAVEUP_MAX
            && (forall h :: h in Holes(s) ==> s.abandonedBelow <= h <= s.requestedThrough)
  {
    hide Play, Lawful;
    RunKeeps(Born(start), ops);
  }
}
