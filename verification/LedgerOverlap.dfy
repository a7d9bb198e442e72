/** Overlap. */
module LedgerOverlap {
  // When a height can be in both hole lists at once: which calls put it there, and
  // the runs in which none ever is.

  import opened FixedWidth
  import opened SortedHoles
  import opened LedgerSpec
  import opened LedgerHistory
  import opened LedgerEvictions

  ghost predicate Apart(s: State) { Heights(s.outstanding) !! Heights(s.gaveUp) }

  /** What a caller can check on both lists before the call: it leaves no parked height in outstanding[]. A height of a
      requested range may be pushed out again by the rest of the range. */
  ghost predicate RevivesNone(s: State, op: Op) {
    match op
    case RequestOp(startH, stopH, _, _, _) =>
      var from := Max(startH, s.abandonedBelow);
      forall h :: from <= h <= stopH && h in Heights(s.gaveUp) ==>
                    !Stays(Heights(s.outstanding) + Span(from, stopH + 1), stopH, h)
    case HeaderRaceOp(h) => h < s.abandonedBelow || h !in Heights(s.gaveUp)
    case _ => true
  }

  /** It names no parked height at all. */
  ghost predicate NamesNoParked(s: State, op: Op) {
    match op
    case RequestOp(startH, stopH, _, _, _) =>
      forall h :: Max(startH, s.abandonedBelow) <= h <= stopH ==> h !in Heights(s.gaveUp)
    case HeaderRaceOp(h) => h < s.abandonedBelow || h !in Heights(s.gaveUp)
    case _ => true
  }

  /** Naming no parked height is enough, and needed when all that the call adds fits. */
  lemma NamingSuffices(s: State, op: Op)
    ensures NamesNoParked(s, op) ==> RevivesNone(s, op)
    ensures Fits(s, op) && RevivesNone(s, op) ==> NamesNoParked(s, op)
  {
    hide Heights, Stays;
    if op.RequestOp? && Fits(s, op) {
      var from := Max(op.startH, s.abandonedBelow);
      forall h | RevivesNone(s, op) && from <= h <= op.stopH ensures h !in Heights(s.gaveUp) {
        AllStay(Heights(s.outstanding) + Span(from, op.stopH + 1), op.stopH, h);
      }
    }
  }

  lemma AllStay(u: set<int>, last: int, h: int)
    requires last in u && h in u && |u| <= OUTSTANDING_MAX
    ensures Stays(u, last, h)
  {
    SmallStays(u, last);
  }

  // ---- requests and races ---------------------------------------------------

  lemma RequestApart(w: World, op: Op)
    requires Sound(w) && Apart(w.s) && op.RequestOp? && Allowed(w.s, op)
    ensures Apart(Apply(w.s, op)) <==> RevivesNone(w.s, op)
  {
    hide Heights, Ascending, InsertRange, Span, Stays;
    var s, from := w.s, Max(op.startH, w.s.abandonedBelow);
    if from <= op.stopH {
      var out := InsertRange(s.outstanding, from, op.stopH + 1, op.peer, op.port, op.now).0;
      assert Apply(s, op).outstanding == out && Apply(s, op).gaveUp == s.gaveUp;
      hide Apply;
      RangeStays(s.outstanding, from, op.stopH + 1, op.peer, op.port, op.now);
      StayApart(Heights(s.outstanding), Heights(s.gaveUp), Heights(out), from, op.stopH);
    }
  }

  lemma StayApart(was: set<int>, gave: set<int>, now: set<int>, from: int, last: int)
    requires was !! gave && from <= last
    requires forall x :: x in now <==> Stays(was + Span(from, last + 1), last, x)
    ensures now !! gave <==> forall h :: from <= h <= last && h in gave ==> !Stays(was + Span(from, last + 1), last, h)
  {
    hide Stays;
    forall x | x in now ensures x in was || from <= x <= last { StaysIn(was + Span(from, last + 1), last, x); }
    if now !! gave {
      forall h | from <= h <= last && h in gave ensures !Stays(was + Span(from, last + 1), last, h) {
        assert h !in now;
      }
    }
  }

  lemma HeaderRaceApart(w: World, op: Op)
    requires Sound(w) && Apart(w.s) && op.HeaderRaceOp? && Allowed(w.s, op)
    ensures Apart(Apply(w.s, op)) <==> RevivesNone(w.s, op)
  {
    hide Heights, Ascending, Insert, FlagHeaderRace;
    if w.s.abandonedBelow <= op.h { HeaderRaceState(w.s, op.h); }
  }

  // ---- the other operations -------------------------------------------------

  lemma {:induction false} RetireApart(out: seq<Outstanding>, gave: seq<Parked>, i: nat)
    requires i <= |out| && Ascending(out) && Ascending(gave) && |gave| <= GAVEUP_MAX
    requires Heights(out) !! Heights(gave)
    ensures Heights(RetireFrom(out, gave, i).0) !! Heights(RetireFrom(out, gave, i).1)
    decreases |out| - i
  {
    hide Heights, Ascending, Park;
    if i < |out| {
      var p := Park(gave, out[i].height, VerdictOf(out[i].info));
      if out[i].info.attempts >= MAX_ATTEMPTS && p.1 {
        ParkKeeps(gave, out[i].height, VerdictOf(out[i].info));
        RemoveAtHeights(out, i);
        RetireApart(RemoveAt(out, i), p.0, i);
      } else {
        RetireApart(out, gave, i + 1);
      }
    }
  }

  lemma ReArmGaveUpApart(s: State, h: u32)
    requires Ordered(s) && HolesInRange(s) && Apart(s)
    ensures Apart(ReArmGaveUp(s, h).0)
  {
    if ReArmGaveUp(s, h).1 {
      ReArmGaveUpLists(s, h);
      hide ReArmGaveUp, Heights, Ascending;
    }
  }

  lemma {:induction false} ReArmRunApart(s: State, h: u32, budget: nat)
    requires Ordered(s) && HolesInRange(s) && Apart(s)
    ensures Apart(ReArmRun(s, h, budget).0)
    decreases budget
  {
    hide ReArmGaveUp, ReArmInPlace, Apart;
    if ReArmRun(s, h, budget).1 > 0 {
      var r := if Holds(s.outstanding, h) then ReArmInPlace(s, h) else ReArmGaveUp(s, h).0;
      if Holds(s.outstanding, h) {
        ReArmInPlaceKeeps(s, h);
        ReArmInPlaceApart(s, h);
      } else {
        ReArmGaveUpKeeps(s, h);
        ReArmGaveUpApart(s, h);
      }
      if h < U32_MAX { ReArmRunApart(r, h + 1, budget - 1); }
    }
  }

  lemma ReArmInPlaceApart(s: State, h: u32)
    requires Holds(s.outstanding, h) && Apart(s)
    ensures Apart(ReArmInPlace(s, h))
  {
    SameHeightsKeep(s.outstanding, ReArmInPlace(s, h).outstanding);
  }

  lemma AbandonApart(s: State, clamp: u32)
    requires Ordered(s) && HolesInRange(s) && Apart(s)
    ensures Apart(AbandonGaveUpBelow(s, clamp).state)
  {
    AbandonGaveUpLists(s, clamp);
    var r := AbandonGaveUpBelow(s, clamp).state;
    forall h | h in Heights(r.gaveUp) ensures h in Heights(s.gaveUp) {}
  }

  lemma UnscannableApart(s: State, lo: u32, floor: u32)
    requires Ordered(s) && Apart(s)
    ensures Apart(AbandonUnscannableBelow(s, lo, floor).0)
  {
    SplitHeights(s.outstanding, floor, LowerBound(s.outstanding, floor));
    SplitHeights(s.gaveUp, floor, LowerBound(s.gaveUp, floor));
    hide Heights, Ascending, LowerBound, SurfacedFrom;
  }

  lemma RewindApart(s: State, next: u32)
    requires Ordered(s) && Apart(s)
    ensures Apart(RewindTo(s, next).0)
  {
    SplitHeights(s.outstanding, next, LowerBound(s.outstanding, next));
    SplitHeights(s.gaveUp, next, LowerBound(s.gaveUp, next));
    hide Heights, Ascending, LowerBound;
  }

  lemma EvaluateApart(s: State, h: u32)
    requires Ordered(s) && Apart(s)
    ensures Apart(MarkEvaluated(s, h))
  {
    RemoveHeights(s.outstanding, h);
    RemoveHeights(s.gaveUp, h);
    hide Heights, Ascending, Remove;
  }

  lemma EditApart(w: World, op: Op)
    requires Sound(w) && Apart(w.s)
    requires op.LosePeerOp? || op.CommitOp? || op.MissedOp? || op.RestartOp? || op.RetireFloorOp?
    ensures Apart(Apply(w.s, op))
  {
    if !op.RetireFloorOp? { SameHeightsKeep(w.s.outstanding, Apply(w.s, op).outstanding); }
  }

  lemma RetireOpApart(w: World, op: Op)
    requires Sound(w) && Apart(w.s) && (op.RetireOp? || op.NextOp?)
    ensures Apart(Apply(w.s, op))
  {
    hide RetireFrom;
    RetireApart(w.s.outstanding, w.s.gaveUp, 0);
    SameHeightsKeep(RetireCapped(w.s).outstanding, Apply(w.s, op).outstanding);
  }

  // ---- every step and every run ---------------------------------------------

  /** Lists with no height in common: a header race keeps them so exactly when its height is below the floor or not
      parked; a request exactly when no parked height of its clamped range stays in outstanding[]; every other operation
      always. */
  lemma StepKeepsApart(w: World, op: Op)
    requires Sound(w) && Allowed(w.s, op) && Apart(w.s)
    ensures Apart(Apply(w.s, op)) <==> RevivesNone(w.s, op)
  {
    hide Apart, Stays, Allowed, Advanced, ReArmRun, ReArmGaveUp, RetireFrom, InsertRange, Insert;
    match op
    case RequestOp(_, _, _, _, _) => RequestApart(w, op);
    case HeaderRaceOp(_) => HeaderRaceApart(w, op);
    case EvaluateOp(h) => EvaluateApart(w.s, h);
    case RewindOp(next) => RewindApart(w.s, next);
    case AbandonUnscannableOp(lo, floor) => UnscannableApart(w.s, lo, floor);
    case AbandonGaveUpOp(clamp) => AbandonApart(w.s, clamp);
    case LosePeerOp(_, _) => EditApart(w, op);
    case CommitOp(_, _, _, _, _) => EditApart(w, op);
    case MissedOp(_, _) => EditApart(w, op);
    case RestartOp => EditApart(w, op);
    case RetireFloorOp(_) => EditApart(w, op);
    case RetireOp => RetireOpApart(w, op);
    case NextOp(_) => RetireOpApart(w, op);
    case ReArmOp(_) => ReArmApart(w, op);
    case ReArmRunOp(_, _) => ReArmApart(w, op);
  }

  lemma ReArmApart(w: World, op: Op)
    requires Sound(w) && Apart(w.s) && (op.ReArmOp? || op.ReArmRunOp?)
    ensures Apart(Apply(w.s, op))
  {
    hide ReArmGaveUp, ReArmRun, Heights;
    if op.ReArmOp? { ReArmGaveUpApart(w.s, op.h); } else { ReArmRunApart(w.s, op.startH, op.maxRun); }
  }

  /** At every point of the run no height is in both lists. */
  ghost predicate AlwaysApart(w: World, ops: seq<Op>)
    decreases |ops|
  {
    Apart(Play(w, ops).s) && (ops == [] || AlwaysApart(w, ops[..|ops| - 1]))
  }

  ghost predicate NeverRevives(w: World, ops: seq<Op>)
    decreases |ops|
  {
    ops == [] || (NeverRevives(w, ops[..|ops| - 1]) && RevivesNone(Play(w, ops[..|ops| - 1]).s, ops[|ops| - 1]))
  }

  ghost predicate NeverNamesParked(w: World, ops: seq<Op>)
    decreases |ops|
  {
    ops == [] || (NeverNamesParked(w, ops[..|ops| - 1]) && NamesNoParked(Play(w, ops[..|ops| - 1]).s, ops[|ops| - 1]))
  }

  /** A lawful run never has a height in both lists exactly when none of its requests and header races leaves a parked
      height in outstanding[]; when it never names one, then; and only then, if all its calls add fits. */
  lemma {:induction false} ListsStayApart(start: u32, ops: seq<Op>)
    requires 0 < start < U32_MAX && Lawful(Born(start), ops)
    ensures AlwaysApart(Born(start), ops) <==> NeverRevives(Born(start), ops)
    ensures NeverNamesParked(Born(start), ops) ==> AlwaysApart(Born(start), ops)
    ensures AlwaysFits(Born(start), ops) && AlwaysApart(Born(start), ops) ==> NeverNamesParked(Born(start), ops)
    decreases |ops|
  {
    hide RevivesNone, NamesNoParked, Fits, Apply, Sound, Allowed;
    if ops != [] {
      var before := ops[..|ops| - 1];
      RunKeeps(Born(start), before);
      ListsStayApart(start, before);
      NamingSuffices(Play(Born(start), before).s, ops[|ops| - 1]);
      if AlwaysApart(Born(start), before) {
        ApartNow(Born(start), before);
        StepKeepsApart(Play(Born(start), before), ops[|ops| - 1]);
      }
    }
  }

  lemma ApartNow(w: World, ops: seq<Op>)
    requires AlwaysApart(w, ops)
    ensures Apart(Play(w, ops).s)
  {
  }
}
