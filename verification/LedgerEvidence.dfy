/** Evidence. */
module LedgerEvidence {
  // The evidence behind an abandonment: how often a hole was really re-armed, and
  // whether a missed offer or a lost peer touched it since its last arming.

  import opened FixedWidth
  import opened SortedHoles
  import opened LedgerSpec
  import opened LedgerHistory

  /** Re-arms granted to each height so far; heights touched by a missed offer or a
      lost peer since they were last armed. */
  datatype Trail = Trail(rearms: multiset<int>, tainted: set<int>)

  /** Inserting a range arms the heights that were not outstanding when their turn came. */
  ghost function ArmRange(tainted: set<int>, out: seq<Outstanding>, from: nat, end: nat, peer: u128, port: u16,
                          now: u32): set<int>
    requires from <= end <= 0x1_0000_0000
    decreases end
  {
    if from == end then tainted else
    var t := ArmRange(tainted, out, from, end - 1, peer, port, now);
    if Holds(InsertRange(out, from, end - 1, peer, port, now).0, end - 1) then t else t - {end - 1}
  }

  ghost function Touched(s: State, op: Op): set<int> {
    match op
    case LosePeerOp(peer, port) => set i | 0 <= i < |s.outstanding| && s.outstanding[i].info.port == port &&
                                           s.outstanding[i].info.peer == peer :: s.outstanding[i].height
    case MissedOp(startH, stopH) => set h | h in Heights(s.outstanding) && startH <= h <= stopH
    case _ => {}
  }

  ghost function Traced(t: Trail, s: State, op: Op): Trail {
    match op
    case RequestOp(startH, stopH, peer, port, now) =>
      var from := Max(startH, s.abandonedBelow);
      if stopH < from then t
      else t.(tainted := ArmRange(t.tainted, s.outstanding, from, stopH + 1, peer, port, now))
    case HeaderRaceOp(h) =>
      if h < s.abandonedBelow || Holds(s.outstanding, h) then t else t.(tainted := t.tainted - {h})
    case ReArmOp(h) => if ReArmGaveUp(s, h).1 then ReArmTrail(t, h) else t
    case ReArmRunOp(startH, maxRun) => RunTrail(t, startH, ReArmRun(s, startH, maxRun).1)
    case RestartOp => t.(tainted := t.tainted - Heights(s.outstanding))
    case _ => t.(tainted := t.tainted + Touched(s, op))
  }

  ghost function ReArmTrail(t: Trail, h: int): Trail { Trail(t.rearms + multiset{h}, t.tainted - {h}) }

  ghost function RunTrail(t: Trail, h: int, n: nat): Trail
    decreases n
  {
    if n == 0 then t else RunTrail(ReArmTrail(t, h), h + 1, n - 1)
  }

  // ---- the claim ------------------------------------------------------------

  ghost predicate OutBacked(e: Outstanding, t: Trail) {
    e.info.rearmCycles <= t.rearms[e.height] && (e.info.offersReachedLivePeer != 0 ==> e.height !in t.tainted)
  }

  /** A parked verdict is final unless its height is outstanding again, or was and fell out. */
  ghost predicate ParkBacked(p: Parked, t: Trail, open: set<int>) {
    p.info.rearmCycles <= t.rearms[p.height] && (p.info.offersLive != 0 ==> p.height !in t.tainted || p.height in open)
  }

  ghost predicate Backed(s: State, t: Trail, evicted: set<int>) {
    && (forall e :: e in s.outstanding ==> OutBacked(e, t))
    && (forall p :: p in s.gaveUp ==> ParkBacked(p, t, Heights(s.outstanding) + evicted))
  }

  /** Same lists of the same holes, but the state may differ elsewhere. */
  lemma OtherFieldsKeep(s: State, s': State, t: Trail, evicted: set<int>)
    requires Backed(s, t, evicted) && s'.outstanding == s.outstanding && s'.gaveUp == s.gaveUp
    ensures Backed(s', t, evicted)
  {
  }

  // ---- each operation -------------------------------------------------------

  /** An inserted height is fresh; a refreshed one keeps its evidence. */
  lemma InsertElements(out: seq<Outstanding>, h: u32, peer: u128, port: u16, now: u32)
    ensures Holds(out, h) ==> SameEvidence(out, Insert(out, h, peer, port, now).0)
    ensures !Holds(out, h) ==> forall e :: e in Insert(out, h, peer, port, now).0 ==>
            e in out || e == Fresh(h, peer, port, now)
  {
  }

  ghost predicate SameEvidence(a: seq<Outstanding>, b: seq<Outstanding>) {
    |a| == |b| && forall i :: 0 <= i < |a| ==>
      a[i].height == b[i].height && a[i].info.rearmCycles == b[i].info.rearmCycles &&
      a[i].info.offersReachedLivePeer == b[i].info.offersReachedLivePeer
  }

  lemma SameEvidenceKeeps(a: seq<Outstanding>, b: seq<Outstanding>, t: Trail)
    requires SameEvidence(a, b) && forall e :: e in a ==> OutBacked(e, t)
    ensures forall e :: e in b ==> OutBacked(e, t)
    ensures Heights(a) == Heights(b)
  {
    SameHeightsKeep(a, b);
    forall e | e in b ensures OutBacked(e, t) {
      var i :| 0 <= i < |b| && b[i] == e;
      assert OutBacked(a[i], t);
    }
  }

  lemma ParkedKeep(gave: seq<Parked>, t: Trail, t': Trail, open: set<int>, open': set<int>)
    requires forall p :: p in gave ==> ParkBacked(p, t, open)
    requires t.rearms <= t'.rearms && t'.tainted <= t.tainted + open' && open <= open'
    ensures forall p :: p in gave ==> ParkBacked(p, t', open')
  {
    forall p | p in gave ensures ParkBacked(p, t', open') {
      assert ParkBacked(p, t, open);
    }
  }

  ghost function Armed(t: Trail, out: seq<Outstanding>, h: u32): Trail {
    if Holds(out, h) then t else t.(tainted := t.tainted - {h})
  }

  ghost function Lost(d: u32): set<int> { if d == NO_DROP then {} else {d} }

  lemma InsertBacked(out: seq<Outstanding>, gave: seq<Parked>, h: u32, peer: u128, port: u16, now: u32, t: Trail,
                     evicted: set<int>)
    requires Ascending(out) && |out| <= OUTSTANDING_MAX && forall x :: x in Heights(out) ==> x < U32_MAX
    requires forall e :: e in out ==> OutBacked(e, t)
    requires forall p :: p in gave ==> ParkBacked(p, t, Heights(out) + evicted)
    ensures forall e :: e in Insert(out, h, peer, port, now).0 ==> OutBacked(e, Armed(t, out, h))
    ensures forall p :: p in gave ==>
              ParkBacked(p, Armed(t, out, h),
                         Heights(Insert(out, h, peer, port, now).0) +
                             (evicted + Lost(Insert(out, h, peer, port, now).1)))
  {
    InsertKeeps(out, h, peer, port, now);
    InsertElements(out, h, peer, port, now);
    var r := Insert(out, h, peer, port, now);
    hide Insert, Heights, Ascending;
    if Holds(out, h) { SameEvidenceKeeps(out, r.0, t); }
    assert Heights(out) <= Heights(r.0) + Lost(r.1);
    ParkedKeep(gave, t, Armed(t, out, h), Heights(out) + evicted, Heights(r.0) + (evicted + Lost(r.1)));
  }

  lemma {:induction false} InsertRangeBacked(out: seq<Outstanding>, gave: seq<Parked>, from: nat, end: nat,
                                             peer: u128, port: u16, now: u32, t: Trail, evicted: set<int>)
    requires from <= end <= U32_MAX
    requires Ascending(out) && |out| <= OUTSTANDING_MAX && forall x :: x in Heights(out) ==> x < U32_MAX
    requires forall e :: e in out ==> OutBacked(e, t)
    requires forall p :: p in gave ==> ParkBacked(p, t, Heights(out) + evicted)
    ensures forall e :: e in InsertRange(out, from, end, peer, port, now).0 ==>
              OutBacked(e, t.(tainted := ArmRange(t.tainted, out, from, end, peer, port, now)))
    ensures forall p :: p in gave ==>
              ParkBacked(p, t.(tainted := ArmRange(t.tainted, out, from, end, peer, port, now)),
                         Heights(InsertRange(out, from, end, peer, port, now).0) +
                         (evicted + Elems(InsertRange(out, from, end, peer, port, now).1)))
    decreases end
  {
    hide Insert, Heights, Ascending, OutBacked, ParkBacked;
    if from < end {
      var before := InsertRange(out, from, end - 1, peer, port, now);
      var t' := t.(tainted := ArmRange(t.tainted, out, from, end - 1, peer, port, now));
      InsertRangeBacked(out, gave, from, end - 1, peer, port, now, t, evicted);
      InsertRangeKeeps(out, from, end - 1, peer, port, now);
      assert forall x :: x in Heights(before.0) ==> x in Heights(out) + Span(from, end - 1);
      InsertBacked(before.0, gave, end - 1, peer, port, now, t', evicted + Elems(before.1));
      var r := InsertRange(out, from, end, peer, port, now);
      var last := Insert(before.0, end - 1, peer, port, now);
      assert (evicted + Elems(before.1)) + Lost(last.1) == evicted + Elems(r.1);
      assert Armed(t', before.0, end - 1) == t.(tainted := ArmRange(t.tainted, out, from, end, peer, port, now));
    } else {
      var none: seq<u32> := [];
      assert evicted + Elems(none) == evicted;
    }
  }

  lemma RequestBacked(w: World, t: Trail, op: Op)
    requires Sound(w) && Allowed(w.s, op) && op.RequestOp? && Backed(w.s, t, w.k.evicted)
    ensures Backed(Apply(w.s, op), Traced(t, w.s, op), Next(w, op).k.evicted)
  {
    hide Heights, Ascending, OutBacked, ParkBacked, Insert;
    var from := Max(op.startH, w.s.abandonedBelow);
    if from <= op.stopH {
      InsertRangeBacked(w.s.outstanding, w.s.gaveUp, from, op.stopH + 1, op.peer, op.port, op.now, t, w.k.evicted);
      var ins := InsertRange(w.s.outstanding, from, op.stopH + 1, op.peer, op.port, op.now);
      assert Evictions(w.s, op) == Elems(ins.1);
      assert Next(w, op).k.evicted == w.k.evicted + Elems(ins.1);
    } else {
      assert Evictions(w.s, op) == {};
      assert w.k.evicted + {} == w.k.evicted;
    }
  }

  lemma HeaderRaceBacked(w: World, t: Trail, op: Op)
    requires Sound(w) && Allowed(w.s, op) && op.HeaderRaceOp? && Backed(w.s, t, w.k.evicted)
    ensures Backed(Apply(w.s, op), Traced(t, w.s, op), Next(w, op).k.evicted)
  {
    hide Heights, Ascending, HolesInRange, Insert, OutBacked, ParkBacked, FlagHeaderRace, LowerBoundFrom;
    var s, h := w.s, op.h;
    if h < s.abandonedBelow {
      assert w.k.evicted + Evictions(s, op) == w.k.evicted;
    } else {
      FlagKeepsEvidence(s.outstanding, h);
      if Holds(s.outstanding, h) {
        assert w.k.evicted + Evictions(s, op) == w.k.evicted;
        SameEvidenceKeeps(s.outstanding, FlagHeaderRace(s.outstanding, h), t);
      } else {
        NewRaceBacked(w, t, op);
      }
    }
  }

  lemma FlagKeepsEvidence(out: seq<Outstanding>, h: u32)
    ensures SameEvidence(out, FlagHeaderRace(out, h))
  {
    hide LowerBoundFrom;
  }

  /** A race for a height that is not outstanding. */
  lemma NewRaceBacked(w: World, t: Trail, op: Op)
    requires Sound(w) && Allowed(w.s, op) && op.HeaderRaceOp? && Backed(w.s, t, w.k.evicted)
    requires w.s.abandonedBelow <= op.h && !Holds(w.s.outstanding, op.h)
    ensures Backed(Apply(w.s, op), Traced(t, w.s, op), Next(w, op).k.evicted)
  {
    var s, h := w.s, op.h;
    assert forall x :: x in Heights(s.outstanding) ==> x < U32_MAX;
    hide Heights, Ascending, HolesInRange, Insert, OutBacked, ParkBacked, FlagHeaderRace, LowerBoundFrom;
    var ins := Insert(s.outstanding, h, 0, 0, 0);
    InsertBacked(s.outstanding, s.gaveUp, h, 0, 0, 0, t, w.k.evicted);
    assert Evictions(s, op) == Lost(ins.1);
    FlagKeepsEvidence(ins.0, h);
    SameEvidenceKeeps(ins.0, FlagHeaderRace(ins.0, h), Traced(t, s, op));
  }

  /** A missed offer or a lost peer clears the latch of every entry it touches. */
  lemma TouchBacked(w: World, t: Trail, op: Op)
    requires Sound(w) && (op.LosePeerOp? || op.MissedOp?) && Backed(w.s, t, w.k.evicted)
    ensures Backed(Apply(w.s, op), Traced(t, w.s, op), Next(w, op).k.evicted)
  {
    var s, r, t' := w.s, Apply(w.s, op), Traced(t, w.s, op);
    SameHeightsKeep(s.outstanding, r.outstanding);
    assert Touched(s, op) <= Heights(s.outstanding);
    forall e | e in r.outstanding ensures OutBacked(e, t') {
      var i :| 0 <= i < |r.outstanding| && r.outstanding[i] == e;
      assert OutBacked(s.outstanding[i], t);
      TouchedMeansCleared(s, op, i);
    }
    assert Next(w, op).k.evicted == w.k.evicted;
    ParkedKeep(s.gaveUp, t, t', Heights(s.outstanding) + w.k.evicted, Heights(s.outstanding) + w.k.evicted);
  }

  lemma TouchedMeansCleared(s: State, op: Op, i: nat)
    requires Ascending(s.outstanding) && (op.LosePeerOp? || op.MissedOp?) && i < |s.outstanding|
    ensures var e := Apply(s, op).outstanding[i];
            && e.height == s.outstanding[i].height && e.info.rearmCycles == s.outstanding[i].info.rearmCycles
            && (e.info.offersReachedLivePeer != 0 ==>
                  e.info.offersReachedLivePeer == s.outstanding[i].info.offersReachedLivePeer &&
                      e.height !in Touched(s, op))
  {
    if op.LosePeerOp? && s.outstanding[i].height in Touched(s, op) {
      var k :| 0 <= k < |s.outstanding| && s.outstanding[k].height == s.outstanding[i].height &&
               s.outstanding[k].info.port == op.port && s.outstanding[k].info.peer == op.peer;
      assert k == i;
    }
  }

  /** Dropping holes keeps the evidence of the rest, if no parked one loses its outstanding twin. */
  lemma SubsetBacked(s: State, s': State, t: Trail, evicted: set<int>, evicted': set<int>)
    requires Backed(s, t, evicted)
    requires forall e :: e in s'.outstanding ==> e in s.outstanding
    requires forall p :: p in s'.gaveUp ==> p in s.gaveUp
    requires forall p :: p in s'.gaveUp && p.height in Heights(s.outstanding) + evicted ==>
                           p.height in Heights(s'.outstanding) + evicted'
    ensures Backed(s', t, evicted')
  {
    forall p | p in s'.gaveUp ensures ParkBacked(p, t, Heights(s'.outstanding) + evicted') {
      assert ParkBacked(p, t, Heights(s.outstanding) + evicted);
    }
  }

  lemma ElementHeights<T>(s: seq<Hole<T>>)
    ensures forall e :: e in s ==> e.height in Heights(s)
  {
  }

  lemma RemoveElements<T>(s: seq<Hole<T>>, h: u32)
    requires Ascending(s)
    ensures forall e :: e in Remove(s, h) ==> e in s && e.height != h
  {
    RemoveHeights(s, h);
    ElementHeights(Remove(s, h));
  }

  lemma EvaluateBacked(w: World, t: Trail, op: Op)
    requires Sound(w) && op.EvaluateOp? && Backed(w.s, t, w.k.evicted)
    ensures Backed(Apply(w.s, op), t, w.k.evicted)
  {
    RemoveElements(w.s.outstanding, op.h);
    RemoveElements(w.s.gaveUp, op.h);
    RemoveHeights(w.s.outstanding, op.h);
    hide Heights, Ascending, Remove, OutBacked, ParkBacked;
    SubsetBacked(w.s, Apply(w.s, op), t, w.k.evicted, w.k.evicted);
  }

  /** Cutting both lists at a height keeps the evidence of what is left, when heights left there stay on record. */
  lemma SliceBacked(s: State, r: State, t: Trail, evicted: set<int>, evicted': set<int>)
    requires Backed(s, t, evicted)
    requires forall e :: e in r.outstanding ==> e in s.outstanding
    requires forall p :: p in r.gaveUp ==> p in s.gaveUp
    requires forall h :: h in Heights(r.gaveUp) && h in Heights(s.outstanding) + evicted ==>
                           h in Heights(r.outstanding) + evicted'
    ensures Backed(r, t, evicted')
  {
    hide Heights, OutBacked, ParkBacked, Backed;
    ElementHeights(r.gaveUp);
    SubsetBacked(s, r, t, evicted, evicted');
  }

  lemma RewindBacked(w: World, t: Trail, op: Op)
    requires Sound(w) && op.RewindOp? && Backed(w.s, t, w.k.evicted)
    ensures Backed(Apply(w.s, op), t, Next(w, op).k.evicted)
  {
    hide Heights, Ascending, Backed, LowerBound;
    var s, next := w.s, op.next;
    var o, g := LowerBound(s.outstanding, next), LowerBound(s.gaveUp, next);
    SplitHeights(s.outstanding, next, o);
    SplitHeights(s.gaveUp, next, g);
    if next > 0 { SliceBacked(s, Apply(s, op), t, w.k.evicted, Next(w, op).k.evicted); }
  }

  /** What the second abandoning call does to the lists, if anything. */
  lemma UnscannableLists(s: State, lo: u32, floor: u32)
    ensures var r := AbandonUnscannableBelow(s, lo, floor).0;
            || (r.outstanding == s.outstanding && r.gaveUp == s.gaveUp)
            || (r.outstanding == s.outstanding[LowerBound(s.outstanding, floor)..] &&
                r.gaveUp == s.gaveUp[LowerBound(s.gaveUp, floor)..])
  {
    hide LowerBound;
  }

  lemma UnscannableBacked(w: World, t: Trail, op: Op)
    requires Sound(w) && op.AbandonUnscannableOp? && Backed(w.s, t, w.k.evicted)
    ensures Backed(Apply(w.s, op), t, Next(w, op).k.evicted)
  {
    var s, floor := w.s, op.floor;
    hide Heights, Ascending, Backed, LowerBound, AbandonUnscannableBelow;
    SplitHeights(s.outstanding, floor, LowerBound(s.outstanding, floor));
    SplitHeights(s.gaveUp, floor, LowerBound(s.gaveUp, floor));
    UnscannableLists(s, op.lo, floor);
    SliceBacked(s, Apply(s, op), t, w.k.evicted, Next(w, op).k.evicted);
  }

  lemma GivenUpBacked(w: World, t: Trail, op: Op)
    requires Sound(w) && op.AbandonGaveUpOp? && Backed(w.s, t, w.k.evicted)
    ensures Backed(Apply(w.s, op), t, Next(w, op).k.evicted)
  {
    hide Heights, Ascending, OutBacked, ParkBacked, LowerBound, Holds;
    SubsetBacked(w.s, Apply(w.s, op), t, w.k.evicted, Next(w, op).k.evicted);
  }

  lemma CutBacked(w: World, t: Trail, op: Op)
    requires Sound(w) && (op.AbandonGaveUpOp? || op.AbandonUnscannableOp? || op.RewindOp?)
    requires Backed(w.s, t, w.k.evicted)
    ensures Backed(Apply(w.s, op), t, Next(w, op).k.evicted)
  {
    hide *;
    match op
    case RewindOp(_) => RewindBacked(w, t, op);
    case AbandonUnscannableOp(_, _) => UnscannableBacked(w, t, op);
    case AbandonGaveUpOp(_) => GivenUpBacked(w, t, op);
  }

  // ---- retiring -------------------------------------------------------------

  lemma ParkBackedStep(gave: seq<Parked>, e: Outstanding, t: Trail, open: set<int>, open': set<int>)
    requires Ascending(gave) && OutBacked(e, t)
    requires forall p :: p in gave ==> ParkBacked(p, t, open)
    requires open <= open' + {e.height} && Park(gave, e.height, VerdictOf(e.info)).1
    ensures forall p :: p in Park(gave, e.height, VerdictOf(e.info)).0 ==> ParkBacked(p, t, open')
  {
    var i := LowerBound(gave, e.height);
    var r := Park(gave, e.height, VerdictOf(e.info)).0;
    forall p | p in r ensures ParkBacked(p, t, open') {
      if p.height == e.height {
        assert p == r[i] by { ParkOnce(gave, e.height, VerdictOf(e.info), p); }
        if i < |gave| && gave[i].height == e.height { assert ParkBacked(gave[i], t, open); }
      } else {
        assert p in gave;
        assert ParkBacked(p, t, open);
      }
    }
  }

  /** The height has one entry in the new list: the one at its lower bound. */
  lemma ParkOnce(gave: seq<Parked>, h: u32, v: Verdict, p: Parked)
    requires Ascending(gave) && Park(gave, h, v).1 && p in Park(gave, h, v).0 && p.height == h
    ensures var i := LowerBound(gave, h); i < |Park(gave, h, v).0| && p == Park(gave, h, v).0[i]
  {
    var i := LowerBound(gave, h);
    var r := Park(gave, h, v).0;
    var k :| 0 <= k < |r| && r[k] == p;
    if i < |gave| && gave[i].height == h {
      SameHeightsKeep(gave, r);
    } else {
      InsertAtAscending(gave, i, Hole(h, v));
    }
    assert r[i].height == h && r[k].height == h;
  }

  lemma {:induction false} RetireBacked(out: seq<Outstanding>, gave: seq<Parked>, i: nat, t: Trail, evicted: set<int>)
    requires i <= |out| && Ascending(out) && Ascending(gave) && |gave| <= GAVEUP_MAX
    requires forall e :: e in out ==> OutBacked(e, t)
    requires forall p :: p in gave ==> ParkBacked(p, t, Heights(out) + evicted)
    ensures forall e :: e in RetireFrom(out, gave, i).0 ==> OutBacked(e, t)
    ensures forall p :: p in RetireFrom(out, gave, i).1 ==>
            ParkBacked(p, t, Heights(RetireFrom(out, gave, i).0) + evicted)
    decreases |out| - i
  {
    hide Park, Heights, Ascending, OutBacked, ParkBacked;
    if i < |out| {
      var e := out[i];
      var p := Park(gave, e.height, VerdictOf(e.info));
      if e.info.attempts >= MAX_ATTEMPTS && p.1 {
        RemoveAtHeights(out, i);
        ParkKeeps(gave, e.height, VerdictOf(e.info));
        ParkBackedStep(gave, e, t, Heights(out) + evicted, Heights(RemoveAt(out, i)) + evicted);
        RetireBacked(RemoveAt(out, i), p.0, i, t, evicted);
      } else {
        RetireBacked(out, gave, i + 1, t, evicted);
      }
    }
  }

  lemma RetireOpBacked(w: World, t: Trail, op: Op)
    requires Sound(w) && (op.RetireOp? || op.NextOp?) && Backed(w.s, t, w.k.evicted)
    ensures Backed(Apply(w.s, op), t, w.k.evicted)
  {
    hide RetireFrom, Heights, Ascending, OutBacked, ParkBacked;
    RetireBacked(w.s.outstanding, w.s.gaveUp, 0, t, w.k.evicted);
    var r := RetireCapped(w.s);
    SameEvidenceKeeps(r.outstanding, Apply(w.s, op).outstanding, t);
  }

  lemma CommitBacked(w: World, t: Trail, op: Op)
    requires op.CommitOp? && Backed(w.s, t, w.k.evicted)
    ensures Backed(Apply(w.s, op), t, w.k.evicted)
  {
    SameEvidenceKeeps(w.s.outstanding, Apply(w.s, op).outstanding, t);
  }

  /** A restart arms every outstanding hole afresh and keeps the parked verdicts. */
  lemma RestartBacked(w: World, t: Trail, op: Op)
    requires op.RestartOp? && Backed(w.s, t, w.k.evicted)
    ensures Backed(Apply(w.s, op), Traced(t, w.s, op), w.k.evicted)
  {
    var s, r, t' := w.s, Apply(w.s, op), Traced(t, w.s, op);
    SameHeightsKeep(s.outstanding, r.outstanding);
    forall e | e in r.outstanding ensures OutBacked(e, t') {
      var i :| 0 <= i < |r.outstanding| && r.outstanding[i] == e;
      assert OutBacked(s.outstanding[i], t);
    }
    ParkedKeep(s.gaveUp, t, t', Heights(s.outstanding) + w.k.evicted, Heights(s.outstanding) + w.k.evicted);
  }

  // ---- re-arming ------------------------------------------------------------

  lemma ReArmedEntry(out: seq<Outstanding>, i: nat, e: Outstanding, t: Trail)
    requires Ascending(out) && i < |out| && e.height == out[i].height && e.info.rearmCycles <= t.rearms[e.height] + 1
    requires forall o :: o in out && o.height != e.height ==> OutBacked(o, t)
    ensures forall o :: o in out[i := e] ==> OutBacked(o, ReArmTrail(t, e.height))
  {
    forall o | o in out[i := e] ensures OutBacked(o, ReArmTrail(t, e.height)) {
      var k :| 0 <= k < |out| && out[i := e][k] == o;
      if k != i {
        assert out[k].height != e.height;
        assert OutBacked(out[k], t);
      }
    }
  }

  lemma ReArmInPlaceBacked(s: State, h: u32, t: Trail, evicted: set<int>)
    requires Ordered(s) && Holds(s.outstanding, h) && Backed(s, t, evicted)
    ensures Backed(ReArmInPlace(s, h), ReArmTrail(t, h), evicted)
  {
    var i, r := LowerBound(s.outstanding, h), ReArmInPlace(s, h);
    assert OutBacked(s.outstanding[i], t);
    SameHeightsKeep(s.outstanding, r.outstanding);
    hide Heights;
    ReArmedEntry(s.outstanding, i, r.outstanding[i], t);
    ParkedKeep(s.gaveUp, t, ReArmTrail(t, h), Heights(s.outstanding) + evicted, Heights(s.outstanding) + evicted);
  }

  /** A successful re-arm overwrites one entry of the inserted list. */
  lemma ReArmGaveUpShape(s: State, h: u32, i: nat)
    requires Ordered(s) && HolesInRange(s) && ReArmGaveUp(s, h).1
    requires i == LowerBound(Insert(s.outstanding, h, 0, 0, 0).0, h)
    ensures var out, r := Insert(s.outstanding, h, 0, 0, 0).0, ReArmGaveUp(s, h).0;
            && i < |out| && out[i].height == h && Ascending(out) && Heights(s.outstanding) <= Heights(r.outstanding)
            && r.outstanding == out[i := FreshCycle(out[i],
                                                    Saturated(s.gaveUp[LowerBound(s.gaveUp, h)].info.rearmCycles))]
    ensures forall p :: p in ReArmGaveUp(s, h).0.gaveUp ==> p in s.gaveUp
  {
    ReArmGaveUpLists(s, h);
    InsertKeeps(s.outstanding, h, 0, 0, 0);
    HoldsIsMembership(Insert(s.outstanding, h, 0, 0, 0).0, h);
    hide Insert, Heights, Ascending;
  }

  lemma ReArmGaveUpBacked(s: State, h: u32, t: Trail, evicted: set<int>)
    requires Ordered(s) && HolesInRange(s) && Backed(s, t, evicted) && ReArmGaveUp(s, h).1
    ensures Backed(ReArmGaveUp(s, h).0, ReArmTrail(t, h), evicted)
  {
    hide Heights, Ascending, Insert;
    var g, out := LowerBound(s.gaveUp, h), Insert(s.outstanding, h, 0, 0, 0).0;
    var i, r := LowerBound(out, h), ReArmGaveUp(s, h).0;
    assert ParkBacked(s.gaveUp[g], t, Heights(s.outstanding) + evicted);
    ReArmGaveUpShape(s, h, i);
    InsertElements(s.outstanding, h, 0, 0, 0);
    if Holds(s.outstanding, h) { SameEvidenceKeeps(s.outstanding, out, t); }
    hide ReArmGaveUp;
    ReArmedEntry(out, i, r.outstanding[i], t);
    ParkedKeep(r.gaveUp, t, ReArmTrail(t, h), Heights(s.outstanding) + evicted, Heights(r.outstanding) + evicted);
  }

  lemma {:induction false} ReArmRunBacked(s: State, h: u32, budget: nat, t: Trail, evicted: set<int>)
    requires Ordered(s) && HolesInRange(s) && Backed(s, t, evicted)
    ensures Backed(ReArmRun(s, h, budget).0, RunTrail(t, h, ReArmRun(s, h, budget).1), evicted)
    decreases budget
  {
    hide Backed, ReArmGaveUp, ReArmInPlace, ReArmTrail;
    if ReArmRun(s, h, budget).1 > 0 {
      var r := if Holds(s.outstanding, h) then ReArmInPlace(s, h) else ReArmGaveUp(s, h).0;
      if Holds(s.outstanding, h) {
        ReArmInPlaceKeeps(s, h);
        ReArmInPlaceBacked(s, h, t, evicted);
      } else {
        ReArmGaveUpKeeps(s, h);
        ReArmGaveUpBacked(s, h, t, evicted);
      }
      if h < U32_MAX {
        ReArmRunBacked(r, h + 1, budget - 1, ReArmTrail(t, h), evicted);
      }
    }
  }

  lemma ReArmOpBacked(w: World, t: Trail, op: Op)
    requires Sound(w) && (op.ReArmOp? || op.ReArmRunOp?) && Backed(w.s, t, w.k.evicted)
    ensures Backed(Apply(w.s, op), Traced(t, w.s, op), w.k.evicted)
  {
    hide Backed, ReArmRun, ReArmGaveUp;
    if op.ReArmOp? {
      if ReArmGaveUp(w.s, op.h).1 {
        ReArmGaveUpBacked(w.s, op.h, t, w.k.evicted);
      } else {
        ReArmRefused(w.s, op.h);
      }
    } else {
      var r := ReArmRun(w.s, op.startH, op.maxRun);
      ReArmRunBacked(w.s, op.startH, op.maxRun, t, w.k.evicted);
      OtherFieldsKeep(r.0, Apply(w.s, op), Traced(t, w.s, op), w.k.evicted);
    }
  }

  lemma ReArmRefused(s: State, h: u32)
    ensures !ReArmGaveUp(s, h).1 ==> ReArmGaveUp(s, h).0 == s
  {
  }

  // ---- every run ------------------------------------------------------------

  lemma StepBacked(w: World, t: Trail, op: Op)
    requires Sound(w) && Allowed(w.s, op) && Backed(w.s, t, w.k.evicted)
    ensures Backed(Apply(w.s, op), Traced(t, w.s, op), Next(w, op).k.evicted)
  {
    hide Backed, Advanced, ReArmRun, ReArmGaveUp, RetireFrom, InsertRange, Insert;
    if Evictions(w.s, op) == {} && !op.RewindOp? {
      assert Next(w, op).k.evicted == w.k.evicted;
    }
    if Touched(w.s, op) == {} {
      assert t.tainted + Touched(w.s, op) == t.tainted;
      assert t.(tainted := t.tainted + Touched(w.s, op)) == t;
    }
    match op
    case RequestOp(_, _, _, _, _) => RequestBacked(w, t, op);
    case EvaluateOp(_) => EvaluateBacked(w, t, op);
    case HeaderRaceOp(_) => HeaderRaceBacked(w, t, op);
    case LosePeerOp(_, _) => TouchBacked(w, t, op);
    case RetireOp => RetireOpBacked(w, t, op);
    case NextOp(_) => RetireOpBacked(w, t, op);
    case CommitOp(_, _, _, _, _) => CommitBacked(w, t, op);
    case MissedOp(_, _) => TouchBacked(w, t, op);
    case ReArmOp(_) => ReArmOpBacked(w, t, op);
    case ReArmRunOp(_, _) => ReArmOpBacked(w, t, op);
    case AbandonGaveUpOp(_) => CutBacked(w, t, op);
    case AbandonUnscannableOp(_, _) => CutBacked(w, t, op);
    case RetireFloorOp(_) => OtherFieldsKeep(w.s, Apply(w.s, op), t, w.k.evicted);
    case RewindOp(_) => CutBacked(w, t, op);
    case RestartOp => RestartBacked(w, t, op);
  }

  ghost function TrailOf(w: World, ops: seq<Op>): Trail
    decreases |ops|
  {
    if ops == [] then Trail(multiset{}, {}) else
    Traced(TrailOf(w, ops[..|ops| - 1]), Play(w, ops[..|ops| - 1]).s, ops[|ops| - 1])
  }

  lemma {:induction false} RunBacked(start: u32, ops: seq<Op>)
    requires 0 < start < U32_MAX && Lawful(Born(start), ops)
    ensures var w := Play(Born(start), ops); Backed(w.s, TrailOf(Born(start), ops), w.k.evicted)
    decreases |ops|
  {
    if ops != [] {
      var before := ops[..|ops| - 1];
      RunKeeps(Born(start), before);
      RunBacked(start, before);
      StepBacked(Play(Born(start), before), TrailOf(Born(start), before), ops[|ops| - 1]);
    }
  }

  // ---- when a parked verdict stays true -------------------------------------

  /** A parked hole at this height has its latch set. */
  ghost predicate Latched(s: State, h: int) {
    exists p :: p in s.gaveUp && p.height == h && p.info.offersLive != 0
  }

  /** The latch parked at this height, if set, is true. */
  ghost predicate TrueAt(s: State, t: Trail, h: int) { Latched(s, h) ==> h !in t.tainted }

  /** The operation touches a height under a parked hole whose latch is set: nothing clears that latch. */
  ghost predicate Misleads(s: State, op: Op, h: int) { Latched(s, h) && h in Touched(s, op) }

  ghost predicate VerdictsTrue(s: State, t: Trail) {
    forall p :: p in s.gaveUp && p.info.offersLive != 0 ==> p.height !in t.tainted
  }

  /** What a caller can check of both lists before the call: it touches no height parked with its latch set. */
  ghost predicate Harmless(s: State, op: Op) {
    forall p :: p in s.gaveUp && p.info.offersLive != 0 ==> p.height !in Touched(s, op)
  }

  lemma FewerStayTrue(s: State, s': State, t: Trail, t': Trail, h: int)
    requires forall p :: p in s'.gaveUp ==> p in s.gaveUp
    requires t'.tainted <= t.tainted && TrueAt(s, t, h)
    ensures TrueAt(s', t', h)
  {
  }

  lemma {:induction false} ArmRangeClears(tainted: set<int>, out: seq<Outstanding>, from: nat, end: nat,
                                          peer: u128, port: u16, now: u32)
    requires from <= end <= 0x1_0000_0000
    ensures ArmRange(tainted, out, from, end, peer, port, now) <= tainted
    decreases end
  {
    hide InsertRange, Holds;
    if from < end { ArmRangeClears(tainted, out, from, end - 1, peer, port, now); }
  }

  lemma {:induction false} RunTrailClears(t: Trail, h: int, n: nat)
    ensures RunTrail(t, h, n).tainted <= t.tainted
    decreases n
  {
    if n > 0 { RunTrailClears(ReArmTrail(t, h), h + 1, n - 1); }
  }

  lemma TaintsShrink(s: State, t: Trail, op: Op)
    requires !op.LosePeerOp? && !op.MissedOp?
    ensures Traced(t, s, op).tainted <= t.tainted
  {
    hide ArmRange, RunTrail, ReArmRun, ReArmGaveUp, Heights, Holds;
    match op
    case RequestOp(startH, stopH, peer, port, now) =>
      var from := Max(startH, s.abandonedBelow);
      if from <= stopH { ArmRangeClears(t.tainted, s.outstanding, from, stopH + 1, peer, port, now); }
    case ReArmRunOp(startH, maxRun) => RunTrailClears(t, startH, ReArmRun(s, startH, maxRun).1);
    case _ =>
  }

  lemma {:induction false} ReArmRunUnparks(s: State, h: u32, budget: nat)
    requires Ordered(s) && HolesInRange(s)
    ensures forall p :: p in ReArmRun(s, h, budget).0.gaveUp ==> p in s.gaveUp
    decreases budget
  {
    hide ReArmGaveUp, ReArmInPlace;
    if ReArmRun(s, h, budget).1 > 0 {
      var r := if Holds(s.outstanding, h) then ReArmInPlace(s, h) else ReArmGaveUp(s, h).0;
      if Holds(s.outstanding, h) { ReArmInPlaceKeeps(s, h); ReArmInPlaceParked(s, h); }
      else { ReArmGaveUpKeeps(s, h); ReArmUnparks(s, h); }
      if h < U32_MAX { ReArmRunUnparks(r, h + 1, budget - 1); }
    }
  }

  lemma ReArmInPlaceParked(s: State, h: u32)
    requires Holds(s.outstanding, h)
    ensures ReArmInPlace(s, h).gaveUp == s.gaveUp
  {
  }

  lemma ReArmUnparks(s: State, h: u32)
    ensures forall p :: p in ReArmGaveUp(s, h).0.gaveUp ==> p in s.gaveUp
  {
    hide Insert, LowerBoundFrom;
  }

  /** Only retiring parks a hole or rewrites a parked one. */
  lemma ParkedShrink(w: World, op: Op)
    requires Sound(w) && !op.RetireOp? && !op.NextOp?
    ensures forall p :: p in Apply(w.s, op).gaveUp ==> p in w.s.gaveUp
  {
    hide Insert, InsertRange, ReArmGaveUp, ReArmRun, LowerBound;
    match op
    case EvaluateOp(h) => RemoveElements(w.s.gaveUp, h);
    case ReArmOp(h) => ReArmUnparks(w.s, h);
    case ReArmRunOp(startH, maxRun) => ReArmRunUnparks(w.s, startH, maxRun);
    case _ =>
  }

  lemma ParkTrue(gave: seq<Parked>, e: Outstanding, t: Trail, h: int)
    requires Ascending(gave) && OutBacked(e, t) && Park(gave, e.height, VerdictOf(e.info)).1
    requires forall p :: p in gave && p.height == h && p.info.offersLive != 0 ==> h !in t.tainted
    ensures forall p :: p in Park(gave, e.height, VerdictOf(e.info)).0 && p.height == h && p.info.offersLive != 0 ==>
                          h !in t.tainted
  {
    var r := Park(gave, e.height, VerdictOf(e.info)).0;
    forall p | p in r && p.height == h && p.info.offersLive != 0 ensures h !in t.tainted {
      if h == e.height {
        ParkOnce(gave, e.height, VerdictOf(e.info), p);
      } else {
        assert p in gave;
      }
    }
  }

  lemma {:induction false} RetireTrue(out: seq<Outstanding>, gave: seq<Parked>, i: nat, t: Trail, h: int)
    requires i <= |out| && Ascending(out) && Ascending(gave) && |gave| <= GAVEUP_MAX
    requires forall e :: e in out ==> OutBacked(e, t)
    requires forall p :: p in gave && p.height == h && p.info.offersLive != 0 ==> h !in t.tainted
    ensures forall p :: p in RetireFrom(out, gave, i).1 && p.height == h && p.info.offersLive != 0 ==> h !in t.tainted
    decreases |out| - i
  {
    hide Park, Heights, Ascending, OutBacked;
    if i < |out| {
      var e := out[i];
      var p := Park(gave, e.height, VerdictOf(e.info));
      if e.info.attempts >= MAX_ATTEMPTS && p.1 {
        RemoveAtHeights(out, i);
        ParkKeeps(gave, e.height, VerdictOf(e.info));
        ParkTrue(gave, e, t, h);
        RetireTrue(RemoveAt(out, i), p.0, i, t, h);
      } else {
        RetireTrue(out, gave, i + 1, t, h);
      }
    }
  }

  /** At each height, an operation leaves a true parked verdict true exactly when it does not touch the height while
      that verdict's latch is set. */
  lemma StepKeepsVerdict(w: World, t: Trail, op: Op, h: int)
    requires Sound(w) && TrueAt(w.s, t, h) && forall e :: e in w.s.outstanding ==> OutBacked(e, t)
    ensures TrueAt(Apply(w.s, op), Traced(t, w.s, op), h) <==> !Misleads(w.s, op, h)
  {
    hide OutBacked, Heights, Touched;
    if op.LosePeerOp? || op.MissedOp? {
      assert Apply(w.s, op).gaveUp == w.s.gaveUp;
      assert Traced(t, w.s, op).tainted == t.tainted + Touched(w.s, op);
    } else {
      TouchesNothing(w.s, op);
      TaintsShrink(w.s, t, op);
      hide Traced;
      if op.RetireOp? || op.NextOp? {
        RetireTrue(w.s.outstanding, w.s.gaveUp, 0, t, h);
        hide RetireFrom;
        assert Apply(w.s, op).gaveUp == RetireCapped(w.s).gaveUp;
      } else {
        ParkedShrink(w, op);
        hide Apply;
        FewerStayTrue(w.s, Apply(w.s, op), t, Traced(t, w.s, op), h);
      }
    }
  }

  lemma TouchesNothing(s: State, op: Op)
    requires !op.LosePeerOp? && !op.MissedOp?
    ensures Touched(s, op) == {}
  {
  }

  lemma TrueEverywhere(s: State, t: Trail)
    ensures VerdictsTrue(s, t) <==> forall h: int :: TrueAt(s, t, h)
  {
    forall p | p in s.gaveUp && p.info.offersLive != 0 ensures TrueAt(s, t, p.height) ==> p.height !in t.tainted {
      assert Latched(s, p.height);
    }
  }

  /** While every parked verdict is true, an operation keeps them all true exactly when it touches no height parked
      with its latch set. */
  lemma StepKeepsVerdicts(w: World, t: Trail, op: Op)
    requires Sound(w) && VerdictsTrue(w.s, t) && forall e :: e in w.s.outstanding ==> OutBacked(e, t)
    ensures VerdictsTrue(Apply(w.s, op), Traced(t, w.s, op)) <==> Harmless(w.s, op)
  {
    hide OutBacked, Apply, Traced, Touched, VerdictsTrue;
    TrueEverywhere(w.s, t);
    TrueEverywhere(Apply(w.s, op), Traced(t, w.s, op));
    forall h: int ensures TrueAt(Apply(w.s, op), Traced(t, w.s, op), h) <==> !Misleads(w.s, op, h) {
      StepKeepsVerdict(w, t, op, h);
    }
    if Harmless(w.s, op) {
      assert forall h: int :: !Misleads(w.s, op, h);
    } else {
      var p :| p in w.s.gaveUp && p.info.offersLive != 0 && p.height in Touched(w.s, op);
      assert Misleads(w.s, op, p.height);
    }
  }

  /** At every point of the run the parked verdicts are true. */
  ghost predicate AlwaysTrue(w: World, ops: seq<Op>)
    decreases |ops|
  {
    VerdictsTrue(Play(w, ops).s, TrailOf(w, ops)) && (ops == [] || AlwaysTrue(w, ops[..|ops| - 1]))
  }

  ghost predicate AlwaysHarmless(w: World, ops: seq<Op>)
    decreases |ops|
  {
    ops == [] || (AlwaysHarmless(w, ops[..|ops| - 1]) && Harmless(Play(w, ops[..|ops| - 1]).s, ops[|ops| - 1]))
  }

  /** Some operation of the run touched this height under a parked hole whose latch was set. */
  ghost predicate Misled(w: World, ops: seq<Op>, h: int)
    decreases |ops|
  {
    ops != [] && (Misled(w, ops[..|ops| - 1], h) || Misleads(Play(w, ops[..|ops| - 1]).s, ops[|ops| - 1], h))
  }

  /** A lawful run keeps every parked verdict true exactly when none of its operations touches a height parked with
      its latch set. */
  lemma {:induction false} VerdictsStayTrue(start: u32, ops: seq<Op>)
    requires 0 < start < U32_MAX && Lawful(Born(start), ops)
    ensures AlwaysTrue(Born(start), ops) <==> AlwaysHarmless(Born(start), ops)
    decreases |ops|
  {
    if ops != [] {
      var before := ops[..|ops| - 1];
      RunKeeps(Born(start), before);
      RunBacked(start, before);
      VerdictsStayTrue(start, before);
      if AlwaysTrue(Born(start), before) {
        TrueNow(Born(start), before);
        StepKeepsVerdicts(Play(Born(start), before), TrailOf(Born(start), before), ops[|ops| - 1]);
      }
    }
  }

  lemma TrueNow(w: World, ops: seq<Op>)
    requires AlwaysTrue(w, ops)
    ensures VerdictsTrue(Play(w, ops).s, TrailOf(w, ops))
  {
  }

  lemma {:induction false} UnmisledStaysTrue(start: u32, ops: seq<Op>, h: int)
    requires 0 < start < U32_MAX && Lawful(Born(start), ops) && !Misled(Born(start), ops, h)
    ensures TrueAt(Play(Born(start), ops).s, TrailOf(Born(start), ops), h)
    decreases |ops|
  {
    if ops != [] {
      var before := ops[..|ops| - 1];
      RunKeeps(Born(start), before);
      RunBacked(start, before);
      UnmisledStaysTrue(start, before, h);
      StepKeepsVerdict(Play(Born(start), before), TrailOf(Born(start), before), ops[|ops| - 1], h);
    }
  }

  /** In every lawful run: no hole claims more re-arms than it was granted; an outstanding hole's set latch means
      nothing touched it since its last arming; and so does a parked hole's, unless an operation of the run touched
      its height while a hole was parked there with its latch set, and then the height is outstanding again or was
      and fell out. */
  lemma EvidenceIsSound(start: u32, ops: seq<Op>)
    requires 0 < start < U32_MAX && Lawful(Born(start), ops)
    ensures var w, t := Play(Born(start), ops), TrailOf(Born(start), ops);
            && (forall e :: e in w.s.outstanding ==>
                  e.info.rearmCycles <= t.rearms[e.height] &&
                  (e.info.offersReachedLivePeer != 0 ==> e.height !in t.tainted))
            && (forall p :: p in w.s.gaveUp ==>
                  p.info.rearmCycles <= t.rearms[p.height] &&
                  (p.info.offersLive != 0 ==>
                     p.height !in t.tainted ||
                     (Misled(Born(start), ops, p.height) &&
                      (p.height in Heights(w.s.outstanding) || p.height in w.k.evicted))))
  {
    RunBacked(start, ops);
    var w, t := Play(Born(start), ops), TrailOf(Born(start), ops);
    hide Heights, Play, TrailOf, Misled, Lawful;
    assert forall e :: e in w.s.outstanding ==> OutBacked(e, t);
    forall p | p in w.s.gaveUp
      ensures ParkBacked(p, t, Heights(w.s.outstanding) + w.k.evicted)
      ensures p.info.offersLive != 0 && !Misled(Born(start), ops, p.height) ==> p.height !in t.tainted
    {
      if p.info.offersLive != 0 && !Misled(Born(start), ops, p.height) {
        UnmisledStaysTrue(start, ops, p.height);
        assert Latched(w.s, p.height);
      }
    }
  }
}
