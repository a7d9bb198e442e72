/** Spacing. */
module LedgerSpacing {
  // How long a height waits between its offers, over runs of either driver.

  import opened FixedWidth
  import opened SortedHoles
  import opened LedgerSpec
  import opened LedgerHistory
  import opened LedgerRecords
  import opened LedgerRetries

  /** The seconds a hole waits for its next offer: a header race's first one comes early. */
  function Pause(race: bool, attempts: nat): nat {
    if attempts == 0 then if race then 10 else 30 else if attempts == 1 then 60 else 120
  }

  lemma DelayIsPause(r: Retry)
    ensures Delay(r) == Pause(r.headerRace != 0, r.attempts)
  {
    assert Power2(0) == 1 && Power2(1) == 2;
    if r.attempts >= 2 { PowerGrows(r.attempts); }
  }

  lemma {:induction false} PowerGrows(n: nat)
    requires n >= 2
    ensures Power2(n) >= 4
    decreases n
  {
    if n > 2 { PowerGrows(n - 1); } else { assert Power2(2) == 2 * Power2(1) && Power2(1) == 2 * Power2(0); }
  }

  /** A hole may be offered exactly when it has had fewer than five offers and its pause is over. */
  lemma OfferableWhen(e: Outstanding, now: u32)
    ensures Offerable(e, now) <==>
              e.info.attempts < 5 && now >= e.info.requestedAt + Pause(e.info.headerRace != 0, e.info.attempts)
  {
    DelayIsPause(e.info);
    hide Delay;
  }

  // ---- what is on record of a height's offers -------------------------------

  datatype Stamp = Stamp(at: u32, attempts: nat, race: bool)

  function StampOf(e: Outstanding): Stamp { Stamp(e.info.requestedAt, e.info.attempts, e.info.headerRace != 0) }

  /** If the height is outstanding, this is on record of it. */
  ghost predicate Stamped(out: seq<Outstanding>, h: int, s: Stamp) {
    forall e :: e in out && e.height == h ==> StampOf(e) == s
  }

  /** The call does not ask for the height anew: it is no request, header race or re-arm of it, and no restart. */
  ghost predicate Untouched(s: State, op: Op, h: int) {
    match op
    case RequestOp(startH, stopH, _, _, _) => !(startH <= h <= stopH)
    case HeaderRaceOp(k) => k != h
    case ReArmOp(k) => k != h
    case ReArmRunOp(startH, maxRun) => !(startH <= h < startH + ReArmRun(s, startH, maxRun).1)
    case RestartOp => false
    case _ => true
  }

  /** A commit is of part of the run that a peek at the same time names. */
  ghost predicate PeekedNow(s: State, op: Op) {
    op.CommitOp? ==> exists floor: u32, i: nat, j: nat ::
      OfferedRun(s.outstanding, op.now, floor, i, j) &&
      s.outstanding[i].height <= op.startH <= op.stopH <= s.outstanding[j].height
  }

  /** The call offers the height. */
  ghost predicate OffersHeight(s: State, op: Op, h: int) {
    match op
    case NextOp(now) =>
      var r := RetireCapped(s).outstanding;
      var i := FirstOfferable(r, now, 0);
      i < |r| && r[i].height == h
    case CommitOp(startH, stopH, _, _, _) => startH <= h <= stopH && h in Heights(s.outstanding)
    case _ => false
  }

  function Clock(op: Op): u32 {
    match op
    case NextOp(now) => now
    case CommitOp(_, _, _, _, now) => now
    case _ => 0
  }

  // ---- what leaves the record alone -----------------------------------------

  lemma SubsetStamped(out: seq<Outstanding>, part: seq<Outstanding>, h: int, s: Stamp)
    requires Stamped(out, h, s) && forall e :: e in part ==> e in out
    ensures Stamped(part, h, s)
  {
  }

  /** A list edited position by position. */
  ghost predicate Edited(a: seq<Outstanding>, b: seq<Outstanding>, h: int) {
    |a| == |b| && forall i :: 0 <= i < |a| ==>
      b[i].height == a[i].height && (a[i].height == h ==> StampOf(b[i]) == StampOf(a[i]))
  }

  lemma EditedStamped(a: seq<Outstanding>, b: seq<Outstanding>, h: int, s: Stamp)
    requires Stamped(a, h, s) && Edited(a, b, h)
    ensures Stamped(b, h, s)
  {
    forall e | e in b && e.height == h ensures StampOf(e) == s {
      var i :| 0 <= i < |b| && b[i] == e;
      assert a[i] in a;
    }
  }

  lemma InsertStamped(out: seq<Outstanding>, k: u32, peer: u128, port: u16, now: u32, h: int, s: Stamp)
    requires k != h && Stamped(out, h, s)
    ensures Stamped(Insert(out, k, peer, port, now).0, h, s)
  {
    hide LowerBoundFrom, Stamped;
    var i, added := LowerBound(out, k), Fresh(k, peer, port, now);
    if i < |out| && out[i].height == k {
      EditedStamped(out, Insert(out, k, peer, port, now).0, h, s);
    } else if |out| >= OUTSTANDING_MAX {
      SubsetStamped(out, out[1..], h, s);
      InsertAtStamped(out[1..], if i > 0 then i - 1 else 0, added, h, s);
    } else {
      InsertAtStamped(out, i, added, h, s);
    }
  }

  lemma InsertAtStamped(out: seq<Outstanding>, i: nat, added: Outstanding, h: int, s: Stamp)
    requires i <= |out| && added.height != h && Stamped(out, h, s)
    ensures Stamped(InsertAt(out, i, added), h, s)
  {
    var r := InsertAt(out, i, added);
    forall e | e in r && e.height == h ensures StampOf(e) == s {
      var k :| 0 <= k < |r| && r[k] == e;
      InsertedAt(out, i, added, k);
      assert e in out;
    }
  }

  lemma {:induction false} InsertRangeStamped(out: seq<Outstanding>, from: nat, end: nat, peer: u128, port: u16,
                                              now: u32, h: int, s: Stamp)
    requires from <= end <= 0x1_0000_0000 && !(from <= h < end) && Stamped(out, h, s)
    ensures Stamped(InsertRange(out, from, end, peer, port, now).0, h, s)
    decreases end
  {
    hide Insert, Stamped;
    if from < end {
      InsertRangeStamped(out, from, end - 1, peer, port, now, h, s);
      InsertStamped(InsertRange(out, from, end - 1, peer, port, now).0, end - 1, peer, port, now, h, s);
    }
  }

  lemma RaceStamped(st: State, k: u32, h: int, s: Stamp)
    requires k != h && Stamped(st.outstanding, h, s)
    ensures Stamped(MarkHeaderRace(st, k).0.outstanding, h, s)
  {
    hide Stamped, Insert, LowerBoundFrom;
    InsertStamped(st.outstanding, k, 0, 0, 0, h, s);
    FlagStamped(st.outstanding, k, h, s);
    FlagStamped(Insert(st.outstanding, k, 0, 0, 0).0, k, h, s);
    hide FlagHeaderRace;
  }

  lemma FlagStamped(out: seq<Outstanding>, k: u32, h: int, s: Stamp)
    requires k != h
    ensures Stamped(out, h, s) ==> Stamped(FlagHeaderRace(out, k), h, s)
  {
    hide Stamped, LowerBoundFrom;
    if Stamped(out, h, s) { EditedStamped(out, FlagHeaderRace(out, k), h, s); }
  }

  lemma ReArmStamped(st: State, k: u32, h: int, s: Stamp)
    requires Ordered(st) && HolesInRange(st) && k != h && Stamped(st.outstanding, h, s)
    ensures Stamped(ReArmGaveUp(st, k).0.outstanding, h, s)
  {
    if ReArmGaveUp(st, k).1 {
      var out := Insert(st.outstanding, k, 0, 0, 0).0;
      InsertKeeps(st.outstanding, k, 0, 0, 0);
      InsertStamped(st.outstanding, k, 0, 0, 0, h, s);
      HoldsIsMembership(out, k);
      hide Insert, Stamped, LowerBoundFrom, Heights, Ascending;
      EditedStamped(out, ReArmGaveUp(st, k).0.outstanding, h, s);
    }
  }

  lemma InPlaceStamped(st: State, k: u32, h: int, s: Stamp)
    requires Holds(st.outstanding, k) && k != h && Stamped(st.outstanding, h, s)
    ensures Stamped(ReArmInPlace(st, k).outstanding, h, s)
  {
    hide Stamped, LowerBoundFrom;
    EditedStamped(st.outstanding, ReArmInPlace(st, k).outstanding, h, s);
  }

  lemma {:induction false} ReArmRunStamped(st: State, k: u32, budget: nat, h: int, s: Stamp)
    requires Ordered(st) && HolesInRange(st) && Stamped(st.outstanding, h, s)
    requires !(k <= h < k + ReArmRun(st, k, budget).1)
    ensures Stamped(ReArmRun(st, k, budget).0.outstanding, h, s)
    decreases budget
  {
    hide ReArmGaveUp, ReArmInPlace, Stamped, Ordered, HolesInRange, LowerBoundFrom;
    if ReArmRun(st, k, budget).1 > 0 {
      var r := if Holds(st.outstanding, k) then ReArmInPlace(st, k) else ReArmGaveUp(st, k).0;
      if Holds(st.outstanding, k) {
        ReArmInPlaceKeeps(st, k);
        InPlaceStamped(st, k, h, s);
      } else {
        ReArmGaveUpKeeps(st, k);
        ReArmStamped(st, k, h, s);
      }
      if k < U32_MAX { ReArmRunStamped(r, k + 1, budget - 1, h, s); }
    }
  }

  // ---- offers ---------------------------------------------------------------

  /** An offer of the entry at position i, and no other at its height. */
  lemma OfferStamps(out: seq<Outstanding>, i: nat, now: u32, h: int, s: Stamp)
    requires Ascending(out) && Stamped(out, h, s) && i < |out| && Offerable(out[i], now)
    ensures var r := out[i := Offered(out[i], now)];
            if out[i].height == h then
              now >= s.at + Pause(s.race, s.attempts) && s.attempts < 5 &&
              Stamped(r, h, Stamp(now, s.attempts + 1, s.race))
            else Stamped(r, h, s)
  {
    var r := out[i := Offered(out[i], now)];
    assert out[i] in out;
    OfferableWhen(out[i], now);
    if out[i].height == h {
      forall e | e in r && e.height == h ensures StampOf(e) == Stamp(now, s.attempts + 1, s.race) {
        var k :| 0 <= k < |r| && r[k] == e;
        assert k == i;
      }
    } else {
      EditedStamped(out, r, h, s);
    }
    hide Offerable, Stamped;
  }

  lemma NextStamps(st: State, now: u32, h: int, s: Stamp)
    requires Ordered(st) && Stamped(st.outstanding, h, s)
    ensures var after, op := NextRerequest(st, now).outstanding, NextOp(now);
            if OffersHeight(st, op, h) then
              now >= s.at + Pause(s.race, s.attempts) && s.attempts < 5 &&
              Stamped(after, h, Stamp(now, s.attempts + 1, s.race))
            else Stamped(after, h, s)
  {
    var r := RetireCapped(st).outstanding;
    RetireFromKeeps(st.outstanding, st.gaveUp, 0);
    RetireKeepsSome(st.outstanding, st.gaveUp, 0);
    hide RetireFrom, Stamped, Offerable, Offered, Ascending;
    SubsetStamped(st.outstanding, r, h, s);
    var i := FirstOfferable(r, now, 0);
    if i < |r| { OfferStamps(r, i, now, h, s); }
  }

  lemma CommitStamps(st: State, op: Op, h: int, s: Stamp)
    requires Ordered(st) && op.CommitOp? && PeekedNow(st, op) && Stamped(st.outstanding, h, s)
    ensures var after := Apply(st, op).outstanding;
            if OffersHeight(st, op, h) then
              op.now >= s.at + Pause(s.race, s.attempts) && s.attempts < 5 &&
              Stamped(after, h, Stamp(op.now, s.attempts + 1, s.race))
            else Stamped(after, h, s)
  {
    var out, after := st.outstanding, Apply(st, op).outstanding;
    CommitIs(st, op);
    hide Apply, Stamped, Offerable, Ascending;
    if OffersHeight(st, op, h) {
      var k := CommittedEntry(st, op, h);
      OfferableWhen(out[k], op.now);
      CommitAllStamped(out, op, h, s, k);
    } else {
      NotCommitted(out, op, h);
      EditedStamped(out, after, h, s);
    }
  }

  /** A height inside a peeked run is held by an entry that may be offered now. */
  lemma CommittedEntry(st: State, op: Op, h: int) returns (k: nat)
    requires Ordered(st) && op.CommitOp? && PeekedNow(st, op) && OffersHeight(st, op, h)
    ensures k < |st.outstanding| && st.outstanding[k].height == h && Offerable(st.outstanding[k], op.now)
  {
    var out := st.outstanding;
    var floor: u32, i: nat, j: nat :| OfferedRun(out, op.now, floor, i, j) &&
      out[i].height <= op.startH <= op.stopH <= out[j].height;
    RunPositions(out, op.now, floor, i, j);
    k := i + (h - out[i].height);
    assert Joins(out, op.now, i, k);
    hide Offerable;
  }

  lemma NotCommitted(out: seq<Outstanding>, op: Op, h: int)
    requires op.CommitOp? && !(op.startH <= h <= op.stopH && h in Heights(out))
    ensures Edited(out, Committed(out, op.startH, op.stopH, op.peer, op.port, op.now), h)
  {
    forall i | 0 <= i < |out| && out[i].height == h ensures !(op.startH <= h <= op.stopH) {
      assert out[i].height in Heights(out);
    }
  }

  lemma CommitAllStamped(out: seq<Outstanding>, op: Op, h: int, s: Stamp, k: nat)
    requires op.CommitOp? && op.startH <= h <= op.stopH && Stamped(out, h, s)
    requires k < |out| && out[k].height == h && out[k].info.attempts < 5
    ensures StampOf(out[k]) == s
    ensures Stamped(Committed(out, op.startH, op.stopH, op.peer, op.port, op.now), h,
                    Stamp(op.now, s.attempts + 1, s.race))
  {
    assert out[k] in out;
    var r := Committed(out, op.startH, op.stopH, op.peer, op.port, op.now);
    forall e | e in r && e.height == h ensures StampOf(e) == Stamp(op.now, s.attempts + 1, s.race) {
      var i :| 0 <= i < |r| && r[i] == e;
      assert out[i] in out && out[i].height == h;
    }
  }

  // ---- every step -----------------------------------------------------------

  lemma QuietStamped(w: World, op: Op, h: int, s: Stamp)
    requires Sound(w) && Untouched(w.s, op, h) && !op.NextOp? && !op.CommitOp? && Stamped(w.s.outstanding, h, s)
    ensures Stamped(Apply(w.s, op).outstanding, h, s)
  {
    var st := w.s;
    hide Stamped, Insert, InsertRange, ReArmGaveUp, ReArmRun, RetireFrom, LowerBoundFrom, Ascending, Heights;
    match op
    case RequestOp(startH, stopH, peer, port, now) =>
      var from := Max(startH, st.abandonedBelow);
      if from <= stopH { InsertRangeStamped(st.outstanding, from, stopH + 1, peer, port, now, h, s); }
    case HeaderRaceOp(k) => RaceStamped(st, k, h, s);
    case ReArmOp(k) => ReArmStamped(st, k, h, s);
    case ReArmRunOp(startH, maxRun) => ReArmRunStamped(st, startH, maxRun, h, s);
    case RetireOp =>
      RetireKeepsSome(st.outstanding, st.gaveUp, 0);
      SubsetStamped(st.outstanding, Apply(st, op).outstanding, h, s);
    case LosePeerOp(_, _) => EditedStamped(st.outstanding, Apply(st, op).outstanding, h, s);
    case MissedOp(_, _) => EditedStamped(st.outstanding, Apply(st, op).outstanding, h, s);
    case EvaluateOp(_) => SubsetStamped(st.outstanding, Apply(st, op).outstanding, h, s);
    case RewindOp(_) => SubsetStamped(st.outstanding, Apply(st, op).outstanding, h, s);
    case AbandonUnscannableOp(_, _) => SubsetStamped(st.outstanding, Apply(st, op).outstanding, h, s);
    case AbandonGaveUpOp(_) =>
    case RetireFloorOp(_) =>
  }

  /** A call that does not ask for the height anew leaves what is on record of it, unless it offers it: then its pause
      is over, and the record shows the offer. */
  lemma StepStamps(w: World, op: Op, h: int, s: Stamp)
    requires Sound(w) && Untouched(w.s, op, h) && PeekedNow(w.s, op) && Stamped(w.s.outstanding, h, s)
    ensures if OffersHeight(w.s, op, h) then
              Clock(op) >= s.at + Pause(s.race, s.attempts) && s.attempts < 5 &&
              Stamped(Apply(w.s, op).outstanding, h, Stamp(Clock(op), s.attempts + 1, s.race))
            else Stamped(Apply(w.s, op).outstanding, h, s)
  {
    hide Stamped, NextRerequest, CommitRerequest, RetireCapped, Untouched, PeekedNow;
    match op
    case NextOp(now) => NextStamps(w.s, now, h, s);
    case CommitOp(_, _, _, _, _) => CommitStamps(w.s, op, h, s);
    case _ => QuietStamped(w, op, h, s);
  }

  // ---- every run ------------------------------------------------------------

  /** Over the whole run the height is not asked for anew, and every commit is of a run peeked at the same time. */
  ghost predicate Quiet(w: World, ops: seq<Op>, h: int)
    decreases |ops|
  {
    ops == [] ||
    (var before, op := ops[..|ops| - 1], ops[|ops| - 1];
     Quiet(w, before, h) && Untouched(Play(w, before).s, op, h) && PeekedNow(Play(w, before).s, op))
  }

  /** The times at which the run offers the height, in order. */
  ghost function OfferTimes(w: World, ops: seq<Op>, h: int): seq<u32>
    decreases |ops|
  {
    if ops == [] then [] else
    var before, op := ops[..|ops| - 1], ops[|ops| - 1];
    OfferTimes(w, before, h) + if OffersHeight(Play(w, before).s, op, h) then [Clock(op)] else []
  }

  /** When the height was last asked for or offered before its offer k. */
  function Previous(times: seq<u32>, s: Stamp, k: nat): u32
    requires k < |times|
  {
    if k == 0 then s.at else times[k - 1]
  }

  /** Each time is a full pause after the one before; the pauses grow with the offers made. */
  ghost predicate Spaced(times: seq<u32>, s: Stamp)
    decreases |times|
  {
    times == [] ||
    (var n := |times| - 1;
     Spaced(times[..n], s) && times[n] >= Previous(times, s, n) + Pause(s.race, s.attempts + n))
  }

  lemma {:induction false} SpacedAt(times: seq<u32>, s: Stamp, k: nat)
    requires Spaced(times, s) && k < |times|
    ensures times[k] >= Previous(times, s, k) + Pause(s.race, s.attempts + k)
    decreases |times|
  {
    hide Pause;
    if k < |times| - 1 { SpacedAt(times[..|times| - 1], s, k); }
  }

  function StampAfter(times: seq<u32>, s: Stamp): Stamp {
    Stamp(if times == [] then s.at else times[|times| - 1], s.attempts + |times|, s.race)
  }

  /** However the calls of the two drivers, peer losses, misses, retirements, evaluations, abandonments and rewinds mix:
      while a height is not asked for anew, each of its offers comes at least the pause after the one before that goes
      with the attempts made, and there are no more than five in all. */
  lemma {:induction false} OffersAreSpaced(w: World, ops: seq<Op>, h: int, s: Stamp)
    requires Sound(w) && Lawful(w, ops) && Quiet(w, ops, h) && Stamped(w.s.outstanding, h, s) && s.attempts <= 5
    ensures var times := OfferTimes(w, ops, h);
            && Spaced(times, s) && s.attempts + |times| <= 5
            && Stamped(Play(w, ops).s.outstanding, h, StampAfter(times, s))
    decreases |ops|
  {
    hide Sound, Stamped, Untouched, PeekedNow, OffersHeight, Apply, Recorded, Allowed;
    if ops != [] {
      var before, op := ops[..|ops| - 1], ops[|ops| - 1];
      OffersAreSpaced(w, before, h, s);
      RunKeeps(w, before);
      var times := OfferTimes(w, before, h);
      StepStamps(Play(w, before), op, h, StampAfter(times, s));
      SpacedMore(times, Clock(op), s);
      hide Spaced;
    }
  }

  lemma SpacedMore(times: seq<u32>, t: u32, s: Stamp)
    requires Spaced(times, s)
    ensures var last := StampAfter(times, s);
            && (t >= last.at + Pause(last.race, last.attempts) ==> Spaced(times + [t], s))
            && StampAfter(times + [t], s) == Stamp(t, last.attempts + 1, last.race)
    ensures times + [] == times
  {
    hide Pause;
    assert times + [] == times;
    assert (times + [t])[..|times|] == times;
  }

  /** A request of a height that is not outstanding puts it on record as asked for then, with no attempt made. */
  lemma RequestStamps(w: World, op: Op, h: int)
    requires Sound(w) && Allowed(w.s, op) && op.RequestOp? && h !in Heights(w.s.outstanding)
    requires Max(op.startH, w.s.abandonedBelow) <= h <= op.stopH
    ensures Stamped(Apply(w.s, op).outstanding, h, Stamp(op.now, 0, false))
  {
    hide Stamped, InsertRange, Ascending;
    AbsentStamped(w.s.outstanding, h, Stamp(op.now, 0, false));
    NewRangeStamped(w.s.outstanding, Max(op.startH, w.s.abandonedBelow), op.stopH + 1, op.peer, op.port, op.now, h);
  }

  lemma AbsentStamped(out: seq<Outstanding>, h: int, s: Stamp)
    requires h !in Heights(out)
    ensures Stamped(out, h, s)
  {
    assert forall i :: 0 <= i < |out| ==> out[i].height in Heights(out);
  }

  lemma {:induction false} NewRangeStamped(out: seq<Outstanding>, from: nat, end: nat, peer: u128, port: u16, now: u32,
                                           h: int)
    requires from <= end <= 0x1_0000_0000 && Stamped(out, h, Stamp(now, 0, false))
    ensures Stamped(InsertRange(out, from, end, peer, port, now).0, h, Stamp(now, 0, false))
    decreases end
  {
    hide Insert, Stamped;
    if from < end {
      NewRangeStamped(out, from, end - 1, peer, port, now, h);
      NewStamped(InsertRange(out, from, end - 1, peer, port, now).0, end - 1, peer, port, now, h);
    }
  }

  lemma NewStamped(out: seq<Outstanding>, k: u32, peer: u128, port: u16, now: u32, h: int)
    requires Stamped(out, h, Stamp(now, 0, false))
    ensures Stamped(Insert(out, k, peer, port, now).0, h, Stamp(now, 0, false))
  {
    if k != h {
      InsertStamped(out, k, peer, port, now, h, Stamp(now, 0, false));
    } else {
      var r := Insert(out, k, peer, port, now).0;
      forall e | e in r && e.height == h ensures StampOf(e) == Stamp(now, 0, false) {
        hide LowerBoundFrom;
        InsertedEntry(out, k, peer, port, now, e);
      }
    }
  }

  lemma InsertedEntry(out: seq<Outstanding>, k: u32, peer: u128, port: u16, now: u32, e: Outstanding)
    requires e in Insert(out, k, peer, port, now).0
    ensures e in out || e == Fresh(k, peer, port, now) ||
            (exists o :: o in out && o.height == k &&
                         e == Hole(k, o.info.(peer := peer, port := port, requestedAt := now)))
  {
    hide LowerBoundFrom;
    var i, added := LowerBound(out, k), Fresh(k, peer, port, now);
    var r := Insert(out, k, peer, port, now).0;
    var m :| 0 <= m < |r| && r[m] == e;
    if i < |out| && out[i].height == k {
      assert out[i] in out && (m != i ==> out[m] in out);
    } else if |out| >= OUTSTANDING_MAX {
      var j := if i > 0 then i - 1 else 0;
      InsertedAt(out[1..], j, added, m);
      assert m < j ==> out[1..][m] == out[m + 1] && out[m + 1] in out;
      assert m > j ==> out[1..][m - 1] == out[m] && out[m] in out;
    } else {
      InsertedAt(out, i, added, m);
    }
  }

  /** Five offers of a plain new hole take at least 450 seconds from its request, whatever else the ledger does
      meanwhile. */
  lemma FiveOffersTake450(w: World, request: Op, ops: seq<Op>, h: int)
    requires Sound(w) && Allowed(w.s, request) && request.RequestOp? && h !in Heights(w.s.outstanding)
    requires Max(request.startH, w.s.abandonedBelow) <= h <= request.stopH
    requires Lawful(Next(w, request), ops) && Quiet(Next(w, request), ops, h)
    ensures var times := OfferTimes(Next(w, request), ops, h);
            && |times| <= 5 && (|times| > 0 ==> times[0] >= request.now + 30)
            && (|times| == 5 ==> times[4] >= request.now + 450)
  {
    hide *;
    StepKeeps(w, request);
    RequestStamps(w, request, h);
    NextIs(w, request);
    OffersAreSpaced(Next(w, request), ops, h, Stamp(request.now, 0, false));
    FiveSpaced(OfferTimes(Next(w, request), ops, h), request.now);
  }

  lemma FiveSpaced(times: seq<u32>, at: u32)
    requires Spaced(times, Stamp(at, 0, false)) && |times| <= 5
    ensures (|times| > 0 ==> times[0] >= at + 30) && (|times| == 5 ==> times[4] >= at + 450)
  {
    var s := Stamp(at, 0, false);
    hide Spaced;
    if |times| > 0 { SpacedAt(times, s, 0); }
    if |times| == 5 { SpacedAt(times, s, 1); SpacedAt(times, s, 2); SpacedAt(times, s, 3); SpacedAt(times, s, 4); }
  }

  lemma NextIs(w: World, op: Op)
    ensures Next(w, op).s == Apply(w.s, op)
  {
  }
}
