/** Retries. */
module LedgerRetries {
  // What may be offered, that offers run out, and that a retired hole is parked
  // rather than lost.

  import opened FixedWidth
  import opened SortedHoles
  import opened LedgerSpec
  import opened LedgerHistory

  /** The offers a hole has left, and the sum over a list. */
  function Left(e: Outstanding): nat {
    if e.info.attempts < MAX_ATTEMPTS then MAX_ATTEMPTS - e.info.attempts else 0
  }

  function Budget(out: seq<Outstanding>): nat {
    if out == [] then 0 else Budget(out[..|out| - 1]) + Left(out[|out| - 1])
  }

  lemma {:induction false} BudgetConcat(a: seq<Outstanding>, b: seq<Outstanding>)
    ensures Budget(a + b) == Budget(a) + Budget(b)
    decreases |b|
  {
    if b == [] {
      assert a + b == a;
    } else {
      BudgetConcat(a, b[..|b| - 1]);
      assert (a + b)[..|a + b| - 1] == a + b[..|b| - 1];
    }
  }

  lemma BudgetAt(out: seq<Outstanding>, i: nat)
    requires i < |out|
    ensures Budget(out) == Budget(out[..i]) + Left(out[i]) + Budget(out[i + 1..])
  {
    assert out == (out[..i] + [out[i]]) + out[i + 1..];
    BudgetConcat(out[..i] + [out[i]], out[i + 1..]);
    BudgetConcat(out[..i], [out[i]]);
    assert Budget([out[i]]) == Left(out[i]);
  }

  lemma BudgetUpdate(out: seq<Outstanding>, i: nat, e: Outstanding)
    requires i < |out|
    ensures Budget(out[i := e]) == Budget(out) - Left(out[i]) + Left(e)
  {
    BudgetAt(out, i);
    BudgetAt(out[i := e], i);
    assert out[i := e][..i] == out[..i] && out[i := e][i + 1..] == out[i + 1..];
  }

  // ---- retiring -------------------------------------------------------------

  function Uncapped(out: seq<Outstanding>): seq<Outstanding> {
    if out == [] then []
    else if out[0].info.attempts < MAX_ATTEMPTS then [out[0]] + Uncapped(out[1..])
    else Uncapped(out[1..])
  }

  function CappedCount(out: seq<Outstanding>): int { |out| - |Uncapped(out)| }

  /** Retiring spends no offer. */
  lemma {:induction false} RetireKeepsBudget(out: seq<Outstanding>, gave: seq<Parked>, i: nat)
    requires i <= |out|
    ensures Budget(RetireFrom(out, gave, i).0) == Budget(out)
    decreases |out| - i
  {
    hide Park;
    if i < |out| {
      var p := Park(gave, out[i].height, VerdictOf(out[i].info));
      if out[i].info.attempts >= MAX_ATTEMPTS && p.1 {
        BudgetAt(out, i);
        BudgetConcat(out[..i], out[i + 1..]);
        RetireKeepsBudget(RemoveAt(out, i), p.0, i);
      } else {
        RetireKeepsBudget(out, gave, i + 1);
      }
    }
  }

  lemma {:induction false} UncappedBound(out: seq<Outstanding>)
    ensures |Uncapped(out)| <= |out|
    ensures forall e :: e in Uncapped(out) ==> e in out && e.info.attempts < MAX_ATTEMPTS
  {
    if out != [] { UncappedBound(out[1..]); }
  }

  lemma ParkGrows(gave: seq<Parked>, h: u32, v: Verdict)
    ensures |gave| < GAVEUP_MAX ==> Park(gave, h, v).1
    ensures |Park(gave, h, v).0| <= |gave| + 1
  {
  }

  /** With room in gaveUp for every capped entry, exactly the uncapped ones remain. */
  lemma {:induction false} RetireLeavesUncapped(out: seq<Outstanding>, gave: seq<Parked>, i: nat)
    requires i <= |out| && |gave| + CappedCount(out[i..]) <= GAVEUP_MAX
    ensures RetireFrom(out, gave, i).0 == out[..i] + Uncapped(out[i..])
    decreases |out| - i
  {
    hide Park;
    if i < |out| {
      var p := Park(gave, out[i].height, VerdictOf(out[i].info));
      UncappedBound(out[i + 1..]);
      assert out[i..][0] == out[i] && out[i..][1..] == out[i + 1..];
      if out[i].info.attempts < MAX_ATTEMPTS {
        RetireLeavesUncapped(out, gave, i + 1);
        assert out[..i + 1] + Uncapped(out[i + 1..]) == out[..i] + ([out[i]] + Uncapped(out[i + 1..]));
      } else {
        ParkGrows(gave, out[i].height, VerdictOf(out[i].info));
        var rest := RemoveAt(out, i);
        assert rest[i..] == out[i + 1..] && rest[..i] == out[..i];
        RetireLeavesUncapped(rest, p.0, i);
      }
    } else {
      assert out[..i] + Uncapped(out[i..]) == out;
    }
  }

  /** The shipped ceiling: gaveUp holds as much as outstanding, so a ledger with nothing
      parked is always fully retired. */
  lemma RetireClearsCapped(s: State)
    requires |s.gaveUp| + CappedCount(s.outstanding) <= GAVEUP_MAX
    ensures RetireCapped(s).outstanding == Uncapped(s.outstanding)
    ensures forall e :: e in RetireCapped(s).outstanding ==> e in s.outstanding && e.info.attempts < MAX_ATTEMPTS
  {
    assert s.outstanding[0..] == s.outstanding &&
           s.outstanding[..0] + Uncapped(s.outstanding) == Uncapped(s.outstanding);
    RetireLeavesUncapped(s.outstanding, s.gaveUp, 0);
    UncappedBound(s.outstanding);
  }

  // ---- offers run out -------------------------------------------------------

  /** Does this call offer a height? */
  predicate Offers(s: State, now: u32) {
    var r := RetireCapped(s).outstanding;
    FirstOfferable(r, now, 0) < |r|
  }

  /** One offer costs exactly one from the budget; a call that offers nothing costs nothing. */
  lemma OfferCostsOne(s: State, now: u32)
    ensures Budget(NextRerequest(s, now).outstanding) + (if Offers(s, now) then 1 else 0) == Budget(s.outstanding)
  {
    RetireKeepsBudget(s.outstanding, s.gaveUp, 0);
    var r := RetireCapped(s).outstanding;
    var i := FirstOfferable(r, now, 0);
    if i < |r| {
      BudgetUpdate(r, i, Offered(r[i], now));
    }
  }

  function OfferCount(s: State, nows: seq<u32>): nat
    decreases |nows|
  {
    if nows == [] then 0
    else (if Offers(s, nows[0]) then 1 else 0) + OfferCount(NextRerequest(s, nows[0]), nows[1..])
  }

  lemma {:induction false} BudgetBound(out: seq<Outstanding>)
    ensures Budget(out) <= MAX_ATTEMPTS * |out|
  {
    if out != [] { BudgetBound(out[..|out| - 1]); }
  }

  /** However often and at whatever times the driver is called, it makes at most five
      offers for each hole outstanding at the start. */
  lemma {:induction false} OffersAreBounded(s: State, nows: seq<u32>)
    ensures OfferCount(s, nows) <= Budget(s.outstanding) <= MAX_ATTEMPTS * |s.outstanding|
    decreases |nows|
  {
    hide NextRerequest, Offers;
    BudgetBound(s.outstanding);
    if nows != [] {
      OfferCostsOne(s, nows[0]);
      OffersAreBounded(NextRerequest(s, nows[0]), nows[1..]);
    }
  }

  ghost predicate AttemptsCapped(out: seq<Outstanding>) {
    forall i :: 0 <= i < |out| ==> out[i].info.attempts <= MAX_ATTEMPTS
  }

  lemma {:induction false} RetireKeepsCapped(out: seq<Outstanding>, gave: seq<Parked>, i: nat)
    requires i <= |out| && AttemptsCapped(out)
    ensures AttemptsCapped(RetireFrom(out, gave, i).0)
    decreases |out| - i
  {
    hide Park;
    if i < |out| {
      var p := Park(gave, out[i].height, VerdictOf(out[i].info));
      if out[i].info.attempts >= MAX_ATTEMPTS && p.1 {
        RetireKeepsCapped(RemoveAt(out, i), p.0, i);
      } else {
        RetireKeepsCapped(out, gave, i + 1);
      }
    }
  }

  lemma OfferKeepsCapped(s: State, now: u32)
    requires AttemptsCapped(s.outstanding)
    ensures AttemptsCapped(NextRerequest(s, now).outstanding)
  {
    hide RetireFrom;
    RetireKeepsCapped(s.outstanding, s.gaveUp, 0);
  }

  // ---- peek and commit ------------------------------------------------------

  /** Positions i..j of a list form the run a peek offers: it starts at the lowest
      offerable hole at or above the floor and is as long as it may be. */
  ghost predicate OfferedRun(out: seq<Outstanding>, now: u32, minHeight: u32, i: nat, j: nat) {
    && i <= j < |out| && minHeight <= out[i].height
    && (forall k :: 0 <= k < i ==> out[k].height < minHeight || !Offerable(out[k], now))
    && (forall k :: i <= k <= j ==> Joins(out, now, i, k))
    && (j + 1 < |out| ==> !Joins(out, now, i, j + 1))
  }

  /** Position k can belong to a run that starts at position i. */
  predicate Joins(out: seq<Outstanding>, now: u32, i: nat, k: nat)
    requires i <= k < |out|
  {
    && Offerable(out[k], now)
    && out[k].height == out[i].height + (k - i)
    && out[k].info.port == out[i].info.port && out[k].info.peer == out[i].info.peer
    && k - i + 1 <= MAX_RANGE
  }

  /** The run is determined by the list, the clock and the floor. */
  lemma OfferedRunUnique(out: seq<Outstanding>, now: u32, minHeight: u32, i: nat, j: nat, i': nat, j': nat)
    requires OfferedRun(out, now, minHeight, i, j) && OfferedRun(out, now, minHeight, i', j')
    requires Ascending(out)
    ensures i == i' && j == j'
  {
    assert Joins(out, now, i, i) && Joins(out, now, i', i');
    var (e, e') := (out[i], out[i']);
    assert Offerable(e, now) && Offerable(e', now);
    if j + 1 < |out| { assert !Joins(out, now, i, j + 1); }
    if j' + 1 < |out| { assert !Joins(out, now, i', j' + 1); }
  }

  function Committed(out: seq<Outstanding>, startH: u32, stopH: u32, peer: u128, port: u16,
                     now: u32): seq<Outstanding> {
    seq(|out|, i requires 0 <= i < |out| => Commit(out[i], startH, stopH, peer, port, now))
  }

  /** Committing a whole list of offerable entries spends one offer for each. */
  lemma {:induction false} CommitBudget(run: seq<Outstanding>, startH: u32, stopH: u32, peer: u128, port: u16, now: u32)
    requires forall k :: 0 <= k < |run| ==> startH <= run[k].height <= stopH && run[k].info.attempts < MAX_ATTEMPTS
    ensures Budget(Committed(run, startH, stopH, peer, port, now)) + |run| == Budget(run)
    decreases |run|
  {
    if run != [] {
      var n := |run| - 1;
      var c := Committed(run, startH, stopH, peer, port, now);
      CommitBudget(run[..n], startH, stopH, peer, port, now);
      assert c[..n] == Committed(run[..n], startH, stopH, peer, port, now);
      assert Left(c[n]) == Left(run[n]) - 1;
      assert Budget(c) == Budget(c[..n]) + Left(c[n]) && Budget(run) == Budget(run[..n]) + Left(run[n]);
    }
  }

  lemma BudgetSplit(s: seq<Outstanding>, a: nat, b: nat)
    requires a <= b <= |s|
    ensures Budget(s) == Budget(s[..a]) + Budget(s[a..b]) + Budget(s[b..])
  {
    BudgetConcat(s[..a] + s[a..b], s[b..]);
    BudgetConcat(s[..a], s[a..b]);
    assert s == s[..a] + s[a..b] + s[b..];
  }

  lemma CommitLeavesRest(out: seq<Outstanding>, lo: u32, hi: u32, peer: u128, port: u16, at: u32)
    requires forall k :: 0 <= k < |out| && lo <= out[k].height <= hi ==> out[k].info.attempts < MAX_ATTEMPTS
    ensures var c := Committed(out, lo, hi, peer, port, at);
            && (AttemptsCapped(out) ==> AttemptsCapped(c))
            && (forall k :: 0 <= k < |out| && !(lo <= out[k].height <= hi) ==> c[k] == out[k])
  {
  }

  lemma CommitSegment(out: seq<Outstanding>, a: nat, b: nat, lo: u32, hi: u32, peer: u128, port: u16, at: u32)
    requires a <= b <= |out|
    requires forall k :: a <= k < b ==> lo <= out[k].height <= hi && out[k].info.attempts < MAX_ATTEMPTS
    requires forall k :: 0 <= k < a || b <= k < |out| ==> !(lo <= out[k].height <= hi)
    ensures Budget(Committed(out, lo, hi, peer, port, at)) + (b - a) == Budget(out)
  {
    hide Budget;
    var c := Committed(out, lo, hi, peer, port, at);
    assert c[..a] == out[..a];
    assert c[b..] == out[b..];
    assert c[a..b] == Committed(out[a..b], lo, hi, peer, port, at) by { hide Commit; }
    CommitBudget(out[a..b], lo, hi, peer, port, at);
    hide Committed, Budget;
    BudgetSplit(out, a, b);
    BudgetSplit(c, a, b);
  }

  /** The heights of the offered run sit at consecutive positions, all still within the cap. */
  lemma RunPositions(out: seq<Outstanding>, now: u32, minHeight: u32, i: nat, j: nat)
    requires Ascending(out) && OfferedRun(out, now, minHeight, i, j)
    ensures out[j].height == out[i].height + (j - i)
    ensures forall k :: i <= k <= j ==> out[k].height == out[i].height + (k - i) && out[k].info.attempts < MAX_ATTEMPTS
    ensures forall k :: 0 <= k < i ==> out[k].height < out[i].height
    ensures forall k :: j < k < |out| ==> out[j].height < out[k].height
  {
    assert Joins(out, now, i, j);
    forall k | i <= k <= j ensures out[k].height == out[i].height + (k - i) && out[k].info.attempts < MAX_ATTEMPTS {
      assert Joins(out, now, i, k);
    }
  }

  /** An offered run has at most 1000 heights, and an entry that would carry it on is left out only then. */
  lemma RunIsLongest(out: seq<Outstanding>, now: u32, minHeight: u32, i: nat, j: nat)
    requires OfferedRun(out, now, minHeight, i, j)
    ensures j - i < 1000
    ensures (j + 1 < |out| && Offerable(out[j + 1], now) && out[j + 1].height == out[j].height + 1 &&
             out[j + 1].info.port == out[j].info.port && out[j + 1].info.peer == out[j].info.peer) ==> j - i == 999
  {
    assert Joins(out, now, i, j);
    hide Offerable;
  }

  /** Committing any part [lo..hi] of the offered run spends exactly one offer for each of
      its heights, keeps every attempt count within the cap, and touches nothing else. */
  lemma CommitSpendsRun(out: seq<Outstanding>, now: u32, minHeight: u32, i: nat, j: nat,
                        lo: u32, hi: u32, peer: u128, port: u16, at: u32)
    requires Ascending(out) && AttemptsCapped(out) && OfferedRun(out, now, minHeight, i, j)
    requires out[i].height <= lo <= hi <= out[j].height
    ensures var c := Committed(out, lo, hi, peer, port, at);
            && Budget(c) + (hi - lo + 1) == Budget(out)
            && AttemptsCapped(c)
            && (forall k :: 0 <= k < |out| && !(lo <= out[k].height <= hi) ==> c[k] == out[k])
  {
    hide Ascending, Committed, Budget, AttemptsCapped, Joins;
    RunPositions(out, now, minHeight, i, j);
    hide OfferedRun;
    var a, b := i + (lo - out[i].height), i + (hi - out[i].height) + 1;
    CommitSegment(out, a, b, lo, hi, peer, port, at);
    CommitLeavesRest(out, lo, hi, peer, port, at);
  }

  // ---- whole runs -----------------------------------------------------------

  /** A commit is of some part of a run that a peek names; the other calls are free. */
  ghost predicate Peeked(s: State, op: Op) {
    op.CommitOp? ==> exists now: u32, floor: u32, i: nat, j: nat ::
      OfferedRun(s.outstanding, now, floor, i, j) && s.abandonedBelow <= floor &&
      s.outstanding[i].height <= op.startH <= op.stopH <= s.outstanding[j].height
  }

  ghost predicate AllPeeked(w: World, ops: seq<Op>)
    decreases |ops|
  {
    ops == [] || (AllPeeked(w, ops[..|ops| - 1]) && Peeked(Play(w, ops[..|ops| - 1]).s, ops[|ops| - 1]))
  }

  /** The calls that give a hole new offers: requests, header races, re-arms and a restart. */
  predicate Refills(op: Op) {
    op.RequestOp? || op.HeaderRaceOp? || op.ReArmOp? || op.ReArmRunOp? || op.RestartOp?
  }

  /** The calls that can drop an outstanding hole with offers left. */
  predicate Drops(op: Op) { op.EvaluateOp? || op.AbandonUnscannableOp? || op.RewindOp? }

  /** The heights this call offers. */
  function Cost(s: State, op: Op): int {
    match op
    case NextOp(now) => if Offers(s, now) then 1 else 0
    case CommitOp(startH, stopH, _, _, _) => stopH - startH + 1
    case _ => 0
  }

  ghost function Costs(w: World, ops: seq<Op>): int
    decreases |ops|
  {
    if ops == [] then 0
    else Costs(w, ops[..|ops| - 1]) + Cost(Play(w, ops[..|ops| - 1]).s, ops[|ops| - 1])
  }

  ghost predicate Drivable(s: State) {
    Ascending(s.outstanding) && Ascending(s.gaveUp) && |s.gaveUp| <= GAVEUP_MAX && AttemptsCapped(s.outstanding)
  }

  /** Retry edits that count no attempt. */
  ghost predicate SameAttempts(a: seq<Outstanding>, b: seq<Outstanding>) {
    |a| == |b| && forall k :: 0 <= k < |a| ==> b[k].height == a[k].height && b[k].info.attempts == a[k].info.attempts
  }

  lemma {:induction false} SameAttemptsKeep(a: seq<Outstanding>, b: seq<Outstanding>)
    requires SameAttempts(a, b)
    ensures Budget(a) == Budget(b) && (AttemptsCapped(a) ==> AttemptsCapped(b)) && (Ascending(a) ==> Ascending(b))
    decreases |a|
  {
    if a != [] { SameAttemptsKeep(a[..|a| - 1], b[..|b| - 1]); }
  }

  lemma SameHeightsAscend(a: seq<Outstanding>, b: seq<Outstanding>)
    requires Ascending(a) && |a| == |b| && forall k :: 0 <= k < |a| ==> b[k].height == a[k].height
    ensures Ascending(b)
  {
  }

  /** A contiguous part of a list has no more offers than the list. */
  lemma PartBudget(out: seq<Outstanding>, k: nat)
    requires k <= |out|
    ensures Budget(out[..k]) <= Budget(out) && Budget(out[k..]) <= Budget(out)
    ensures AttemptsCapped(out) ==> AttemptsCapped(out[..k]) && AttemptsCapped(out[k..])
    ensures Ascending(out) ==> Ascending(out[..k]) && Ascending(out[k..])
  {
    assert out == out[..k] + out[k..];
    BudgetConcat(out[..k], out[k..]);
  }

  lemma NextSpends(s: State, now: u32)
    requires Drivable(s)
    ensures Drivable(NextRerequest(s, now))
    ensures Budget(NextRerequest(s, now).outstanding) + (if Offers(s, now) then 1 else 0) == Budget(s.outstanding)
  {
    OfferCostsOne(s, now);
    RetireFromKeeps(s.outstanding, s.gaveUp, 0);
    OfferKeepsCapped(s, now);
    hide RetireFrom, AttemptsCapped, Budget, Offers;
    var r := RetireCapped(s).outstanding;
    var i := FirstOfferable(r, now, 0);
    if i < |r| { SameHeightsAscend(r, r[i := Offered(r[i], now)]); }
  }

  lemma RetireSpendsNothing(s: State)
    requires Drivable(s)
    ensures Drivable(RetireCapped(s)) && Budget(RetireCapped(s).outstanding) == Budget(s.outstanding)
  {
    RetireFromKeeps(s.outstanding, s.gaveUp, 0);
    RetireKeepsBudget(s.outstanding, s.gaveUp, 0);
    RetireKeepsCapped(s.outstanding, s.gaveUp, 0);
    hide RetireFrom, Budget, AttemptsCapped;
  }

  lemma CommitSpends(s: State, op: Op)
    requires Drivable(s) && op.CommitOp? && Peeked(s, op)
    ensures Drivable(Apply(s, op)) && Budget(Apply(s, op).outstanding) + Cost(s, op) == Budget(s.outstanding)
  {
    var now: u32, floor: u32, i: nat, j: nat :| OfferedRun(s.outstanding, now, floor, i, j) &&
        s.abandonedBelow <= floor &&
      s.outstanding[i].height <= op.startH <= op.stopH <= s.outstanding[j].height;
    CommitSpendsRun(s.outstanding, now, floor, i, j, op.startH, op.stopH, op.peer, op.port, op.now);
    hide OfferedRun, Budget, AttemptsCapped, Ascending;
    CommitIs(s, op);
    hide Apply, Committed;
    SameHeightsAscend(s.outstanding, Apply(s, op).outstanding);
  }

  lemma CommitIs(s: State, op: Op)
    requires op.CommitOp?
    ensures Apply(s, op) == s.(outstanding := Committed(s.outstanding, op.startH, op.stopH, op.peer, op.port, op.now))
    ensures |Apply(s, op).outstanding| == |s.outstanding|
    ensures forall k :: 0 <= k < |s.outstanding| ==> Apply(s, op).outstanding[k].height == s.outstanding[k].height
  {
  }

  lemma EvaluateSpendsNothing(s: State, h: u32)
    requires Drivable(s)
    ensures Drivable(MarkEvaluated(s, h)) && Budget(MarkEvaluated(s, h).outstanding) <= Budget(s.outstanding)
  {
    hide Ascending, Budget, Remove, AttemptsCapped;
    RemoveSpendsNothing(s.outstanding, h);
    RemoveHeights(s.outstanding, h);
    RemoveHeights(s.gaveUp, h);
    FewerParked(s.gaveUp, h);
  }

  lemma RemoveSpendsNothing(out: seq<Outstanding>, h: u32)
    requires AttemptsCapped(out)
    ensures AttemptsCapped(Remove(out, h)) && Budget(Remove(out, h)) <= Budget(out)
  {
    hide Budget, LowerBoundFrom;
    if Holds(out, h) {
      var i := LowerBound(out, h);
      BudgetAt(out, i);
      BudgetConcat(out[..i], out[i + 1..]);
    }
  }

  lemma FewerParked(gave: seq<Parked>, h: u32)
    ensures |Remove(gave, h)| <= |gave|
  {
  }

  lemma RewindSpendsNothing(s: State, next: u32)
    requires Drivable(s)
    ensures Drivable(RewindTo(s, next).0) && Budget(RewindTo(s, next).0.outstanding) <= Budget(s.outstanding)
  {
    hide LowerBound, Budget, AttemptsCapped;
    PartBudget(s.outstanding, LowerBound(s.outstanding, next));
  }

  lemma AbandonSpendsNothing(s: State, lo: u32, floor: u32)
    requires Drivable(s)
    ensures var r := AbandonUnscannableBelow(s, lo, floor).0;
            Drivable(r) && Budget(r.outstanding) <= Budget(s.outstanding)
  {
    hide LowerBound, Budget, AttemptsCapped;
    PartBudget(s.outstanding, LowerBound(s.outstanding, floor));
  }

  lemma GiveUpSpendsNothing(s: State, clamp: u32)
    requires Drivable(s)
    ensures var r := AbandonGaveUpBelow(s, clamp).state; Drivable(r) && r.outstanding == s.outstanding
  {
    hide LowerBoundFrom, Budget, AttemptsCapped;
  }

  /** Each call that refills nothing pays for the heights it offers out of the budget, to the offer unless it drops
      holes. */
  lemma StepSpends(s: State, op: Op)
    requires Drivable(s) && Peeked(s, op) && !Refills(op)
    ensures Drivable(Apply(s, op)) && Budget(Apply(s, op).outstanding) + Cost(s, op) <= Budget(s.outstanding)
    ensures !Drops(op) ==> Budget(Apply(s, op).outstanding) + Cost(s, op) == Budget(s.outstanding)
  {
    hide Drivable, Peeked, Budget, Offers, NextRerequest, CommitRerequest, RetireCapped, MarkEvaluated, RewindTo,
      AbandonUnscannableBelow, AbandonGaveUpBelow, RetireAbandonedTo, ReArmPeer, MarkOffersMissedLivePeer;
    match op
    case NextOp(now) => NextSpends(s, now);
    case RetireOp => RetireSpendsNothing(s);
    case CommitOp(_, _, _, _, _) => CommitSpends(s, op);
    case EvaluateOp(h) => EvaluateSpendsNothing(s, h);
    case RewindOp(next) => RewindSpendsNothing(s, next);
    case AbandonUnscannableOp(lo, floor) => AbandonSpendsNothing(s, lo, floor);
    case AbandonGaveUpOp(clamp) => GiveUpSpendsNothing(s, clamp);
    case RetireFloorOp(newFloor) => FloorSpendsNothing(s, newFloor);
    case LosePeerOp(_, _) => EditSpendsNothing(s, op);
    case MissedOp(_, _) => EditSpendsNothing(s, op);
  }

  lemma FloorSpendsNothing(s: State, newFloor: u32)
    requires Drivable(s)
    ensures var r := RetireAbandonedTo(s, newFloor).0; Drivable(r) && r.outstanding == s.outstanding
  {
  }

  lemma EditSpendsNothing(s: State, op: Op)
    requires Drivable(s) && (op.LosePeerOp? || op.MissedOp?)
    ensures Drivable(Apply(s, op)) && Budget(Apply(s, op).outstanding) == Budget(s.outstanding)
  {
    SameAttemptsKeep(s.outstanding, Apply(s, op).outstanding);
  }

  // ---- attempts stay within the cap -----------------------------------------

  lemma InsertCapped(out: seq<Outstanding>, h: u32, peer: u128, port: u16, now: u32)
    requires AttemptsCapped(out)
    ensures AttemptsCapped(Insert(out, h, peer, port, now).0)
  {
    var r := Insert(out, h, peer, port, now).0;
    forall k | 0 <= k < |r| ensures r[k].info.attempts <= MAX_ATTEMPTS { InsertedAttempts(out, h, peer, port, now, k); }
    hide Insert;
  }

  /** Every entry after an insertion is fresh, or has the attempts of an entry before it. */
  lemma InsertedAttempts(out: seq<Outstanding>, h: u32, peer: u128, port: u16, now: u32, k: nat)
    requires k < |Insert(out, h, peer, port, now).0|
    ensures var e := Insert(out, h, peer, port, now).0[k];
            e.info.attempts == 0 || exists i :: 0 <= i < |out| && out[i].info.attempts == e.info.attempts
  {
    hide LowerBoundFrom;
    var i, added := LowerBound(out, h), Fresh(h, peer, port, now);
    if i < |out| && out[i].height == h {
      assert out[k].info.attempts == Insert(out, h, peer, port, now).0[k].info.attempts;
    } else if |out| >= OUTSTANDING_MAX {
      var j := if i > 0 then i - 1 else 0;
      InsertedAt(out[1..], j, added, k);
      if k != j { var m := if k < j then k + 1 else k; assert InsertAt(out[1..], j, added)[k] == out[m]; }
    } else {
      InsertedAt(out, i, added, k);
      if k != i { var m := if k < i then k else k - 1; assert InsertAt(out, i, added)[k] == out[m]; }
    }
  }

  lemma InsertedAt<T>(s: seq<T>, i: nat, e: T, k: nat)
    requires i <= |s| && k <= |s|
    ensures |InsertAt(s, i, e)| == |s| + 1
    ensures InsertAt(s, i, e)[k] == if k < i then s[k] else if k == i then e else s[k - 1]
  {
  }

  lemma {:induction false} InsertRangeCapped(out: seq<Outstanding>, from: nat, end: nat, peer: u128, port: u16,
                                             now: u32)
    requires from <= end <= 0x1_0000_0000 && AttemptsCapped(out)
    ensures AttemptsCapped(InsertRange(out, from, end, peer, port, now).0)
    decreases end
  {
    hide Insert, AttemptsCapped;
    if from < end {
      InsertRangeCapped(out, from, end - 1, peer, port, now);
      InsertCapped(InsertRange(out, from, end - 1, peer, port, now).0, end - 1, peer, port, now);
    }
  }

  lemma HeaderRaceCapped(s: State, h: u32)
    requires AttemptsCapped(s.outstanding)
    ensures AttemptsCapped(MarkHeaderRace(s, h).0.outstanding)
  {
    InsertCapped(s.outstanding, h, 0, 0, 0);
    hide Insert, LowerBoundFrom;
  }

  lemma ReArmGaveUpCapped(s: State, h: u32)
    requires AttemptsCapped(s.outstanding)
    ensures AttemptsCapped(ReArmGaveUp(s, h).0.outstanding)
  {
    InsertCapped(s.outstanding, h, 0, 0, 0);
    hide Insert, LowerBoundFrom;
  }

  lemma {:induction false} ReArmRunCapped(s: State, h: u32, budget: nat)
    requires AttemptsCapped(s.outstanding)
    ensures AttemptsCapped(ReArmRun(s, h, budget).0.outstanding)
    decreases budget
  {
    hide ReArmGaveUp;
    if ReArmRun(s, h, budget).1 > 0 {
      var r := if Holds(s.outstanding, h) then ReArmInPlace(s, h) else ReArmGaveUp(s, h).0;
      ReArmGaveUpCapped(s, h);
      assert AttemptsCapped(r.outstanding);
      hide ReArmInPlace, AttemptsCapped;
      if h < U32_MAX { ReArmRunCapped(r, h + 1, budget - 1); }
    }
  }

  lemma RefillCapped(s: State, op: Op)
    requires AttemptsCapped(s.outstanding) && Refills(op)
    ensures AttemptsCapped(Apply(s, op).outstanding)
  {
    hide InsertRange, Insert, ReArmGaveUp, ReArmRun, MarkHeaderRace;
    match op
    case RequestOp(startH, stopH, peer, port, now) =>
      var from := Max(startH, s.abandonedBelow);
      if from <= stopH { InsertRangeCapped(s.outstanding, from, stopH + 1, peer, port, now); }
    case HeaderRaceOp(h) => HeaderRaceCapped(s, h);
    case ReArmOp(h) => ReArmGaveUpCapped(s, h);
    case ReArmRunOp(startH, maxRun) => ReArmRunCapped(s, startH, maxRun);
    case RestartOp =>
  }

  /** What a caller can check on the list before a commit: no hole of its range has had all its attempts. */
  ghost predicate SparesSpent(s: State, op: Op) {
    op.CommitOp? ==> forall i :: 0 <= i < |s.outstanding| && op.startH <= s.outstanding[i].height <= op.stopH ==>
                                   s.outstanding[i].info.attempts != MAX_ATTEMPTS
  }

  lemma CommitCapped(s: State, op: Op)
    requires AttemptsCapped(s.outstanding) && op.CommitOp?
    ensures AttemptsCapped(Apply(s, op).outstanding) <==> SparesSpent(s, op)
  {
    var after := Apply(s, op).outstanding;
    CommitIs(s, op);
    forall i | 0 <= i < |s.outstanding|
      ensures after[i].info.attempts <= MAX_ATTEMPTS <==>
              !(op.startH <= s.outstanding[i].height <= op.stopH && s.outstanding[i].info.attempts == MAX_ATTEMPTS)
    {
      CommitAt(s.outstanding, i, op);
    }
    hide Apply, Committed;
  }

  lemma CommitAt(out: seq<Outstanding>, i: nat, op: Op)
    requires op.CommitOp? && i < |out| && out[i].info.attempts <= MAX_ATTEMPTS
    ensures var e := Committed(out, op.startH, op.stopH, op.peer, op.port, op.now)[i];
            e.info.attempts == out[i].info.attempts + if op.startH <= out[i].height <= op.stopH then 1 else 0
  {
  }

  /** From a list within the cap, a commit keeps it so exactly when no hole of its range has had all its attempts, and
      every other operation keeps it so. */
  lemma StepKeepsCap(w: World, op: Op)
    requires Sound(w) && AttemptsCapped(w.s.outstanding)
    ensures AttemptsCapped(Apply(w.s, op).outstanding) <==> SparesSpent(w.s, op)
  {
    hide Apply, AttemptsCapped, Ascending, HolesInRange, Budget;
    if op.CommitOp? {
      CommitCapped(w.s, op);
    } else if Refills(op) {
      RefillCapped(w.s, op);
    } else {
      StepSpends(w.s, op);
    }
  }

  /** Part of a peeked run spares every hole that has had all its attempts. */
  lemma PeekedSpares(s: State, op: Op)
    requires Ascending(s.outstanding) && Peeked(s, op)
    ensures SparesSpent(s, op)
  {
    if op.CommitOp? {
      var now: u32, floor: u32, i: nat, j: nat :| OfferedRun(s.outstanding, now, floor, i, j) &&
          s.abandonedBelow <= floor &&
        s.outstanding[i].height <= op.startH <= op.stopH <= s.outstanding[j].height;
      RunPositions(s.outstanding, now, floor, i, j);
      hide OfferedRun, Ascending;
    }
  }

  /** At every point of the run no attempt count is past the cap. */
  ghost predicate AlwaysCapped(w: World, ops: seq<Op>)
    decreases |ops|
  {
    AttemptsCapped(Play(w, ops).s.outstanding) && (ops == [] || AlwaysCapped(w, ops[..|ops| - 1]))
  }

  ghost predicate AlwaysSpares(w: World, ops: seq<Op>)
    decreases |ops|
  {
    ops == [] || (AlwaysSpares(w, ops[..|ops| - 1]) && SparesSpent(Play(w, ops[..|ops| - 1]).s, ops[|ops| - 1]))
  }

  lemma CappedNow(w: World, ops: seq<Op>)
    requires AlwaysCapped(w, ops)
    ensures AttemptsCapped(Play(w, ops).s.outstanding)
  {
  }

  /** In a lawful run no attempt count ever passes the cap exactly when no commit touches a hole that has had all its
      attempts. */
  lemma {:induction false} CapHoldsIff(start: u32, ops: seq<Op>)
    requires 0 < start < U32_MAX && Lawful(Born(start), ops)
    ensures AlwaysCapped(Born(start), ops) <==> AlwaysSpares(Born(start), ops)
    decreases |ops|
  {
    hide Apply, Sound, SparesSpent;
    if ops != [] {
      var before := ops[..|ops| - 1];
      RunKeeps(Born(start), before);
      CapHoldsIff(start, before);
      if AlwaysCapped(Born(start), before) {
        CappedNow(Born(start), before);
        StepKeepsCap(Play(Born(start), before), ops[|ops| - 1]);
      }
    }
  }

  lemma {:induction false} PeekedAlwaysSpares(start: u32, ops: seq<Op>)
    requires 0 < start < U32_MAX && Lawful(Born(start), ops) && AllPeeked(Born(start), ops)
    ensures AlwaysSpares(Born(start), ops)
    decreases |ops|
  {
    hide SparesSpent, Peeked, Apply;
    if ops != [] {
      RunKeeps(Born(start), ops[..|ops| - 1]);
      PeekedAlwaysSpares(start, ops[..|ops| - 1]);
      PeekedSpares(Play(Born(start), ops[..|ops| - 1]).s, ops[|ops| - 1]);
    }
  }

  /** So in every lawful run whose commits are of peeked runs, no attempt count ever passes the cap. */
  lemma AttemptsStayCapped(start: u32, ops: seq<Op>)
    requires 0 < start < U32_MAX && Lawful(Born(start), ops) && AllPeeked(Born(start), ops)
    ensures Drivable(Play(Born(start), ops).s)
    ensures forall e :: e in Play(Born(start), ops).s.outstanding ==> e.info.attempts <= MAX_ATTEMPTS
  {
    RunKeeps(Born(start), ops);
    PeekedAlwaysSpares(start, ops);
    CapHoldsIff(start, ops);
    CappedNow(Born(start), ops);
    hide Play, Lawful, AllPeeked, AlwaysCapped, AlwaysSpares;
  }

  /** From any such ledger, over any operations that refill nothing (offers of both kinds, retirements, evaluations,
      misses, lost peers, abandonments, floor retirements and rewinds, in any order): the offers made and the offers
      left are never more than there were at first, at most five for each hole; and exactly as many when no hole with
      offers left is dropped. */
  lemma {:induction false} OffersSpendBudget(w: World, ops: seq<Op>)
    requires Drivable(w.s) && AllPeeked(w, ops) && forall op :: op in ops ==> !Refills(op)
    ensures Drivable(Play(w, ops).s)
    ensures Budget(Play(w, ops).s.outstanding) +
            Costs(w, ops) <= Budget(w.s.outstanding) <= MAX_ATTEMPTS * |w.s.outstanding|
    ensures (forall op :: op in ops ==> !Drops(op)) ==>
              Budget(Play(w, ops).s.outstanding) + Costs(w, ops) == Budget(w.s.outstanding)
    decreases |ops|
  {
    hide Apply, Cost, Peeked, Budget, Drivable, Refills, Drops;
    BudgetBound(w.s.outstanding);
    if ops != [] {
      var before := ops[..|ops| - 1];
      OffersSpendBudget(w, before);
      StepSpends(Play(w, before).s, ops[|ops| - 1]);
    }
  }

  /** Retries terminate: after any lawful run whose commits are of peeked runs, a stretch without new requests, header
      races, re-arms or a restart makes at most five offers for each hole outstanding at its start. */
  lemma RetriesTerminate(start: u32, before: seq<Op>, stretch: seq<Op>)
    requires 0 < start < U32_MAX && Lawful(Born(start), before) && AllPeeked(Born(start), before)
    requires AllPeeked(Play(Born(start), before), stretch) && forall op :: op in stretch ==> !Refills(op)
    ensures var w := Play(Born(start), before);
            Costs(w, stretch) <= Budget(w.s.outstanding) - Budget(Play(w, stretch).s.outstanding)
            <= MAX_ATTEMPTS * |w.s.outstanding|
  {
    hide *;
    AttemptsStayCapped(start, before);
    OffersSpendBudget(Play(Born(start), before), stretch);
  }
}
