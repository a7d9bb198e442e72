/** Lawful runs of the scan ledger that end where a claim made of it fails. */
module LedgerWitnesses {
  import opened FixedWidth
  import opened SortedHoles
  import opened LedgerSpec
  import opened LedgerHistory
  import opened LedgerMarks
  import opened LedgerEvidence
  import opened LedgerOverlap
  import opened LedgerRetries
  import opened Abandonment
  import opened AbandonmentRecord

  /** After `ops` the ledger born at height 1 is in state s with trail t. */
  ghost predicate At(ops: seq<Op>, s: State, t: Trail) {
    Lawful(Born(1), ops) && Play(Born(1), ops).s == s && TrailOf(Born(1), ops) == t
  }

  lemma Extend(ops: seq<Op>, op: Op, s: State, t: Trail)
    requires At(ops, s, t) && Allowed(s, op)
    ensures At(ops + [op], Apply(s, op), Traced(t, s, op))
  {
    assert (ops + [op])[..|ops + [op]| - 1] == ops;
  }

  /** Height 1 tried `attempts` times and not yet parked. */
  function Tried(attempts: u8): State {
    State(1, 0, 1, 0, [Hole(1, Retry(0, 0, 0, attempts, 0, 0, 1))], [], 0)
  }

  const NO_TRAIL := Trail(multiset{}, {})

  lemma FirstTry()
    ensures Apply(Init(1), RequestOp(1, 1, 0, 0, 0)) == Tried(0)
    ensures Traced(NO_TRAIL, Init(1), RequestOp(1, 1, 0, 0, 0)) == NO_TRAIL
  {
    assert InsertRange([], 1, 1, 0, 0, 0) == ([], []);
    assert InsertRange([], 1, 2, 0, 0, 0).0 == [Fresh(1, 0, 0, 0)];
    assert ArmRange({}, [], 1, 1, 0, 0, 0) == {};
    assert ArmRange({}, [], 1, 2, 0, 0, 0) == {};
  }

  lemma AnotherTry(n: u8)
    requires n < 0xFF
    ensures Apply(Tried(n), CommitOp(1, 1, 0, 0, 0)) == Tried(n + 1)
    ensures Traced(NO_TRAIL, Tried(n), CommitOp(1, 1, 0, 0, 0)) == NO_TRAIL
  {
    assert Apply(Tried(n), CommitOp(1, 1, 0, 0, 0)).outstanding == Tried(n + 1).outstanding;
  }

  const PARKED := State(1, 0, 1, 0, [], [Hole(1, Verdict(0, 1))], 0)

  lemma LastTryParks()
    ensures Apply(Tried(5), RetireOp) == PARKED && Traced(NO_TRAIL, Tried(5), RetireOp) == NO_TRAIL
  {
    var out: seq<Outstanding> := Tried(5).outstanding;
    var gave: seq<Parked> := [Hole(1, Verdict(0, 1))];
    assert InsertAt<Parked>([], 0, Hole(1, Verdict(0, 1))) == gave;
    assert RemoveAt(out, 0) == [];
    assert RetireFrom([], gave, 0) == ([], gave);
    assert RetireFrom(out, [], 0) == RetireFrom([], gave, 0);
  }

  const RACED := PARKED.(outstanding := [Hole(1, Retry(0, 0, 0, 0, 1, 0, 1))])

  lemma RaceRevives()
    ensures Apply(PARKED, HeaderRaceOp(1)) == RACED && Traced(NO_TRAIL, PARKED, HeaderRaceOp(1)) == NO_TRAIL
  {
  }

  const MISSED := PARKED.(outstanding := [Hole(1, Retry(0, 0, 0, 0, 1, 0, 0))])

  lemma MissTaints()
    ensures Apply(RACED, MissedOp(1, 1)) == MISSED
    ensures 1 in Traced(NO_TRAIL, RACED, MissedOp(1, 1)).tainted && 1 in Heights(MISSED.outstanding)
  {
    assert Apply(RACED, MissedOp(1, 1)).outstanding == MISSED.outstanding;
    SingletonHeights(RACED.outstanding[0]);
    SingletonHeights(MISSED.outstanding[0]);
  }

  /** Height 1 tried n times, by commits alone. */
  lemma {:induction false} TryTimes(n: u8) returns (ops: seq<Op>)
    ensures At(ops, Tried(n), NO_TRAIL)
    decreases n
  {
    hide Apply, Traced, Tried;
    if n == 0 {
      FirstTry();
      Extend([], RequestOp(1, 1, 0, 0, 0), Init(1), NO_TRAIL);
      ops := [] + [RequestOp(1, 1, 0, 0, 0)];
    } else {
      var before := TryTimes(n - 1);
      AnotherTry(n - 1);
      hide At;
      Extend(before, CommitOp(1, 1, 0, 0, 0), Tried(n - 1), NO_TRAIL);
      ops := before + [CommitOp(1, 1, 0, 0, 0)];
    }
  }

  lemma ParksAfterFive() returns (ops: seq<Op>)
    ensures At(ops, PARKED, NO_TRAIL)
  {
    var tried := TryTimes(5);
    LastTryParks();
    hide Apply, Traced, Tried, At;
    Extend(tried, RetireOp, Tried(5), NO_TRAIL);
    ops := tried + [RetireOp];
  }

  // ---- both lists at once ---------------------------------------------------

  /** A header race of a parked height puts it in both lists. */
  lemma ListsCanOverlap() returns (ops: seq<Op>)
    ensures Lawful(Born(1), ops) && !Apart(Play(Born(1), ops).s)
    ensures At(ops, RACED, NO_TRAIL)
  {
    var parked := ParksAfterFive();
    RaceRevives();
    SingletonHeights(RACED.outstanding[0]);
    SingletonHeights(RACED.gaveUp[0]);
    assert 1 in Heights(RACED.outstanding) && 1 in Heights(RACED.gaveUp);
    hide Apply, Traced;
    Extend(parked, HeaderRaceOp(1), PARKED, NO_TRAIL);
    ops := parked + [HeaderRaceOp(1)];
  }

  /** A lawful run that ends with a parked hole whose latch is set although a later
      missed offer touched its height: it was header-raced back into outstanding. */
  lemma VerdictCanBeStale() returns (ops: seq<Op>)
    ensures Lawful(Born(1), ops)
    ensures 1 in TrailOf(Born(1), ops).tainted && 1 in Heights(Play(Born(1), ops).s.outstanding)
    ensures Hole(1, Verdict(0, 1)) in Play(Born(1), ops).s.gaveUp
  {
    var raced := ListsCanOverlap();
    MissTaints();
    hide Apply, Traced, Lawful, TrailOf, Play;
    Extend(raced, MissedOp(1, 1), RACED, NO_TRAIL);
    ops := raced + [MissedOp(1, 1)];
  }

  // ---- retries --------------------------------------------------------------

  /** Commits of ranges that no peek named pass the cap. */
  lemma UnpeekedCommitsPassTheCap() returns (ops: seq<Op>)
    ensures Lawful(Born(1), ops) && !AttemptsCapped(Play(Born(1), ops).s.outstanding)
  {
    ops := TryTimes(6);
    assert Tried(6).outstanding[0].info.attempts == 6;
    hide Play, TrailOf, Lawful;
  }

  // ---- marks ----------------------------------------------------------------

  /** A rewind above everything cuts nothing and says so, while the mark moves. */
  lemma RewindCanStaySilent() returns (ops: seq<Op>)
    ensures Lawful(Born(1), ops)
    ensures var s := Play(Born(1), ops).s;
            s.scannedThrough == 0 && RewindTo(s, 5) == (s.(scannedThrough := 1), false)
  {
    var parked := ParksAfterFive();
    GivesUp();
    SilentRewind();
    assert Allowed(PARKED, AbandonGaveUpOp(2));
    hide *;
    Extend(parked, AbandonGaveUpOp(2), PARKED, NO_TRAIL);
    ops := parked + [AbandonGaveUpOp(2)];
    AtMeans(ops, GIVEN_UP, Traced(NO_TRAIL, PARKED, AbandonGaveUpOp(2)));
  }

  const GIVEN_UP := State(1, 0, 1, 2, [], [], 0)

  lemma GivesUp()
    ensures Apply(PARKED, AbandonGaveUpOp(2)) == GIVEN_UP
  {
    LowerBoundUnique(PARKED.gaveUp, 2, 1);
    assert PARKED.gaveUp[1..] == [];
    hide LowerBound;
  }

  lemma SilentRewind()
    ensures GIVEN_UP.scannedThrough == 0 && RewindTo(GIVEN_UP, 5) == (GIVEN_UP.(scannedThrough := 1), false)
  {
    assert CutTo(GIVEN_UP, 5) == GIVEN_UP;
  }

  /** The second abandoning call raises the floor past a hole that is still outstanding. */
  lemma FloorCanPassOutstanding() returns (ops: seq<Op>)
    ensures Lawful(Born(1), ops)
    ensures var s := Play(Born(1), ops).s;
            1 in Heights(s.outstanding) && Apply(s, AbandonUnscannableOp(1, 2)).abandonedBelow == 2
  {
    ops := TryTimes(0);
    SurfacesOutstanding();
    hide *;
    AtMeans(ops, Tried(0), NO_TRAIL);
  }

  lemma SurfacesOutstanding()
    ensures 1 in Heights(Tried(0).outstanding) && Apply(Tried(0), AbandonUnscannableOp(1, 2)).abandonedBelow == 2
  {
    SingletonHeights(Tried(0).outstanding[0]);
    hide LowerBound, Heights, Advanced;
    AdvancedFloor(Tried(0).(outstanding := Tried(0).outstanding[LowerBound(Tried(0).outstanding, 2)..],
                            gaveUp := Tried(0).gaveUp[LowerBound(Tried(0).gaveUp, 2)..], abandonedBelow := 2));
  }

  lemma AdvancedFloor(s: State)
    ensures Advanced(s).abandonedBelow == s.abandonedBelow
  {
  }

  const DONE := State(1, 1, 1, 0, [], [], 0)
  const REOPENED := DONE.(outstanding := [Hole(1, Retry(0, 0, 0, 0, 1, 0, 1))])
  const ASKED := REOPENED.(outstanding := REOPENED.outstanding + [Fresh(2, 0, 0, 0)], requestedThrough := 2)
  const STUCK := REOPENED.(requestedThrough := 2)

  lemma Reopens()
    ensures Apply(Tried(0), EvaluateOp(1)) == DONE && Apply(DONE, HeaderRaceOp(1)) == REOPENED
  {
    LowerBoundUnique(Tried(0).outstanding, 1, 0);
    LowerBoundUnique(DONE.outstanding, 1, 0);
    LowerBoundUnique(DONE.gaveUp, 1, 0);
    LowerBoundUnique([Fresh(1, 0, 0, 0)], 1, 0);
    hide LowerBound;
    assert RemoveAt(Tried(0).outstanding, 0) == [];
    assert InsertAt<Outstanding>([], 0, Fresh(1, 0, 0, 0)) == [Fresh(1, 0, 0, 0)];
  }

  lemma AsksOn()
    ensures Apply(REOPENED, RequestOp(2, 2, 0, 0, 0)) == ASKED
  {
    assert InsertRange(REOPENED.outstanding, 2, 2, 0, 0, 0) == (REOPENED.outstanding, []);
    assert LowerBound(REOPENED.outstanding, 2) == 1;
    assert InsertRange(REOPENED.outstanding, 2, 3, 0, 0, 0).0 == ASKED.outstanding;
  }

  lemma GetsStuck()
    ensures Apply(ASKED, EvaluateOp(2)) == STUCK
  {
    assert LowerBoundFrom(ASKED.outstanding, 2, 1) == 1;
    assert LowerBound(ASKED.outstanding, 2) == 1;
    assert RemoveAt(ASKED.outstanding, 1) == STUCK.outstanding;
  }

  /** With a height reopened below the mark, the closed form stays where the one-height walk goes on. */
  lemma ClosedFormCanStay() returns (ops: seq<Op>)
    ensures Lawful(Born(1), ops)
    ensures var s := Play(Born(1), ops).s;
            Advanced(s).scannedThrough == 1 && Walk(s.scannedThrough, s.requestedThrough, Holes(s)) == 2
  {
    var a, b, c, d := EvaluateOp(1), HeaderRaceOp(1), RequestOp(2, 2, 0, 0, 0), EvaluateOp(2);
    var first := TryTimes(0);
    Reopens();
    AsksOn();
    GetsStuck();
    StuckDiffers();
    assert Allowed(DONE, b) && Allowed(REOPENED, c);
    hide Apply, Traced, Tried, Allowed, At, LowerBound, Walk, Advanced;
    assert Allowed(Tried(0), a) && Allowed(ASKED, d) by { FreeToEvaluate(Tried(0), 1); FreeToEvaluate(ASKED, 2); }
    var t1 := Traced(NO_TRAIL, Tried(0), a);
    Extend(first, a, Tried(0), NO_TRAIL);
    Extend(first + [a], b, DONE, t1);
    Extend(first + [a] + [b], c, REOPENED, Traced(t1, DONE, b));
    Extend(first + [a] + [b] + [c], d, ASKED, Traced(Traced(t1, DONE, b), REOPENED, c));
    ops := first + [a] + [b] + [c] + [d];
    AtMeans(ops, STUCK, Traced(Traced(Traced(t1, DONE, b), REOPENED, c), ASKED, d));
  }

  lemma FreeToEvaluate(s: State, h: u32)
    ensures Allowed(s, EvaluateOp(h))
  {
  }

  lemma AtMeans(ops: seq<Op>, s: State, t: Trail)
    requires At(ops, s, t)
    ensures Lawful(Born(1), ops) && Play(Born(1), ops).s == s
  {
  }

  lemma StuckDiffers()
    ensures Advanced(STUCK).scannedThrough == 1
    ensures Walk(STUCK.scannedThrough, STUCK.requestedThrough, Holes(STUCK)) == 2
  {
    SingletonHeights(STUCK.outstanding[0]);
    assert STUCK.outstanding == [STUCK.outstanding[0]];
    assert Holes(STUCK) == {1};
    assert Walk(2, 2, {1}) == 2;
  }

  // ---- evictions ------------------------------------------------------------

  /** Heights 1 to n, just requested. */
  function Rungs(n: nat): seq<Outstanding>
    requires n <= OUTSTANDING_MAX
  {
    seq(n, i requires 0 <= i < n => Fresh(1 + i, 0, 0, 0))
  }

  lemma InsertPastAll(out: seq<Outstanding>, h: u32)
    requires |out| <= OUTSTANDING_MAX && forall e :: e in out ==> e.height < h
    ensures |out| < OUTSTANDING_MAX ==> Insert(out, h, 0, 0, 0) == (out + [Fresh(h, 0, 0, 0)], NO_DROP)
    ensures |out| == OUTSTANDING_MAX ==> Insert(out, h, 0, 0, 0) == (out[1..] + [Fresh(h, 0, 0, 0)], out[0].height)
  {
    LowerBoundUnique(out, h, |out|);
    hide LowerBound;
    assert InsertAt(out, |out|, Fresh(h, 0, 0, 0)) == out + [Fresh(h, 0, 0, 0)];
    assert |out| == OUTSTANDING_MAX ==>
           InsertAt(out[1..], |out| - 1, Fresh(h, 0, 0, 0)) == out[1..] + [Fresh(h, 0, 0, 0)];
  }

  lemma InsertRangeLast(from: nat, h: u32)
    requires from <= h
    ensures InsertRange([], from, from, 0, 0, 0) == ([], [])
    ensures var before := InsertRange([], from, h, 0, 0, 0);
            var last := Insert(before.0, h, 0, 0, 0);
            InsertRange([], from, h + 1, 0, 0, 0) ==
              (last.0, if last.1 != NO_DROP then before.1 + [last.1] else before.1)
  {
    hide Insert;
  }

  lemma RungsNext(n: nat)
    requires n <= OUTSTANDING_MAX
    ensures |Rungs(n)| == n && forall e :: e in Rungs(n) ==> e.height < n + 1
    ensures n == 0 ==> Rungs(n) == []
    ensures n > 0 ==> Rungs(n)[0] == Fresh(1, 0, 0, 0) && Rungs(n) == Rungs(n - 1) + [Fresh(n, 0, 0, 0)]
  {
  }

  lemma {:induction false} Climb(n: nat)
    requires n <= OUTSTANDING_MAX
    ensures InsertRange([], 1, n + 1, 0, 0, 0) == (Rungs(n), [])
    decreases n
  {
    hide InsertRange, Insert, Rungs, Fresh;
    RungsNext(n);
    InsertRangeLast(1, if n > 0 then n else 1);
    if n > 0 {
      Climb(n - 1);
      RungsNext(n - 1);
      InsertPastAll(Rungs(n - 1), n);
    }
  }

  lemma OneTooMany(n: nat, top: u32)
    requires n == OUTSTANDING_MAX && top == n + 1
    ensures |Rungs(n)| == n && InsertRange([], 1, top + 1, 0, 0, 0) == (Rungs(n)[1..] + [Fresh(top, 0, 0, 0)], [1])
  {
    hide InsertRange, Insert, Rungs;
    Climb(n);
    RungsNext(n);
    InsertPastAll(Rungs(n), top);
    InsertRangeLast(1, top);
    var none: seq<u32> := [];
    assert none + [1] == [1];
    assert Insert(Rungs(n), top, 0, 0, 0).1 == 1;
  }

  /** The ledger once the request after that has pushed height 1 out and the last height is evaluated. */
  lemma LastEvaluated(n: nat, top: u32)
    requires n == OUTSTANDING_MAX && top == n + 1
    ensures |Rungs(n)| == n
    ensures Apply(Apply(Init(1), RequestOp(1, top, 0, 0, 0)), EvaluateOp(top)) ==
            State(1, 1, top, 0, Rungs(n)[1..], [], 0)
    ensures Evictions(Init(1), RequestOp(1, top, 0, 0, 0)) == {1}
  {
    OneTooMany(n, top);
    RungsNext(n);
    SecondRung(n);
    var left := Rungs(n)[1..];
    var out := left + [Fresh(top, 0, 0, 0)];
    hide Rungs, InsertRange;
    LowerBoundUnique(out, top, n - 1);
    assert RemoveAt(out, n - 1) == left;
    LowerBoundUnique<Verdict>([], top, 0);
    hide LowerBound;
    assert left[0].height == 2;
    var asked := State(1, 0, top, 0, out, [], 0);
    assert RecordRequested(Init(1), 1, top, 0, 0, 0) == (asked, [1]);
    assert Evictions(Init(1), RequestOp(1, top, 0, 0, 0)) == {1};
    assert Remove(out, top) == left;
    assert MarkEvaluated(asked, top) == State(1, 1, top, 0, left, [], 0);
    hide RecordRequested, MarkEvaluated;
  }

  lemma SecondRung(n: nat)
    requires n == OUTSTANDING_MAX
    ensures Rungs(n)[1].height == 2
  {
  }

  lemma PlayTwo(w: World, a: Op, b: Op)
    ensures Play(w, [a, b]) == Next(Next(w, a), b)
    ensures Lawful(w, [a, b]) <==> Allowed(w.s, a) && Allowed(Next(w, a).s, b)
  {
    assert [a, b][..1] == [a] && [a][..0] == [];
    assert Play(w, [a]) == Next(w, a);
    assert Lawful(w, [a]) <==> Allowed(w.s, a);
    hide Apply, Recorded;
  }

  /** A verdict can stand on a height nobody evaluated: it fell out of a full outstanding[]. */
  lemma VerdictCanRestOnEviction() returns (ops: seq<Op>)
    ensures Lawful(Born(1), ops)
    ensures var w := Play(Born(1), ops);
            CoverageIsProvenByLedger(w.s, Band(1, 1, true)) && 1 in w.k.evicted && 1 !in w.k.evaluated
  {
    var top: u32 := OUTSTANDING_MAX + 1;
    var a, b := RequestOp(1, top, 0, 0, 0), EvaluateOp(top);
    ops := [a, b];
    LastEvaluated(OUTSTANDING_MAX, top);
    PlayTwo(Born(1), a, b);
    hide Apply, Evictions, Rungs, Play, Lawful;
  }

  // ---- a ledger born inside the band ----------------------------------------

  /** A ledger born at h once h is evaluated. */
  function Scanned(h: u32): State { State(h, h, h, 0, [], [], 0) }

  lemma ScansOne(h: u32)
    requires 0 < h < U32_MAX
    ensures var asked := Apply(Init(h), RequestOp(h, h, 0, 0, 0));
            && Apply(asked, EvaluateOp(h)) == Scanned(h)
            && Recorded(Recorded(History({}, {}, {}), Init(h), RequestOp(h, h, 0, 0, 0)), asked, EvaluateOp(h)) ==
                 History({h}, {}, {})
    ensures Allowed(Init(h), RequestOp(h, h, 0, 0, 0))
  {
    var one := [Fresh(h, 0, 0, 0)];
    OneRequest(h);
    LowerBoundUnique(one, h, 0);
    LowerBoundUnique<Verdict>([], h, 0);
    hide LowerBound, InsertRange, Fresh;
    assert RemoveAt(one, 0) == [];
    assert Below(0) == {};
  }

  lemma OneRequest(h: u32)
    requires h < U32_MAX
    ensures InsertRange([], h, h + 1, 0, 0, 0) == ([Fresh(h, 0, 0, 0)], [])
  {
    hide InsertRange, Insert, Fresh;
    InsertRangeLast(h, h);
    InsertPastAll([], h);
    var none: seq<Outstanding>, dropped: seq<u32> := [], [];
    assert none + [Fresh(h, 0, 0, 0)] == [Fresh(h, 0, 0, 0)];
    assert Insert(none, h, 0, 0, 0).1 == NO_DROP;
  }

  /** Whatever the known band, two polls of one ledger born at its top recover it although its lowest heights lie below
      the ledger's start and were never in its account. */
  lemma RecoveryCanStartBelow(low: u32, high: u32) returns (ops: seq<Op>)
    requires 0 < low < high < U32_MAX - 1
    ensures Lawful(Born(high), ops)
    ensures var w := Play(Born(high), ops);
            var seen := Polled(Record(Band(low, high, true), true, false, false), 0, Read(Born(high).s));
            && !seen.recovered && Polled(seen, 0, Read(w.s)).recovered
            && low !in w.k.evaluated + w.k.evicted + w.k.abandoned && low !in Holes(w.s)
  {
    var a, b := RequestOp(high, high, 0, 0, 0), EvaluateOp(high);
    ops := [a, b];
    ScansOne(high);
    PlayTwo(Born(high), a, b);
    TwoPolls(low, high);
    hide Apply, Recorded, Play, Lawful, Polled, Read;
  }

  lemma TwoPolls(low: u32, high: u32)
    requires 0 < low < high < U32_MAX - 1
    ensures var seen := Polled(Record(Band(low, high, true), true, false, false), 0, Read(Init(high)));
            !seen.recovered && Polled(seen, 0, Read(Scanned(high))).recovered
  {
  }
}
