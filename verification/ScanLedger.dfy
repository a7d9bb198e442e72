/** The ledger as it runs. */
module ScanLedger {
  // The compact-filter scan ledger in fixed arrays shifted in place.

  import opened FixedWidth
  import opened LittleEndian
  import opened SortedHoles
  import opened LedgerSpec
  import opened LedgerRetries
  import Blob = LedgerBlob

  const NO_ENTRY: Outstanding := Hole(0, Retry(0, 0, 0, 0, 0, 0, 0))

  /** memmove(&a[i + 1], &a[i], n - i), then a[i] = x. */
  method OpenSlot<T>(a: array<T>, i: nat, n: nat, x: T)
    requires i <= n < a.Length
    modifies a
    ensures a[..n + 1] == InsertAt(old(a[..n]), i, x)
  {
    forall k | i <= k < n {
      a[k + 1] := a[k];
    }
    a[i] := x;
    assert a[..n + 1] == a[..i] + [x] + a[i + 1..n + 1];
  }

  /** memmove(&a[to], &a[from], n - from): close the gap [to..from). */
  method CloseGap<T>(a: array<T>, to: nat, from: nat, n: nat)
    requires to <= from <= n <= a.Length
    modifies a
    ensures a[..n - (from - to)] == old(a[..to] + a[from..n])
  {
    forall k | from <= k < n {
      a[k - from + to] := a[k];
    }
    assert a[..n - (from - to)] == a[..to] + a[to..n - (from - to)];
  }

  /** The parked list as gaveUp[] and its two parallel byte arrays spell it. */
  function Zip(h: seq<u32>, c: seq<u8>, l: seq<u8>): (s: seq<Parked>)
    requires |h| == |c| == |l|
    ensures |s| == |h|
    ensures forall i :: 0 <= i < |s| ==> s[i] == Hole(h[i], Verdict(c[i], l[i]))
  {
    seq(|h|, i requires 0 <= i < |h| => Hole(h[i], Verdict(c[i], l[i])))
  }

  lemma ZipConcat(h: seq<u32>, c: seq<u8>, l: seq<u8>, h': seq<u32>, c': seq<u8>, l': seq<u8>)
    requires |h| == |c| == |l| && |h'| == |c'| == |l'|
    ensures Zip(h + h', c + c', l + l') == Zip(h, c, l) + Zip(h', c', l')
  {
  }

  lemma ZipSlice(h: seq<u32>, c: seq<u8>, l: seq<u8>, i: nat)
    requires |h| == |c| == |l| && i <= |h|
    ensures Zip(h[..i], c[..i], l[..i]) == Zip(h, c, l)[..i] && Zip(h[i..], c[i..], l[i..]) == Zip(h, c, l)[i..]
  {
  }

  lemma ZipInsert(h: seq<u32>, c: seq<u8>, l: seq<u8>, i: nat, x: u32, y: u8, z: u8)
    requires |h| == |c| == |l| && i <= |h|
    ensures Zip(InsertAt(h, i, x), InsertAt(c, i, y), InsertAt(l, i, z)) ==
            InsertAt(Zip(h, c, l), i, Hole(x, Verdict(y, z)))
  {
    ZipSlice(h, c, l, i);
    ZipConcat(h[..i], c[..i], l[..i], [x], [y], [z]);
    ZipConcat(h[..i] + [x], c[..i] + [y], l[..i] + [z], h[i..], c[i..], l[i..]);
  }

  lemma ZipDrop(h: seq<u32>, c: seq<u8>, l: seq<u8>, i: nat, k: nat)
    requires |h| == |c| == |l| && i <= k <= |h|
    ensures Zip(h[..i] + h[k..], c[..i] + c[k..], l[..i] + l[k..]) == Zip(h, c, l)[..i] + Zip(h, c, l)[k..]
  {
    ZipSlice(h, c, l, i);
    ZipSlice(h, c, l, k);
    ZipConcat(h[..i], c[..i], l[..i], h[k..], c[k..], l[k..]);
  }

  /** An ascending list holds h at its lower bound or nowhere, and the next bound follows. */
  lemma AtLowerBound<T>(s: seq<Hole<T>>, h: u32, i: nat)
    requires Ascending(s) && IsLowerBound(s, h, i)
    ensures forall e :: e in s && e.height == h ==> i < |s| && e == s[i]
    ensures IsLowerBound(s, h + 1, if i < |s| && s[i].height == h then i + 1 else i)
  {
  }

  /** What a merge walk standing at h can read off the two lists. */
  lemma AtIndices(s: State, h: u32, io: nat, ig: nat, minCycles: u8)
    requires Ascending(s.outstanding) && Ascending(s.gaveUp)
    requires IsLowerBound(s.outstanding, h, io) && IsLowerBound(s.gaveUp, h, ig)
    ensures io <= |s.outstanding| && ig <= |s.gaveUp|
    ensures IsLowerBound(s.outstanding, h + 1, if io < |s.outstanding| && s.outstanding[io].height == h then io + 1
            else io)
    ensures IsLowerBound(s.gaveUp, h + 1, if ig < |s.gaveUp| && s.gaveUp[ig].height == h then ig + 1 else ig)
    ensures Abandonable(s, h, minCycles) ==
              if io < |s.outstanding| && s.outstanding[io].height == h then
                s.outstanding[io].info.attempts >= MAX_ATTEMPTS &&
                s.outstanding[io].info.rearmCycles >= minCycles && s.outstanding[io].info.offersReachedLivePeer != 0
              else
                ig < |s.gaveUp| && s.gaveUp[ig].height == h &&
                s.gaveUp[ig].info.rearmCycles >= minCycles && s.gaveUp[ig].info.offersLive != 0
  {
    AtLowerBound(s.outstanding, h, io);
    AtLowerBound(s.gaveUp, h, ig);
    assert io < |s.outstanding| ==> s.outstanding[io] in s.outstanding;
    assert ig < |s.gaveUp| ==> s.gaveUp[ig] in s.gaveUp;
  }

  lemma HoldsAt<T>(s: seq<Hole<T>>, h: u32)
    ensures Holds(s, h) == (LowerBound(s, h) < |s| && s[LowerBound(s, h)].height == h)
  {
  }

  /** One height of a re-armed run; false leaves the ledger as it was. */
  function ReArmStep(s: State, h: u32): (State, bool) {
    if h < s.abandonedBelow then (s, false)
    else if Holds(s.outstanding, h) then
      if s.outstanding[LowerBound(s.outstanding, h)].info.attempts < MAX_ATTEMPTS then (s, false)
          else (ReArmInPlace(s, h), true)
    else LedgerSpec.ReArmGaveUp(s, h)
  }

  lemma ReArmRefusedSame(s: State, h: u32)
    ensures !LedgerSpec.ReArmGaveUp(s, h).1 ==> LedgerSpec.ReArmGaveUp(s, h).0 == s
  {
  }

  /** A run of re-arms is one step and then the rest. */
  lemma ReArmRunSteps(s: State, h: u32, budget: nat)
    ensures budget == 0 ==> ReArmRun(s, h, budget) == (s, 0)
    ensures !ReArmStep(s, h).1 ==> ReArmStep(s, h).0 == s && ReArmRun(s, h, budget) == (s, 0)
    ensures budget > 0 && ReArmStep(s, h).1 && h == U32_MAX ==> ReArmRun(s, h, budget) == (ReArmStep(s, h).0, 1)
    ensures budget > 0 && ReArmStep(s, h).1 && h < U32_MAX ==>
              ReArmRun(s, h, budget) == (ReArmRun(ReArmStep(s, h).0, h + 1, budget - 1).0,
                                         ReArmRun(ReArmStep(s, h).0, h + 1, budget - 1).1 + 1)
  {
    ReArmRefusedSame(s, h);
    hide LedgerSpec.ReArmGaveUp, ReArmInPlace, Holds, LowerBound;
  }

  /** Where a run of re-arms stands: what is left of it still adds up to the whole. */
  ghost predicate Running(run: (State, nat), s: State, h: u32, left: nat, n: nat, more: bool) {
    if more then ReArmRun(s, h, left).0 == run.0 && ReArmRun(s, h, left).1 + n == run.1 else s == run.0 && n == run.1
  }

  lemma RunningStart(s: State, h: u32, left: nat)
    ensures Running(ReArmRun(s, h, left), s, h, left, 0, true)
  {
  }

  lemma ReArmParkedMeans(s: State, h: u32, maxRun: nat)
    ensures LedgerSpec.ReArmParkedRun(s, h, maxRun) ==
            var (after, n) := ReArmRun(s, h, maxRun); (if n > 0 then Advanced(after) else after, n)
  {
    hide Advanced, ReArmRun;
  }

  lemma RunningStep(run: (State, nat), s: State, h: u32, left: nat, n: nat)
    requires Running(run, s, h, left, n, true) && left > 0
    ensures !ReArmStep(s, h).1 ==> Running(run, ReArmStep(s, h).0, h, left, n, false)
    ensures ReArmStep(s, h).1 && h == 0xFFFF_FFFF ==> Running(run, ReArmStep(s, h).0, h, left - 1, n + 1, false)
    ensures ReArmStep(s, h).1 && h < 0xFFFF_FFFF ==> Running(run, ReArmStep(s, h).0, h + 1, left - 1, n + 1, true)
  {
    hide ReArmStep, ReArmRun;
    ReArmRunSteps(s, h, left);
  }

  lemma RunningDone(run: (State, nat), s: State, h: u32, left: nat, n: nat, more: bool)
    requires Running(run, s, h, left, n, more) && (more ==> left == 0)
    ensures s == run.0 && n == run.1
  {
    ReArmRunSteps(s, h, 0);
  }

  /** What a successful re-arm makes of the ledger. */
  lemma ReArmGaveUpMeans(s: State, h: u32, g: nat, i: nat)
    requires s.abandonedBelow <= h && |s.outstanding| < OUTSTANDING_MAX
    requires g == LowerBound(s.gaveUp, h) && g < |s.gaveUp| && s.gaveUp[g].height == h
    requires i == LowerBound(Insert(s.outstanding, h, 0, 0, 0).0, h)
    ensures var out := Insert(s.outstanding, h, 0, 0, 0).0;
            && i < |out|
            && LedgerSpec.ReArmGaveUp(s, h) ==
                 (Advanced(s.(outstanding := out[i := FreshCycle(out[i], Saturated(s.gaveUp[g].info.rearmCycles))],
                              gaveUp := RemoveAt(s.gaveUp, g), requestedThrough := Max(s.requestedThrough, h))), true)
  {
    InsertedIsFound(s.outstanding, h);
    hide Insert, LowerBoundFrom, Advanced;
  }

  lemma AbandonGaveUpMeans(s: State, clamp: u32)
    ensures var target := if s.outstanding != [] then Min(clamp, s.outstanding[0].height) else clamp;
            var k := LowerBound(s.gaveUp, target);
            && k <= |s.gaveUp|
            && LedgerSpec.AbandonGaveUpBelow(s, clamp) ==
                 if k == 0 then Abandonment(s, 0, NO_DROP, NO_DROP) else
                 Abandonment(s.(gaveUp := s.gaveUp[k..],
                                abandonedBelow := Max(s.abandonedBelow, Wrap32(s.gaveUp[k - 1].height + 1))),
                             k, s.gaveUp[0].height, s.gaveUp[k - 1].height)
  {
  }

  function RaisedTo(s: State, floor: u32): State {
    s.(outstanding := s.outstanding[LowerBound(s.outstanding, floor)..],
       gaveUp := s.gaveUp[LowerBound(s.gaveUp, floor)..],
       abandonedBelow := Max(s.abandonedBelow, floor))
  }

  lemma RaisedParts(s: State, floor: u32)
    ensures RaisedTo(s, floor).outstanding == s.outstanding[LowerBound(s.outstanding, floor)..]
    ensures RaisedTo(s, floor).gaveUp == s.gaveUp[LowerBound(s.gaveUp, floor)..]
    ensures RaisedTo(s, floor).abandonedBelow == if floor > s.abandonedBelow then floor else s.abandonedBelow
    ensures RaisedTo(s, floor) ==
            s.(outstanding := RaisedTo(s, floor).outstanding, gaveUp := RaisedTo(s, floor).gaveUp,
               abandonedBelow := RaisedTo(s, floor).abandonedBelow)
  {
    hide LowerBound;
  }

  lemma AbandonUnscannableMeans(s: State, lo: u32, floor: u32)
    ensures LedgerSpec.AbandonUnscannableBelow(s, lo, floor) ==
            if lo != 0 && floor != 0 && SurfacedFrom(s, lo) < floor
            then (Advanced(RaisedTo(s, floor)), floor - SurfacedFrom(s, lo)) else (s, 0)
  {
    hide LowerBound, SurfacedFrom, Advanced;
  }

  lemma InsertedIsFound(out: seq<Outstanding>, h: u32)
    ensures Holds(Insert(out, h, 0, 0, 0).0, h)
  {
    var i := LowerBound(out, h);
    var r := Insert(out, h, 0, 0, 0).0;
    if |out| >= OUTSTANDING_MAX && !Holds(out, h) && i > 0 {
      LowerBoundUnique(r, h, i - 1);
    } else {
      LowerBoundUnique(r, h, if |out| >= OUTSTANDING_MAX && !Holds(out, h) then 0 else i);
    }
  }

  lemma FlagUnheld(out: seq<Outstanding>, h: u32)
    ensures !Holds(out, h) ==> FlagHeaderRace(out, h) == out
  {
  }

  lemma ParkRefused(gave: seq<Parked>, h: u32, v: Verdict)
    ensures !Park(gave, h, v).1 ==> Park(gave, h, v).0 == gave
  {
  }

  class Ledger {
    var start: u32
    var scannedThrough: u32
    var requestedThrough: u32
    var abandonedBelow: u32
    const outstanding: array<Outstanding>
    var outstandingCount: nat
    const gaveUp: array<u32>
    const gaveUpRearmCycles: array<u8>
    const gaveUpOffersLive: array<u8>
    var gaveUpCount: nat
    var lastDriveAt: u32

    ghost predicate Valid()
      reads this`outstandingCount, this`gaveUpCount
    {
      OutValid() && GaveValid() && Separate()
    }

    ghost predicate OutValid()
      reads this`outstandingCount
    {
      outstanding.Length == OUTSTANDING_MAX && outstandingCount <= OUTSTANDING_MAX
    }

    ghost predicate GaveValid()
      reads this`gaveUpCount
    {
      gaveUp.Length == gaveUpRearmCycles.Length == gaveUpOffersLive.Length == GAVEUP_MAX && gaveUpCount <= GAVEUP_MAX
    }

    ghost predicate Separate()
    {
      && gaveUp as object != gaveUpRearmCycles as object
      && gaveUp as object != gaveUpOffersLive as object
      && gaveUpRearmCycles != gaveUpOffersLive
      && outstanding as object != gaveUp as object
      && outstanding as object != gaveUpRearmCycles as object
      && outstanding as object != gaveUpOffersLive as object
    }

    ghost function Out(): (s: seq<Outstanding>)
      requires OutValid()
      reads this`outstandingCount, outstanding
      ensures |s| == outstandingCount
    {
      outstanding[..outstandingCount]
    }

    ghost function Gave(): (s: seq<Parked>)
      requires GaveValid()
      reads this`gaveUpCount, gaveUp, gaveUpRearmCycles, gaveUpOffersLive
      ensures |s| == gaveUpCount
    {
      Zip(gaveUp[..gaveUpCount], gaveUpRearmCycles[..gaveUpCount], gaveUpOffersLive[..gaveUpCount])
    }

    /** The ledger's value. */
    ghost function View(): (s: State)
      requires Valid()
      reads this, outstanding, gaveUp, gaveUpRearmCycles, gaveUpOffersLive
    {
      State(start, scannedThrough, requestedThrough, abandonedBelow, Out(), Gave(), lastDriveAt)
    }

    constructor (birth: u32)
      ensures Valid() && View() == Init(birth)
      ensures fresh(outstanding) && fresh(gaveUp) && fresh(gaveUpRearmCycles) && fresh(gaveUpOffersLive)
    {
      outstanding := new Outstanding[OUTSTANDING_MAX](_ => NO_ENTRY);
      gaveUp := new u32[GAVEUP_MAX](_ => 0);
      gaveUpRearmCycles := new u8[GAVEUP_MAX](_ => 0);
      gaveUpOffersLive := new u8[GAVEUP_MAX](_ => 0);
      outstandingCount, gaveUpCount := 0, 0;
      start := birth;
      scannedThrough := if birth > 0 then birth - 1 else 0;
      requestedThrough := if birth > 0 then birth - 1 else 0;
      abandonedBelow, lastDriveAt := 0, 0;
      new;
    }

    lemma Counts()
      requires Valid()
      ensures |Out()| == outstandingCount && |Gave()| == gaveUpCount
    {
    }

    lemma OutCount()
      requires OutValid()
      ensures |Out()| == outstandingCount
    {
    }

    // ---- list primitives ----------------------------------------------------

    method OutAt(i: nat) returns (e: Outstanding)
      requires Valid() && i < outstandingCount
      ensures e == Out()[i]
    {
      e := outstanding[i];
    }

    method GaveAt(i: nat) returns (p: Parked)
      requires Valid() && i < gaveUpCount
      ensures p == Gave()[i]
    {
      p := Hole(gaveUp[i], Verdict(gaveUpRearmCycles[i], gaveUpOffersLive[i]));
    }

    method OutSet(i: nat, e: Outstanding)
      requires Valid() && i < outstandingCount
      modifies outstanding
      ensures Valid() && Out() == old(Out())[i := e]
    {
      outstanding[i] := e;
    }

    method OutIndex(height: u32) returns (i: nat)
      requires Valid()
      ensures i == LowerBound(Out(), height)
    {
      i := 0;
      while i < outstandingCount && outstanding[i].height < height
        invariant i <= outstandingCount
        invariant forall k :: 0 <= k < i ==> outstanding[k].height < height
      {
        i := i + 1;
      }
      LowerBoundUnique(Out(), height, i);
    }

    method GaveIndex(height: u32) returns (i: nat)
      requires Valid()
      ensures i == LowerBound(Gave(), height)
    {
      i := 0;
      while i < gaveUpCount && gaveUp[i] < height
        invariant i <= gaveUpCount
        invariant forall k :: 0 <= k < i ==> gaveUp[k] < height
      {
        i := i + 1;
      }
      LowerBoundUnique(Gave(), height, i);
    }

    method OutInsert(i: nat, e: Outstanding)
      requires Valid() && i <= outstandingCount < OUTSTANDING_MAX
      modifies this`outstandingCount, outstanding
      ensures Valid() && Out() == InsertAt(old(Out()), i, e)
    {
      OpenSlot(outstanding, i, outstandingCount, e);
      outstandingCount := outstandingCount + 1;
    }

    method OutDrop(i: nat, k: nat)
      requires Valid() && i <= k <= outstandingCount
      modifies this`outstandingCount, outstanding
      ensures Valid() && Out() == old(Out()[..i] + Out()[k..])
    {
      assert outstanding[k..outstandingCount] == Out()[k..];
      assert outstanding[..i] == Out()[..i];
      CloseGap(outstanding, i, k, outstandingCount);
      outstandingCount := outstandingCount - (k - i);
    }

    method OutDropFirst()
      requires Valid() && 0 < outstandingCount
      modifies this`outstandingCount, outstanding
      ensures Valid() && Out() == old(Out())[1..]
    {
      OutDrop(0, 1);
    }

    /** The three parallel arrays shift together. */
    method GaveInsert(i: nat, height: u32, rearmCycles: u8, offersLive: u8)
      requires Valid() && i <= gaveUpCount < GAVEUP_MAX
      modifies this`gaveUpCount, gaveUp, gaveUpRearmCycles, gaveUpOffersLive
      ensures Valid() && Gave() == InsertAt(old(Gave()), i, Hole(height, Verdict(rearmCycles, offersLive)))
    {
      ZipInsert(gaveUp[..gaveUpCount], gaveUpRearmCycles[..gaveUpCount], gaveUpOffersLive[..gaveUpCount],
                i, height, rearmCycles, offersLive);
      OpenSlot(gaveUp, i, gaveUpCount, height);
      OpenSlot(gaveUpRearmCycles, i, gaveUpCount, rearmCycles);
      OpenSlot(gaveUpOffersLive, i, gaveUpCount, offersLive);
      gaveUpCount := gaveUpCount + 1;
    }

    method GaveDrop(i: nat, k: nat)
      requires Valid() && i <= k <= gaveUpCount
      modifies this`gaveUpCount, gaveUp, gaveUpRearmCycles, gaveUpOffersLive
      ensures Valid() && Gave() == old(Gave()[..i] + Gave()[k..])
    {
      ghost var h, c, l := gaveUp[..gaveUpCount], gaveUpRearmCycles[..gaveUpCount], gaveUpOffersLive[..gaveUpCount];
      ZipDrop(h, c, l, i, k);
      assert gaveUp[..i] == h[..i] && gaveUp[k..gaveUpCount] == h[k..];
      assert gaveUpRearmCycles[..i] == c[..i] && gaveUpRearmCycles[k..gaveUpCount] == c[k..];
      assert gaveUpOffersLive[..i] == l[..i] && gaveUpOffersLive[k..gaveUpCount] == l[k..];
      CloseGap(gaveUp, i, k, gaveUpCount);
      CloseGap(gaveUpRearmCycles, i, k, gaveUpCount);
      CloseGap(gaveUpOffersLive, i, k, gaveUpCount);
      gaveUpCount := gaveUpCount - (k - i);
    }

    /** Parks a height with its verdict; false when gaveUp is full. */
    method AddGaveUp(height: u32, rearmCycles: u8, offersLive: u8) returns (present: bool)
      requires Valid()
      modifies this`gaveUpCount, gaveUp, gaveUpRearmCycles, gaveUpOffersLive
      ensures Valid() && Gave() == Park(old(Gave()), height, Verdict(rearmCycles, offersLive)).0
      ensures present == Park(old(Gave()), height, Verdict(rearmCycles, offersLive)).1
    {
      var i := GaveIndex(height);
      if i < gaveUpCount && gaveUp[i] == height {
        if rearmCycles > gaveUpRearmCycles[i] { gaveUpRearmCycles[i] := rearmCycles; }
        if offersLive == 0 { gaveUpOffersLive[i] := 0; }
        return true;
      }
      if gaveUpCount >= GAVEUP_MAX { return false; }
      GaveInsert(i, height, rearmCycles, offersLive);
      return true;
    }

    method RemoveGaveUp(height: u32)
      requires Valid()
      modifies this`gaveUpCount, gaveUp, gaveUpRearmCycles, gaveUpOffersLive
      ensures Valid() && Gave() == Remove(old(Gave()), height)
    {
      var i := GaveIndex(height);
      if i < gaveUpCount && gaveUp[i] == height { GaveDrop(i, i + 1); }
    }

    // ---- the scan mark ------------------------------------------------------

    method Advance()
      requires Valid()
      modifies this`scannedThrough
      ensures View() == Advanced(old(View()))
    {
      var ceiling := requestedThrough;
      var firstHole := U32_MAX;
      if outstandingCount > 0 { firstHole := outstanding[0].height; }
      if gaveUpCount > 0 && gaveUp[0] < firstHole { firstHole := gaveUp[0]; }
      if firstHole != U32_MAX {
        var cap := if firstHole > 0 then firstHole - 1 else 0;
        if cap < ceiling { ceiling := cap; }
      }
      if scannedThrough < ceiling { scannedThrough := ceiling; }
    }

    // ---- requests -----------------------------------------------------------

    method InsertOutstanding(height: u32, peer: u128, port: u16, now: u32) returns (dropped: u32)
      requires Valid()
      modifies this`outstandingCount, outstanding
      ensures Valid() && Out() == Insert(old(Out()), height, peer, port, now).0
      ensures dropped == Insert(old(Out()), height, peer, port, now).1
    {
      hide LowerBound, Out, Gave, InsertAt, Fresh;
      var i := OutIndex(height);
      dropped := NO_DROP;
      OutCount();
      if i < outstandingCount {
        var e := OutAt(i);
        if e.height == height {
          OutSet(i, Hole(height, e.info.(peer := peer, port := port, requestedAt := now)));
          return;
        }
      }
      if outstandingCount >= OUTSTANDING_MAX {
        var lowest := OutAt(0);
        dropped := lowest.height;
        OutDropFirst();
        if i > 0 { i := i - 1; }
      }
      OutCount();
      OutInsert(i, Fresh(height, peer, port, now));
    }

    static ghost predicate Spans(dropped: seq<u32>, n: nat, lo: u32, hi: u32) {
      && n == |dropped| && (n == 0 ==> lo == NO_DROP && hi == 0)
      && (n > 0 ==> lo in dropped && hi in dropped)
      && forall d :: d in dropped ==> lo <= d <= hi && d != NO_DROP
    }

    static lemma SpansMore(dropped: seq<u32>, n: nat, lo: u32, hi: u32, d: u32)
      requires Spans(dropped, n, lo, hi) && d != NO_DROP
      ensures Spans(dropped + [d], n + 1, if d < lo then d else lo, if d > hi then d else hi)
    {
      var more := dropped + [d];
      assert more[n] == d;
      if n > 0 {
        var i :| 0 <= i < n && dropped[i] == lo;
        var j :| 0 <= j < n && dropped[j] == hi;
        assert more[i] == lo && more[j] == hi;
      }
    }

    /** Records a requested range; reports how many holes a full list lost, and their span. */
    method RecordRequestedDropped(startH: u32, stopH: u32, peer: u128, port: u16, now: u32)
      returns (n: nat, low: u32, high: u32)
      requires Valid()
      modifies this`outstandingCount, this`requestedThrough, outstanding
      ensures Valid() && View() == RecordRequested(old(View()), startH, stopH, peer, port, now).0
      ensures n == |RecordRequested(old(View()), startH, stopH, peer, port, now).1|
      ensures n == 0 ==> low == NO_DROP && high == NO_DROP
      ensures n > 0 ==> low in RecordRequested(old(View()), startH, stopH, peer, port, now).1 &&
                        high in RecordRequested(old(View()), startH, stopH, peer, port, now).1
      ensures forall d :: d in RecordRequested(old(View()), startH, stopH, peer, port, now).1 ==> low <= d <= high
    {
      hide Insert, Spans;
      n, low, high := 0, NO_DROP, NO_DROP;
      var from := if startH < abandonedBelow then abandonedBelow else startH;
      if stopH < from { return; }
      var lo, hi;
      n, lo, hi := InsertAll(from, stopH, peer, port, now);
      SpansMeans(InsertRange(old(Out()), from, stopH + 1, peer, port, now).1, n, lo, hi);
      if stopH > requestedThrough { requestedThrough := stopH; }
      low := if n > 0 then lo else NO_DROP;
      high := if n > 0 then hi else NO_DROP;
    }

    static lemma SpansMeans(dropped: seq<u32>, n: nat, lo: u32, hi: u32)
      requires Spans(dropped, n, lo, hi)
      ensures n == |dropped| && (n > 0 ==> lo in dropped && hi in dropped)
      ensures forall d :: d in dropped ==> lo <= d <= hi
    {
    }

    /** [from..h) is inserted into `was`, giving `out`; n, lo and hi sum up the evictions. */
    static ghost predicate Inserting(was: seq<Outstanding>, from: nat, h: nat, peer: u128, port: u16, now: u32,
                                     out: seq<Outstanding>, n: nat, lo: u32, hi: u32) {
      && from <= h <= 0x1_0000_0000
      && out == InsertRange(was, from, h, peer, port, now).0
      && Spans(InsertRange(was, from, h, peer, port, now).1, n, lo, hi)
    }

    static lemma InsertingNext(was: seq<Outstanding>, from: nat, h: u32, peer: u128, port: u16, now: u32,
                               out: seq<Outstanding>, n: nat, lo: u32, hi: u32)
      requires Inserting(was, from, h, peer, port, now, out, n, lo, hi)
      ensures var (next, d) := Insert(out, h, peer, port, now);
              if d == NO_DROP then Inserting(was, from, h + 1, peer, port, now, next, n, lo, hi)
              else Inserting(was, from, h + 1, peer, port, now, next, n + 1, if d < lo then d else lo, if d > hi then d
                             else hi)
    {
      hide Insert;
      var d := Insert(out, h, peer, port, now).1;
      if d != NO_DROP {
        SpansMore(InsertRange(was, from, h, peer, port, now).1, n, lo, hi, d);
      }
      hide Spans;
    }

    method InsertAll(from: u32, stopH: u32, peer: u128, port: u16, now: u32) returns (n: nat, lo: u32, hi: u32)
      requires Valid() && from <= stopH
      modifies this`outstandingCount, outstanding
      ensures Valid() && Inserting(old(Out()), from, stopH + 1, peer, port, now, Out(), n, lo, hi)
    {
      ghost var was := Out();
      n, lo, hi := 0, NO_DROP, 0;
      var h := from;
      assert Inserting(was, from, h, peer, port, now, Out(), n, lo, hi);
      hide Insert, Inserting, Out, Gave;
      while true
        invariant Valid() && from <= h <= stopH && Inserting(was, from, h, peer, port, now, Out(), n, lo, hi)
        decreases stopH - h
      {
        InsertingNext(was, from, h, peer, port, now, Out(), n, lo, hi);
        var d := InsertOutstanding(h, peer, port, now);
        if d != NO_DROP {
          n, lo, hi := n + 1, if d < lo then d else lo, if d > hi then d else hi;
        }
        if h == stopH { break; }
        h := h + 1;
      }
    }

    // ---- evaluated, raced, lost, missed -------------------------------------

    method RemoveOutstanding(height: u32)
      requires Valid()
      modifies this`outstandingCount, outstanding
      ensures Valid() && Out() == Remove(old(Out()), height)
    {
      var i := OutIndex(height);
      if i < outstandingCount && outstanding[i].height == height { OutDrop(i, i + 1); }
    }

    method FlagRace(height: u32) returns (found: bool)
      requires Valid()
      modifies outstanding
      ensures Valid() && Out() == FlagHeaderRace(old(Out()), height) && found == Holds(old(Out()), height)
    {
      var i := OutIndex(height);
      found := i < outstandingCount && outstanding[i].height == height;
      if found { outstanding[i] := Hole(height, outstanding[i].info.(headerRace := 1)); }
    }

    method MarkEvaluated(height: u32)
      requires Valid()
      modifies this`outstandingCount, this`gaveUpCount, this`scannedThrough,
               outstanding, gaveUp, gaveUpRearmCycles, gaveUpOffersLive
      ensures Valid() && View() == LedgerSpec.MarkEvaluated(old(View()), height)
    {
      hide Remove;
      RemoveOutstanding(height);
      RemoveGaveUp(height);
      Advance();
    }

    method MarkHeaderRace(height: u32)
      requires Valid()
      modifies this`outstandingCount, this`requestedThrough, outstanding
      ensures Valid() && View() == LedgerSpec.MarkHeaderRace(old(View()), height).0
    {
      hide Insert, Holds;
      if height < abandonedBelow { return; }
      FlagUnheld(Out(), height);
      hide FlagHeaderRace;
      var found := FlagRace(height);
      if found { return; }
      var dropped := InsertOutstanding(height, 0, 0, 0);
      found := FlagRace(height);
      if height > requestedThrough { requestedThrough := height; }
    }

    method ReArmPeer(peer: u128, port: u16)
      requires Valid()
      modifies outstanding
      ensures Valid() && View() == LedgerSpec.ReArmPeer(old(View()), peer, port)
    {
      ghost var was := outstanding[..];
      for i := 0 to outstandingCount
        invariant forall k :: 0 <= k < i ==> outstanding[k] == LosePeer(was[k], peer, port)
        invariant forall k :: i <= k < OUTSTANDING_MAX ==> outstanding[k] == was[k]
      {
        if outstanding[i].info.port == port && outstanding[i].info.peer == peer {
          outstanding[i] := Hole(outstanding[i].height,
                                 outstanding[i].info.(peer := 0, port := 0, offersReachedLivePeer := 0));
        }
      }
    }

    method MarkOffersMissedLivePeer(startH: u32, stopH: u32)
      requires Valid()
      modifies outstanding
      ensures Valid() && View() == LedgerSpec.MarkOffersMissedLivePeer(old(View()), startH, stopH)
    {
      ghost var was := outstanding[..];
      if stopH < startH {
        assert View().outstanding == LedgerSpec.MarkOffersMissedLivePeer(View(), startH, stopH).outstanding;
        return;
      }
      for i := 0 to outstandingCount
        invariant forall k :: 0 <= k < i ==> outstanding[k] == MissOffer(was[k], startH, stopH)
        invariant forall k :: i <= k < OUTSTANDING_MAX ==> outstanding[k] == was[k]
      {
        var h := outstanding[i].height;
        if startH <= h && h <= stopH {
          outstanding[i] := Hole(h, outstanding[i].info.(offersReachedLivePeer := 0));
        }
      }
    }

    // ---- the re-request driver ----------------------------------------------

    /** The doubling loop: 30/60/120/120/120 seconds. */
    static method RerequestDelay(e: Outstanding) returns (d: nat)
      ensures d == Delay(e.info)
    {
      if e.info.headerRace != 0 && e.info.attempts == 0 { return HEADERRACE_SECS; }
      d := BASE_SECS;
      var k := 0;
      while k < e.info.attempts
        invariant k <= e.info.attempts && d == Min(BASE_SECS * Power2(k), BACKOFF_CAP_SECS)
      {
        d := d * 2;
        k := k + 1;
        if d >= BACKOFF_CAP_SECS {
          d := BACKOFF_CAP_SECS;
          Power2Grows(k, e.info.attempts);
          break;
        }
      }
      if d > BACKOFF_CAP_SECS { d := BACKOFF_CAP_SECS; }
    }

    static lemma {:induction false} Power2Grows(k: nat, n: nat)
      requires k <= n
      ensures Power2(k) <= Power2(n)
      decreases n
    {
      if k < n { Power2Grows(k, n - 1); }
    }

    static method IsDue(e: Outstanding, now: u32) returns (due: bool)
      ensures due == Due(e.info, now)
    {
      var elapsed := if now >= e.info.requestedAt then now - e.info.requestedAt else 0;
      var delay := RerequestDelay(e);
      due := elapsed >= delay;
    }

    method MoveToGaveUp(i: nat) returns (moved: bool)
      requires Valid() && i < outstandingCount
      modifies this`outstandingCount, this`gaveUpCount, outstanding, gaveUp, gaveUpRearmCycles, gaveUpOffersLive
      ensures Valid() && moved == Park(old(Gave()), old(Out())[i].height, VerdictOf(old(Out())[i].info)).1
      ensures Gave() == Park(old(Gave()), old(Out())[i].height, VerdictOf(old(Out())[i].info)).0
      ensures Out() == if moved then RemoveAt(old(Out()), i) else old(Out())
    {
      moved := AddGaveUp(outstanding[i].height, outstanding[i].info.rearmCycles,
                         outstanding[i].info.offersReachedLivePeer);
      if moved { OutDrop(i, i + 1); }
    }

    method RetireCapped()
      requires Valid()
      modifies this`outstandingCount, this`gaveUpCount, outstanding, gaveUp, gaveUpRearmCycles, gaveUpOffersLive
      ensures Valid() && View() == LedgerSpec.RetireCapped(old(View()))
    {
      ghost var out0, gave0 := Out(), Gave();
      hide Park;
      var i := 0;
      while i < outstandingCount
        invariant Valid() && i <= outstandingCount
        invariant RetireFrom(Out(), Gave(), i) == RetireFrom(out0, gave0, 0)
        decreases outstandingCount - i
      {
        ghost var out1, gave1 := Out(), Gave();
        if outstanding[i].info.attempts >= MAX_ATTEMPTS {
          var moved := MoveToGaveUp(i);
          ParkRefused(gave1, out1[i].height, VerdictOf(out1[i].info));
          if !moved { i := i + 1; }
        } else {
          i := i + 1;
        }
      }
    }

    /** Offers the lowest due hole, after retiring the capped ones. */
    method NextRerequest(now: u32) returns (offered: bool, height: u32)
      requires Valid()
      modifies this`outstandingCount, this`gaveUpCount, this`lastDriveAt,
               outstanding, gaveUp, gaveUpRearmCycles, gaveUpOffersLive
      ensures Valid() && View() == LedgerSpec.NextRerequest(old(View()), now)
      ensures offered == Offers(old(View()), now)
      ensures offered ==> var out := LedgerSpec.RetireCapped(old(View())).outstanding;
                          height == out[FirstOfferable(out, now, 0)].height
    {
      height := 0;
      RetireCapped();
      lastDriveAt := now;
      ghost var mid := View();
      hide RetireFrom, Due, Zip;
      var i: nat := 0;
      while i < outstandingCount
        invariant Valid() && View() == mid && i <= |mid.outstanding|
        invariant FirstOfferable(mid.outstanding, now, i) == FirstOfferable(mid.outstanding, now, 0)
        decreases |mid.outstanding| - i
      {
        var e := outstanding[i];
        if e.info.attempts < MAX_ATTEMPTS {
          var due := IsDue(e, now);
          if due {
            outstanding[i] := Offered(e, now);
            return true, e.height;
          }
        }
        i := i + 1;
      }
      offered := false;
    }

    /** Names the run to offer, without changing anything. */
    method PeekRerequestRange(now: u32, minHeight: u32) returns (offered: bool, startH: u32, stopH: u32)
      requires Valid()
      ensures offered ==> exists i: nat, j: nat :: OfferedRun(Out(), now, Max(minHeight, abandonedBelow), i, j) &&
                                                   startH == Out()[i].height && stopH == Out()[j].height
      ensures !offered ==> forall e :: e in Out() && Max(minHeight, abandonedBelow) <= e.height ==> !Offerable(e, now)
    {
      hide Due;
      startH, stopH := 0, 0;
      var floor := if minHeight < abandonedBelow then abandonedBelow else minHeight;
      var start := 0;
      while start < outstandingCount
        invariant start <= outstandingCount
        invariant forall k :: 0 <= k < start ==> outstanding[k].height < floor || !Offerable(outstanding[k], now)
      {
        if outstanding[start].height >= floor && outstanding[start].info.attempts < MAX_ATTEMPTS {
          var due := IsDue(outstanding[start], now);
          if due { break; }
        }
        start := start + 1;
      }
      if start == outstandingCount { return false, 0, 0; }
      var s := outstanding[start];
      var end := start;
      while end + 1 < outstandingCount
        invariant start <= end < outstandingCount
        invariant forall k :: start <= k <= end ==> Joins(Out(), now, start, k)
      {
        assert Joins(Out(), now, start, end);
        var nx := outstanding[end + 1];
        if nx.height != outstanding[end].height + 1 { break; }
        if nx.info.attempts >= MAX_ATTEMPTS { break; }
        var due := IsDue(nx, now);
        if !due { break; }
        if nx.info.port != s.info.port || nx.info.peer != s.info.peer { break; }
        if nx.height - s.height + 1 > MAX_RANGE { break; }
        end := end + 1;
      }
      assert Joins(Out(), now, start, end);
      assert OfferedRun(Out(), now, floor, start, end);
      return true, outstanding[start].height, outstanding[end].height;
    }

    method CommitRerequest(startH: u32, stopH: u32, peer: u128, port: u16, now: u32)
      requires Valid()
      modifies outstanding
      ensures Valid() && View() == LedgerSpec.CommitRerequest(old(View()), startH, stopH, peer, port, now)
      ensures Out() == Committed(old(Out()), startH, stopH, peer, port, now)
    {
      ghost var was := outstanding[..];
      for i := 0 to outstandingCount
        invariant forall k :: 0 <= k < i ==> outstanding[k] == Commit(was[k], startH, stopH, peer, port, now)
        invariant forall k :: i <= k < OUTSTANDING_MAX ==> outstanding[k] == was[k]
      {
        var e := outstanding[i];
        if e.height >= startH && e.height <= stopH {
          outstanding[i] := Hole(e.height, e.info.(attempts := Wrap8(e.info.attempts + 1), requestedAt := now,
                                                   peer := peer, port := port));
        }
      }
    }

    // ---- the abandonment valve ----------------------------------------------

    /** The hole that pins the scan mark, with its evidence; on a tie the outstanding record speaks. */
    method PinningHole() returns (found: bool, height: u32, offerable: bool, rearmCycles: u8, offersLive: u8)
      requires Valid() && Ascending(Out()) && Ascending(Gave())
      ensures found <==> Heights(Out()) + Heights(Gave()) != {}
      ensures found ==> height in Heights(Out()) + Heights(Gave())
      ensures forall h :: h in Heights(Out()) + Heights(Gave()) ==> height <= h
      ensures found && height in Heights(Out()) ==>
                exists e :: e in Out() && e.height == height && offerable == (e.info.attempts < MAX_ATTEMPTS) &&
                            rearmCycles == e.info.rearmCycles && offersLive == e.info.offersReachedLivePeer
      ensures found && height !in Heights(Out()) ==>
                !offerable && Hole(height, Verdict(rearmCycles, offersLive)) in Gave()
    {
      found, height, offerable, rearmCycles, offersLive := false, 0, false, 0, 0;
      if outstandingCount > 0 { FirstIsLeast(Out()); }
      if gaveUpCount > 0 { FirstIsLeast(Gave()); }
      if outstandingCount == 0 && gaveUpCount == 0 { return; }
      if outstandingCount > 0 && (gaveUpCount == 0 || outstanding[0].height <= gaveUp[0]) {
        var e := outstanding[0];
        assert Out()[0] == e;
        found, height, offerable := true, e.height, e.info.attempts < MAX_ATTEMPTS;
        rearmCycles, offersLive := e.info.rearmCycles, e.info.offersReachedLivePeer;
      } else {
        assert Gave()[0].height == gaveUp[0];
        found, height, offerable := true, gaveUp[0], false;
        rearmCycles, offersLive := gaveUpRearmCycles[0], gaveUpOffersLive[0];
        assert Gave()[0] == Hole(height, Verdict(rearmCycles, offersLive));
      }
    }

    /** The longest run of abandonable heights from startH, at most maxRun, by one merge walk. */
    method AbandonableRunFrom(startH: u32, maxRun: nat, minCycles: u8) returns (n: nat, hi: u32)
      requires Valid() && Ascending(Out()) && Ascending(Gave())
      ensures n <= maxRun && startH + n <= 0x1_0000_0000
      ensures forall h :: startH <= h < startH + n ==> Abandonable(View(), h, minCycles)
      ensures n < maxRun && startH + n <= U32_MAX ==> !Abandonable(View(), startH + n, minCycles)
      ensures n > 0 ==> hi == startH + n - 1
    {
      hide Abandonable, IsLowerBound, Ascending, View, Out, Gave;
      n, hi := 0, startH;
      var h: u32 := startH;
      var io := OutIndex(startH);
      var ig := GaveIndex(startH);
      while n < maxRun
        invariant n <= maxRun && h == startH + n
        invariant IsLowerBound(Out(), h, io) && IsLowerBound(Gave(), h, ig)
        invariant forall x :: startH <= x < h ==> Abandonable(View(), x, minCycles)
        invariant n > 0 ==> hi == startH + n - 1
        decreases maxRun - n
      {
        var good;
        good, io, ig := AbandonableHere(h, io, ig, minCycles);
        if !good { break; }
        n, hi := n + 1, h;
        if h == U32_MAX { break; }
        h := h + 1;
      }
    }

    /** One step of the merge walk: is the height abandonable, and where do both lists go on? */
    method AbandonableHere(h: u32, io: nat, ig: nat, minCycles: u8) returns (good: bool, nextIo: nat, nextIg: nat)
      requires Valid() && Ascending(Out()) && Ascending(Gave())
      requires IsLowerBound(Out(), h, io) && IsLowerBound(Gave(), h, ig)
      ensures good == Abandonable(View(), h, minCycles)
      ensures good ==> IsLowerBound(Out(), h + 1, nextIo) && IsLowerBound(Gave(), h + 1, nextIg)
    {
      hide Abandonable, IsLowerBound, Ascending, Zip;
      AtIndices(View(), h, io, ig, minCycles);
      nextIo, nextIg := io, ig;
      var cycles: u8, live: u8;
      if io < outstandingCount && outstanding[io].height == h {
        var e := outstanding[io];
        if e.info.attempts < MAX_ATTEMPTS { return false, io, ig; }
        cycles, live := e.info.rearmCycles, e.info.offersReachedLivePeer;
        nextIo := io + 1;
        if ig < gaveUpCount && gaveUp[ig] == h { nextIg := ig + 1; }
      } else if ig < gaveUpCount && gaveUp[ig] == h {
        cycles, live := gaveUpRearmCycles[ig], gaveUpOffersLive[ig];
        nextIg := ig + 1;
      } else {
        return false, io, ig;
      }
      good := !(cycles < minCycles || live == 0);
    }

    /** Moves a parked height back for a fresh cycle. The inserted height is always found
        again, so the source's defensive re-park has nothing to do. */
    method ReArmGaveUp(height: u32) returns (armed: bool)
      requires Valid()
      modifies this`outstandingCount, this`gaveUpCount, this`requestedThrough, this`scannedThrough,
               outstanding, gaveUp, gaveUpRearmCycles, gaveUpOffersLive
      ensures Valid() && View() == LedgerSpec.ReArmGaveUp(old(View()), height).0
      ensures armed == LedgerSpec.ReArmGaveUp(old(View()), height).1
    {
      hide Insert, LowerBound, Out, Gave, Holds;
      if height < abandonedBelow { return false; }
      var g := GaveIndex(height);
      HoldsAt(Gave(), height);
      Counts();
      if g >= gaveUpCount { return false; }
      var parked := GaveAt(g);
      if parked.height != height { return false; }
      if outstandingCount >= OUTSTANDING_MAX { return false; }
      var cycles := parked.info.rearmCycles;
      if cycles < 0xFF { cycles := cycles + 1; }
      ReArmGaveUpMeans(View(), height, g, LowerBound(Insert(Out(), height, 0, 0, 0).0, height));
      hide LedgerSpec.ReArmGaveUp, Advanced, FreshCycle;
      TakeBack(g, height, cycles);
      Advance();
      return true;
    }

    /** The height leaves gaveUp before it enters outstanding, with its next cycle. */
    method TakeBack(g: nat, height: u32, cycles: u8)
      requires Valid() && g < gaveUpCount && outstandingCount < OUTSTANDING_MAX
      requires LowerBound(Insert(Out(), height, 0, 0, 0).0, height) < |Insert(Out(), height, 0, 0, 0).0|
      modifies this`outstandingCount, this`gaveUpCount, this`requestedThrough,
               outstanding, gaveUp, gaveUpRearmCycles, gaveUpOffersLive
      ensures var s := old(View());
              var out := Insert(s.outstanding, height, 0, 0, 0).0;
              var i := LowerBound(out, height);
              && Valid() && i < |out|
              && View() == s.(outstanding := out[i := FreshCycle(out[i], cycles)], gaveUp := RemoveAt(s.gaveUp, g),
                              requestedThrough := Max(s.requestedThrough, height))
    {
      hide Insert, LowerBound, Out, Gave, FreshCycle;
      GaveDrop(g, g + 1);
      assert Gave() == RemoveAt(old(Gave()), g);
      hide RemoveAt;
      var dropped := InsertOutstanding(height, 0, 0, 0);
      var i := OutIndex(height);
      Counts();
      var e := OutAt(i);
      OutSet(i, FreshCycle(e, cycles));
      if height > requestedThrough { requestedThrough := height; }
    }

    method ReArmParkedRun(startH: u32, maxRun: nat) returns (n: nat)
      requires Valid()
      modifies this`outstandingCount, this`gaveUpCount, this`requestedThrough, this`scannedThrough,
               outstanding, gaveUp, gaveUpRearmCycles, gaveUpOffersLive
      ensures Valid() && View() == LedgerSpec.ReArmParkedRun(old(View()), startH, maxRun).0
      ensures n == LedgerSpec.ReArmParkedRun(old(View()), startH, maxRun).1
    {
      ReArmParkedMeans(View(), startH, maxRun);
      hide *;
      n := ReArmEach(startH, maxRun);
      if n > 0 { Advance(); }
    }

    /** Re-arms one height after another until one is refused. */
    method ReArmEach(startH: u32, maxRun: nat) returns (n: nat)
      requires Valid()
      modifies this`outstandingCount, this`gaveUpCount, this`requestedThrough, this`scannedThrough,
               outstanding, gaveUp, gaveUpRearmCycles, gaveUpOffersLive
      ensures Valid() && View() == ReArmRun(old(View()), startH, maxRun).0 &&
              n == ReArmRun(old(View()), startH, maxRun).1
    {
      hide *;
      ghost var run := ReArmRun(View(), startH, maxRun);
      n := 0;
      var h: u32 := startH;
      var more := true;
      RunningStart(View(), h, maxRun);
      while n < maxRun && more
        invariant Valid() && n <= maxRun && Running(run, View(), h, maxRun - n, n, more)
        decreases maxRun - n, more
      {
        RunningStep(run, View(), h, maxRun - n, n);
        more := ReArmOne(h);
        if more {
          n := n + 1;
          if h == 0xFFFF_FFFF { more := false; } else { h := h + 1; }
        }
      }
      RunningDone(run, View(), h, maxRun - n, n, more);
    }

    /** One height of the run: a capped outstanding entry in place, or a parked one moved. */
    method ReArmOne(h: u32) returns (stepped: bool)
      requires Valid()
      modifies this`outstandingCount, this`gaveUpCount, this`requestedThrough, this`scannedThrough,
               outstanding, gaveUp, gaveUpRearmCycles, gaveUpOffersLive
      ensures Valid() && View() == ReArmStep(old(View()), h).0 && stepped == ReArmStep(old(View()), h).1
    {
      hide LowerBound, Out, Gave, LedgerSpec.ReArmGaveUp, Holds;
      if h < abandonedBelow { return false; }
      var i := OutIndex(h);
      HoldsAt(Out(), h);
      Counts();
      if i < outstandingCount {
        var e := OutAt(i);
        if e.height == h {
          if e.info.attempts < MAX_ATTEMPTS { return false; }
          OutSet(i, Hole(h, Retry(0, 0, 0, 0, 0, Saturated(e.info.rearmCycles), 1)));
          return true;
        }
      }
      stepped := ReArmGaveUp(h);
      ReArmRefusedSame(old(View()), h);
    }

    // ---- the floor ----------------------------------------------------------

    method LowestNeededHeight() returns (h: u32)
      requires Valid()
      ensures h == LowestNeeded(View())
    {
      h := Wrap32(scannedThrough + 1);
      if abandonedBelow > h { h := abandonedBelow; }
    }

    method RetireAbandonedTo(newFloor: u32) returns (retired: u32)
      requires Valid()
      modifies this`abandonedBelow
      ensures Valid() && View() == LedgerSpec.RetireAbandonedTo(old(View()), newFloor).0
      ensures retired == LedgerSpec.RetireAbandonedTo(old(View()), newFloor).1
    {
      if newFloor >= abandonedBelow { return 0; }
      if newFloor < start { return 0; }
      retired := abandonedBelow - newFloor;
      abandonedBelow := newFloor;
    }

    /** Drops the entries below h, a prefix; how many. */
    method GaveDropBelow(h: u32) returns (k: nat)
      requires Valid()
      modifies this`gaveUpCount, gaveUp, gaveUpRearmCycles, gaveUpOffersLive
      ensures Valid() && k == LowerBound(old(Gave()), h) && Gave() == old(Gave())[k..] && Out() == old(Out())
    {
      k := GaveIndex(h);
      GaveDrop(0, k);
    }

    method OutDropBelow(h: u32)
      requires Valid()
      modifies this`outstandingCount, outstanding
      ensures Valid() && Out() == old(Out())[LowerBound(old(Out()), h)..] && Gave() == old(Gave())
    {
      var k := OutIndex(h);
      if k > 0 { OutDrop(0, k); }
    }

    method AbandonGaveUpBelow(clamp: u32) returns (needed: u32, count: nat, lo: u32, hi: u32)
      requires Valid()
      modifies this`gaveUpCount, this`abandonedBelow, gaveUp, gaveUpRearmCycles, gaveUpOffersLive
      ensures Valid() && Abandonment(View(), count, lo, hi) == LedgerSpec.AbandonGaveUpBelow(old(View()), clamp)
      ensures needed == LowestNeeded(View())
    {
      AbandonGaveUpMeans(View(), clamp);
      hide *;
      var target := AbandonTarget(clamp);
      var k := GaveIndex(target);
      ViewParts();
      count, lo, hi := k, NO_DROP, NO_DROP;
      if k > 0 { lo, hi := GaveAbandon(k); }
      needed := LowestNeededHeight();
    }

    lemma ViewParts()
      requires Valid()
      ensures View().outstanding == Out() && View().gaveUp == Gave()
      ensures |Gave()| == gaveUpCount && |Out()| == outstandingCount
      ensures Marks(View())
    {
    }

    /** The scalar fields are those of s. */
    ghost predicate Marks(s: State)
      reads this
    {
      && start == s.start && scannedThrough == s.scannedThrough && requestedThrough == s.requestedThrough
      && abandonedBelow == s.abandonedBelow && lastDriveAt == s.lastDriveAt
    }

    lemma ViewIs(s: State)
      requires Valid() && Marks(s) && Out() == s.outstanding && Gave() == s.gaveUp
      ensures View() == s
    {
    }

    /** Drops the first k parked heights and raises the floor above them; the lowest and the highest dropped. */
    method GaveAbandon(k: nat) returns (lo: u32, hi: u32)
      requires Valid() && 0 < k <= gaveUpCount
      modifies this`gaveUpCount, this`abandonedBelow, gaveUp, gaveUpRearmCycles, gaveUpOffersLive
      ensures Valid() && lo == old(Gave())[0].height && hi == old(Gave())[k - 1].height
      ensures View() == old(View()).(gaveUp := old(Gave())[k..],
              abandonedBelow := Max(old(abandonedBelow), Wrap32(hi + 1)))
    {
      hide Out, Gave, Wrap32;
      var front := GaveAt(0);
      var last := GaveAt(k - 1);
      lo, hi := front.height, last.height;
      GaveDropPrefix(k);
      if Wrap32(hi + 1) > abandonedBelow { abandonedBelow := Wrap32(hi + 1); }
    }

    /** The lower of the clamp and the first outstanding hole. */
    method AbandonTarget(clamp: u32) returns (target: u32)
      requires Valid()
      ensures target == if Out() != [] then Min(clamp, Out()[0].height) else clamp
    {
      target := clamp;
      if outstandingCount > 0 && outstanding[0].height < target { target := outstanding[0].height; }
    }

    method GaveDropPrefix(k: nat)
      requires Valid() && k <= gaveUpCount
      modifies this`gaveUpCount, gaveUp, gaveUpRearmCycles, gaveUpOffersLive
      ensures Valid() && Gave() == old(Gave())[k..]
    {
      GaveDrop(0, k);
    }

    method Surfaced(lo: u32) returns (edge: u32)
      requires Valid()
      ensures edge == SurfacedFrom(View(), lo)
    {
      edge := if lo < abandonedBelow then abandonedBelow else lo;
      if edge >= start && edge <= scannedThrough { edge := Wrap32(scannedThrough + 1); }
    }

    method AbandonUnscannableBelow(lo: u32, floor: u32) returns (needed: u32, count: nat)
      requires Valid()
      modifies this`outstandingCount, this`gaveUpCount, this`abandonedBelow, this`scannedThrough,
               outstanding, gaveUp, gaveUpRearmCycles, gaveUpOffersLive
      ensures Valid() && View() == LedgerSpec.AbandonUnscannableBelow(old(View()), lo, floor).0
      ensures count == LedgerSpec.AbandonUnscannableBelow(old(View()), lo, floor).1 && needed == LowestNeeded(View())
    {
      AbandonUnscannableMeans(View(), lo, floor);
      hide *;
      count := 0;
      var edge := Surfaced(lo);
      if lo != 0 && floor != 0 && edge < floor {
        RaiseFloor(floor);
        Advance();
        count := floor - edge;
      }
      needed := LowestNeededHeight();
    }

    /** Drops every hole below the floor and raises it. */
    method RaiseFloor(floor: u32)
      requires Valid()
      modifies this`outstandingCount, this`gaveUpCount, this`abandonedBelow,
               outstanding, gaveUp, gaveUpRearmCycles, gaveUpOffersLive
      ensures Valid() && View() == RaisedTo(old(View()), floor)
    {
      RaisedParts(View(), floor);
      ghost var raised := RaisedTo(View(), floor);
      hide *;
      ViewParts();
      OutDropBelow(floor);
      var k := GaveDropBelow(floor);
      if floor > abandonedBelow { abandonedBelow := floor; }
      ViewIs(raised);
    }

    /** Keeps the entries below `next`, a prefix. */
    method KeepBelow(next: u32) returns (changed: bool)
      requires Valid()
      modifies this`outstandingCount, this`gaveUpCount
      ensures Valid() && Out() == old(Out())[..LowerBound(old(Out()), next)]
      ensures Gave() == old(Gave())[..LowerBound(old(Gave()), next)]
      ensures changed <==> Out() != old(Out()) || Gave() != old(Gave())
    {
      hide LowerBoundFrom;
      changed := false;
      var ko := OutIndex(next);
      var kg := GaveIndex(next);
      ghost var n := gaveUpCount;
      ZipSlice(gaveUp[..n], gaveUpRearmCycles[..n], gaveUpOffersLive[..n], kg);
      assert gaveUp[..n][..kg] == gaveUp[..kg] && gaveUpRearmCycles[..n][..kg] == gaveUpRearmCycles[..kg];
      assert gaveUpOffersLive[..n][..kg] == gaveUpOffersLive[..kg];
      assert Out()[..ko] == outstanding[..ko];
      if ko < outstandingCount { outstandingCount := ko; changed := true; }
      if kg < gaveUpCount { gaveUpCount := kg; changed := true; }
    }

    method RewindTo(next: u32) returns (changed: bool)
      requires Valid()
      modifies this
      ensures Valid() && View() == LedgerSpec.RewindTo(old(View()), next).0
      ensures changed == LedgerSpec.RewindTo(old(View()), next).1
    {
      hide LowerBound, Out, Gave;
      if next == 0 { return false; }
      changed := next < start || scannedThrough >= next || requestedThrough >= next;
      if next < start { start := next; }
      if scannedThrough >= next { scannedThrough := next - 1; }
      if requestedThrough >= next { requestedThrough := next - 1; }
      var cut := KeepBelow(next);
      assert View() == CutTo(old(View()), next);
      changed := changed || cut;
      Advance();
    }

    // ---- persistence --------------------------------------------------------

    static method PutWord(buf: array<u8>, p: nat, v: u32)
      requires p + 4 <= buf.Length
      modifies buf
      ensures buf[..p + 4] == old(buf[..p]) + PutU32(v)
    {
      buf[p], buf[p + 1], buf[p + 2], buf[p + 3] :=
        v % 0x100, v / 0x100 % 0x100, v / 0x1_0000 % 0x100, v / 0x100_0000 % 0x100;
      assert buf[..p + 4] == buf[..p] + [buf[p], buf[p + 1], buf[p + 2], buf[p + 3]];
    }

    static method PutPair(buf: array<u8>, p: nat, x: u8, y: u8)
      requires p + 2 <= buf.Length
      modifies buf
      ensures buf[..p + 2] == old(buf[..p]) + [x, y]
    {
      buf[p], buf[p + 1] := x, y;
      assert buf[..p + 2] == buf[..p] + [x, y];
    }

    /** Writes the blob when the buffer has room; always says how many bytes it takes. */
    method Serialize(buf: array<u8>) returns (need: nat)
      requires Valid() && buf !in {gaveUpRearmCycles, gaveUpOffersLive}
      modifies buf
      ensures Blob.Fits(View()) && need == |Blob.Bytes(View())|
      ensures buf.Length < need ==> unchanged(buf)
      ensures buf.Length >= need ==> buf[..need] == Blob.Bytes(View())
    {
      ViewParts();
      hide Out, Gave, View, Blob.Bytes;
      need := 32 + 6 * outstandingCount + 6 * gaveUpCount;
      if buf.Length >= need { WriteBlob(buf); }
    }

    method WriteBlob(buf: array<u8>)
      requires Valid() && Blob.Fits(View()) && buf.Length >= |Blob.Bytes(View())|
      requires buf !in {gaveUpRearmCycles, gaveUpOffersLive}
      modifies buf
      ensures buf[..|Blob.Bytes(View())|] == Blob.Bytes(View())
    {
      var count: u32 := gaveUpCount;
      hide *;
      ghost var s := View();
      ViewParts();
      Blob.BytesParts(s);
      WriteHeader(buf);
      WriteOut(buf, 28);
      var p := 28 + 6 * outstandingCount;
      PutWord(buf, p, count);
      ghost var head := buf[..p + 4];
      WriteGave(buf, p + 4);
      assert Gave() == s.gaveUp && View() == s;
      assert buf[..p + 4 + 6 * gaveUpCount] == head + Blob.GaveBytes(s.gaveUp);
    }

    method WriteHeader(buf: array<u8>)
      requires Valid() && buf.Length >= 28 && buf !in {gaveUpRearmCycles, gaveUpOffersLive}
      modifies buf
      ensures buf[..28] == Blob.HeaderBytes(View()) + PutU32(outstandingCount)
    {
      hide PutU32, Out, Gave;
      PutWord(buf, 0, Blob.MAGIC);
      PutWord(buf, 4, Blob.VERSION);
      PutWord(buf, 8, start);
      PutWord(buf, 12, scannedThrough);
      PutWord(buf, 16, requestedThrough);
      PutWord(buf, 20, abandonedBelow);
      Blob.SixWords(Blob.MAGIC, Blob.VERSION, start, scannedThrough, requestedThrough, abandonedBelow);
      PutWord(buf, 24, outstandingCount);
    }

    method WriteOut(buf: array<u8>, at: nat)
      requires Valid() && at + 6 * outstandingCount <= buf.Length
      requires buf as object != outstanding as object
      modifies buf
      ensures buf[..at + 6 * outstandingCount] == old(buf[..at]) + Blob.OutBytes(Out())
    {
      hide PutU32, Out, Gave, Blob.OutBytes, Blob.OutEntry;
      ghost var out, pre := Out(), buf[..at];
      OutCount();
      var i := 0;
      while i < outstandingCount
        invariant i <= outstandingCount && Out() == out
        invariant buf[..at + 6 * i] == pre + Blob.OutBytes(out[..i])
      {
        var e := OutAt(i);
        Blob.OutBytesNext(out, i);
        PutHole(buf, at + 6 * i, e);
        i := i + 1;
      }
      assert out[..i] == out;
    }

    static method PutHole(buf: array<u8>, p: nat, e: Outstanding)
      requires p + 6 <= buf.Length
      modifies buf
      ensures buf[..p + 6] == old(buf[..p]) + Blob.OutEntry(e)
    {
      hide PutU32;
      PutWord(buf, p, e.height);
      PutPair(buf, p + 4, e.info.headerRace, e.info.rearmCycles);
    }

    static method PutParked(buf: array<u8>, p: nat, e: Parked)
      requires p + 6 <= buf.Length
      modifies buf
      ensures buf[..p + 6] == old(buf[..p]) + Blob.GaveEntry(e)
    {
      hide PutU32;
      PutWord(buf, p, e.height);
      PutPair(buf, p + 4, e.info.rearmCycles, e.info.offersLive);
    }

    method WriteGave(buf: array<u8>, at: nat)
      requires Valid() && at + 6 * gaveUpCount <= buf.Length && buf !in {gaveUpRearmCycles, gaveUpOffersLive}
      modifies buf
      ensures buf[..at + 6 * gaveUpCount] == old(buf[..at]) + Blob.GaveBytes(Gave())
    {
      hide PutU32, Out, Gave, Blob.GaveBytes, Blob.GaveEntry;
      ghost var gave, pre := Gave(), buf[..at];
      Counts();
      var i := 0;
      while i < gaveUpCount
        invariant i <= gaveUpCount && Gave() == gave
        invariant buf[..at + 6 * i] == pre + Blob.GaveBytes(gave[..i])
      {
        var p := GaveAt(i);
        Blob.GaveBytesNext(gave, i);
        PutParked(buf, at + 6 * i, p);
        i := i + 1;
      }
      assert gave[..i] == gave;
    }

    /** Loads a blob. A failure leaves the fields read so far. */
    method Parse(b: seq<u8>) returns (ok: bool)
      requires Valid()
      modifies this, outstanding, gaveUp, gaveUpRearmCycles, gaveUpOffersLive
      ensures Valid() && View() == Blob.ParseBlob(b).0 && ok == Blob.ParseBlob(b).1
    {
      hide GetU32, Blob.OutList, Blob.GaveList;
      Clear();
      if |b| < 24 { return false; }
      if GetU32(b, 0) != Blob.MAGIC { return false; }
      var version := GetU32(b, 4);
      if version < 1 || version > Blob.VERSION { return false; }
      start, scannedThrough, requestedThrough := GetU32(b, 8), GetU32(b, 12), GetU32(b, 16);
      var hdr := 24;
      if version >= 2 {
        if |b| < 28 { return false; }
        abandonedBelow := GetU32(b, 20);
        hdr := 28;
      }
      assert View() == Blob.ReadMarks(b);
      hide Blob.ReadMarks;
      ok := ParseLists(b, hdr, version);
    }

    method Clear()
      requires Valid()
      modifies this
      ensures Valid() && View() == Blob.EMPTY
    {
      start, scannedThrough, requestedThrough, abandonedBelow := 0, 0, 0, 0;
      outstandingCount, gaveUpCount, lastDriveAt := 0, 0, 0;
    }

    method ParseLists(b: seq<u8>, hdr: nat, version: u32) returns (ok: bool)
      requires Valid() && Blob.KnownHeader(b) && version == GetU32(b, 4) && hdr == Blob.HeaderSize(version) <= |b|
      requires View() == Blob.ReadMarks(b)
      modifies this`outstandingCount, this`gaveUpCount, outstanding, gaveUp, gaveUpRearmCycles, gaveUpOffersLive
      ensures Valid() && View() == Blob.ParseBlob(b).0 && ok == Blob.ParseBlob(b).1
    {
      hide GetU32, Blob.OutList, Blob.GaveList, Blob.ReadMarks, Out, Gave;
      var outCount := GetU32(b, hdr - 4);
      if outCount > OUTSTANDING_MAX { return false; }
      var at := hdr + outCount * Blob.OutStride(version);
      if |b| - hdr < outCount * Blob.OutStride(version) + 4 { return false; }
      LoadOut(b, hdr, outCount, version);
      assert View() == Blob.ReadOut(b);
      var gaveCount := GetU32(b, at);
      if gaveCount > GAVEUP_MAX { return false; }
      if |b| - at - 4 < gaveCount * Blob.GaveStride(version) { return false; }
      LoadGave(b, at + 4, gaveCount, version);
      return true;
    }

    method LoadOut(b: seq<u8>, at: nat, n: nat, version: u32)
      requires Valid() && n <= OUTSTANDING_MAX && at + n * Blob.OutStride(version) <= |b|
      modifies this`outstandingCount, outstanding
      ensures Valid() && Out() == Blob.OutList(b, at, n, version)
    {
      hide GetU32;
      for i := 0 to n
        invariant outstanding[..i] == Blob.OutList(b, at, i, version)
      {
        assert at + i * Blob.OutStride(version) + Blob.OutStride(version) <= |b|;
        outstanding[i] := Blob.OutAt(b, at + i * Blob.OutStride(version), version);
        assert outstanding[..i + 1] == outstanding[..i] + [outstanding[i]];
      }
      outstandingCount := n;
    }

    method LoadGave(b: seq<u8>, at: nat, n: nat, version: u32)
      requires Valid() && n <= GAVEUP_MAX && at + n * Blob.GaveStride(version) <= |b|
      modifies this`gaveUpCount, gaveUp, gaveUpRearmCycles, gaveUpOffersLive
      ensures Valid() && Gave() == Blob.GaveList(b, at, n, version)
    {
      hide GetU32;
      for i := 0 to n
        invariant Zip(gaveUp[..i], gaveUpRearmCycles[..i], gaveUpOffersLive[..i]) == Blob.GaveList(b, at, i, version)
      {
        assert at + i * Blob.GaveStride(version) + Blob.GaveStride(version) <= |b|;
        ghost var h, c, l := gaveUp[..i], gaveUpRearmCycles[..i], gaveUpOffersLive[..i];
        var p := Blob.GaveAt(b, at + i * Blob.GaveStride(version), version);
        gaveUp[i] := p.height;
        gaveUpRearmCycles[i] := p.info.rearmCycles;
        gaveUpOffersLive[i] := p.info.offersLive;
        ZipConcat(h, c, l, [p.height], [p.info.rearmCycles], [p.info.offersLive]);
        assert gaveUp[..i + 1] == h + [p.height] && gaveUpRearmCycles[..i + 1] == c + [p.info.rearmCycles];
        assert gaveUpOffersLive[..i + 1] == l + [p.info.offersLive];
      }
      gaveUpCount := n;
    }
  }
}
