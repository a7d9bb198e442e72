/** The band's record. */
module AbandonmentRecord {
  // The record of the abandoned band, and the poll that keeps it.

  import opened FixedWidth
  import opened Options
  import opened LedgerSpec
  import opened LedgerHistory
  import opened LedgerEvictions
  import opened Abandonment

  datatype Record = Record(band: Band, hasBand: bool, recovered: bool, sawFrontierInBand: bool)

  const NO_RECORD := Record(Band(0, 0, false), false, false, false)

  /** What one poll reads off the peer manager; a failed read is 0. */
  datatype Reading = Reading(abandonmentPending: u32, scanFrontier: u32, abandonedBelow: u32,
                             ledgerStart: u32, scannedThrough: u32, gaveUpCount: nat)

  predicate Unrecovered(r: Record) { r.hasBand && !r.recovered }

  function Noted(r: Record, abandonedBelow: u32, lowHint: u32): Record {
    match BandNext(if r.hasBand then Some(r.band) else None, abandonedBelow, lowHint)
    case None => r
    case Some(next) => Record(next, true, false, false)
  }

  function Recovered(r: Record): Record { if Unrecovered(r) then r.(recovered := true) else r }

  predicate InBand(r: Record, x: Reading) { 0 < x.scanFrontier <= r.band.high }

  predicate PastBand(r: Record, x: Reading) { r.band.high < x.scanFrontier }

  predicate Proven(r: Record, x: Reading) {
    CoverageIsProven(r.band, x.ledgerStart, x.scannedThrough, x.abandonedBelow, x.gaveUpCount)
  }

  function Hinted(lowHint: u32, x: Reading): u32 {
    if x.abandonmentPending > 0 && x.scanFrontier > 0 then x.scanFrontier else lowHint
  }

  /** The record after one poll. */
  function Polled(r: Record, lowHint: u32, x: Reading): Record {
    if x.abandonedBelow > 0 then Noted(r, x.abandonedBelow, Hinted(lowHint, x))
    else if !Unrecovered(r) then r
    else
      var seen := if InBand(r, x) then r.(sawFrontierInBand := true) else r;
      if (PastBand(r, x) && r.sawFrontierInBand) || Proven(r, x) then Recovered(seen) else seen
  }

  const CHANGED: nat := 1
  const RECORDED: nat := 2
  const RECOVERED: nat := 4

  class RecordKeeper {
    var band: Band
    var hasBand: bool
    var recovered: bool
    var sawFrontierInBand: bool

    ghost function View(): Record
      reads this
    {
      Record(band, hasBand, recovered, sawFrontierInBand)
    }

    constructor ()
      ensures View() == NO_RECORD
    {
      band, hasBand, recovered, sawFrontierInBand := Band(0, 0, false), false, false, false;
    }

    method Note(abandonedBelow: u32, lowHint: u32) returns (changed: bool)
      modifies this
      ensures View() == Noted(old(View()), abandonedBelow, lowHint)
      ensures changed <==> band != old(band) || hasBand != old(hasBand)
    {
      var next := BandNext(if hasBand then Some(band) else None, abandonedBelow, lowHint);
      if next.None? { return false; }
      band, hasBand, recovered, sawFrontierInBand := next.value, true, false, false;
      return true;
    }

    method MarkRecovered() returns (marked: bool)
      modifies this`recovered
      ensures View() == Recovered(old(View()))
      ensures marked <==> Unrecovered(old(View()))
    {
      if !hasBand || recovered { return false; }
      recovered := true;
      return true;
    }

    /** Two phases: the frontier inside the band first, then past its top. */
    method NoteScanCoverage(abandonedBelow: u32, scanFrontier: u32) returns (recoveredNow: bool)
      modifies this`recovered, this`sawFrontierInBand
      ensures recoveredNow <==> Unrecovered(old(View())) && BandIsRetired(band.low, abandonedBelow) &&
                                band.high < scanFrontier && old(sawFrontierInBand)
      ensures recovered == (old(recovered) || recoveredNow)
      ensures sawFrontierInBand == (old(sawFrontierInBand) ||
                (Unrecovered(old(View())) && BandIsRetired(band.low, abandonedBelow) && 0 < scanFrontier <= band.high))
    {
      if !(hasBand && !recovered) { return false; }
      if !BandIsRetired(band.low, abandonedBelow) { return false; }
      if scanFrontier == 0 { return false; }
      if scanFrontier <= band.high { sawFrontierInBand := true; return false; }
      if !sawFrontierInBand { return false; }
      recoveredNow := MarkRecovered();
    }

    method Clear()
      modifies this
      ensures View() == NO_RECORD
    {
      band, hasBand, recovered, sawFrontierInBand := Band(0, 0, false), false, false, false;
    }

    /** One poll: the next hint, and bits that say exactly what happened. */
    method Poll(lowHint: u32, x: Reading) returns (hint: u32, bits: nat)
      modifies this
      ensures hint == Hinted(lowHint, x) && View() == Polled(old(View()), lowHint, x)
      ensures bits % 2 == 1 <==> View() != old(View())
      ensures bits / 2 % 2 == 1 <==> band != old(band) || hasBand != old(hasBand)
      ensures bits / 4 % 2 == 1 <==> recovered && !old(recovered)
    {
      hint := if x.abandonmentPending > 0 && x.scanFrontier > 0 then x.scanFrontier else lowHint;
      if x.abandonedBelow > 0 {
        var changed := Note(x.abandonedBelow, hint);
        return hint, if changed then CHANGED + RECORDED else 0;
      }
      var sawBefore := sawFrontierInBand;
      var done := NoteScanCoverage(x.abandonedBelow, x.scanFrontier);
      if done { return hint, CHANGED + RECOVERED; }
      if hasBand && !recovered && CoverageIsProven(band, x.ledgerStart, x.scannedThrough, x.abandonedBelow,
                                                   x.gaveUpCount) {
        var marked := MarkRecovered();
        if marked { return hint, CHANGED + RECOVERED; }
      }
      return hint, if sawFrontierInBand != sawBefore then CHANGED else 0;
    }
  }

  // ---- runs between clears --------------------------------------------------

  /** A poll, or another recovery's signal. */
  datatype Event = PollEvent(x: Reading) | RecoveryEvent

  datatype Kept = Kept(r: Record, hint: u32)

  function Step(k: Kept, e: Event): Kept {
    match e
    case PollEvent(x) => Kept(Polled(k.r, k.hint, x), Hinted(k.hint, x))
    case RecoveryEvent => k.(r := Recovered(k.r))
  }

  /** The record after the first n events. */
  function After(k: Kept, events: seq<Event>, n: nat): Kept
    requires n <= |events|
    decreases n
  {
    if n == 0 then k else Step(After(k, events, n - 1), events[n - 1])
  }

  /** Event i saw the frontier inside the band as it still stands after n events. */
  ghost predicate WitnessAt(k: Kept, events: seq<Event>, i: nat, n: nat)
    requires i < n <= |events|
  {
    && events[i].PollEvent? && events[i].x.abandonedBelow == 0
    && InBand(After(k, events, i).r, events[i].x)
    && forall m :: i <= m <= n ==>
        After(k, events, m).r.hasBand && After(k, events, m).r.band == After(k, events, n).r.band
  }

  /** The stored witness always stands for a real observation of the present band. */
  lemma {:induction false} WitnessIsReal(k: Kept, events: seq<Event>, n: nat)
    requires n <= |events| && !k.r.sawFrontierInBand
    ensures After(k, events, n).r.sawFrontierInBand ==> exists i: nat :: i < n && WitnessAt(k, events, i, n)
    decreases n
  {
    if n > 0 && After(k, events, n).r.sawFrontierInBand {
      var before, now := After(k, events, n - 1), After(k, events, n);
      if before.r.sawFrontierInBand {
        WitnessIsReal(k, events, n - 1);
        var i: nat :| i < n - 1 && WitnessAt(k, events, i, n - 1);
        assert now.r.band == before.r.band && now.r.hasBand;
        assert WitnessAt(k, events, i, n);
      } else {
        assert WitnessAt(k, events, n - 1, n);
      }
    }
  }

  /** Between clears the band's bottom never changes and its top never falls. */
  lemma {:induction false} BandOnlyGrows(k: Kept, events: seq<Event>, m: nat, n: nat)
    requires m <= n <= |events| && After(k, events, m).r.hasBand
    ensures var (a, b) := (After(k, events, m).r, After(k, events, n).r);
            b.hasBand && b.band.low == a.band.low && b.band.lowKnown == a.band.lowKnown && a.band.high <= b.band.high
    decreases n
  {
    if m < n { BandOnlyGrows(k, events, m, n - 1); }
  }

  /** A poll recovers the band only with the floor at zero, and either by the ledger's own
      proof, or by seeing the frontier past the band's top after an earlier poll saw it
      inside the band as it has stood ever since. */
  lemma RecoveryNeedsEvidence(k: Kept, events: seq<Event>, n: nat)
    requires n < |events| && !k.r.sawFrontierInBand && events[n].PollEvent?
    requires !After(k, events, n).r.recovered && After(k, events, n + 1).r.recovered
    ensures events[n].x.abandonedBelow == 0
    ensures Proven(After(k, events, n).r, events[n].x) ||
            (PastBand(After(k, events, n).r, events[n].x) && exists i: nat :: i < n && WitnessAt(k, events, i, n))
  {
    WitnessIsReal(k, events, n);
  }

  // ---- what a recovery means ------------------------------------------------

  /** What a poll of this ledger reads, with nothing pending. */
  function Read(s: State): Reading {
    Reading(0, LowestNeeded(s), s.abandonedBelow, s.start, s.scannedThrough, |s.gaveUp|)
  }

  /** The scalars of this poll are read off one ledger. */
  predicate ReadOff(x: Reading, s: State) {
    && x.scanFrontier == LowestNeeded(s) && x.abandonedBelow == s.abandonedBelow
    && x.ledgerStart == s.start && x.scannedThrough == s.scannedThrough && x.gaveUpCount == |s.gaveUp|
  }

  /** A poll changes the band exactly when it reads a floor whose last height below is new to it. */
  lemma PollChangesBand(r: Record, lowHint: u32, x: Reading)
    ensures Polled(r, lowHint, x).hasBand <==> r.hasBand || x.abandonedBelow > 0
    ensures Polled(r, lowHint, x).band != r.band || Polled(r, lowHint, x).hasBand != r.hasBand <==>
              x.abandonedBelow > 0 && (!r.hasBand || r.band.high + 1 < x.abandonedBelow)
    ensures x.abandonedBelow > 0 && r.hasBand && x.abandonedBelow <= r.band.high + 1 ==> Polled(r, lowHint, x) == r
  {
    hide Proven;
  }

  /** A poll of a ledger with a floor, after any lawful run, records the band of what that ledger gave up on: its top is
      the highest height below the floor, or the top it had if that is higher; no height at or above the floor is new to
      it; and the new top was abandoned in the run. The bottom stays what it was; that of a new band is known exactly
      when the hint lies inside, and is then the hint: the frontier read while an abandonment was pending, or the
      hint kept from before. A band that grows is neither recovered nor observed yet. */
  lemma PollRecordsFloor(start: u32, ops: seq<Op>, r: Record, lowHint: u32, x: Reading)
    requires 0 < start < U32_MAX && Lawful(Born(start), ops) && ReadOff(x, Play(Born(start), ops).s)
    requires x.abandonedBelow > 0
    ensures var w, after := Play(Born(start), ops), Polled(r, lowHint, x);
            var hint := if x.abandonmentPending > 0 && x.scanFrontier > 0 then x.scanFrontier else lowHint;
            && after.hasBand && after.band.high < Max(w.s.abandonedBelow, if r.hasBand then r.band.high + 1 else 0)
            && w.s.abandonedBelow <= after.band.high + 1 && (r.hasBand ==> r.band.high <= after.band.high)
            && (!r.hasBand || r.band.high < after.band.high ==>
                  after.band.high in w.k.abandoned && !after.recovered && !after.sawFrontierInBand)
            && (r.hasBand ==> after.band.low == r.band.low && after.band.lowKnown == r.band.lowKnown)
            && (!r.hasBand ==> (after.band.lowKnown <==> 1 <= hint < w.s.abandonedBelow) &&
                               (after.band.lowKnown ==> after.band.low == hint))
  {
    RunKeeps(Born(start), ops);
    hide Proven;
    FloorWasAbandoned(Play(Born(start), ops));
    hide Play, Lawful;
  }

  /** Every height below the floor was abandoned. */
  lemma FloorWasAbandoned(w: World)
    requires Sound(w)
    ensures forall h :: 0 <= h < w.s.abandonedBelow ==> h in w.k.abandoned
  {
    assert forall h :: h in Below(w.s.abandonedBelow) ==> h in w.k.abandoned;
    hide HolesInRange, Accounted;
  }

  /** A poll that recovers the band, by the ledger's proof or by its frontier past the band's top, speaks the truth
      about the ledger it reads: after any lawful run that ledger never abandoned anything, and every height from its
      start up to the band's top was evaluated, or fell out of a full outstanding[]. */
  lemma RecoveryIsTrue(start: u32, ops: seq<Op>, r: Record, lowHint: u32, x: Reading)
    requires 0 < start < U32_MAX && Lawful(Born(start), ops) && ReadOff(x, Play(Born(start), ops).s)
    requires !r.recovered && Polled(r, lowHint, x).recovered
    ensures var w := Play(Born(start), ops);
            && w.k.abandoned == {}
            && forall h :: w.s.start <= h <= r.band.high ==> h in w.k.evaluated || h in w.k.evicted
  {
    RunKeeps(Born(start), ops);
    hide *;
    RecoveredMeans(r, lowHint, x);
    FrontierCovers(Play(Born(start), ops), r, x);
  }

  /** The band's own heights are all spoken for when the ledger starts at or below them; and all of them were evaluated
      when everything the calls of the run add fits. */
  lemma RecoveryCoversBand(start: u32, ops: seq<Op>, r: Record, lowHint: u32, x: Reading)
    requires 0 < start < U32_MAX && Lawful(Born(start), ops) && ReadOff(x, Play(Born(start), ops).s)
    requires !r.recovered && Polled(r, lowHint, x).recovered
    requires x.ledgerStart <= EffectiveLow(r.band, x.ledgerStart)
    ensures var w := Play(Born(start), ops);
            && (forall h :: EffectiveLow(r.band, x.ledgerStart) <= h <= r.band.high ==>
                h in w.k.evaluated || h in w.k.evicted)
            && (AlwaysFits(Born(start), ops) ==>
                  forall h :: EffectiveLow(r.band, x.ledgerStart) <= h <= r.band.high ==> h in w.k.evaluated)
  {
    hide *;
    RecoveryIsTrue(start, ops, r, lowHint, x);
    ReadStart(x, Play(Born(start), ops).s);
    if AlwaysFits(Born(start), ops) {
      NothingFallsOut(start, ops);
      NoneNow(Born(start), ops);
    }
  }

  lemma ReadStart(x: Reading, s: State)
    requires ReadOff(x, s)
    ensures x.ledgerStart == s.start
  {
  }

  lemma RecoveredMeans(r: Record, lowHint: u32, x: Reading)
    requires !r.recovered && Polled(r, lowHint, x).recovered
    ensures x.abandonedBelow == 0 && (PastBand(r, x) || Proven(r, x))
  {
    hide Proven;
  }

  /** A zero floor and a frontier past the band, or the proof, leave nothing of the band below the scan mark
      unsettled. */
  lemma FrontierCovers(w: World, r: Record, x: Reading)
    requires Sound(w) && ReadOff(x, w.s) && x.abandonedBelow == 0 && (PastBand(r, x) || Proven(r, x))
    ensures w.k.abandoned == {}
    ensures forall h :: w.s.start <= h <= r.band.high ==> h in w.k.evaluated || h in w.k.evicted
  {
    hide HolesInRange, Below;
    assert r.band.high <= w.s.scannedThrough;
    forall h | w.s.start <= h <= r.band.high ensures h in w.k.evaluated || h in w.k.evicted {
      assert h in Settled(w.k);
    }
  }
}
