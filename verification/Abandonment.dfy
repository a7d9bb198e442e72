/** The abandoned band. */
module Abandonment {
  // The heights the valve gave up on: when the band grows, and when the ledger
  // itself proves that it was scanned after all.

  import opened FixedWidth
  import opened Options
  import opened LedgerSpec
  import opened LedgerHistory
  import opened LedgerEvictions
  import opened SortedHoles

  /** `low` means something only when it is known. */
  datatype Band = Band(low: u32, high: u32, lowKnown: bool)

  /** The band after polling a watermark, or None when the record does not change. */
  function BandNext(existing: Option<Band>, abandonedBelow: u32, lowHint: u32): Option<Band> {
    if abandonedBelow == 0 then None else
    var high := abandonedBelow - 1;
    match existing
    case Some(b) => if high <= b.high then None else Some(Band(b.low, high, b.lowKnown))
    case None => Some(if 1 <= lowHint <= high then Band(lowHint, high, true) else Band(0, high, false))
  }

  predicate BandIsRetired(bandLow: u32, abandonedBelow: u32) { abandonedBelow <= bandLow }

  /** The heights a verdict about the band speaks for. */
  function EffectiveLow(band: Band, ledgerStart: u32): u32 { if band.lowKnown then band.low else ledgerStart }

  predicate CoverageIsProven(band: Band, ledgerStart: u32, scannedThrough: u32, abandonedBelow: u32, gaveUpCount: nat) {
    && ledgerStart != 0 && scannedThrough != 0
    && abandonedBelow == 0
    && gaveUpCount == 0
    && ledgerStart <= EffectiveLow(band, ledgerStart)
    && scannedThrough >= band.high
  }

  predicate CoverageIsProvenByLedger(s: State, band: Band) {
    CoverageIsProven(band, s.start, s.scannedThrough, s.abandonedBelow, |s.gaveUp|)
  }

  /** A verdict read off a ledger that lived through any lawful run is true: every height
      of the band was evaluated, or fell out of a full outstanding[]; none was abandoned. */
  lemma VerdictIsSound(start: u32, ops: seq<Op>, band: Band)
    requires 0 < start < U32_MAX && Lawful(Born(start), ops)
    requires CoverageIsProvenByLedger(Play(Born(start), ops).s, band)
    ensures var w := Play(Born(start), ops);
            && w.k.abandoned == {}
            && forall h :: EffectiveLow(band, w.s.start) <= h <= band.high ==> h in w.k.evaluated || h in w.k.evicted
  {
    RunKeeps(Born(start), ops);
    var w := Play(Born(start), ops);
    forall h | EffectiveLow(band, w.s.start) <= h <= band.high ensures h in w.k.evaluated || h in w.k.evicted {
      assert h in Settled(w.k);
    }
  }

  /** When everything the calls of the run add fits, the verdict means that every height of the band was evaluated. */
  lemma VerdictIsTrue(start: u32, ops: seq<Op>, band: Band)
    requires 0 < start < U32_MAX && Lawful(Born(start), ops) && AlwaysFits(Born(start), ops)
    requires CoverageIsProvenByLedger(Play(Born(start), ops).s, band)
    ensures var w := Play(Born(start), ops);
            && w.k.abandoned == {} && w.k.evicted == {}
            && forall h :: EffectiveLow(band, w.s.start) <= h <= band.high ==> h in w.k.evaluated
  {
    hide *;
    VerdictIsSound(start, ops, band);
    NothingFallsOut(start, ops);
    NoneNow(Born(start), ops);
  }

  /** A verdict means that every height of the band was evaluated exactly when each height of the band that some call
      pushed out, and no later rewind cut, was also reported evaluated by a call that no later rewind voids. */
  lemma VerdictHoldsIff(start: u32, ops: seq<Op>, band: Band)
    requires 0 < start < U32_MAX && Lawful(Born(start), ops)
    requires CoverageIsProvenByLedger(Play(Born(start), ops).s, band)
    ensures var w := Play(Born(start), ops);
            (forall h :: EffectiveLow(band, w.s.start) <= h <= band.high ==> h in w.k.evaluated) <==>
              forall h :: EffectiveLow(band, w.s.start) <= h <= band.high && Fell(Born(start), ops, h) ==> Seen(ops, h)
  {
    hide *;
    VerdictIsSound(start, ops, band);
    var w := Play(Born(start), ops);
    forall h | EffectiveLow(band, w.s.start) <= h <= band.high
      ensures (h in w.k.evicted <==> Fell(Born(start), ops, h)) && (h in w.k.evaluated <==> Seen(ops, h))
    {
      RecordTells(start, ops, h);
    }
  }

  /** A ledger with no floor and nothing parked gives the verdict, once its mark has caught up, for every band from its
      start or above that it requested and of which it holds no hole. */
  lemma VerdictIsGiven(w: World, band: Band)
    requires Sound(w) && w.s.abandonedBelow == 0 && w.s.gaveUp == []
    requires w.s.start <= EffectiveLow(band, w.s.start) && w.s.start <= band.high <= w.s.requestedThrough
    requires forall h :: h in Heights(w.s.outstanding) ==> band.high < h
    ensures CoverageIsProvenByLedger(Advanced(w.s), band)
  {
    if w.s.outstanding != [] { FirstIsLeast(w.s.outstanding); }
    hide Heights, Ascending, Accounted, FloorOnRecord;
  }

  /** The start test is needed: a ledger re-initialised above a band can have a high mark
      and no floor while nothing in the band was ever looked at. */
  lemma StartTestIsNeeded(band: Band, start: u32)
    requires band.lowKnown && 1 < start < U32_MAX && band.low <= band.high == start - 1
    ensures var w := Born(start);
            && w.s.scannedThrough >= band.high && w.s.abandonedBelow == 0 && w.s.gaveUp == []
            && !CoverageIsProvenByLedger(w.s, band) && band.high !in w.k.evaluated + w.k.evicted
  {
  }
}
