/** What each compact-filter scan ledger operation does to the ledger's value:
    the specification that the in-place class of module ScanLedger
    is proved against. */
module LedgerSpec {
  import opened FixedWidth
  import opened SortedHoles

  const OUTSTANDING_MAX: nat := 4096
  const GAVEUP_MAX: nat := OUTSTANDING_MAX
  const NO_DROP: u32 := 0xFFFF_FFFF
  const HEADERRACE_SECS: nat := 10
  const BASE_SECS: nat := 30
  const BACKOFF_CAP_SECS: nat := 120
  const MAX_ATTEMPTS: nat := 5
  const MAX_RANGE: nat := 1000

  datatype Retry = Retry(peer: u128, port: u16, requestedAt: u32, attempts: u8, headerRace: u8,
                         rearmCycles: u8, offersReachedLivePeer: u8)
  datatype Verdict = Verdict(rearmCycles: u8, offersLive: u8)

  type Outstanding = Hole<Retry>
  type Parked = Hole<Verdict>

  datatype State = State(start: u32, scannedThrough: u32, requestedThrough: u32, abandonedBelow: u32,
                         outstanding: seq<Outstanding>, gaveUp: seq<Parked>, lastDriveAt: u32)

  function Init(start: u32): State {
    var below := if start > 0 then start - 1 else 0;
    State(start, below, below, 0, [], [], 0)
  }

  // ---- the scan mark --------------------------------------------------------

  /** The lower of the two list fronts, or U32_MAX when there is no hole. */
  function FirstHole(s: State): u32 {
    var o := if s.outstanding != [] then s.outstanding[0].height else U32_MAX;
    if s.gaveUp != [] && s.gaveUp[0].height < o then s.gaveUp[0].height else o
  }

  function Ceiling(s: State): u32 {
    var first := FirstHole(s);
    var cap: u32 := if first > 0 then first - 1 else 0;
    if first != U32_MAX && cap < s.requestedThrough then cap else s.requestedThrough
  }

  function Advanced(s: State): State {
    if s.scannedThrough < Ceiling(s) then s.(scannedThrough := Ceiling(s)) else s
  }

  function LowestNeeded(s: State): u32 {
    Max(Wrap32(s.scannedThrough + 1), s.abandonedBelow)
  }

  // ---- outstanding ----------------------------------------------------------

  function Fresh(h: u32, peer: u128, port: u16, now: u32): Outstanding {
    Hole(h, Retry(peer, port, now, 0, 0, 0, 1))
  }

  /** Insert one height, or refresh its target; a full list first loses its lowest
      hole, whose height is reported in `dropped`. */
  function Insert(out: seq<Outstanding>, h: u32, peer: u128, port: u16, now: u32): (r: (seq<Outstanding>, u32)) {
    var i := LowerBound(out, h);
    if i < |out| && out[i].height == h then
      (out[i := Hole(h, out[i].info.(peer := peer, port := port, requestedAt := now))], NO_DROP)
    else if |out| >= OUTSTANDING_MAX then
      (InsertAt(out[1..], if i > 0 then i - 1 else 0, Fresh(h, peer, port, now)), out[0].height)
    else
      (InsertAt(out, i, Fresh(h, peer, port, now)), NO_DROP)
  }

  /** Insert every height of [from..end), in order; the second component lists the
      heights evicted to make room. */
  function InsertRange(out: seq<Outstanding>, from: nat, end: nat, peer: u128, port: u16, now: u32)
    : (r: (seq<Outstanding>, seq<u32>))
    requires from <= end <= 0x1_0000_0000
    decreases end
  {
    if from == end then (out, []) else
    var before := InsertRange(out, from, end - 1, peer, port, now);
    var last := Insert(before.0, end - 1, peer, port, now);
    (last.0, if last.1 != NO_DROP then before.1 + [last.1] else before.1)
  }

  function RecordRequested(s: State, startH: u32, stopH: u32, peer: u128, port: u16, now: u32): (r: (State, seq<u32>)) {
    var from := Max(startH, s.abandonedBelow);
    if stopH < from then (s, []) else
    var ins := InsertRange(s.outstanding, from, stopH + 1, peer, port, now);
    (s.(outstanding := ins.0, requestedThrough := Max(s.requestedThrough, stopH)), ins.1)
  }

  function MarkEvaluated(s: State, h: u32): State {
    Advanced(s.(outstanding := Remove(s.outstanding, h), gaveUp := Remove(s.gaveUp, h)))
  }

  function FlagHeaderRace(out: seq<Outstanding>, h: u32): seq<Outstanding> {
    var i := LowerBound(out, h);
    if i < |out| && out[i].height == h then out[i := Hole(h, out[i].info.(headerRace := 1))] else out
  }

  /** The second component is the evicted height, or NO_DROP. */
  function MarkHeaderRace(s: State, h: u32): (r: (State, u32)) {
    if h < s.abandonedBelow then (s, NO_DROP)
    else if Holds(s.outstanding, h) then (s.(outstanding := FlagHeaderRace(s.outstanding, h)), NO_DROP)
    else
      var ins := Insert(s.outstanding, h, 0, 0, 0);
      (s.(outstanding := FlagHeaderRace(ins.0, h), requestedThrough := Max(s.requestedThrough, h)), ins.1)
  }

  function LosePeer(e: Outstanding, peer: u128, port: u16): Outstanding {
    if e.info.port == port && e.info.peer == peer
    then Hole(e.height, e.info.(peer := 0, port := 0, offersReachedLivePeer := 0)) else e
  }

  function ReArmPeer(s: State, peer: u128, port: u16): State {
    s.(outstanding := seq(|s.outstanding|, i
                          requires 0 <= i < |s.outstanding| => LosePeer(s.outstanding[i], peer, port)))
  }

  function MissOffer(e: Outstanding, startH: u32, stopH: u32): Outstanding {
    if startH <= e.height <= stopH then Hole(e.height, e.info.(offersReachedLivePeer := 0)) else e
  }

  function MarkOffersMissedLivePeer(s: State, startH: u32, stopH: u32): State {
    s.(outstanding := seq(|s.outstanding|, i
                          requires 0 <= i < |s.outstanding| => MissOffer(s.outstanding[i], startH, stopH)))
  }

  // ---- re-request driver ----------------------------------------------------

  function Power2(n: nat): nat { if n == 0 then 1 else 2 * Power2(n - 1) }

  /** 10 s for a header race's first try, else 30 * 2^attempts capped at 120 s. */
  function Delay(r: Retry): nat {
    if r.headerRace != 0 && r.attempts == 0 then HEADERRACE_SECS
    else Min(BASE_SECS * Power2(r.attempts), BACKOFF_CAP_SECS)
  }

  predicate Due(r: Retry, now: u32) {
    (if now >= r.requestedAt then now - r.requestedAt else 0) >= Delay(r)
  }

  predicate Offerable(e: Outstanding, now: u32) {
    e.info.attempts < MAX_ATTEMPTS && Due(e.info, now)
  }

  /** Park a height with its verdict. A height already parked keeps the higher
      cycle count and the weaker latch. False when gaveUp is full. */
  function Park(gave: seq<Parked>, h: u32, v: Verdict): (r: (seq<Parked>, bool)) {
    var i := LowerBound(gave, h);
    if i < |gave| && gave[i].height == h then
      (gave[i := Hole(h, Verdict(Max(gave[i].info.rearmCycles, v.rearmCycles),
                                 if v.offersLive == 0 then 0 else gave[i].info.offersLive))], true)
    else if |gave| >= GAVEUP_MAX then (gave, false)
    else (InsertAt(gave, i, Hole(h, v)), true)
  }

  function VerdictOf(r: Retry): Verdict { Verdict(r.rearmCycles, r.offersReachedLivePeer) }

  /** Park every capped entry from position i on; one that cannot be parked stays. */
  function RetireFrom(out: seq<Outstanding>, gave: seq<Parked>, i: nat): (r: (seq<Outstanding>, seq<Parked>))
    requires i <= |out|
    decreases |out| - i
  {
    if i == |out| then (out, gave)
    else if out[i].info.attempts < MAX_ATTEMPTS then RetireFrom(out, gave, i + 1)
    else
      var p := Park(gave, out[i].height, VerdictOf(out[i].info));
      if p.1 then RetireFrom(RemoveAt(out, i), p.0, i) else RetireFrom(out, gave, i + 1)
  }

  function RetireCapped(s: State): State {
    var r := RetireFrom(s.outstanding, s.gaveUp, 0);
    s.(outstanding := r.0, gaveUp := r.1)
  }

  /** The first position at or after i whose entry may be offered now, or |out|. */
  function FirstOfferable(out: seq<Outstanding>, now: u32, i: nat): (j: nat)
    requires i <= |out|
    ensures i <= j <= |out|
    ensures forall k :: i <= k < j ==> !Offerable(out[k], now)
    ensures j < |out| ==> Offerable(out[j], now)
    decreases |out| - i
  {
    if i < |out| && !Offerable(out[i], now) then FirstOfferable(out, now, i + 1) else i
  }

  function Offered(e: Outstanding, now: u32): Outstanding {
    Hole(e.height, e.info.(attempts := Wrap8(e.info.attempts + 1), requestedAt := now))
  }

  function NextRerequest(s: State, now: u32): State {
    var r := RetireCapped(s).(lastDriveAt := now);
    var i := FirstOfferable(r.outstanding, now, 0);
    if i < |r.outstanding| then r.(outstanding := r.outstanding[i := Offered(r.outstanding[i], now)]) else r
  }

  function Commit(e: Outstanding, startH: u32, stopH: u32, peer: u128, port: u16, now: u32): Outstanding {
    if startH <= e.height <= stopH
    then Hole(e.height, Offered(e, now).info.(peer := peer, port := port)) else e
  }

  function CommitRerequest(s: State, startH: u32, stopH: u32, peer: u128, port: u16, now: u32): State {
    s.(outstanding := seq(|s.outstanding|, i requires 0 <= i < |s.outstanding| =>
                            Commit(s.outstanding[i], startH, stopH, peer, port, now)))
  }

  // ---- abandonment valve ----------------------------------------------------

  function Saturated(cycles: u8): u8 { if cycles < 0xFF then cycles + 1 else cycles }

  function FreshCycle(e: Outstanding, cycles: u8): Outstanding {
    Hole(e.height, e.info.(attempts := 0, headerRace := 0, rearmCycles := cycles, offersReachedLivePeer := 1))
  }

  function ReArmGaveUp(s: State, h: u32): (r: (State, bool)) {
    if h < s.abandonedBelow || !Holds(s.gaveUp, h) || |s.outstanding| >= OUTSTANDING_MAX then (s, false) else
    var g := LowerBound(s.gaveUp, h);
    var out := Insert(s.outstanding, h, 0, 0, 0).0;
    var i := LowerBound(out, h);
    var armed := if i < |out| then out[i := FreshCycle(out[i], Saturated(s.gaveUp[g].info.rearmCycles))] else out;
    (Advanced(s.(outstanding := armed, gaveUp := RemoveAt(s.gaveUp, g),
                 requestedThrough := Max(s.requestedThrough, h))), true)
  }

  function ReArmInPlace(s: State, h: u32): State
    requires Holds(s.outstanding, h)
  {
    var i := LowerBound(s.outstanding, h);
    var r := s.outstanding[i].info;
    s.(outstanding := s.outstanding[i := Hole(h, Retry(0, 0, 0, 0, 0, Saturated(r.rearmCycles), 1))])
  }

  /** Re-arm the parked run at h, at most `budget` heights; also its length. */
  function ReArmRun(s: State, h: u32, budget: nat): (r: (State, nat))
    decreases budget
  {
    if budget == 0 || h < s.abandonedBelow then (s, 0)
    else if Holds(s.outstanding, h) then
      if s.outstanding[LowerBound(s.outstanding, h)].info.attempts < MAX_ATTEMPTS then (s, 0)
      else if h == U32_MAX then (ReArmInPlace(s, h), 1)
      else var rest := ReArmRun(ReArmInPlace(s, h), h + 1, budget - 1); (rest.0, rest.1 + 1)
    else
      var r := ReArmGaveUp(s, h);
      if !r.1 then (s, 0)
      else if h == U32_MAX then (r.0, 1)
      else var rest := ReArmRun(r.0, h + 1, budget - 1); (rest.0, rest.1 + 1)
  }

  function ReArmParkedRun(s: State, startH: u32, maxRun: nat): (r: (State, nat)) {
    var run := ReArmRun(s, startH, maxRun);
    (if run.1 > 0 then Advanced(run.0) else run.0, run.1)
  }

  /** The valve's threshold for one height: no driver will offer it any more, and its own
      evidence suffices. An outstanding entry speaks before a parked one. */
  ghost predicate Abandonable(s: State, h: u32, minCycles: u8) {
    if exists e :: e in s.outstanding && e.height == h then
      exists e :: e in s.outstanding && e.height == h && e.info.attempts >= MAX_ATTEMPTS &&
                  e.info.rearmCycles >= minCycles && e.info.offersReachedLivePeer != 0
    else
      exists p :: p in s.gaveUp && p.height == h && p.info.rearmCycles >= minCycles && p.info.offersLive != 0
  }

  // ---- the floor ------------------------------------------------------------

  function RetireAbandonedTo(s: State, newFloor: u32): (r: (State, u32)) {
    if newFloor >= s.abandonedBelow || newFloor < s.start then (s, 0)
    else (s.(abandonedBelow := newFloor), s.abandonedBelow - newFloor)
  }

  datatype Abandonment = Abandonment(state: State, count: nat, low: u32, high: u32)

  function AbandonGaveUpBelow(s: State, clamp: u32): (r: Abandonment) {
    var target := if s.outstanding != [] then Min(clamp, s.outstanding[0].height) else clamp;
    var k := LowerBound(s.gaveUp, target);
    if k == 0 then Abandonment(s, 0, NO_DROP, NO_DROP) else
    var high := s.gaveUp[k - 1].height;
    Abandonment(s.(gaveUp := s.gaveUp[k..], abandonedBelow := Max(s.abandonedBelow, Wrap32(high + 1))),
                k, s.gaveUp[0].height, high)
  }

  /** The low edge the ledger actually surfaces for a requested low edge. */
  function SurfacedFrom(s: State, lo: u32): u32 {
    var edge := Max(lo, s.abandonedBelow);
    if s.start <= edge <= s.scannedThrough then Wrap32(s.scannedThrough + 1) else edge
  }

  function AbandonUnscannableBelow(s: State, lo: u32, floor: u32): (r: (State, nat)) {
    if lo == 0 || floor == 0 || SurfacedFrom(s, lo) >= floor then (s, 0)
    else
      (Advanced(s.(outstanding := s.outstanding[LowerBound(s.outstanding, floor)..],
                   gaveUp := s.gaveUp[LowerBound(s.gaveUp, floor)..],
                   abandonedBelow := Max(s.abandonedBelow, floor))),
       floor - SurfacedFrom(s, lo))
  }

  function CutTo(s: State, next: u32): State
    requires next > 0
  {
    s.(start := Min(s.start, next),
       scannedThrough := Min(s.scannedThrough, next - 1),
       requestedThrough := Min(s.requestedThrough, next - 1),
       outstanding := s.outstanding[..LowerBound(s.outstanding, next)],
       gaveUp := s.gaveUp[..LowerBound(s.gaveUp, next)])
  }

  /** The flag says whether a field was cut; the mark may still catch up when it is false. */
  function RewindTo(s: State, next: u32): (r: (State, bool)) {
    if next == 0 then (s, false) else (Advanced(CutTo(s, next)), CutTo(s, next) != s)
  }

  // ---- a restart ------------------------------------------------------------

  function Restarted(e: Outstanding): Outstanding {
    Hole(e.height, Retry(0, 0, 0, 0, e.info.headerRace, e.info.rearmCycles, 1))
  }

  /** The ledger a process reads back from its own bytes: the transients are reset. */
  function Restored(s: State): State {
    s.(outstanding := seq(|s.outstanding|, i requires 0 <= i < |s.outstanding| => Restarted(s.outstanding[i])),
       lastDriveAt := 0)
  }
}
