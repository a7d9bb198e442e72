/** Filter headers. */
module FilterHeaders {
  // Section "Filter Headers" of BIP 157, on values: each header hashes a filter's
  // hash with the header before it.

  import opened FixedWidth
  import opened LittleEndian
  import opened Options

  datatype UInt256 = UInt256(u8s: seq<u8>)

  type Hash = h: UInt256 | |h.u8s| == 32 witness UInt256(seq(32, _ => 0))

  /** header(filterHash, previous header). */
  type HeaderHash = (Hash, Hash) -> Hash

  function ZeroHash(): Hash { UInt256(seq(32, _ => 0)) }

  const CHAIN_MAX: nat := 2 * 1024 * 1024

  /** headers[i] is the header at start + i; the anchor is the header below start. */
  datatype State = State(filterType: u8, start: u32, anchor: Hash, headers: seq<Hash>)

  function Fold(header: HeaderHash, prev: Hash, hashes: seq<Hash>): (r: seq<Hash>)
    ensures |r| == |hashes|
    decreases |hashes|
  {
    if hashes == [] then [] else
    var h := header(hashes[0], prev);
    [h] + Fold(header, h, hashes[1..])
  }

  function Last(anchor: Hash, headers: seq<Hash>): Hash {
    if headers == [] then anchor else headers[|headers| - 1]
  }

  function Tip(s: State): Hash { Last(s.anchor, s.headers) }

  function NextHeight(s: State): u32 { Wrap32(s.start + |s.headers|) }

  function HeaderAt(s: State, height: u32): Hash {
    if s.start > 0 && height == s.start - 1 then s.anchor
    else if height < s.start || height - s.start >= |s.headers| then ZeroHash()
    else s.headers[height - s.start]
  }

  datatype Verdict = Mismatch | Ok | Limit

  function AppendVerdict(s: State, prev: Hash, count: nat): Verdict {
    if count == 0 then Ok
    else if prev != Tip(s) then Mismatch
    else if |s.headers| + count > CHAIN_MAX then Limit
    else Ok
  }

  function Extended(header: HeaderHash, s: State, hashes: seq<Hash>): State {
    s.(headers := s.headers + Fold(header, Tip(s), hashes))
  }

  function Append(header: HeaderHash, s: State, prev: Hash, hashes: seq<Hash>): State {
    if AppendVerdict(s, prev, |hashes|).Ok? then Extended(header, s, hashes) else s
  }

  predicate CanTruncate(s: State, next: u32) { s.start <= next && next - s.start <= |s.headers| }

  function Truncate(s: State, next: u32): State {
    if CanTruncate(s, next) then s.(headers := s.headers[..next - s.start]) else s
  }

  predicate CanDrop(s: State, newStart: u32) { s.start < newStart && newStart - s.start <= |s.headers| }

  function DropBelow(s: State, newStart: u32): State {
    if CanDrop(s, newStart) then
      var drop := newStart - s.start;
      s.(start := newStart, anchor := s.headers[drop - 1], headers := s.headers[drop..])
    else s
  }

  /** The held header at this height is the one these filter bytes give on top of the header below. */
  predicate Verifies(header: HeaderHash, digest: bytes -> Hash, s: State, height: u32, encoded: bytes) {
    && s.start <= height && height - s.start < |s.headers|
    && header(digest(encoded), if height == s.start then s.anchor else s.headers[height - s.start - 1])
       == s.headers[height - s.start]
  }

  // ---- folds ----------------------------------------------------------------

  lemma {:induction false} FoldConcat(header: HeaderHash, prev: Hash, a: seq<Hash>, b: seq<Hash>)
    ensures Fold(header, prev, a + b) == Fold(header, prev, a) + Fold(header, Last(prev, Fold(header, prev, a)), b)
    decreases |a|
  {
    hide *;
    if a == [] {
      assert a + b == b;
      FoldOfNone(header, prev);
      LastOfNone(prev);
    } else {
      var h := header(a[0], prev);
      FoldFirst(header, prev, a);
      FoldFirst(header, prev, a + b);
      FoldConcat(header, h, a[1..], b);
      assert (a + b)[1..] == a[1..] + b;
      LastOfTail(prev, h, Fold(header, h, a[1..]));
    }
  }

  lemma FoldOfNone(header: HeaderHash, prev: Hash)
    ensures Fold(header, prev, []) == []
  {
  }

  lemma FoldFirst(header: HeaderHash, prev: Hash, hashes: seq<Hash>)
    requires hashes != []
    ensures Fold(header, prev, hashes) == [header(hashes[0], prev)] + Fold(header, header(hashes[0], prev), hashes[1..])
  {
  }

  lemma LastOfNone(prev: Hash)
    ensures Last(prev, []) == prev
  {
  }

  lemma LastOfTail(prev: Hash, h: Hash, rest: seq<Hash>)
    ensures Last(prev, [h] + rest) == Last(h, rest)
  {
  }

  lemma FoldPrefix(header: HeaderHash, prev: Hash, hashes: seq<Hash>, n: nat)
    requires n <= |hashes|
    ensures Fold(header, prev, hashes[..n]) == Fold(header, prev, hashes)[..n]
  {
    assert hashes == hashes[..n] + hashes[n..];
    FoldConcat(header, prev, hashes[..n], hashes[n..]);
  }

  // ---- what the operations keep ---------------------------------------------

  /** Dropping keeps the tip, the next height, every header from the new anchor up and every verdict above it,
      and forgets every header below the new anchor. */
  lemma DropKeeps(header: HeaderHash, digest: bytes -> Hash, s: State, newStart: u32, height: u32, encoded: bytes)
    requires CanDrop(s, newStart)
    ensures var t := DropBelow(s, newStart);
            && t.start == newStart && Tip(t) == Tip(s) && NextHeight(t) == NextHeight(s)
            && HeaderAt(t, height) == (if height >= newStart - 1 then HeaderAt(s, height) else ZeroHash())
            && (height >= newStart ==> (Verifies(header, digest, t, height, encoded) <==>
                                        Verifies(header, digest, s, height, encoded)))
  {
  }

  /** Cutting an extended chain anywhere inside the extension leaves the shorter extension, and appending the
      rest of the same hashes to it restores the chain. */
  lemma CutAndReappend(header: HeaderHash, s: State, a: seq<Hash>, b: seq<Hash>, next: u32)
    requires next == s.start + |s.headers| + |a| && |s.headers| + |a| + |b| <= CHAIN_MAX
    ensures var whole := Extended(header, s, a + b);
            var cut := Truncate(whole, next);
            && CanTruncate(whole, next) && cut == Extended(header, s, a) && NextHeight(cut) == next
            && AppendVerdict(cut, Tip(cut), |b|).Ok? && Append(header, cut, Tip(cut), b) == whole
  {
    hide Fold, Last;
    FoldConcat(header, Tip(s), a, b);
    var whole := Extended(header, s, a + b);
    var fa := Fold(header, Tip(s), a);
    assert whole.headers[..next - s.start] == s.headers + fa;
    LastConcat(s.anchor, s.headers, fa);
    assert (s.headers + fa) + Fold(header, Last(Tip(s), fa), b) == s.headers + (fa + Fold(header, Last(Tip(s), fa), b));
    FoldOfNone(header, Last(Tip(s), fa));
  }

  lemma LastConcat(anchor: Hash, a: seq<Hash>, b: seq<Hash>)
    ensures Last(anchor, a + b) == Last(Last(anchor, a), b)
  {
  }

  // ---- over runs ------------------------------------------------------------

  datatype Op = DoAppend(prev: Hash, hashes: seq<Hash>) | DoTruncate(next: u32) | DoDropBelow(newStart: u32)

  /** A chain with the height and anchor it was made with, and every filter hash it still stands on. */
  datatype World = World(s: State, first: u32, anchor: Hash, hashes: seq<Hash>)

  function NewChain(filterType: u8, start: u32, anchor: Hash): World {
    World(State(filterType, start, anchor, []), start, anchor, [])
  }

  function Step(header: HeaderHash, w: World, op: Op): World
  {
    match op
    case DoAppend(prev, hashes) =>
      World(Append(header, w.s, prev, hashes), w.first, w.anchor,
            if AppendVerdict(w.s, prev, |hashes|).Ok? then w.hashes + hashes else w.hashes)
    case DoTruncate(next) =>
      World(Truncate(w.s, next), w.first, w.anchor,
            if CanTruncate(w.s, next) && 0 <= next - w.first <= |w.hashes| then w.hashes[..next - w.first]
                else w.hashes)
    case DoDropBelow(newStart) => w.(s := DropBelow(w.s, newStart))
  }

  function Run(header: HeaderHash, w: World, ops: seq<Op>): World
    decreases |ops|
  {
    if ops == [] then w else Run(header, Step(header, w, ops[0]), ops[1..])
  }

  /** The chain is a window on the fold of all its hashes. */
  ghost predicate IsWindow(header: HeaderHash, w: World) {
    var d, f := w.s.start - w.first, Fold(header, w.anchor, w.hashes);
    && 0 <= d <= |f|
    && w.s.headers == f[d..] && w.s.anchor == Last(w.anchor, f[..d])
    && |w.s.headers| <= CHAIN_MAX
  }

  lemma WindowTip(header: HeaderHash, w: World)
    requires IsWindow(header, w)
    ensures Tip(w.s) == Last(w.anchor, Fold(header, w.anchor, w.hashes))
  {
    var d, f := w.s.start - w.first, Fold(header, w.anchor, w.hashes);
    assert f == f[..d] + f[d..];
    LastConcat(w.anchor, f[..d], f[d..]);
  }

  lemma AppendKeepsWindow(header: HeaderHash, w: World, prev: Hash, hashes: seq<Hash>)
    requires IsWindow(header, w)
    ensures IsWindow(header, Step(header, w, DoAppend(prev, hashes)))
  {
    hide Fold, Last;
    var d, f := w.s.start - w.first, Fold(header, w.anchor, w.hashes);
    WindowTip(header, w);
    FoldConcat(header, w.anchor, w.hashes, hashes);
    var g := Fold(header, w.anchor, w.hashes + hashes);
    assert g[..d] == f[..d];
    assert g[d..] == f[d..] + Fold(header, Tip(w.s), hashes);
    if hashes == [] { assert w.hashes + hashes == w.hashes; }
  }

  lemma TruncateKeepsWindow(header: HeaderHash, w: World, next: u32)
    requires IsWindow(header, w)
    ensures IsWindow(header, Step(header, w, DoTruncate(next)))
  {
    hide Fold, Last;
    if CanTruncate(w.s, next) {
      var d, n, f := w.s.start - w.first, next - w.first, Fold(header, w.anchor, w.hashes);
      FoldPrefix(header, w.anchor, w.hashes, n);
      assert f[..n][..d] == f[..d];
      assert f[..n][d..] == f[d..][..n - d];
    }
  }

  lemma DropKeepsWindow(header: HeaderHash, w: World, newStart: u32)
    requires IsWindow(header, w)
    ensures IsWindow(header, Step(header, w, DoDropBelow(newStart)))
  {
    hide Fold;
    if CanDrop(w.s, newStart) {
      var d, e, f := w.s.start - w.first, newStart - w.first, Fold(header, w.anchor, w.hashes);
      assert f[d..][newStart - w.s.start - 1] == f[e - 1];
      assert f[d..][newStart - w.s.start..] == f[e..];
      assert f[..e][e - 1] == f[e - 1];
    }
  }

  lemma StepKeepsWindow(header: HeaderHash, w: World, op: Op)
    requires IsWindow(header, w)
    ensures IsWindow(header, Step(header, w, op)) && Step(header, w, op).first == w.first
    ensures Step(header, w, op).anchor == w.anchor
  {
    hide IsWindow;
    match op
    case DoAppend(prev, hashes) => AppendKeepsWindow(header, w, prev, hashes);
    case DoTruncate(next) => TruncateKeepsWindow(header, w, next);
    case DoDropBelow(newStart) => DropKeepsWindow(header, w, newStart);
  }

  /** The chain holds a header at this height, or its anchor is there. */
  predicate Answers(s: State, height: u32) {
    s.start > 0 && s.start - 1 <= height && height - s.start < |s.headers|
  }

  /** The header at a height is the fold of the filter hashes up to it. */
  ghost predicate HeaderIsFold(header: HeaderHash, w: World, height: u32) {
    && -1 <= height - w.first < |w.hashes|
    && HeaderAt(w.s, height) == Last(w.anchor, Fold(header, w.anchor, w.hashes[..height - w.first + 1]))
  }

  lemma WindowHeader(header: HeaderHash, w: World, height: u32)
    requires IsWindow(header, w) && Answers(w.s, height)
    ensures HeaderIsFold(header, w, height)
  {
    hide Fold, Last;
    var d, n, f := w.s.start - w.first, height - w.first + 1, Fold(header, w.anchor, w.hashes);
    FoldPrefix(header, w.anchor, w.hashes, n);
    if n > d {
      assert HeaderAt(w.s, height) == w.s.headers[n - 1 - d] == f[n - 1];
      LastOfPrefix(w.anchor, f, n);
    } else {
      assert HeaderAt(w.s, height) == w.s.anchor;
    }
    hide HeaderAt, IsWindow;
  }

  lemma LastOfPrefix(anchor: Hash, f: seq<Hash>, n: nat)
    requires 0 < n <= |f|
    ensures Last(anchor, f[..n]) == f[n - 1]
  {
  }

  /** After any run, the header at every height the chain answers for is the fold of the filter hashes from the
      chain's first height up to that height, whatever was cut, appended or dropped on the way. */
  lemma {:induction false} RunIsFold(header: HeaderHash, w: World, ops: seq<Op>, height: u32)
    requires IsWindow(header, w)
    ensures var v := Run(header, w, ops);
            && IsWindow(header, v) && v.first == w.first && v.anchor == w.anchor
            && (Answers(v.s, height) ==> HeaderIsFold(header, v, height))
    decreases |ops|
  {
    hide IsWindow, HeaderIsFold, Answers, Step;
    if ops != [] {
      StepKeepsWindow(header, w, ops[0]);
      RunIsFold(header, Step(header, w, ops[0]), ops[1..], height);
    } else if Answers(w.s, height) {
      WindowHeader(header, w, height);
    }
  }

  lemma NewIsWindow(header: HeaderHash, filterType: u8, start: u32, anchor: Hash)
    ensures IsWindow(header, NewChain(filterType, start, anchor))
  {
  }

  /** A chain made at a start and an anchor, after any run: every header it answers for is the fold, from that anchor,
      of the filter hashes it still stands on. */
  lemma NewChainIsFold(header: HeaderHash, filterType: u8, start: u32, anchor: Hash, ops: seq<Op>, height: u32)
    ensures var v := Run(header, NewChain(filterType, start, anchor), ops);
            Answers(v.s, height) ==>
              && start <= height + 1 && height + 1 - start <= |v.hashes|
              && HeaderAt(v.s, height) == Last(anchor, Fold(header, anchor, v.hashes[..height + 1 - start]))
  {
    hide Run, IsWindow, HeaderAt, Last, Fold;
    NewIsWindow(header, filterType, start, anchor);
    RunIsFold(header, NewChain(filterType, start, anchor), ops, height);
  }

  // ---- which filters verify -------------------------------------------------

  /** Different filter hashes give different headers on the same header below. */
  ghost predicate TellsFilters(header: HeaderHash) {
    forall a: Hash, b: Hash, prev: Hash :: header(a, prev) == header(b, prev) ==> a == b
  }

  /** A filter verifies at a height held exactly when its header, on the fold below, is the fold there. */
  lemma WindowVerifies(header: HeaderHash, digest: bytes -> Hash, w: World, height: u32, encoded: bytes)
    requires IsWindow(header, w)
    requires w.s.start <= height && height - w.s.start < |w.s.headers|
    ensures var k := height - w.first;
            && 0 <= k < |w.hashes|
            && var below := Last(w.anchor, Fold(header, w.anchor, w.hashes[..k]));
               Verifies(header, digest, w.s, height, encoded) <==>
                 header(digest(encoded), below) == header(w.hashes[k], below)
  {
    hide Fold, Last;
    var d, k, f := w.s.start - w.first, height - w.first, Fold(header, w.anchor, w.hashes);
    FoldPrefix(header, w.anchor, w.hashes, k);
    FoldAt(header, w.anchor, w.hashes, k);
    assert w.s.headers[k - d] == f[k];
    if k > d {
      assert w.s.headers[k - d - 1] == f[k - 1];
      LastOfPrefix(w.anchor, f, k);
    }
  }

  /** Each header of a fold is its filter hash on the fold below. */
  lemma FoldAt(header: HeaderHash, prev: Hash, hashes: seq<Hash>, k: nat)
    requires k < |hashes|
    ensures Fold(header, prev, hashes)[k] == header(hashes[k], Last(prev, Fold(header, prev, hashes[..k])))
  {
    hide Fold, Last;
    var rest := hashes[k..];
    assert hashes == hashes[..k] + rest;
    FoldConcat(header, prev, hashes[..k], rest);
    FoldFirst(header, Last(prev, Fold(header, prev, hashes[..k])), rest);
  }

  /** After any run of appends, cuts and drops on a new chain, every filter whose hash was appended for a height the
      chain still holds verifies there; none verifies at any other height; and when the header hash tells filters
      apart, no other filter verifies. */
  lemma RunVerifies(header: HeaderHash, digest: bytes -> Hash, filterType: u8, start: u32, anchor: Hash, ops: seq<Op>,
                    height: u32, encoded: bytes)
    ensures var v := Run(header, NewChain(filterType, start, anchor), ops);
            var held := v.s.start <= height && height - v.s.start < |v.s.headers|;
            && (held ==> 0 <= height - start < |v.hashes|)
            && (Verifies(header, digest, v.s, height, encoded) ==> held)
            && (held && digest(encoded) == v.hashes[height - start] ==> Verifies(header, digest, v.s, height, encoded))
            && (held && TellsFilters(header) && Verifies(header, digest, v.s, height, encoded) ==>
                  digest(encoded) == v.hashes[height - start])
  {
    hide Run, IsWindow, Fold, Last;
    NewIsWindow(header, filterType, start, anchor);
    var w := NewChain(filterType, start, anchor);
    RunIsFold(header, w, ops, height);
    var v := Run(header, w, ops);
    if v.s.start <= height && height - v.s.start < |v.s.headers| {
      WindowVerifies(header, digest, v, height, encoded);
      hide Verifies;
    }
  }

  /** An accepted append makes exactly the filters of its hashes verify at its heights, and changes no verdict below. */
  lemma AppendVerifies(header: HeaderHash, digest: bytes -> Hash, s: State, prev: Hash, hashes: seq<Hash>, i: nat,
                       height: u32, encoded: bytes)
    requires AppendVerdict(s, prev, |hashes|).Ok? && i < |hashes| && height == s.start + |s.headers| + i
    ensures var t := Append(header, s, prev, hashes);
            && (digest(encoded) == hashes[i] ==> Verifies(header, digest, t, height, encoded))
            && (TellsFilters(header) && Verifies(header, digest, t, height, encoded) ==> digest(encoded) == hashes[i])
            && forall h: u32 :: h < s.start + |s.headers| ==>
                 (Verifies(header, digest, t, h, encoded) <==> Verifies(header, digest, s, h, encoded))
  {
    hide Fold, Last;
    FoldAt(header, Tip(s), hashes, i);
    FoldPrefix(header, Tip(s), hashes, i);
    var f, n := Fold(header, Tip(s), hashes), |s.headers|;
    TipIs(s);
    if i > 0 { LastOfPrefix(Tip(s), f, i); } else { FoldOfNone(header, Tip(s)); LastOfNone(Tip(s)); }
    assert hashes[..0] == [];
    var all := s.headers + f;
    assert all[n + i] == f[i] && (i > 0 ==> all[n + i - 1] == f[i - 1]);
    assert forall k :: 0 <= k < n ==> all[k] == s.headers[k];
  }

  lemma TipIs(s: State)
    ensures Tip(s) == if s.headers == [] then s.anchor else s.headers[|s.headers| - 1]
  {
  }

  // ---- checkpoints ----------------------------------------------------------

  datatype Checkpoint = Checkpoint(height: u32, filterHeader: Hash)

  /** A report: the height, and the header folded there. */
  datatype Violation = Violation(height: u32, computed: Hash)

  /** The batch's header i contradicts a checkpoint. */
  ghost predicate Contradicted(s: State, folded: seq<Hash>, cps: seq<Checkpoint>, i: nat)
    requires i < |folded|
  {
    exists k :: 0 <= k < |cps| && Contradicts(s, folded, cps[k], i)
  }

  ghost predicate Contradicts(s: State, folded: seq<Hash>, cp: Checkpoint, i: nat)
    requires i < |folded|
  {
    cp.height == Wrap32(NextHeight(s) + i) && folded[i] != cp.filterHeader
  }

  /** Header i is the first the batch's checkpoints contradict. */
  ghost predicate FirstContradicted(s: State, folded: seq<Hash>, cps: seq<Checkpoint>, i: nat)
    requires i < |folded|
  {
    Contradicted(s, folded, cps, i) && forall j :: 0 <= j < i ==> !Contradicted(s, folded, cps, j)
  }

  /** The report of a check that folds the batch without storing it: the first contradicted header, if there is one. */
  ghost predicate Reports(s: State, folded: seq<Hash>, cps: seq<Checkpoint>, r: Option<Violation>) {
    if r.None? then forall i :: 0 <= i < |folded| ==> !Contradicted(s, folded, cps, i) else
    exists i :: 0 <= i < |folded| && FirstContradicted(s, folded, cps, i)
                && r.value == Violation(Wrap32(NextHeight(s) + i), folded[i])
  }

  /** The chain after an append holds, among the heights it added, a header other than this checkpoint's. */
  ghost predicate Refused(s: State, after: State, cp: Checkpoint) {
    && s.start + |s.headers| <= cp.height < after.start + |after.headers|
    && HeaderAt(after, cp.height) != cp.filterHeader
  }

  lemma NoWrap(base: nat, i: nat)
    requires base + i < 0x1_0000_0000
    ensures Wrap32(Wrap32(base) + i) == base + i
  {
  }

  lemma StoredAt(header: HeaderHash, s: State, hashes: seq<Hash>, i: nat)
    requires i < |hashes| && s.start + |s.headers| + i < 0x1_0000_0000
    ensures HeaderAt(Extended(header, s, hashes), s.start + |s.headers| + i) == Fold(header, Tip(s), hashes)[i]
  {
    hide *;
    var more, n := Fold(header, Tip(s), hashes), |s.headers|;
    ExtendedIs(header, s, hashes);
    HeaderAtIs(Extended(header, s, hashes), n + i);
    assert (s.headers + more)[n + i] == more[i];
  }

  lemma ExtendedIs(header: HeaderHash, s: State, hashes: seq<Hash>)
    ensures Extended(header, s, hashes) == s.(headers := s.headers + Fold(header, Tip(s), hashes))
  {
    hide Fold, Tip;
  }

  lemma HeaderAtIs(s: State, k: nat)
    requires k < |s.headers| && s.start + k < 0x1_0000_0000
    ensures HeaderAt(s, s.start + k) == s.headers[k]
  {
  }

  /** A header at a height that does not wrap contradicts a checkpoint exactly when the checkpoint is at its height and
      refuses what is stored there. */
  lemma ContradictsIsRefused(header: HeaderHash, s: State, hashes: seq<Hash>, cp: Checkpoint, i: nat)
    requires i < |hashes| && s.start + |s.headers| + i < 0x1_0000_0000
    ensures Contradicts(s, Fold(header, Tip(s), hashes), cp, i) <==>
            cp.height == s.start + |s.headers| + i && Refused(s, Extended(header, s, hashes), cp)
  {
    hide *;
    NoWrapNext(s, i);
    StoredAt(header, s, hashes, i);
    ExtendedSize(header, s, hashes);
    var after, folded, base := Extended(header, s, hashes), Fold(header, Tip(s), hashes), s.start + |s.headers|;
    ContradictsDef(s, folded, cp, i);
    if cp.height == base + i { RefusedDef(s, after, cp); }
  }

  lemma ContradictsDef(s: State, folded: seq<Hash>, cp: Checkpoint, i: nat)
    requires i < |folded|
    ensures Contradicts(s, folded, cp, i) <==> cp.height == Wrap32(NextHeight(s) + i) && folded[i] != cp.filterHeader
  {
    hide NextHeight, Wrap32;
  }

  lemma RefusedDef(s: State, after: State, cp: Checkpoint)
    ensures Refused(s, after, cp) <==>
            s.start + |s.headers| <= cp.height < after.start + |after.headers| &&
                HeaderAt(after, cp.height) != cp.filterHeader
  {
    hide HeaderAt;
  }

  lemma ExtendedSize(header: HeaderHash, s: State, hashes: seq<Hash>)
    ensures var after := Extended(header, s, hashes);
            after.start == s.start && |after.headers| == |s.headers| + |hashes|
  {
    hide Fold, Tip;
  }

  /** The check judges what an append would store: it reports a height and header only if the append stores that header
      there, and reports exactly when the append stores some header against a checkpoint. */
  ghost predicate Foresees(header: HeaderHash, s: State, hashes: seq<Hash>, cps: seq<Checkpoint>,
                           r: Option<Violation>) {
    && (r.Some? ==> HeaderAt(Extended(header, s, hashes), r.value.height) == r.value.computed)
    && (r.Some? <==> AppendRefused(header, s, hashes, cps))
  }

  ghost predicate AppendRefused(header: HeaderHash, s: State, hashes: seq<Hash>, cps: seq<Checkpoint>) {
    exists k :: 0 <= k < |cps| && Refused(s, Extended(header, s, hashes), cps[k])
  }

  /** Header i's height passes 2^32 and wraps. */
  predicate Wraps(s: State, i: nat) { s.start + |s.headers| + i >= 0x1_0000_0000 }

  /** A header whose height wraps meets a checkpoint at the wrapped height, and differs from it. */
  ghost predicate WrappedClash(s: State, folded: seq<Hash>, cps: seq<Checkpoint>) {
    exists i :: 0 <= i < |folded| && Wraps(s, i) && Contradicted(s, folded, cps, i)
  }

  /** The check foresees the append exactly when no wrapped header clashes with a checkpoint, or the append is refused
      anyway: always, then, when no checkpoint stands at a height where a header of the batch wraps to. */
  lemma CheckForeseesAppend(header: HeaderHash, s: State, hashes: seq<Hash>, cps: seq<Checkpoint>, r: Option<Violation>)
    requires Reports(s, Fold(header, Tip(s), hashes), cps, r)
    ensures Foresees(header, s, hashes, cps, r) <==>
              !WrappedClash(s, Fold(header, Tip(s), hashes), cps) || AppendRefused(header, s, hashes, cps)
  {
    hide *;
    AppendRefusedDef(header, s, hashes, cps);
    ForeseesDef(header, s, hashes, cps, r);
    if r.Some? {
      ReportForeseen(header, s, hashes, cps, r.value);
    } else {
      forall k | 0 <= k < |cps| ensures !Refused(s, Extended(header, s, hashes), cps[k]) {
        RefusedIsContradicted(header, s, hashes, cps, k);
        SilenceEverywhere(s, Fold(header, Tip(s), hashes), cps);
      }
      SilenceEverywhere(s, Fold(header, Tip(s), hashes), cps);
    }
  }

  lemma AppendRefusedDef(header: HeaderHash, s: State, hashes: seq<Hash>, cps: seq<Checkpoint>)
    ensures AppendRefused(header, s, hashes, cps) <==>
            exists k :: 0 <= k < |cps| && Refused(s, Extended(header, s, hashes), cps[k])
  {
    hide Refused, Extended;
  }

  lemma ForeseesDef(header: HeaderHash, s: State, hashes: seq<Hash>, cps: seq<Checkpoint>, r: Option<Violation>)
    ensures r.None? ==> (Foresees(header, s, hashes, cps, r) <==> !AppendRefused(header, s, hashes, cps))
    ensures r.Some? ==> (Foresees(header, s, hashes, cps, r) <==>
              AppendRefused(header, s, hashes, cps) &&
              HeaderAt(Extended(header, s, hashes), r.value.height) == r.value.computed)
  {
    hide HeaderAt, Extended, AppendRefused;
  }

  /** A report at a height that does not wrap is of a header the append stores and a checkpoint refuses; one at a
      wrapped height is not. */
  lemma ReportForeseen(header: HeaderHash, s: State, hashes: seq<Hash>, cps: seq<Checkpoint>, v: Violation)
    requires Reports(s, Fold(header, Tip(s), hashes), cps, Some(v))
    ensures AppendRefused(header, s, hashes, cps) ==> HeaderAt(Extended(header, s, hashes), v.height) == v.computed
    ensures !AppendRefused(header, s, hashes, cps) ==> WrappedClash(s, Fold(header, Tip(s), hashes), cps)
  {
    var folded := Fold(header, Tip(s), hashes);
    hide Fold, Tip, HeaderAt, Wrap32, NextHeight, Extended, Refused, Contradicts;
    var i :| 0 <= i < |folded| && FirstContradicted(s, folded, cps, i) &&
        v == Violation(Wrap32(NextHeight(s) + i), folded[i]);
    var k :| 0 <= k < |cps| && Contradicts(s, folded, cps[k], i);
    if !Wraps(s, i) {
      NoWrapNext(s, i);
      StoredAt(header, s, hashes, i);
      ContradictsIsRefused(header, s, hashes, cps[k], i);
    } else if AppendRefused(header, s, hashes, cps) {
      var m :| 0 <= m < |cps| && Refused(s, Extended(header, s, hashes), cps[m]);
      RefusedIsContradicted(header, s, hashes, cps, m);
    }
  }

  /** A checkpoint the append would break is contradicted at a height that does not wrap. */
  lemma RefusedIsContradicted(header: HeaderHash, s: State, hashes: seq<Hash>, cps: seq<Checkpoint>, k: nat)
    requires k < |cps|
    ensures Refused(s, Extended(header, s, hashes), cps[k]) ==>
            exists i :: 0 <= i < |Fold(header, Tip(s), hashes)| && !Wraps(s, i) &&
                        Contradicted(s, Fold(header, Tip(s), hashes), cps, i)
  {
    RefusedHeight(header, s, hashes, cps[k]);
    hide Fold, Tip, HeaderAt, Wrap32, NextHeight, Extended, Refused, Contradicts;
    if Refused(s, Extended(header, s, hashes), cps[k]) {
      var i := cps[k].height - (s.start + |s.headers|);
      ContradictsIsRefused(header, s, hashes, cps[k], i);
      assert Contradicted(s, Fold(header, Tip(s), hashes), cps, i);
    }
  }

  lemma SilenceEverywhere(s: State, folded: seq<Hash>, cps: seq<Checkpoint>)
    requires Reports(s, folded, cps, None)
    ensures !WrappedClash(s, folded, cps) && forall i :: 0 <= i < |folded| ==> !Contradicted(s, folded, cps, i)
  {
    hide Contradicted;
  }

  /** Some header of a batch of n wraps to this height. */
  ghost predicate WrapsTo(s: State, n: nat, height: u32) {
    exists i: nat :: i < n && Wraps(s, i) && height == Wrap32(NextHeight(s) + i)
  }

  /** Heights alone decide when no checkpoint stands where a header of the batch wraps to. */
  lemma ClearOfWraps(header: HeaderHash, s: State, hashes: seq<Hash>, cps: seq<Checkpoint>, r: Option<Violation>)
    requires Reports(s, Fold(header, Tip(s), hashes), cps, r)
    requires forall k :: 0 <= k < |cps| ==> !WrapsTo(s, |hashes|, cps[k].height)
    ensures Foresees(header, s, hashes, cps, r)
  {
    hide *;
    CheckForeseesAppend(header, s, hashes, cps, r);
    ClearMeansNoClash(s, Fold(header, Tip(s), hashes), cps);
  }

  lemma ClearMeansNoClash(s: State, folded: seq<Hash>, cps: seq<Checkpoint>)
    requires forall k :: 0 <= k < |cps| ==> !WrapsTo(s, |folded|, cps[k].height)
    ensures !WrappedClash(s, folded, cps)
  {
    hide NextHeight, Wrap32, Wraps;
  }

  /** The caller hands over only checkpoints between the first and the last height of the batch, both wrapped. */
  predicate InCallersRange(s: State, n: nat, cp: Checkpoint) {
    n > 0 && NextHeight(s) <= cp.height <= Wrap32(NextHeight(s) + (n - 1))
  }

  /** With such checkpoints the check foresees the append as long as the chain itself has not passed height 2^32: the
      range of a batch that crosses it is empty. */
  lemma CallerForesees(header: HeaderHash, s: State, hashes: seq<Hash>, cps: seq<Checkpoint>, r: Option<Violation>)
    requires Reports(s, Fold(header, Tip(s), hashes), cps, r)
    requires forall k :: 0 <= k < |cps| ==> InCallersRange(s, |hashes|, cps[k])
    requires s.start + |s.headers| < 0x1_0000_0000 && |hashes| <= 0x1_0000_0000
    ensures Foresees(header, s, hashes, cps, r)
  {
    hide *;
    forall k | 0 <= k < |cps| ensures !WrapsTo(s, |hashes|, cps[k].height) { RangeIsClear(s, |hashes|, cps[k]); }
    ClearOfWraps(header, s, hashes, cps, r);
  }

  lemma RangeIsClear(s: State, n: nat, cp: Checkpoint)
    requires InCallersRange(s, n, cp) && s.start + |s.headers| < 0x1_0000_0000 && n <= 0x1_0000_0000
    ensures !WrapsTo(s, n, cp.height)
  {
    assert NextHeight(s) == s.start + |s.headers|;
    assert s.start + |s.headers| + (n - 1) < 0x1_0000_0000;
    hide NextHeight, Wrap32;
  }

  /** The exception is real: a chain that holds its one header at height 2^32 - 1, a batch of one, and a checkpoint in
      the caller's range, at height 0, that differs from the header. The check reports height 0; the append breaks no
      checkpoint and holds nothing at height 0. */
  lemma WrappedReport(header: HeaderHash, filterType: u8, anchor: Hash, first: Hash, a: Hash, pinned: Hash)
    requires pinned != header(a, first)
    ensures var s, cps := State(filterType, 0xFFFF_FFFF, anchor, [first]), [Checkpoint(0, pinned)];
            var r := Some(Violation(0, header(a, first)));
            && InCallersRange(s, 1, cps[0])
            && Reports(s, Fold(header, Tip(s), [a]), cps, r) && !AppendRefused(header, s, [a], cps)
            && !Foresees(header, s, [a], cps, r) && HeaderAt(Extended(header, s, [a]), 0) == ZeroHash()
  {
    var s, cps := State(filterType, 0xFFFF_FFFF, anchor, [first]), [Checkpoint(0, pinned)];
    OneFold(header, first, a);
    assert Tip(s) == first;
    var folded := [header(a, first)];
    hide Fold, Tip;
    assert Contradicts(s, folded, cps[0], 0);
    assert FirstContradicted(s, folded, cps, 0);
    assert Violation(0, folded[0]) == Violation(Wrap32(NextHeight(s) + 0), folded[0]);
    assert Reports(s, folded, cps, Some(Violation(0, folded[0])));
    assert !Refused(s, Extended(header, s, [a]), cps[0]);
  }

  lemma OneFold(header: HeaderHash, prev: Hash, a: Hash)
    ensures Fold(header, prev, [a]) == [header(a, prev)]
  {
    FoldFirst(header, prev, [a]);
    FoldOfNone(header, header(a, prev));
    assert [a][1..] == [];
    hide Fold;
  }

  lemma NoWrapNext(s: State, i: nat)
    requires s.start + |s.headers| + i < 0x1_0000_0000
    ensures Wrap32(NextHeight(s) + i) == s.start + |s.headers| + i
  {
    NoWrap(s.start + |s.headers|, i);
  }

  lemma RefusedHeight(header: HeaderHash, s: State, hashes: seq<Hash>, cp: Checkpoint)
    ensures Refused(s, Extended(header, s, hashes), cp) ==>
            s.start + |s.headers| <= cp.height < s.start + |s.headers| + |hashes|
  {
    hide Fold, HeaderAt;
  }

  // ---- bytes ----------------------------------------------------------------

  const MAGIC: u32 := 0x46434243
  const VERSION: u8 := 1
  const HEADER_LEN: nat := 4 + 1 + 1 + 4 + 32 + 4

  function Joined(headers: seq<Hash>): (b: bytes)
    ensures |b| == 32 * |headers|
  {
    if headers == [] then [] else Joined(headers[..|headers| - 1]) + headers[|headers| - 1].u8s
  }

  function SplitHeaders(b: bytes, at: nat, n: nat): (r: seq<Hash>)
    requires at + 32 * n <= |b|
    ensures |r| == n
  {
    if n == 0 then [] else SplitHeaders(b, at, n - 1) + [UInt256(b[at + 32 * (n - 1)..at + 32 * n])]
  }

  function Prelude(s: State): (b: bytes)
    requires |s.headers| <= U32_MAX
    ensures |b| == HEADER_LEN
  {
    PutU32(MAGIC) + [VERSION, s.filterType] + PutU32(s.start) + s.anchor.u8s + PutU32(|s.headers|)
  }

  function Bytes(s: State): (b: bytes)
    requires |s.headers| <= U32_MAX
    ensures |b| == HEADER_LEN + 32 * |s.headers|
  {
    Prelude(s) + Joined(s.headers)
  }

  function Deserialized(b: bytes): Option<State> {
    if |b| < HEADER_LEN || GetU32(b, 0) != MAGIC || b[4] != VERSION then None else
    var count := GetU32(b, 42);
    if count > CHAIN_MAX || |b| < HEADER_LEN + count * 32 then None else
    Some(State(b[5], GetU32(b, 6), UInt256(b[10..42]), SplitHeaders(b, HEADER_LEN, count)))
  }

  lemma SplitLast(b: bytes, at: nat, n: nat)
    requires 0 < n && at + 32 * n <= |b|
    ensures SplitHeaders(b, at, n) == SplitHeaders(b, at, n - 1) + [UInt256(b[at + 32 * (n - 1)..at + 32 * n])]
  {
  }

  lemma {:induction false} SplitJoined(pre: bytes, headers: seq<Hash>, post: bytes)
    ensures SplitHeaders(pre + Joined(headers) + post, |pre|, |headers|) == headers
    decreases |headers|
  {
    if headers != [] {
      var n := |headers| - 1;
      var init, last := headers[..n], headers[n].u8s;
      var b := pre + Joined(headers) + post;
      assert Joined(headers) == Joined(init) + last;
      SplitJoined(pre, init, last + post);
      hide SplitHeaders, Joined;
      assert b == pre + Joined(init) + (last + post);
      assert b[|pre| + 32 * n..|pre| + 32 * (n + 1)] == last;
      SplitLast(b, |pre|, n + 1);
    }
  }

  lemma {:induction false} JoinedSplit(b: bytes, at: nat, n: nat)
    requires at + 32 * n <= |b|
    ensures Joined(SplitHeaders(b, at, n)) == b[at..at + 32 * n]
    decreases n
  {
    if n > 0 {
      JoinedSplit(b, at, n - 1);
      var r := SplitHeaders(b, at, n);
      assert r[..n - 1] == SplitHeaders(b, at, n - 1);
    }
  }

  lemma PreludeReads(s: State, post: bytes)
    requires |s.headers| <= U32_MAX
    ensures var b := Prelude(s) + post;
            && GetU32(b, 0) == MAGIC && b[4] == VERSION && b[5] == s.filterType && GetU32(b, 6) == s.start
            && b[10..42] == s.anchor.u8s && GetU32(b, 42) == |s.headers|
  {
    var count: u32 := |s.headers|;
    var b := Prelude(s) + post;
    hide PutU32, GetU32;
    var h1 := PutU32(MAGIC) + [VERSION, s.filterType];
    var h2 := h1 + PutU32(s.start) + s.anchor.u8s;
    assert b == [] + PutU32(MAGIC) + ([VERSION, s.filterType] + PutU32(s.start) + s.anchor.u8s + PutU32(count) + post);
    GetPutU32([], MAGIC, [VERSION, s.filterType] + PutU32(s.start) + s.anchor.u8s + PutU32(count) + post);
    assert b == h1 + PutU32(s.start) + (s.anchor.u8s + PutU32(count) + post);
    GetPutU32(h1, s.start, s.anchor.u8s + PutU32(count) + post);
    assert b == h2 + PutU32(count) + post;
    GetPutU32(h2, count, post);
  }

  /** Reading back the bytes of a chain within its cap, whatever follows them, gives the chain. */
  lemma DeserializeSerialize(s: State, extra: bytes)
    requires |s.headers| <= CHAIN_MAX
    ensures Deserialized(Bytes(s) + extra) == Some(s)
  {
    hide GetU32, Prelude, Joined;
    var b := Bytes(s) + extra;
    assert b == Prelude(s) + (Joined(s.headers) + extra);
    PreludeReads(s, Joined(s.headers) + extra);
    assert b == Prelude(s) + Joined(s.headers) + extra;
    SplitJoined(Prelude(s), s.headers, extra);
  }

  lemma {:induction false} JoinedAt(headers: seq<Hash>, i: nat)
    requires i < |headers|
    ensures Joined(headers)[32 * i..32 * i + 32] == headers[i].u8s
    decreases |headers|
  {
    var n := |headers| - 1;
    if i < n { JoinedAt(headers[..n], i); }
  }

  /** Where a chain's bytes keep what: a mark and a version, the filter type, the start, the anchor, the number of
      headers, and the headers one after another. */
  lemma LayoutIs(s: State, i: nat)
    requires |s.headers| <= U32_MAX
    ensures var b := Bytes(s);
            && |b| == 46 + 32 * |s.headers|
            && Holds32(b, 0, 0x46434243) && b[4] == 1 && b[5] == s.filterType && Holds32(b, 6, s.start)
            && b[10..42] == s.anchor.u8s && Holds32(b, 42, |s.headers|)
            && (i < |s.headers| ==> b[46 + 32 * i..78 + 32 * i] == s.headers[i].u8s)
  {
    var b := Bytes(s);
    PreludeReads(s, Joined(s.headers));
    if i < |s.headers| { JoinedAt(s.headers, i); }
    hide GetU32, Holds32, Prelude, Joined;
    GetHolds(b, 0);
    GetHolds(b, 6);
    GetHolds(b, 42);
  }

  /** Bytes that are accepted start with the bytes of what was read. */
  lemma SerializeDeserialize(b: bytes)
    requires Deserialized(b).Some?
    ensures var s := Deserialized(b).value;
            |s.headers| <= CHAIN_MAX && |Bytes(s)| <= |b| && Bytes(s) == b[..|Bytes(s)|]
  {
    hide Prelude, Joined, SplitHeaders, GetU32;
    var s := Deserialized(b).value;
    var n := |s.headers|;
    JoinedSplit(b, HEADER_LEN, n);
    PreludeBack(b);
    assert b[..HEADER_LEN + 32 * n] == b[..HEADER_LEN] + b[HEADER_LEN..HEADER_LEN + 32 * n];
  }

  lemma PreludeSplits(b: bytes)
    requires |b| >= HEADER_LEN
    ensures b[..HEADER_LEN] == b[0..4] + [b[4], b[5]] + b[6..10] + b[10..42] + b[42..46]
  {
  }

  lemma PreludeBack(b: bytes)
    requires Deserialized(b).Some?
    ensures |Deserialized(b).value.headers| <= CHAIN_MAX && Prelude(Deserialized(b).value) == b[..HEADER_LEN]
  {
    hide PutU32, GetU32, Joined, SplitHeaders;
    PutGetU32(b, 0);
    PutGetU32(b, 6);
    PutGetU32(b, 42);
    PreludeSplits(b);
  }
}
