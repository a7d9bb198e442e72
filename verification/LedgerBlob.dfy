/** The stored ledger. */
module LedgerBlob {
  // What is written, and what each version reads back.

  import opened FixedWidth
  import opened LittleEndian
  import opened SortedHoles
  import opened LedgerSpec

  const MAGIC: u32 := 0x43464C31
  const VERSION: u32 := 3

  // ---- writing --------------------------------------------------------------

  function OutEntry(e: Outstanding): bytes { PutU32(e.height) + [e.info.headerRace, e.info.rearmCycles] }

  function GaveEntry(p: Parked): bytes { PutU32(p.height) + [p.info.rearmCycles, p.info.offersLive] }

  function OutBytes(s: seq<Outstanding>): (r: bytes)
    ensures |r| == 6 * |s|
  {
    if s == [] then [] else OutBytes(s[..|s| - 1]) + OutEntry(s[|s| - 1])
  }

  function GaveBytes(s: seq<Parked>): (r: bytes)
    ensures |r| == 6 * |s|
  {
    if s == [] then [] else GaveBytes(s[..|s| - 1]) + GaveEntry(s[|s| - 1])
  }

  lemma OutBytesNext(s: seq<Outstanding>, i: nat)
    requires i < |s|
    ensures OutBytes(s[..i + 1]) == OutBytes(s[..i]) + OutEntry(s[i])
  {
    assert s[..i + 1][..i] == s[..i];
    hide OutEntry;
  }

  lemma GaveBytesNext(s: seq<Parked>, i: nat)
    requires i < |s|
    ensures GaveBytes(s[..i + 1]) == GaveBytes(s[..i]) + GaveEntry(s[i])
  {
    assert s[..i + 1][..i] == s[..i];
    hide GaveEntry;
  }

  function Words(ws: seq<u32>): (r: bytes)
    ensures |r| == 4 * |ws|
  {
    if ws == [] then [] else Words(ws[..|ws| - 1]) + PutU32(ws[|ws| - 1])
  }

  lemma SixWords(a: u32, b: u32, c: u32, d: u32, e: u32, f: u32)
    ensures Words([a, b, c, d, e, f]) == PutU32(a) + PutU32(b) + PutU32(c) + PutU32(d) + PutU32(e) + PutU32(f)
  {
    hide PutU32;
    assert [a, b, c, d, e, f][..5] == [a, b, c, d, e] && [a, b, c, d, e][..4] == [a, b, c, d];
    assert [a, b, c, d][..3] == [a, b, c] && [a, b, c][..2] == [a, b] && [a, b][..1] == [a] && [a][..0] == [];
    assert Words([a]) == PutU32(a) && Words([a, b]) == PutU32(a) + PutU32(b);
    assert Words([a, b, c]) == PutU32(a) + PutU32(b) + PutU32(c);
    assert Words([a, b, c, d]) == PutU32(a) + PutU32(b) + PutU32(c) + PutU32(d);
    assert Words([a, b, c, d, e]) == PutU32(a) + PutU32(b) + PutU32(c) + PutU32(d) + PutU32(e);
  }

  function HeaderBytes(s: State): (r: bytes)
    ensures |r| == 24
  {
    Words([MAGIC, VERSION, s.start, s.scannedThrough, s.requestedThrough, s.abandonedBelow])
  }

  predicate Fits(s: State) { |s.outstanding| <= OUTSTANDING_MAX && |s.gaveUp| <= GAVEUP_MAX }

  function Bytes(s: State): (r: bytes)
    requires Fits(s)
    ensures |r| == 32 + 6 * |s.outstanding| + 6 * |s.gaveUp|
  {
    HeaderBytes(s) + PutU32(|s.outstanding|) + OutBytes(s.outstanding) + PutU32(|s.gaveUp|) + GaveBytes(s.gaveUp)
  }

  lemma BytesParts(s: State)
    requires Fits(s)
    ensures Bytes(s) ==
            HeaderBytes(s) + PutU32(|s.outstanding|) + OutBytes(s.outstanding) + PutU32(|s.gaveUp|) +
                GaveBytes(s.gaveUp)
  {
  }

  // ---- reading --------------------------------------------------------------

  function OutStride(version: u32): nat { if version >= 3 then 6 else 5 }

  function GaveStride(version: u32): nat { if version >= 3 then 6 else 4 }

  function HeaderSize(version: u32): nat { if version >= 2 then 28 else 24 }

  function OutAt(b: bytes, at: nat, version: u32): Outstanding
    requires at + OutStride(version) <= |b|
  {
    Hole(GetU32(b, at), Retry(0, 0, 0, 0, b[at + 4], if version >= 3 then b[at + 5] else 0, 1))
  }

  function GaveAt(b: bytes, at: nat, version: u32): Parked
    requires at + GaveStride(version) <= |b|
  {
    Hole(GetU32(b, at), if version >= 3 then Verdict(b[at + 4], b[at + 5]) else Verdict(0, 0))
  }

  function OutList(b: bytes, at: nat, n: nat, version: u32): seq<Outstanding>
    requires at + n * OutStride(version) <= |b|
  {
    if n == 0 then [] else
    assert at + (n - 1) * OutStride(version) + OutStride(version) <= |b|;
    OutList(b, at, n - 1, version) + [OutAt(b, at + (n - 1) * OutStride(version), version)]
  }

  function GaveList(b: bytes, at: nat, n: nat, version: u32): seq<Parked>
    requires at + n * GaveStride(version) <= |b|
  {
    if n == 0 then [] else
    assert at + (n - 1) * GaveStride(version) + GaveStride(version) <= |b|;
    GaveList(b, at, n - 1, version) + [GaveAt(b, at + (n - 1) * GaveStride(version), version)]
  }

  const EMPTY := State(0, 0, 0, 0, [], [], 0)

  predicate KnownHeader(b: bytes) {
    |b| >= 24 && GetU32(b, 0) == MAGIC && 1 <= GetU32(b, 4) <= VERSION
  }

  function ReadMarks(b: bytes): State
    requires KnownHeader(b)
  {
    EMPTY.(start := GetU32(b, 8), scannedThrough := GetU32(b, 12), requestedThrough := GetU32(b, 16),
           abandonedBelow := if GetU32(b, 4) >= 2 && |b| >= 28 then GetU32(b, 20) else 0)
  }

  /** Where the parked count stands, when everything before it is there. */
  predicate OutReadable(b: bytes) {
    && KnownHeader(b) && HeaderSize(GetU32(b, 4)) <= |b|
    && GetU32(b, HeaderSize(GetU32(b, 4)) - 4) <= OUTSTANDING_MAX
    && ParkedPos(b) + 4 <= |b|
  }

  function ParkedPos(b: bytes): nat
    requires KnownHeader(b) && HeaderSize(GetU32(b, 4)) <= |b|
  {
    HeaderSize(GetU32(b, 4)) + GetU32(b, HeaderSize(GetU32(b, 4)) - 4) * OutStride(GetU32(b, 4))
  }

  predicate GaveReadable(b: bytes) {
    && OutReadable(b)
    && GetU32(b, ParkedPos(b)) <= GAVEUP_MAX
    && ParkedPos(b) + 4 + GetU32(b, ParkedPos(b)) * GaveStride(GetU32(b, 4)) <= |b|
  }

  function ReadOut(b: bytes): State
    requires OutReadable(b)
  {
    var v := GetU32(b, 4);
    ReadMarks(b).(outstanding := OutList(b, HeaderSize(v), GetU32(b, HeaderSize(v) - 4), v))
  }

  function ReadAll(b: bytes): State
    requires GaveReadable(b)
  {
    var v := GetU32(b, 4);
    ReadOut(b).(gaveUp := GaveList(b, ParkedPos(b) + 4, GetU32(b, ParkedPos(b)), v))
  }

  /** The ledger after a parse and whether it succeeded; a failed parse keeps what it had read. */
  function ParseBlob(b: bytes): (State, bool) {
    if !KnownHeader(b) then (EMPTY, false)
    else if !OutReadable(b) then (ReadMarks(b), false)
    else if !GaveReadable(b) then (ReadOut(b), false)
    else (ReadAll(b), true)
  }

  /** Every mark that is read is zero. */
  predicate ZeroMarks(b: bytes)
    requires KnownHeader(b)
  {
    && GetU32(b, 8) == 0 && GetU32(b, 12) == 0 && GetU32(b, 16) == 0
    && (GetU32(b, 4) >= 2 && |b| >= 28 ==> GetU32(b, 20) == 0)
  }

  /** A refused parse leaves the empty ledger exactly when it is refused before any mark is read, or the marks it read
      are zero and so is the count of the outstanding list, if it got that far. */
  lemma RefusedIsEmpty(b: bytes)
    requires !ParseBlob(b).1
    ensures ParseBlob(b).0 == EMPTY <==>
              !KnownHeader(b) || (ZeroMarks(b) && (OutReadable(b) ==> GetU32(b, HeaderSize(GetU32(b, 4)) - 4) == 0))
  {
    hide GetU32, OutAt;
  }

  /** A refused blob that leaves marks behind: a version 1 header that ends before the parked count. */
  lemma RefusedCanLeaveMarks(start: u32)
    requires start > 0
    ensures var b := Words([MAGIC, 1, start, 0, 0, 0]); ParseBlob(b) == (EMPTY.(start := start), false)
  {
    var ws := [MAGIC, 1, start, 0, 0, 0];
    var b := Words(ws);
    assert b + [] == b;
    WordAt(ws, 0, []); WordAt(ws, 1, []); WordAt(ws, 2, []); WordAt(ws, 3, []); WordAt(ws, 4, []); WordAt(ws, 5, []);
    hide GetU32, Words;
  }

  // ---- the round trip -------------------------------------------------------

  lemma {:induction false} OutListReads(pre: bytes, s: seq<Outstanding>, post: bytes)
    ensures OutList(pre + OutBytes(s) + post, |pre|, |s|, 3) ==
              seq(|s|, i requires 0 <= i < |s| => Restarted(s[i]))
    decreases |s|
  {
    var b := pre + OutBytes(s) + post;
    hide PutU32, GetU32;
    if s != [] {
      var init, e := s[..|s| - 1], s[|s| - 1];
      assert b == pre + OutBytes(init) + (OutEntry(e) + post);
      OutListReads(pre, init, OutEntry(e) + post);
      assert b == (pre + OutBytes(init)) + PutU32(e.height) + ([e.info.headerRace, e.info.rearmCycles] + post);
      GetPutU32(pre + OutBytes(init), e.height, [e.info.headerRace, e.info.rearmCycles] + post);
      assert OutAt(b, |pre| + 6 * (|s| - 1), 3) == Restarted(e);
    }
  }

  lemma {:induction false} GaveListReads(pre: bytes, s: seq<Parked>, post: bytes)
    ensures GaveList(pre + GaveBytes(s) + post, |pre|, |s|, 3) == s
    decreases |s|
  {
    var b := pre + GaveBytes(s) + post;
    hide PutU32, GetU32;
    if s != [] {
      var init, p := s[..|s| - 1], s[|s| - 1];
      assert b == pre + GaveBytes(init) + (GaveEntry(p) + post);
      GaveListReads(pre, init, GaveEntry(p) + post);
      assert b == (pre + GaveBytes(init)) + PutU32(p.height) + ([p.info.rearmCycles, p.info.offersLive] + post);
      GetPutU32(pre + GaveBytes(init), p.height, [p.info.rearmCycles, p.info.offersLive] + post);
      assert GaveAt(b, |pre| + 6 * (|s| - 1), 3) == p;
    }
  }

  lemma {:induction false} WordAt(ws: seq<u32>, k: nat, post: bytes)
    requires k < |ws|
    ensures GetU32(Words(ws) + post, 4 * k) == ws[k]
    decreases |ws|
  {
    var init, last := ws[..|ws| - 1], ws[|ws| - 1];
    hide GetU32, PutU32;
    if k == |init| {
      GetPutU32(Words(init), last, post);
    } else {
      WordAt(init, k, PutU32(last) + post);
      assert Words(ws) + post == Words(init) + (PutU32(last) + post);
    }
  }

  /** The fixed header reads back field by field. */
  lemma HeaderReads(s: State, n: u32, post: bytes)
    ensures var b := HeaderBytes(s) + PutU32(n) + post;
            && GetU32(b, 0) == MAGIC && GetU32(b, 4) == VERSION && GetU32(b, 8) == s.start
            && GetU32(b, 12) == s.scannedThrough && GetU32(b, 16) == s.requestedThrough
            && GetU32(b, 20) == s.abandonedBelow && GetU32(b, 24) == n
  {
    var words := [MAGIC, VERSION, s.start, s.scannedThrough, s.requestedThrough, s.abandonedBelow, n];
    hide GetU32, PutU32;
    assert words[..6] == [MAGIC, VERSION, s.start, s.scannedThrough, s.requestedThrough, s.abandonedBelow];
    assert HeaderBytes(s) + PutU32(n) == Words(words);
    hide Words, HeaderBytes;
    WordAt(words, 0, post); WordAt(words, 1, post); WordAt(words, 2, post); WordAt(words, 3, post);
    WordAt(words, 4, post); WordAt(words, 5, post); WordAt(words, 6, post);
  }

  /** Everything a parse of written bytes looks up, in reading order. */
  lemma BlobReads(s: State, extra: bytes)
    requires Fits(s)
    ensures var b := Bytes(s) + extra;
            && KnownHeader(b) && GetU32(b, 4) == 3 && ReadMarks(b) == Restored(s).(outstanding := [], gaveUp := [])
            && OutReadable(b) && GetU32(b, 24) == |s.outstanding| && ParkedPos(b) == 28 + 6 * |s.outstanding|
            && OutList(b, 28, |s.outstanding|, 3) == Restored(s).outstanding
            && GaveReadable(b) && GetU32(b, ParkedPos(b)) == |s.gaveUp|
            && GaveList(b, ParkedPos(b) + 4, |s.gaveUp|, 3) == s.gaveUp
  {
    hide PutU32, GetU32, OutBytes, GaveBytes, OutList, GaveList, HeaderBytes;
    var b := Bytes(s) + extra;
    var tail := PutU32(|s.gaveUp|) + (GaveBytes(s.gaveUp) + extra);
    assert b == HeaderBytes(s) + PutU32(|s.outstanding|) + (OutBytes(s.outstanding) + tail);
    HeaderReads(s, |s.outstanding|, OutBytes(s.outstanding) + tail);
    var head := HeaderBytes(s) + PutU32(|s.outstanding|);
    assert b == head + OutBytes(s.outstanding) + tail;
    OutListReads(head, s.outstanding, tail);
    var upTo := head + OutBytes(s.outstanding);
    assert b == upTo + PutU32(|s.gaveUp|) + (GaveBytes(s.gaveUp) + extra);
    GetPutU32(upTo, |s.gaveUp|, GaveBytes(s.gaveUp) + extra);
    assert b == (upTo + PutU32(|s.gaveUp|)) + GaveBytes(s.gaveUp) + extra;
    GaveListReads(upTo + PutU32(|s.gaveUp|), s.gaveUp, extra);
  }

  /** Reading back what was written restores every persisted field and resets the rest;
      trailing bytes make no difference. */
  lemma ParseInvertsSerialize(s: State, extra: bytes)
    requires Fits(s)
    ensures ParseBlob(Bytes(s) + extra) == (Restored(s), true)
  {
    BlobReads(s, extra);
    hide GetU32, Bytes, ReadMarks, OutReadable, GaveReadable, ParkedPos, Restored, KnownHeader;
  }

  lemma {:induction false} RestartedBytes(a: seq<Outstanding>, b: seq<Outstanding>)
    requires |a| == |b| && forall i :: 0 <= i < |a| ==> b[i] == Restarted(a[i])
    ensures OutBytes(a) == OutBytes(b)
    decreases |a|
  {
    if a != [] { RestartedBytes(a[..|a| - 1], b[..|b| - 1]); }
  }

  /** Serialize, parse, serialize: the second blob is the first. */
  lemma ReserializeIsIdentical(s: State)
    requires Fits(s)
    ensures Fits(ParseBlob(Bytes(s)).0) && Bytes(ParseBlob(Bytes(s)).0) == Bytes(s)
  {
    ParseInvertsSerialize(s, []);
    assert Bytes(s) + [] == Bytes(s);
    RestartedBytes(s.outstanding, Restored(s).outstanding);
  }
}
