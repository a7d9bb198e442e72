/** Where the stored ledger keeps what. */
module LedgerLayout {
  // The bytes of every ledger, place by place, and of the older versions what
  // the parser takes from where.

  import opened FixedWidth
  import opened LittleEndian
  import opened SortedHoles
  import opened LedgerSpec
  import opened LedgerBlob

  lemma {:induction false} OutBytesAt(s: seq<Outstanding>, i: nat)
    requires i < |s|
    ensures OutBytes(s)[6 * i..6 * i + 6] == OutEntry(s[i])
    decreases |s|
  {
    hide OutEntry;
    var n := |s| - 1;
    if i < n { OutBytesAt(s[..n], i); }
  }

  lemma {:induction false} GaveBytesAt(s: seq<Parked>, i: nat)
    requires i < |s|
    ensures GaveBytes(s)[6 * i..6 * i + 6] == GaveEntry(s[i])
    decreases |s|
  {
    hide GaveEntry;
    var n := |s| - 1;
    if i < n { GaveBytesAt(s[..n], i); }
  }

  lemma EntryHolds(pre: bytes, v: u32, x: u8, y: u8, post: bytes)
    ensures var b, at := pre + (PutU32(v) + [x, y]) + post, |pre|;
            Holds32(b, at, v) && b[at + 4] == x && b[at + 5] == y
  {
    var b := pre + (PutU32(v) + [x, y]) + post;
    PutHolds(pre, v, [x, y] + post);
    hide PutU32, Holds32;
    assert b == pre + PutU32(v) + ([x, y] + post);
  }

  /** A slice of six bytes is an entry with something before and after it. */
  lemma SliceHolds(b: bytes, at: nat, v: u32, x: u8, y: u8)
    requires at + 6 <= |b| && b[at..at + 6] == PutU32(v) + [x, y]
    ensures Holds32(b, at, v) && b[at + 4] == x && b[at + 5] == y
  {
    EntryHolds(b[..at], v, x, y, b[at + 6..]);
    hide PutU32, Holds32;
    assert b == b[..at] + b[at..at + 6] + b[at + 6..];
  }

  /** The marks are six words at the front, after them the number of outstanding heights; their six bytes each are the
      height, the race flag and the re-arm count. The number of parked heights follows; their six bytes each are the
      height, the re-arm count and the latch. */
  lemma LayoutIs(s: State, i: nat, j: nat)
    requires Fits(s)
    ensures var b, out, parked := Bytes(s), 28 + 6 * i, 32 + 6 * |s.outstanding| + 6 * j;
            && Holds32(b, 0, 0x43464c31) && Holds32(b, 4, 3)
            && Holds32(b, 8, s.start) && Holds32(b, 12, s.scannedThrough) && Holds32(b, 16, s.requestedThrough)
            && Holds32(b, 20, s.abandonedBelow) && Holds32(b, 24, |s.outstanding|)
            && Holds32(b, 28 + 6 * |s.outstanding|, |s.gaveUp|)
            && (i < |s.outstanding| ==>
                  Holds32(b, out, s.outstanding[i].height) && b[out + 4] == s.outstanding[i].info.headerRace &&
                  b[out + 5] == s.outstanding[i].info.rearmCycles)
            && (j < |s.gaveUp| ==>
                  Holds32(b, parked, s.gaveUp[j].height) && b[parked + 4] == s.gaveUp[j].info.rearmCycles &&
                  b[parked + 5] == s.gaveUp[j].info.offersLive)
  {
    MarksHold(s);
    if i < |s.outstanding| {
      OutBytesAt(s.outstanding, i);
      OutSlice(s, i);
      SliceHolds(Bytes(s), 28 + 6 * i, s.outstanding[i].height, s.outstanding[i].info.headerRace,
                 s.outstanding[i].info.rearmCycles);
    }
    if j < |s.gaveUp| {
      GaveBytesAt(s.gaveUp, j);
      GaveSlice(s, j);
      SliceHolds(Bytes(s), 32 + 6 * |s.outstanding| + 6 * j, s.gaveUp[j].height, s.gaveUp[j].info.rearmCycles,
                 s.gaveUp[j].info.offersLive);
    }
    hide Bytes, Holds32, PutU32;
  }

  lemma OutSlice(s: State, i: nat)
    requires Fits(s) && i < |s.outstanding|
    ensures Bytes(s)[28 + 6 * i..28 + 6 * i + 6] == OutBytes(s.outstanding)[6 * i..6 * i + 6]
  {
    hide PutU32, OutBytes, GaveBytes, HeaderBytes;
  }

  lemma GaveSlice(s: State, j: nat)
    requires Fits(s) && j < |s.gaveUp|
    ensures var at := 32 + 6 * |s.outstanding| + 6 * j;
            Bytes(s)[at..at + 6] == GaveBytes(s.gaveUp)[6 * j..6 * j + 6]
  {
    hide PutU32, OutBytes, GaveBytes, HeaderBytes;
  }

  lemma MarksHold(s: State)
    requires Fits(s)
    ensures var b := Bytes(s);
            && Holds32(b, 0, 0x43464c31) && Holds32(b, 4, 3)
            && Holds32(b, 8, s.start) && Holds32(b, 12, s.scannedThrough) && Holds32(b, 16, s.requestedThrough)
            && Holds32(b, 20, s.abandonedBelow) && Holds32(b, 24, |s.outstanding|)
            && Holds32(b, 28 + 6 * |s.outstanding|, |s.gaveUp|)
  {
    var b := Bytes(s);
    BlobReads(s, []);
    assert b + [] == b;
    hide Bytes, GetU32, Holds32, OutList, GaveList, HeaderBytes;
    GetHolds(b, 0); GetHolds(b, 4); GetHolds(b, 8); GetHolds(b, 12); GetHolds(b, 16); GetHolds(b, 20);
    GetHolds(b, 24); GetHolds(b, 28 + 6 * |s.outstanding|);
  }

  // ---- what is read ---------------------------------------------------------

  lemma {:induction false} OutListAt(b: bytes, at: nat, n: nat, version: u32, i: nat)
    requires at + n * OutStride(version) <= |b| && i < n
    ensures at + i * OutStride(version) + OutStride(version) <= |b|
    ensures |OutList(b, at, n, version)| == n
    ensures OutList(b, at, n, version)[i] == OutAt(b, at + i * OutStride(version), version)
    decreases n
  {
    hide OutAt;
    assert (n - 1) * OutStride(version) + OutStride(version) == n * OutStride(version);
    if i < n - 1 { OutListAt(b, at, n - 1, version, i); }
    if n > 1 && i == n - 1 { OutListAt(b, at, n - 1, version, 0); }
  }

  lemma {:induction false} GaveListAt(b: bytes, at: nat, n: nat, version: u32, i: nat)
    requires at + n * GaveStride(version) <= |b| && i < n
    ensures at + i * GaveStride(version) + GaveStride(version) <= |b|
    ensures |GaveList(b, at, n, version)| == n
    ensures GaveList(b, at, n, version)[i] == GaveAt(b, at + i * GaveStride(version), version)
    decreases n
  {
    hide GaveAt;
    assert (n - 1) * GaveStride(version) + GaveStride(version) == n * GaveStride(version);
    if i < n - 1 { GaveListAt(b, at, n - 1, version, i); }
    if n > 1 && i == n - 1 { GaveListAt(b, at, n - 1, version, 0); }
  }

  /** Of a loaded blob of any version, the marks. Version 1 has no floor. */
  lemma LoadedMarks(b: bytes, v: nat)
    requires ParseBlob(b).1 && Holds32(b, 4, v)
    ensures 1 <= v <= 3 && Holds32(b, 0, 0x43464c31)
    ensures var s, header := ParseBlob(b).0, if v == 1 then 24 else 28;
            && Holds32(b, 8, s.start) && Holds32(b, 12, s.scannedThrough) && Holds32(b, 16, s.requestedThrough)
            && (if v == 1 then s.abandonedBelow == 0 else Holds32(b, 20, s.abandonedBelow)) && s.lastDriveAt == 0
            && Holds32(b, header - 4, |s.outstanding|)
            && Holds32(b, header + |s.outstanding| * (if v == 3 then 6 else 5), |s.gaveUp|)
  {
    HoldsOne(b, 4, v);
    LoadedLists(b, v);
    hide GetU32, Holds32, OutList, GaveList, OutAt, GaveAt;
    GetHolds(b, 0); GetHolds(b, 8); GetHolds(b, 12); GetHolds(b, 16);
    if v >= 2 { GetHolds(b, 20); GetHolds(b, 24); } else { GetHolds(b, 20); }
    GetHolds(b, ParkedPos(b));
  }

  lemma LoadedLists(b: bytes, v: nat)
    requires ParseBlob(b).1 && GetU32(b, 4) == v
    ensures var s, header := ParseBlob(b).0, if v == 1 then 24 else 28;
            && GaveReadable(b) && ParkedPos(b) == header + |s.outstanding| * (if v == 3 then 6 else 5)
            && |s.outstanding| == GetU32(b, header - 4) && |s.gaveUp| == GetU32(b, ParkedPos(b))
            && s.outstanding == OutList(b, header, |s.outstanding|, v)
            && s.gaveUp == GaveList(b, ParkedPos(b) + 4, |s.gaveUp|, v)
  {
    hide GetU32, OutAt, GaveAt;
    var header := if v == 1 then 24 else 28;
    var n, m := GetU32(b, header - 4), GetU32(b, ParkedPos(b));
    if n > 0 { OutListAt(b, header, n, v, 0); }
    if m > 0 { GaveListAt(b, ParkedPos(b) + 4, m, v, 0); }
  }

  lemma OutAtIs(b: bytes, at: nat, v: u32, e: Outstanding)
    requires 1 <= v <= 3 && at + OutStride(v) <= |b| && e == OutAt(b, at, v)
    ensures Holds32(b, at, e.height) && at + 5 <= |b| && (v == 3 ==> at + 6 <= |b|)
    ensures e.info == Retry(0, 0, 0, 0, b[at + 4], if v == 3 then b[at + 5] else 0, 1)
  {
    GetHolds(b, at);
    hide GetU32, Holds32;
  }

  lemma GaveAtIs(b: bytes, at: nat, v: u32, p: Parked)
    requires 1 <= v <= 3 && at + GaveStride(v) <= |b| && p == GaveAt(b, at, v)
    ensures Holds32(b, at, p.height) && (v == 3 ==> at + 6 <= |b|)
    ensures p.info == if v == 3 then Verdict(b[at + 4], b[at + 5]) else Verdict(0, 0)
  {
    GetHolds(b, at);
    hide GetU32, Holds32;
  }

  lemma Strides(v: u32)
    requires 1 <= v <= 3
    ensures OutStride(v) == (if v == 3 then 6 else 5) && GaveStride(v) == (if v == 3 then 6 else 4)
  {
  }

  /** An outstanding height of a loaded blob: versions 1 and 2 keep the race flag beside it and no re-arm count. */
  lemma LoadedOutstanding(b: bytes, v: nat, i: nat)
    requires ParseBlob(b).1 && Holds32(b, 4, v) && i < |ParseBlob(b).0.outstanding|
    ensures var e := ParseBlob(b).0.outstanding[i];
            var at := if v == 1 then 24 + 5 * i else if v == 2 then 28 + 5 * i else 28 + 6 * i;
            && Holds32(b, at, e.height) && at + 5 <= |b| && (v == 3 ==> at + 6 <= |b|)
            && e.info == Retry(0, 0, 0, 0, b[at + 4], if v == 3 then b[at + 5] else 0, 1)
  {
    hide *;
    LoadedMarks(b, v);
    HoldsOne(b, 4, v);
    LoadedLists(b, v);
    Strides(v);
    OutStands(b, v);
    var s, header := ParseBlob(b).0, if v == 1 then 24 else 28;
    OutListAt(b, header, |s.outstanding|, v, i);
    OutAtIs(b, header + i * OutStride(v), v, s.outstanding[i]);
  }

  /** A parked height of a loaded blob: versions 1 and 2 keep no evidence of it. */
  lemma LoadedParked(b: bytes, v: nat, j: nat)
    requires ParseBlob(b).1 && Holds32(b, 4, v) && j < |ParseBlob(b).0.gaveUp|
    ensures var s := ParseBlob(b).0;
            var n := |s.outstanding|;
            var at := if v == 1 then 28 + 5 * n + 4 * j else if v == 2 then 32 + 5 * n + 4 * j else 32 + 6 * n + 6 * j;
            && Holds32(b, at, s.gaveUp[j].height) && at + 4 <= |b| && (v == 3 ==> at + 6 <= |b|)
            && s.gaveUp[j].info == if v == 3 then Verdict(b[at + 4], b[at + 5]) else Verdict(0, 0)
  {
    hide *;
    LoadedMarks(b, v);
    HoldsOne(b, 4, v);
    LoadedLists(b, v);
    Strides(v);
    OutStands(b, v);
    var s := ParseBlob(b).0;
    GaveListAt(b, ParkedPos(b) + 4, |s.gaveUp|, v, j);
    GaveAtIs(b, ParkedPos(b) + 4 + j * GaveStride(v), v, s.gaveUp[j]);
    HoldsOne(b, ParkedPos(b) + 4 + j * GaveStride(v), s.gaveUp[j].height);
  }

  /** Both lists of a loaded blob lie inside it. */
  lemma OutStands(b: bytes, v: nat)
    requires ParseBlob(b).1 && GetU32(b, 4) == v
    ensures var s, header := ParseBlob(b).0, if v == 1 then 24 else 28;
            && KnownHeader(b) && HeaderSize(v) <= |b|
            && header + |s.outstanding| * OutStride(v) <= |b|
            && ParkedPos(b) + 4 + |s.gaveUp| * GaveStride(v) <= |b|
  {
    LoadedLists(b, v);
    hide GetU32, OutList, GaveList, ParseBlob;
  }
}
