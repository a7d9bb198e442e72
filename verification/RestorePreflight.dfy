/** The cold start. */
module RestorePreflight {
  // The decision to resume from the stored ledger and header window, or to rebuild.
  // It reads the same bytes as the parsers, more strictly.

  import opened FixedWidth
  import opened LittleEndian
  import opened Options
  import opened LedgerSpec
  import opened LedgerHistory
  import opened LedgerBlob

  const ENTRIES_MAX: nat := 4096
  const SAVED_BLOCKS_MAX: nat := 100000
  const INT32_MAX: int := 0x7FFF_FFFF

  datatype Frontier = Frontier(scannedThrough: u32, abandonedBelow: u32)

  /** A ledger blob's frontier when its structure is whole and its marks are consistent. */
  function LedgerFrontier(b: bytes): (r: Option<Frontier>) {
    if |b| < 24 || GetU32(b, 0) != 0x43464C31 then None else
    var version := GetU32(b, 4);
    if version < 1 || version > 3 then None else
    var start, scanned, requested := GetU32(b, 8), GetU32(b, 12), GetU32(b, 16);
    if version >= 2 && |b| < 28 then None else
    var abandoned := if version >= 2 then GetU32(b, 20) else 0;
    if scanned + 1 < start || requested < scanned then None else
    var header := if version >= 2 then 28 else 24;
    var outCount := GetU32(b, if version >= 2 then 24 else 20);
    if outCount > ENTRIES_MAX then None else
    var parkedAt := header + outCount * (if version >= 3 then 6 else 5);
    if parkedAt + 4 > |b| then None else
    var parkedCount := GetU32(b, parkedAt);
    if parkedCount > ENTRIES_MAX then None else
    if parkedAt + 4 + parkedCount * (if version >= 3 then 6 else 4) > |b| then None
    else Some(Frontier(scanned, abandoned))
  }

  /** The reader accepts exactly the blobs the parser loads whose frontier is consistent,
      and reports the very marks the parser would load: for every byte string. */
  lemma FrontierIsParse(b: bytes)
    ensures var (s, ok) := ParseBlob(b);
            LedgerFrontier(b) ==
              if ok && s.scannedThrough + 1 >= s.start && s.requestedThrough >= s.scannedThrough
              then Some(Frontier(s.scannedThrough, s.abandonedBelow)) else None
  {
    hide GetU32, OutList, GaveList;
  }

  /** Every ledger a lawful run can reach, once written, passes the reader. */
  lemma ReachableBlobPasses(w: World, extra: bytes)
    requires Sound(w)
    ensures Fits(w.s) && LedgerFrontier(Bytes(w.s) + extra) == Some(Frontier(w.s.scannedThrough, w.s.abandonedBelow))
  {
    ParseInvertsSerialize(w.s, extra);
    FrontierIsParse(Bytes(w.s) + extra);
  }

  // ---- the saved header window ----------------------------------------------

  /** Is a whole entry at off, and where does the next one start? */
  predicate WholeEntry(b: bytes, off: nat) {
    off + 8 <= |b| && GetU32(b, off) <= INT32_MAX && off + 8 + GetU32(b, off) <= |b|
  }

  /** The heights of `count` consecutive whole entries from off, or None. */
  function WindowHeights(b: bytes, off: nat, count: nat): Option<seq<u32>>
    decreases count
  {
    if count == 0 then Some([])
    else if !WholeEntry(b, off) then None
    else match WindowHeights(b, off + 8 + GetU32(b, off), count - 1)
         case None => None
         case Some(rest) => Some([GetU32(b, off + 4)] + rest)
  }

  /** Where an entry keeps what: the length of its header and its height, then the header. */
  lemma EntryPlaces(b: bytes, off: nat, count: nat, length: u32, height: u32)
    requires Holds32(b, off, length) && Holds32(b, off + 4, height) && count > 0
    ensures var rest := WindowHeights(b, off + 8 + length, count - 1);
            WindowHeights(b, off, count) ==
              if length <= 0x7fff_ffff && off + 8 + length <= |b| && rest.Some? then Some([height] + rest.value)
              else None
  {
    HoldsOne(b, off, length);
    HoldsOne(b, off + 4, height);
    hide GetU32, Holds32;
  }

  /** m is the lowest height of a list; the largest u32 when there is none. */
  ghost predicate IsLowest(hs: seq<u32>, m: u32) {
    (forall h :: h in hs ==> m <= h) && (m in hs || (hs == [] && m == U32_MAX))
  }

  method SavedBlocksFloor(b: bytes) returns (floor: Option<u32>)
    ensures floor.Some? <==>
                |b| >= 4 && 1 <= GetU32(b, 0) <= SAVED_BLOCKS_MAX && WindowHeights(b, 4, GetU32(b, 0)).Some?
    ensures floor.Some? ==> IsLowest(WindowHeights(b, 4, GetU32(b, 0)).value, floor.value)
  {
    hide GetU32;
    if |b| < 4 { return None; }
    var count := GetU32(b, 0);
    if count < 1 || count > SAVED_BLOCKS_MAX { return None; }
    var lowest := U32_MAX;
    var off := 4;
    var i := 0;
    ghost var seen: seq<u32> := [];
    ghost var whole := WindowHeights(b, 4, count);
    while i < count
      invariant i <= count && 4 <= off <= |b| && IsLowest(seen, lowest)
      invariant match WindowHeights(b, off, count - i)
                case None => whole.None?
                case Some(rest) => whole.Some? && whole.value == seen + rest
    {
      if |b| - off < 8 { break; }
      var blockLen := GetU32(b, off);
      var height := GetU32(b, off + 4);
      if blockLen > INT32_MAX || blockLen > |b| - off - 8 { break; }
      Lower(seen, lowest, height);
      assert forall rest :: seen + ([height] + rest) == (seen + [height]) + rest;
      if height < lowest { lowest := height; }
      seen := seen + [height];
      off := off + 8 + blockLen;
      i := i + 1;
    }
    if i < count { return None; }
    assert seen + [] == seen;
    return Some(lowest);
  }

  lemma Lower(hs: seq<u32>, m: u32, h: u32)
    requires IsLowest(hs, m)
    ensures IsLowest(hs + [h], if h < m then h else m)
  {
    if h < m { assert (hs + [h])[|hs|] == h; }
    else if m in hs { assert m in hs + [h]; }
    else { assert (hs + [h])[0] == h; }
  }

  /** A saved block: its height and its serialized header. */
  datatype SavedBlock = SavedBlock(height: u32, header: bytes)

  function EntryBytes(k: SavedBlock): (b: bytes)
    requires |k.header| <= INT32_MAX
    ensures |b| == 8 + |k.header|
  {
    PutU32(|k.header|) + PutU32(k.height) + k.header
  }

  function WindowBytes(blocks: seq<SavedBlock>): bytes
    requires forall k :: k in blocks ==> |k.header| <= INT32_MAX
  {
    if blocks == [] then [] else EntryBytes(blocks[0]) + WindowBytes(blocks[1..])
  }

  function BlockHeights(blocks: seq<SavedBlock>): (r: seq<u32>) {
    seq(|blocks|, i requires 0 <= i < |blocks| => blocks[i].height)
  }

  /** A whole entry in front of whole entries. */
  lemma WindowEntry(b: bytes, off: nat, count: nat, height: u32, rest: seq<u32>)
    requires WholeEntry(b, off) && GetU32(b, off + 4) == height
    requires WindowHeights(b, off + 8 + GetU32(b, off), count) == Some(rest)
    ensures WindowHeights(b, off, count + 1) == Some([height] + rest)
  {
    hide GetU32;
  }

  lemma EntryReads(pre: bytes, k: SavedBlock, post: bytes)
    requires |k.header| <= INT32_MAX
    ensures var b := pre + EntryBytes(k) + post;
            WholeEntry(b, |pre|) && GetU32(b, |pre|) == |k.header| && GetU32(b, |pre| + 4) == k.height
  {
    hide GetU32, PutU32;
    var b, body, head := pre + EntryBytes(k) + post, PutU32(k.height) + k.header + post, pre + PutU32(|k.header|);
    assert b == pre + PutU32(|k.header|) + body;
    GetPutU32(pre, |k.header|, body);
    assert b == head + PutU32(k.height) + (k.header + post);
    GetPutU32(head, k.height, k.header + post);
  }

  lemma {:induction false} WindowReads(pre: bytes, blocks: seq<SavedBlock>, extra: bytes)
    requires forall k :: k in blocks ==> |k.header| <= INT32_MAX
    ensures WindowHeights(pre + WindowBytes(blocks) + extra, |pre|, |blocks|) == Some(BlockHeights(blocks))
    decreases |blocks|
  {
    hide GetU32, WindowHeights, EntryBytes, WholeEntry;
    if blocks == [] {
      WindowEmpty(pre + WindowBytes(blocks) + extra, |pre|);
    } else {
      var k, rest := blocks[0], blocks[1..];
      var b, post := pre + WindowBytes(blocks) + extra, WindowBytes(rest) + extra;
      assert b == pre + EntryBytes(k) + post;
      EntryReads(pre, k, post);
      assert b == (pre + EntryBytes(k)) + WindowBytes(rest) + extra;
      WindowReads(pre + EntryBytes(k), rest, extra);
      WindowEntry(b, |pre|, |rest|, k.height, BlockHeights(rest));
      assert BlockHeights(blocks) == [k.height] + BlockHeights(rest);
    }
  }

  lemma WindowEmpty(b: bytes, off: nat)
    ensures WindowHeights(b, off, 0) == Some([])
  {
  }

  // ---- the decision ---------------------------------------------------------

  datatype Reset =
    | Resume
    | MissingLedger
    | MissingTransactionCheckpoint
    | InvalidLedger
    | InvalidSavedBlocks
    | HeaderWindowMissing

  method Preflight(ledger: Option<bytes>, savedBlocks: Option<bytes>, wasSynced: bool, hasTransactionCheckpoint: bool)
    returns (r: Reset)
    ensures r == MissingTransactionCheckpoint <==> wasSynced && !hasTransactionCheckpoint
    ensures r == MissingLedger <==> wasSynced && hasTransactionCheckpoint && ledger.None? && savedBlocks.Some?
    ensures r == InvalidLedger <==>
              (wasSynced ==> hasTransactionCheckpoint) && ledger.Some? && LedgerFrontier(ledger.value).None?
    ensures r == InvalidSavedBlocks <==>
              (wasSynced ==> hasTransactionCheckpoint) && ledger.Some? && LedgerFrontier(ledger.value).Some? &&
              savedBlocks.Some? && !HasWindow(savedBlocks.value)
    ensures r == HeaderWindowMissing <==>
              (wasSynced ==> hasTransactionCheckpoint) && ledger.Some? && LedgerFrontier(ledger.value).Some? &&
              (savedBlocks.None? || (HasWindow(savedBlocks.value) && !Reaches(ledger.value, savedBlocks.value)))
    ensures r == Resume <==>
              (wasSynced ==> hasTransactionCheckpoint) &&
              (if ledger.None? then !(wasSynced && savedBlocks.Some?)
               else LedgerFrontier(ledger.value).Some? && savedBlocks.Some? && HasWindow(savedBlocks.value) &&
                    Reaches(ledger.value, savedBlocks.value))
  {
    if wasSynced && !hasTransactionCheckpoint { return MissingTransactionCheckpoint; }
    if ledger.None? { return if wasSynced && savedBlocks.Some? then MissingLedger else Resume; }
    var frontier := LedgerFrontier(ledger.value);
    if frontier.None? { return InvalidLedger; }
    if savedBlocks.None? { return HeaderWindowMissing; }
    var floor := SavedBlocksFloor(savedBlocks.value);
    if floor.None? { return InvalidSavedBlocks; }
    var lowestNeeded := frontier.value.scannedThrough + 1;
    if frontier.value.abandonedBelow > lowestNeeded { lowestNeeded := frontier.value.abandonedBelow; }
    ghost var hs := WindowHeights(savedBlocks.value, 4, GetU32(savedBlocks.value, 0)).value;
    assert floor.value in hs by { WindowNonEmpty(savedBlocks.value, 4, GetU32(savedBlocks.value, 0)); }
    hide LedgerFrontier, WindowHeights, GetU32;
    if lowestNeeded < floor.value { return HeaderWindowMissing; }
    return Resume;
  }

  lemma WindowNonEmpty(b: bytes, off: nat, count: nat)
    requires count > 0 && WindowHeights(b, off, count).Some?
    ensures WindowHeights(b, off, count).value != []
  {
  }

  predicate HasWindow(b: bytes) {
    |b| >= 4 && 1 <= GetU32(b, 0) <= SAVED_BLOCKS_MAX && WindowHeights(b, 4, GetU32(b, 0)).Some?
  }

  /** Some block of the window is at or below the lowest height the scan still needs. */
  ghost predicate Reaches(ledger: bytes, window: bytes)
    requires LedgerFrontier(ledger).Some? && HasWindow(window)
  {
    var f := LedgerFrontier(ledger).value;
    exists h :: h in WindowHeights(window, 4, GetU32(window, 0)).value &&
        h <= Max(f.scannedThrough + 1, f.abandonedBelow)
  }

  /** Resuming skips nothing: with a reachable ledger's bytes and a window that reaches it,
      every height from the ledger's start up to the window's lowest block is settled. */
  lemma ResumeSkipsNothing(w: World, window: bytes, h: int)
    requires Sound(w) && HasWindow(window)
    requires LedgerFrontier(Bytes(w.s)).Some? ==> Reaches(Bytes(w.s), window)
    requires w.s.start <= h && forall b :: b in WindowHeights(window, 4, GetU32(window, 0)).value ==> h < b
    ensures h in w.k.evaluated || h in w.k.evicted || h in w.k.abandoned
  {
    ReachableBlobPasses(w, []);
    assert Bytes(w.s) + [] == Bytes(w.s);
    hide LedgerFrontier, WindowHeights, GetU32;
    var f := LedgerFrontier(Bytes(w.s)).value;
    var b :| b in WindowHeights(window, 4, GetU32(window, 0)).value && b <= Max(f.scannedThrough + 1, f.abandonedBelow);
    if h <= w.s.scannedThrough {
      assert h in Settled(w.k);
    } else {
      assert h in Below(w.s.abandonedBelow);
    }
  }
}
