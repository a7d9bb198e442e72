/** Partial Merkle trees. */
module PartialMerkle {
  // Section "Partial Merkle branch format" of BIP 37: the decoder of a
  // "merkleblock", and the encoding it inverts.

  import opened FixedWidth
  import opened Arithmetic
  import opened MerkleTree

  const SIZE_MAX: nat := 0xFFFF_FFFF_FFFF_FFFF

  /** The fields of a block the walkers read. */
  datatype Block<H> = Block(totalTx: u32, hashes: seq<H>, flags: seq<u8>)

  function FlagBit(flags: seq<u8>, k: nat): bool
    requires k / 8 < |flags|
  {
    flags[k / 8] / Pow2(k % 8) % 2 == 1
  }

  // ---- the two walkers ------------------------------------------------------

  /** A node hash and the cursors after it. */
  datatype Walk<H> = Walk(md: H, hashIdx: nat, flagIdx: nat)

  function RootR<H(==)>(c: (H, H) -> H, zero: H, b: Block<H>, hashIdx: nat, flagIdx: nat, depth: nat): Walk<H>
    requires depth <= Depth(b.totalTx)
    decreases Depth(b.totalTx) - depth
  {
    if flagIdx / 8 < |b.flags| && hashIdx < |b.hashes| then
      var flag := FlagBit(b.flags, flagIdx);
      if flag && depth != Depth(b.totalTx) then
        var left := RootR(c, zero, b, hashIdx, flagIdx + 1, depth + 1);
        var right := RootR(c, zero, b, left.hashIdx, left.flagIdx, depth + 1);
        if left.md != zero && left.md != right.md then
          Walk(c(left.md, if right.md == zero then left.md else right.md), right.hashIdx, right.flagIdx)
        else
          Walk(zero, SIZE_MAX, right.flagIdx)
      else
        Walk(b.hashes[hashIdx], hashIdx + 1, flagIdx + 1)
    else
      Walk(zero, hashIdx, flagIdx)
  }

  /** The matched hashes so far and the cursors. */
  datatype Matches<H> = Matches(txHashes: seq<H>, hashIdx: nat, flagIdx: nat)

  /** At most `room` hashes are written. */
  function TxHashesR<H>(b: Block<H>, room: nat, at: Matches<H>, depth: nat): Matches<H>
    requires depth <= Depth(b.totalTx)
    decreases Depth(b.totalTx) - depth
  {
    if at.flagIdx / 8 < |b.flags| && at.hashIdx < |b.hashes| then
      var flag := FlagBit(b.flags, at.flagIdx);
      if !flag || depth == Depth(b.totalTx) then
        Matches(if flag && |at.txHashes| < room then at.txHashes + [b.hashes[at.hashIdx]] else at.txHashes,
                at.hashIdx + 1, at.flagIdx + 1)
      else
        var left := TxHashesR(b, room, at.(flagIdx := at.flagIdx + 1), depth + 1);
        TxHashesR(b, room, left, depth + 1)
    else
      at
  }

  function TxHashes<H>(b: Block<H>, room: nat): seq<H> {
    TxHashesR(b, room, Matches([], 0, 0), 0).txHashes
  }

  // ---- the encoding ---------------------------------------------------------

  ghost function Width(n: nat, h: nat): nat {
    if h == 0 then n else (Width(n, h - 1) + 1) / 2
  }

  /** The row of the tree at height h above the transactions. */
  ghost function Row<H>(c: (H, H) -> H, txs: seq<H>, h: nat): (row: seq<H>)
    ensures |row| == Width(|txs|, h)
  {
    if h == 0 then txs else RowUp(c, Row(c, txs, h - 1))
  }

  ghost predicate HasMatch(match_: seq<bool>, lo: nat, hi: nat) {
    exists j :: lo <= j < hi && j < |match_| && match_[j]
  }

  /** The leaves under node i at height h are those from this one, up to the next node's first. */
  ghost function FirstLeaf(h: nat, i: nat): nat {
    if h == 0 then i else FirstLeaf(h - 1, 2 * i)
  }

  /** Some matched transaction is a leaf under node i at height h. */
  ghost predicate AnyMatch(match_: seq<bool>, h: nat, i: nat) {
    HasMatch(match_, FirstLeaf(h, i), FirstLeaf(h, i + 1))
  }

  datatype Branch<H> = Branch(bits: seq<bool>, hashes: seq<H>)

  ghost function Join<H>(left: Branch<H>, right: Branch<H>): Branch<H> {
    Branch([true] + left.bits + right.bits, left.hashes + right.hashes)
  }

  /** Depth first: a bit for each visited node, and a hash for each node not explored further.
      A node the row does not have takes neither. */
  ghost function Encode<H>(c: (H, H) -> H, txs: seq<H>, match_: seq<bool>, h: nat, i: nat): (e: Branch<H>)
    decreases h
  {
    if i >= Width(|txs|, h) then Branch([], [])
    else if h == 0 || !AnyMatch(match_, h, i) then Branch([AnyMatch(match_, h, i)], [Row(c, txs, h)[i]])
    else Join(Encode(c, txs, match_, h - 1, 2 * i), Encode(c, txs, match_, h - 1, 2 * i + 1))
  }

  /** Eight bits to a byte, the first lowest. */
  ghost predicate Packed(bits: seq<bool>, flags: seq<u8>) {
    forall k :: 0 <= k < |bits| ==> k / 8 < |flags| && FlagBit(flags, k) == bits[k]
  }

  /** The matched transactions from the first `n`, in order. */
  ghost function Matched<H>(txs: seq<H>, match_: seq<bool>, n: nat): seq<H>
    requires n <= |txs| <= |match_|
  {
    if n == 0 then [] else Matched(txs, match_, n - 1) + if match_[n - 1] then [txs[n - 1]] else []
  }

  // ---- the shape of the tree ------------------------------------------------

  lemma {:induction false} WidthLeaves(n: nat, h: nat, i: nat)
    ensures i < Width(n, h) <==> FirstLeaf(h, i) < n
    decreases h
  {
    if h > 0 {
      WidthLeaves(n, h - 1, 2 * i);
    }
  }

  lemma {:induction false} RowShift<H>(c: (H, H) -> H, txs: seq<H>, h: nat)
    ensures Row(c, RowUp(c, txs), h) == Row(c, txs, h + 1)
    decreases h
  {
    hide RowUp;
    if h > 0 {
      RowShift(c, txs, h - 1);
    } else {
      assert Row(c, txs, 1) == RowUp(c, Row(c, txs, 0));
    }
  }

  /** The topmost row holds the root alone. */
  lemma {:induction false} TopRow<H>(c: (H, H) -> H, txs: seq<H>)
    requires txs != []
    ensures Row(c, txs, Depth(|txs|)) == [RootOf(c, txs)]
    decreases |txs|
  {
    if |txs| > 1 {
      TopRow(c, RowUp(c, txs));
      RowShift(c, txs, Depth(|txs|) - 1);
    }
  }

  /** No row of an accepted list pairs equal nodes. */
  lemma {:induction false} AcceptedRows<H>(c: (H, H) -> H, txs: seq<H>, h: nat)
    requires !Mutated(c, txs) && h < Depth(|txs|)
    ensures !EqualPair(Row(c, txs, h))
    decreases h
  {
    hide RowUp, EqualPair;
    if h > 0 {
      AcceptedRows(c, RowUp(c, txs), h - 1);
      RowShift(c, txs, h - 1);
    }
  }

  // ---- decoding an encoded branch -------------------------------------------

  /** Branch e lies in the block at the two cursors. */
  ghost predicate LiesAt<H>(b: Block<H>, e: Branch<H>, hashIdx: nat, flagIdx: nat) {
    && hashIdx + |e.hashes| <= |b.hashes| && b.hashes[hashIdx..hashIdx + |e.hashes|] == e.hashes
    && forall k :: flagIdx <= k < flagIdx + |e.bits| ==> k / 8 < |b.flags| && FlagBit(b.flags, k) == e.bits[k - flagIdx]
  }

  lemma LiesSplit<H>(b: Block<H>, left: Branch<H>, right: Branch<H>, hashIdx: nat, flagIdx: nat)
    requires LiesAt(b, Join(left, right), hashIdx, flagIdx)
    ensures flagIdx / 8 < |b.flags| && FlagBit(b.flags, flagIdx)
    ensures LiesAt(b, left, hashIdx, flagIdx + 1)
    ensures LiesAt(b, right, hashIdx + |left.hashes|, flagIdx + 1 + |left.bits|)
  {
    var e := Join(left, right);
    assert e.bits[0];
    var hs := b.hashes[hashIdx..hashIdx + |e.hashes|];
    assert b.hashes[hashIdx..hashIdx + |left.hashes|] == hs[..|left.hashes|];
    assert b.hashes[hashIdx + |left.hashes|..hashIdx + |e.hashes|] == hs[|left.hashes|..];
    forall k | flagIdx + 1 <= k < flagIdx + 1 + |left.bits|
      ensures k / 8 < |b.flags| && FlagBit(b.flags, k) == left.bits[k - flagIdx - 1] {
        assert e.bits[k - flagIdx] == left.bits[k - flagIdx - 1];
      }
    forall k | flagIdx + 1 + |left.bits| <= k < flagIdx + 1 + |left.bits| + |right.bits|
      ensures k / 8 < |b.flags| && FlagBit(b.flags, k) == right.bits[k - flagIdx - 1 - |left.bits|]
    { assert e.bits[k - flagIdx] == right.bits[k - flagIdx - 1 - |left.bits|]; }
  }

  lemma LiesLeaf<H>(b: Block<H>, bit: bool, md: H, hashIdx: nat, flagIdx: nat)
    requires LiesAt(b, Branch([bit], [md]), hashIdx, flagIdx)
    ensures flagIdx / 8 < |b.flags| && FlagBit(b.flags, flagIdx) == bit
    ensures hashIdx < |b.hashes| && b.hashes[hashIdx] == md
  {
    assert b.hashes[hashIdx..hashIdx + 1][0] == md;
  }

  lemma {:induction false} EncodeHasHash<H>(c: (H, H) -> H, txs: seq<H>, match_: seq<bool>, h: nat, i: nat)
    requires i < Width(|txs|, h)
    ensures Encode(c, txs, match_, h, i).hashes != []
    decreases h
  {
    if h > 0 && AnyMatch(match_, h, i) { EncodeHasHash(c, txs, match_, h - 1, 2 * i); }
  }

  /** Nodes that the walk can tell from a missing one, in a tree that pairs no equal nodes. */
  ghost predicate Sound<H(!new)>(c: (H, H) -> H, zero: H, txs: seq<H>) {
    && (forall h :: 0 <= h < Depth(|txs|) ==> !EqualPair(Row(c, txs, h)))
    && (forall h, i :: 0 <= h <= Depth(|txs|) && 0 <= i < Width(|txs|, h) ==> Row(c, txs, h)[i] != zero)
  }

  /** Branch e of node i at height h lies at the cursors; when the node is the last of its row, nothing lies after
      it. */
  ghost predicate NodeAt<H>(b: Block<H>, n: nat, e: Branch<H>, h: nat, i: nat, hashIdx: nat, flagIdx: nat) {
    LiesAt(b, e, hashIdx, flagIdx) && (i + 1 == Width(n, h) ==> hashIdx + |e.hashes| == |b.hashes|)
  }

  /** What the walk of a node's branch leaves behind. */
  ghost predicate Walked<H>(w: Walk<H>, md: H, e: Branch<H>, hashIdx: nat, flagIdx: nat) {
    w == Walk(md, hashIdx + |e.hashes|, flagIdx + |e.bits|)
  }

  lemma {:induction false} RootRNode<H(!new)>(c: (H, H) -> H, zero: H, b: Block<H>, txs: seq<H>, match_: seq<bool>,
                                             h: nat, i: nat, hashIdx: nat, flagIdx: nat)
    requires |txs| == b.totalTx && Sound(c, zero, txs) && h <= Depth(|txs|) && i < Width(|txs|, h)
    requires NodeAt(b, |txs|, Encode(c, txs, match_, h, i), h, i, hashIdx, flagIdx)
    ensures Walked(RootR(c, zero, b, hashIdx, flagIdx, Depth(|txs|) - h),
                   Row(c, txs, h)[i], Encode(c, txs, match_, h, i), hashIdx, flagIdx)
    decreases h
  {
    hide FlagBit, Depth, AnyMatch, RowUp, LiesAt, Sound, Encode, RootR, Width, Row, NodeAt;
    if h == 0 || !AnyMatch(match_, h, i) {
      RootRLeaf(c, zero, b, txs, match_, h, i, hashIdx, flagIdx);
    } else {
      WidthDef(|txs|, h);
      var left := Encode(c, txs, match_, h - 1, 2 * i);
      InnerSplit(c, b, txs, match_, h, i, hashIdx, flagIdx);
      RootRNode(c, zero, b, txs, match_, h - 1, 2 * i, hashIdx, flagIdx + 1);
      InnerNode(c, zero, txs, h, i);
      var l, md := Depth(|txs|) - h, Row(c, txs, h - 1)[2 * i];
      var at, flag := hashIdx + |left.hashes|, flagIdx + 1 + |left.bits|;
      EncodeInner(c, txs, match_, h, i);
      if 2 * i + 1 < Width(|txs|, h - 1) {
        RootRNode(c, zero, b, txs, match_, h - 1, 2 * i + 1, at, flag);
      } else {
        EncodeMissing(c, txs, match_, h - 1, 2 * i + 1);
        PastTheEnd(c, zero, b, at, flag, l + 1);
      }
      RootRInner(c, zero, b, l, hashIdx, flagIdx, md, left, RootR(c, zero, b, at, flag, l + 1));
    }
  }

  lemma WidthDef(n: nat, h: nat)
    requires h > 0
    ensures Width(n, h) == (Width(n, h - 1) + 1) / 2
  {
  }

  lemma RootRLeaf<H(!new)>(c: (H, H) -> H, zero: H, b: Block<H>, txs: seq<H>, match_: seq<bool>,
                           h: nat, i: nat, hashIdx: nat, flagIdx: nat)
    requires |txs| == b.totalTx && h <= Depth(|txs|) && i < Width(|txs|, h) && (h == 0 || !AnyMatch(match_, h, i))
    requires NodeAt(b, |txs|, Encode(c, txs, match_, h, i), h, i, hashIdx, flagIdx)
    ensures Walked(RootR(c, zero, b, hashIdx, flagIdx, Depth(|txs|) - h),
                   Row(c, txs, h)[i], Encode(c, txs, match_, h, i), hashIdx, flagIdx)
  {
    hide FlagBit, Depth, AnyMatch, RowUp, LiesAt;
    LiesLeaf(b, AnyMatch(match_, h, i), Row(c, txs, h)[i], hashIdx, flagIdx);
  }

  /** The walk of an inner node, from the walks of its children. */
  lemma RootRInner<H>(c: (H, H) -> H, zero: H, b: Block<H>, depth: nat, hashIdx: nat, flagIdx: nat, left: H,
                      l: Branch<H>,
                      right: Walk<H>)
    requires depth < Depth(b.totalTx) && flagIdx / 8 < |b.flags| && hashIdx < |b.hashes| && FlagBit(b.flags, flagIdx)
    requires Walked(RootR(c, zero, b, hashIdx, flagIdx + 1, depth + 1), left, l, hashIdx, flagIdx + 1)
    requires right == RootR(c, zero, b, hashIdx + |l.hashes|, flagIdx + 1 + |l.bits|, depth + 1)
    requires left != zero && right.md != left
    ensures RootR(c, zero, b, hashIdx, flagIdx, depth) ==
            Walk(c(left, if right.md == zero then left else right.md), right.hashIdx, right.flagIdx)
  {
    hide FlagBit, Depth;
  }

  /** A walk that starts past the last hash finds nothing and moves nothing. */
  lemma PastTheEnd<H>(c: (H, H) -> H, zero: H, b: Block<H>, hashIdx: nat, flagIdx: nat, depth: nat)
    requires depth <= Depth(b.totalTx) && hashIdx == |b.hashes|
    ensures RootR(c, zero, b, hashIdx, flagIdx, depth) == Walk(zero, hashIdx, flagIdx)
  {
  }

  lemma InnerNode<H(!new)>(c: (H, H) -> H, zero: H, txs: seq<H>, h: nat, i: nat)
    requires Sound(c, zero, txs) && 0 < h <= Depth(|txs|) && i < Width(|txs|, h)
    ensures var row := Row(c, txs, h - 1);
            && 2 * i < |row| && row[2 * i] != zero
            && (2 * i + 1 < |row| ==>
                  row[2 * i + 1] != zero && row[2 * i + 1] != row[2 * i] &&
                      Row(c, txs, h)[i] == c(row[2 * i], row[2 * i + 1]))
            && (2 * i + 1 >= |row| ==> Row(c, txs, h)[i] == c(row[2 * i], row[2 * i]))
  {
    var row := Row(c, txs, h - 1);
    assert !EqualAt(row, i);
    hide RowUp;
    RowUpAt(c, row, i);
    assert Row(c, txs, h) == RowUp(c, row);
  }

  lemma EncodeInner<H>(c: (H, H) -> H, txs: seq<H>, match_: seq<bool>, h: nat, i: nat)
    requires 0 < h && i < Width(|txs|, h) && AnyMatch(match_, h, i)
    ensures Encode(c, txs, match_, h, i) ==
            Join(Encode(c, txs, match_, h - 1, 2 * i), Encode(c, txs, match_, h - 1, 2 * i + 1))
  {
  }

  lemma EncodeMissing<H>(c: (H, H) -> H, txs: seq<H>, match_: seq<bool>, h: nat, i: nat)
    requires i >= Width(|txs|, h)
    ensures Encode(c, txs, match_, h, i) == Branch([], [])
  {
  }

  /** The branch of an inner node is its bit, its left child's branch, then its right child's if it has one. */
  lemma InnerSplit<H>(c: (H, H) -> H, b: Block<H>, txs: seq<H>, match_: seq<bool>, h: nat, i: nat, hashIdx: nat,
                      flagIdx: nat)
    requires 0 < h && i < Width(|txs|, h) && AnyMatch(match_, h, i)
    requires NodeAt(b, |txs|, Encode(c, txs, match_, h, i), h, i, hashIdx, flagIdx)
    ensures var left := Encode(c, txs, match_, h - 1, 2 * i);
            && flagIdx / 8 < |b.flags| && FlagBit(b.flags, flagIdx) && hashIdx < |b.hashes|
            && NodeAt(b, |txs|, left, h - 1, 2 * i, hashIdx, flagIdx + 1)
            && (2 * i + 1 < Width(|txs|, h - 1) ==>
                  NodeAt(b, |txs|, Encode(c, txs, match_, h - 1, 2 * i + 1), h - 1, 2 * i + 1,
                         hashIdx + |left.hashes|, flagIdx + 1 + |left.bits|))
            && (2 * i + 1 >= Width(|txs|, h - 1) ==> hashIdx + |left.hashes| == |b.hashes|)
  {
    hide FlagBit, AnyMatch, Row, Depth, Encode;
    var left, right := Encode(c, txs, match_, h - 1, 2 * i), Encode(c, txs, match_, h - 1, 2 * i + 1);
    WidthDef(|txs|, h);
    EncodeHasHash(c, txs, match_, h - 1, 2 * i);
    EncodeInner(c, txs, match_, h, i);
    if 2 * i + 1 >= Width(|txs|, h - 1) { EncodeMissing(c, txs, match_, h - 1, 2 * i + 1); }
    LiesSplit(b, left, right, hashIdx, flagIdx);
  }

  // ---- the matched transactions ---------------------------------------------

  /** The first `room` of a list. */
  ghost function Take<H>(s: seq<H>, room: nat): seq<H> { if |s| <= room then s else s[..room] }

  lemma {:induction false} NoneMatched<H>(txs: seq<H>, match_: seq<bool>, lo: nat, hi: nat)
    requires lo <= hi <= |txs| <= |match_| && !HasMatch(match_, lo, hi)
    ensures Matched(txs, match_, hi) == Matched(txs, match_, lo)
    decreases hi
  {
    if lo < hi { NoneMatched(txs, match_, lo, hi - 1); }
  }

  /** One past the last leaf under node i at height h. */
  ghost function EndLeaf(n: nat, h: nat, i: nat): (j: nat)
    ensures j <= n
  {
    if FirstLeaf(h, i + 1) <= n then FirstLeaf(h, i + 1) else n
  }

  /** What the walk has found when every leaf before j is behind it. */
  ghost predicate Found<H>(at: Matches<H>, txs: seq<H>, match_: seq<bool>, j: nat, room: nat)
    requires |match_| == |txs|
  {
    j <= |txs| && at.txHashes == Take(Matched(txs, match_, j), room)
  }

  lemma TxLeaf<H>(c: (H, H) -> H, b: Block<H>, txs: seq<H>, match_: seq<bool>, h: nat, i: nat, room: nat,
                  at: Matches<H>)
    requires |txs| == |match_| == b.totalTx && h <= Depth(|txs|) && i < Width(|txs|, h)
    requires h == 0 || !AnyMatch(match_, h, i)
    requires NodeAt(b, |txs|, Encode(c, txs, match_, h, i), h, i, at.hashIdx, at.flagIdx)
    requires Found(at, txs, match_, FirstLeaf(h, i), room)
    ensures var out, e := TxHashesR(b, room, at, Depth(|txs|) - h), Encode(c, txs, match_, h, i);
            && Found(out, txs, match_, EndLeaf(|txs|, h, i), room)
            && out.hashIdx == at.hashIdx + |e.hashes| && out.flagIdx == at.flagIdx + |e.bits|
  {
    hide FlagBit, Depth, RowUp, LiesAt;
    LiesLeaf(b, AnyMatch(match_, h, i), Row(c, txs, h)[i], at.hashIdx, at.flagIdx);
    WidthLeaves(|txs|, h, i);
    if AnyMatch(match_, h, i) {
      assert FirstLeaf(0, i) == i && FirstLeaf(0, i + 1) == i + 1;
      assert match_[i];
    } else {
      FirstLeafGrows(h, i);
      NoneMatched(txs, match_, FirstLeaf(h, i), EndLeaf(|txs|, h, i));
    }
  }

  lemma {:induction false} FirstLeafGrows(h: nat, i: nat)
    ensures FirstLeaf(h, i) <= FirstLeaf(h, i + 1)
    decreases h
  {
    if h > 0 {
      FirstLeafGrows(h - 1, 2 * i);
      FirstLeafGrows(h - 1, 2 * i + 1);
    }
  }

  lemma {:induction false} FirstOfAll(h: nat)
    ensures FirstLeaf(h, 0) == 0
    decreases h
  {
    if h > 0 { FirstOfAll(h - 1); }
  }

  /** The walk takes a flagged node above the leaves apart. */
  lemma TxInner<H>(b: Block<H>, room: nat, at: Matches<H>, depth: nat)
    requires depth < Depth(b.totalTx) && at.flagIdx / 8 < |b.flags| && at.hashIdx < |b.hashes|
    requires FlagBit(b.flags, at.flagIdx)
    ensures TxHashesR(b, room, at, depth) ==
            TxHashesR(b, room, TxHashesR(b, room, at.(flagIdx := at.flagIdx + 1), depth + 1), depth + 1)
  {
    hide FlagBit, Depth;
  }

  lemma TxPastTheEnd<H>(b: Block<H>, room: nat, at: Matches<H>, depth: nat)
    requires depth <= Depth(b.totalTx) && at.hashIdx == |b.hashes|
    ensures TxHashesR(b, room, at, depth) == at
  {
  }

  /** A left child ends where its sibling starts, or at the last leaf when it has none. */
  lemma ChildLeaves(n: nat, h: nat, i: nat)
    requires 0 < h && i < Width(n, h)
    ensures FirstLeaf(h - 1, 2 * i) == FirstLeaf(h, i)
    ensures 2 * i + 1 < Width(n, h - 1) ==>
              EndLeaf(n, h - 1, 2 * i) == FirstLeaf(h - 1, 2 * i + 1) &&
                  EndLeaf(n, h - 1, 2 * i + 1) == EndLeaf(n, h, i)
    ensures 2 * i + 1 >= Width(n, h - 1) ==> EndLeaf(n, h - 1, 2 * i) == EndLeaf(n, h, i)
  {
    assert FirstLeaf(h, i + 1) == FirstLeaf(h - 1, 2 * i + 2);
    WidthLeaves(n, h - 1, 2 * i + 1);
    FirstLeafGrows(h - 1, 2 * i + 1);
  }

  lemma {:induction false} TxNode<H>(c: (H, H) -> H, b: Block<H>, txs: seq<H>, match_: seq<bool>, h: nat, i: nat,
                                     room: nat, at: Matches<H>)
    requires |txs| == |match_| == b.totalTx && h <= Depth(|txs|) && i < Width(|txs|, h)
    requires NodeAt(b, |txs|, Encode(c, txs, match_, h, i), h, i, at.hashIdx, at.flagIdx)
    requires Found(at, txs, match_, FirstLeaf(h, i), room)
    ensures var out, e := TxHashesR(b, room, at, Depth(|txs|) - h), Encode(c, txs, match_, h, i);
            && Found(out, txs, match_, EndLeaf(|txs|, h, i), room)
            && out.hashIdx == at.hashIdx + |e.hashes| && out.flagIdx == at.flagIdx + |e.bits|
    decreases h
  {
    hide FlagBit, Depth, AnyMatch, Encode, TxHashesR, Width, NodeAt, Found, EndLeaf, FirstLeaf;
    if h == 0 || !AnyMatch(match_, h, i) {
      TxLeaf(c, b, txs, match_, h, i, room, at);
    } else {
      WidthDef(|txs|, h);
      InnerSplit(c, b, txs, match_, h, i, at.hashIdx, at.flagIdx);
      ChildLeaves(|txs|, h, i);
      var depth := Depth(|txs|) - h;
      var start := at.(flagIdx := at.flagIdx + 1);
      assert Found(start, txs, match_, FirstLeaf(h, i), room) by {
        MovedCursor(at, start, txs, match_, FirstLeaf(h, i), room);
      }
      TxNode(c, b, txs, match_, h - 1, 2 * i, room, start);
      TxInner(b, room, at, depth);
      var left := TxHashesR(b, room, start, depth + 1);
      EncodeInner(c, txs, match_, h, i);
      if 2 * i + 1 < Width(|txs|, h - 1) {
        TxNode(c, b, txs, match_, h - 1, 2 * i + 1, room, left);
      } else {
        EncodeMissing(c, txs, match_, h - 1, 2 * i + 1);
        TxPastTheEnd(b, room, left, depth + 1);
      }
    }
  }

  lemma MovedCursor<H>(at: Matches<H>, moved: Matches<H>, txs: seq<H>, match_: seq<bool>, j: nat, room: nat)
    requires |match_| == |txs| && Found(at, txs, match_, j, room) && moved.txHashes == at.txHashes
    ensures Found(moved, txs, match_, j, room)
  {
  }

  // ---- the whole block ------------------------------------------------------

  /** No hash of the tree is the zero hash. */
  ghost predicate NoZero<H(!new)>(c: (H, H) -> H, zero: H, txs: seq<H>) {
    forall h, i :: 0 <= h <= Depth(|txs|) && 0 <= i < Width(|txs|, h) ==> Row(c, txs, h)[i] != zero
  }

  /** The tree narrows to one node. */
  lemma TopWidth<H>(c: (H, H) -> H, txs: seq<H>)
    requires txs != []
    ensures Width(|txs|, Depth(|txs|)) == 1
  {
    TopRow(c, txs);
  }

  /** The branch of the whole tree. */
  ghost function BranchOf<H>(c: (H, H) -> H, txs: seq<H>, match_: seq<bool>): Branch<H>
    requires txs != []
  {
    TopWidth(c, txs);
    Encode(c, txs, match_, Depth(|txs|), 0)
  }

  lemma IsSound<H(!new)>(c: (H, H) -> H, zero: H, txs: seq<H>)
    requires !Mutated(c, txs) && NoZero(c, zero, txs)
    ensures Sound(c, zero, txs)
  {
    hide Mutated, EqualPair, Row, Width, Depth;
    forall h | 0 <= h < Depth(|txs|) ensures !EqualPair(Row(c, txs, h)) { AcceptedRows(c, txs, h); }
  }

  /** For a list the full-list function accepts, the block that carries its branch decodes to the list's root with every
      hash and every bit used, and to exactly the matched transactions, in order, as many as there is room for. */
  lemma DecodesBranch<H(!new)>(c: (H, H) -> H, zero: H, txs: seq<H>, match_: seq<bool>, flags: seq<u8>, room: nat)
    requires 0 < |txs| == |match_| <= U32_MAX && !Mutated(c, txs) && NoZero(c, zero, txs)
    requires Packed(BranchOf(c, txs, match_).bits, flags)
    ensures var e := BranchOf(c, txs, match_);
            var b := Block(|txs|, e.hashes, flags);
            && RootR(c, zero, b, 0, 0, 0) == Walk(RootOf(c, txs), |e.hashes|, |e.bits|)
            && TxHashes(b, room) == Take(Matched(txs, match_, |txs|), room)
  {
    hide FlagBit, AnyMatch, Encode, TxHashesR, RootR, Row, Width, Sound, NoZero, Mutated, Depth, FirstLeaf;
    TopWidth(c, txs);
    var d := Depth(|txs|);
    var e := Encode(c, txs, match_, d, 0);
    var b := Block(|txs|, e.hashes, flags);
    assert b.hashes[0..0 + |e.hashes|] == e.hashes;
    assert NodeAt(b, |txs|, e, d, 0, 0, 0);
    TopRow(c, txs);
    IsSound(c, zero, txs);
    RootRNode(c, zero, b, txs, match_, d, 0, 0, 0);
    FirstOfAll(d);
    assert Found(Matches([], 0, 0), txs, match_, 0, room);
    TxNode(c, b, txs, match_, d, 0, room, Matches([], 0, 0));
    WidthLeaves(|txs|, d, 1);
    assert EndLeaf(|txs|, d, 0) == |txs|;
  }

  // ---- packing --------------------------------------------------------------

  ghost function BitAt(bits: seq<bool>, k: nat): nat { if k < |bits| && bits[k] then 1 else 0 }

  ghost function LowBits(bits: seq<bool>, at: nat, m: nat): nat {
    if m == 0 then 0 else LowBits(bits, at, m - 1) + Pow2(m - 1) * BitAt(bits, at + (m - 1))
  }

  lemma {:induction false} LowBitsHold(bits: seq<bool>, at: nat, m: nat, k: nat)
    ensures LowBits(bits, at, m) < Pow2(m)
    ensures k < m ==> LowBits(bits, at, m) / Pow2(k) % 2 == BitAt(bits, at + k)
    decreases m
  {
    hide LowBits, Pow2;
    LowBitsDef(bits, at, m);
    if m > 0 {
      var low, x := LowBits(bits, at, m - 1), BitAt(bits, at + (m - 1));
      LowBitsHold(bits, at, m - 1, k);
      hide BitAt;
      TopBitAdds(low, x, m - 1);
      if k < m - 1 { BitBelow(low, x, k, m - 1); }
    }
  }

  lemma LowBitsDef(bits: seq<bool>, at: nat, m: nat)
    ensures m == 0 ==> LowBits(bits, at, m) < Pow2(m)
    ensures m > 0 ==> LowBits(bits, at, m) == LowBits(bits, at, m - 1) + Pow2(m - 1) * BitAt(bits, at + (m - 1))
  {
    Pow2Values();
  }

  lemma TopBitAdds(low: nat, x: nat, m: nat)
    requires low < Pow2(m) && x <= 1
    ensures low + Pow2(m) * x < Pow2(m + 1) && (low + Pow2(m) * x) / Pow2(m) % 2 == x
  {
    Pow2Add(1, m);
    Pow2Values();
    hide Pow2;
    assert Pow2(1 + m) == Pow2(m + 1);
    MulMonotoneInt(x, 1, Pow2(m));
    DivUnique(low + Pow2(m) * x, Pow2(m), x, low);
  }

  /** A higher bit does not change a lower one. */
  lemma BitBelow(low: nat, x: nat, k: nat, m: nat)
    requires k < m
    ensures (low + Pow2(m) * x) / Pow2(k) % 2 == low / Pow2(k) % 2
  {
    hide Pow2;
    var rest := Pow2(m - 1 - k);
    assert Pow2(m) == Pow2(k) * (2 * rest) by { Pow2Add(k, m - k); Pow2Add(1, m - 1 - k); Pow2Values(); }
    var y := rest * x;
    assert Pow2(m) * x == Pow2(k) * (2 * y) by { MulAssociates(Pow2(k), 2 * rest, x); MulAssociates(2, rest, x); }
    DivOfMultiple(low, 2 * y, Pow2(k));
    ModOfMultiple(low / Pow2(k), y, 2);
  }

  ghost function ByteOf(bits: seq<bool>, at: nat): u8 {
    LowBitsHold(bits, at, 8, 0);
    Pow2Values();
    LowBits(bits, at, 8)
  }

  ghost function Pack(bits: seq<bool>): (flags: seq<u8>)
    ensures |flags| == (|bits| + 7) / 8
  {
    seq((|bits| + 7) / 8, j requires 0 <= j => ByteOf(bits, 8 * j))
  }

  lemma PackHolds(bits: seq<bool>)
    ensures Packed(bits, Pack(bits))
  {
    forall k | 0 <= k < |bits| ensures k / 8 < |Pack(bits)| && FlagBit(Pack(bits), k) == bits[k] {
      LowBitsHold(bits, 8 * (k / 8), 8, k % 8);
    }
  }
}
