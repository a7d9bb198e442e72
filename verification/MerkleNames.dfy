/** What a block can name. */
module MerkleNames {
  // Which hashes the walks of a partial Merkle block can name when the first of them
  // gives the right root, whoever made the block.

  import opened FixedWidth
  import opened Arithmetic
  import opened MerkleTree
  import opened PartialMerkle

  // ---- any block with the right root ----------------------------------------

  /** The found hashes are transactions among the first j, in their order, each at a place of its own. */
  ghost predicate InOrder<H(!new)>(found: seq<H>, txs: seq<H>, j: nat)
    requires j <= |txs|
  {
    found == [] ||
    (j > 0 && (InOrder(found, txs, j - 1) ||
               (found[|found| - 1] == txs[j - 1] && InOrder(found[..|found| - 1], txs, j - 1))))
  }

  lemma {:induction false} InOrderGrows<H(!new)>(found: seq<H>, txs: seq<H>, i: nat, j: nat)
    requires i <= j <= |txs| && InOrder(found, txs, i)
    ensures InOrder(found, txs, j)
    decreases j
  {
    if i < j { InOrderGrows(found, txs, i, j - 1); }
  }

  lemma InOrderSnoc<H(!new)>(found: seq<H>, txs: seq<H>, i: nat)
    requires i < |txs| && InOrder(found, txs, i)
    ensures InOrder(found + [txs[i]], txs, i + 1)
  {
    assert (found + [txs[i]])[..|found|] == found;
  }

  /** A block over so many transactions that stores no zero hash, and few enough hashes to count. */
  ghost predicate Plausible<H>(zero: H, b: Block<H>, n: nat) {
    b.totalTx == n && zero !in b.hashes && |b.hashes| < SIZE_MAX
  }

  /** A hash that is injective on pairs and never zero. */
  ghost predicate Separates<H(!new)>(c: (H, H) -> H, zero: H) {
    PairInjective(c) && forall x, y :: c(x, y) != zero
  }

  /** The two walks of one branch end at the same cursors. */
  ghost predicate Agree<H>(w: Walk<H>, out: Matches<H>) { out.hashIdx == w.hashIdx && out.flagIdx == w.flagIdx }

  /** A walk that finds nothing and stays inside the hashes has run out of hashes or of flags; the other walk then
      moves nothing either. */
  lemma NothingMoves<H(!new)>(c: (H, H) -> H, zero: H, b: Block<H>, room: nat, at: Matches<H>, depth: nat)
    requires depth <= Depth(b.totalTx) && Plausible(zero, b, b.totalTx) && Separates(c, zero)
    requires var w := RootR(c, zero, b, at.hashIdx, at.flagIdx, depth); w.md == zero && w.hashIdx <= |b.hashes|
    ensures RootR(c, zero, b, at.hashIdx, at.flagIdx, depth) == Walk(zero, at.hashIdx, at.flagIdx)
    ensures TxHashesR(b, room, at, depth) == at
  {
    hide FlagBit, Depth;
  }

  /** A walk past the last hash stays there. */
  lemma StaysPast<H>(c: (H, H) -> H, zero: H, b: Block<H>, hashIdx: nat, flagIdx: nat, depth: nat)
    requires depth <= Depth(b.totalTx) && hashIdx > |b.hashes|
    ensures RootR(c, zero, b, hashIdx, flagIdx, depth).hashIdx > |b.hashes|
  {
  }

  /** The parts of a walk that takes a node apart and stays inside the hashes. */
  lemma TakenApart<H(!new)>(c: (H, H) -> H, zero: H, b: Block<H>, at: Matches<H>, depth: nat)
    requires depth < Depth(b.totalTx) && Plausible(zero, b, b.totalTx)
    requires at.flagIdx / 8 < |b.flags| && at.hashIdx < |b.hashes| && FlagBit(b.flags, at.flagIdx)
    requires var w := RootR(c, zero, b, at.hashIdx, at.flagIdx, depth); w.md != zero && w.hashIdx <= |b.hashes|
    ensures var left := RootR(c, zero, b, at.hashIdx, at.flagIdx + 1, depth + 1);
            var right := RootR(c, zero, b, left.hashIdx, left.flagIdx, depth + 1);
            && left.md != zero && left.md != right.md && left.hashIdx <= |b.hashes|
            && RootR(c, zero, b, at.hashIdx, at.flagIdx, depth) ==
                 Walk(c(left.md, if right.md == zero then left.md else right.md), right.hashIdx, right.flagIdx)
  {
    hide FlagBit, Depth;
    var left := RootR(c, zero, b, at.hashIdx, at.flagIdx + 1, depth + 1);
    if left.hashIdx > |b.hashes| { StaysPast(c, zero, b, left.hashIdx, left.flagIdx, depth + 1); }
  }

  /** Node i of the row at height h, and its children. */
  lemma RowNode<H>(c: (H, H) -> H, txs: seq<H>, h: nat, i: nat)
    requires 0 < h && i < Width(|txs|, h)
    ensures var row := Row(c, txs, h - 1);
            2 * i < |row| && Row(c, txs, h)[i] == c(row[2 * i], row[if 2 * i + 1 < |row| then 2 * i + 1 else 2 * i])
  {
    RowUpAt(c, Row(c, txs, h - 1), i);
    hide RowUp;
  }

  lemma {:induction false} HonestNode<H(!new)>(c: (H, H) -> H, zero: H, b: Block<H>, txs: seq<H>, h: nat, i: nat,
                                               room: nat, at: Matches<H>)
    requires Plausible(zero, b, |txs|) && Separates(c, zero) && h <= Depth(|txs|) && i < Width(|txs|, h)
    requires var w := RootR(c, zero, b, at.hashIdx, at.flagIdx, Depth(|txs|) - h);
             w.md == Row(c, txs, h)[i] && w.hashIdx <= |b.hashes|
    requires FirstLeaf(h, i) <= |txs| && InOrder(at.txHashes, txs, FirstLeaf(h, i))
    ensures var out := TxHashesR(b, room, at, Depth(|txs|) - h);
            && Agree(RootR(c, zero, b, at.hashIdx, at.flagIdx, Depth(|txs|) - h), out)
            && InOrder(out.txHashes, txs, EndLeaf(|txs|, h, i))
    decreases h
  {
    hide FlagBit, Depth, RowUp, Row, Width, RootR, TxHashesR, InOrder, Separates, EndLeaf, FirstLeaf, Plausible;
    var depth := Depth(|txs|) - h;
    PlausibleMeans(zero, b, |txs|);
    WidthLeaves(|txs|, h, i);
    LeavesGrow(|txs|, h, i);
    if RootR(c, zero, b, at.hashIdx, at.flagIdx, depth).md == zero {
      NothingMoves(c, zero, b, room, at, depth);
      InOrderGrows(at.txHashes, txs, FirstLeaf(h, i), EndLeaf(|txs|, h, i));
    } else {
      FoundSomething(c, zero, b, at, depth);
      if h == 0 || !FlagBit(b.flags, at.flagIdx) {
        HonestLeaf(c, zero, b, txs, h, i, room, at);
      } else {
        HonestInner(c, zero, b, txs, h, i, room, at);
        var left := RootR(c, zero, b, at.hashIdx, at.flagIdx + 1, depth + 1);
        var start := at.(flagIdx := at.flagIdx + 1);
        ChildLeaves(|txs|, h, i);
        HonestNode(c, zero, b, txs, h - 1, 2 * i, room, start);
        var mid := TxHashesR(b, room, start, depth + 1);
        TxInner(b, room, at, depth);
        if RootR(c, zero, b, left.hashIdx, left.flagIdx, depth + 1).md == zero {
          NothingMoves(c, zero, b, room, mid, depth + 1);
          ChildEnds(|txs|, h, i);
          InOrderGrows(mid.txHashes, txs, EndLeaf(|txs|, h - 1, 2 * i), EndLeaf(|txs|, h, i));
        } else {
          HonestNode(c, zero, b, txs, h - 1, 2 * i + 1, room, mid);
        }
      }
    }
  }

  lemma PlausibleMeans<H>(zero: H, b: Block<H>, n: nat)
    requires Plausible(zero, b, n)
    ensures b.totalTx == n && zero !in b.hashes
  {
  }

  lemma LeavesGrow(n: nat, h: nat, i: nat)
    requires i < Width(n, h)
    ensures FirstLeaf(h, i) <= EndLeaf(n, h, i)
  {
    FirstLeafGrows(h, i);
    WidthLeaves(n, h, i);
  }

  /** A node's left child ends no later than the node. */
  lemma ChildEnds(n: nat, h: nat, i: nat)
    requires 0 < h && i < Width(n, h)
    ensures EndLeaf(n, h - 1, 2 * i) <= EndLeaf(n, h, i)
  {
    ChildLeaves(n, h, i);
    if 2 * i + 1 < Width(n, h - 1) { LeavesGrow(n, h - 1, 2 * i + 1); }
  }

  lemma FoundSomething<H>(c: (H, H) -> H, zero: H, b: Block<H>, at: Matches<H>, depth: nat)
    requires depth <= Depth(b.totalTx) && RootR(c, zero, b, at.hashIdx, at.flagIdx, depth).md != zero
    ensures at.flagIdx / 8 < |b.flags| && at.hashIdx < |b.hashes|
  {
  }

  lemma HonestLeaf<H(!new)>(c: (H, H) -> H, zero: H, b: Block<H>, txs: seq<H>, h: nat, i: nat, room: nat,
                            at: Matches<H>)
    requires b.totalTx == |txs| && h <= Depth(|txs|) && i < Width(|txs|, h)
    requires at.flagIdx / 8 < |b.flags| && at.hashIdx < |b.hashes| && (h == 0 || !FlagBit(b.flags, at.flagIdx))
    requires RootR(c, zero, b, at.hashIdx, at.flagIdx, Depth(|txs|) - h).md == Row(c, txs, h)[i]
    requires FirstLeaf(h, i) <= |txs| && InOrder(at.txHashes, txs, FirstLeaf(h, i))
    ensures var out := TxHashesR(b, room, at, Depth(|txs|) - h);
            && Agree(RootR(c, zero, b, at.hashIdx, at.flagIdx, Depth(|txs|) - h), out)
            && InOrder(out.txHashes, txs, EndLeaf(|txs|, h, i))
  {
    hide FlagBit, Depth, RowUp, InOrder;
    LeavesGrow(|txs|, h, i);
    InOrderGrows(at.txHashes, txs, FirstLeaf(h, i), EndLeaf(|txs|, h, i));
    if h == 0 {
      assert FirstLeaf(0, i) == i && EndLeaf(|txs|, 0, i) == i + 1;
      InOrderSnoc(at.txHashes, txs, i);
    }
  }

  /** The children of an honest inner node are the node's own, and a missing one is not found. */
  lemma HonestInner<H(!new)>(c: (H, H) -> H, zero: H, b: Block<H>, txs: seq<H>, h: nat, i: nat, room: nat,
                             at: Matches<H>)
    requires Plausible(zero, b, |txs|) && Separates(c, zero) && 0 < h <= Depth(|txs|) && i < Width(|txs|, h)
    requires at.flagIdx / 8 < |b.flags| && at.hashIdx < |b.hashes| && FlagBit(b.flags, at.flagIdx)
    requires var w := RootR(c, zero, b, at.hashIdx, at.flagIdx, Depth(|txs|) - h);
             w.md == Row(c, txs, h)[i] && w.hashIdx <= |b.hashes| && w.md != zero
    ensures var depth, row := Depth(|txs|) - h, Row(c, txs, h - 1);
            var left := RootR(c, zero, b, at.hashIdx, at.flagIdx + 1, depth + 1);
            var right := RootR(c, zero, b, left.hashIdx, left.flagIdx, depth + 1);
            && 2 * i < |row| && left.md == row[2 * i] && left.hashIdx <= |b.hashes| && right.hashIdx <= |b.hashes|
            && (right.md != zero ==> 2 * i + 1 < |row| && right.md == row[2 * i + 1])
            && RootR(c, zero, b, at.hashIdx, at.flagIdx, depth).hashIdx == right.hashIdx
            && RootR(c, zero, b, at.hashIdx, at.flagIdx, depth).flagIdx == right.flagIdx
  {
    hide FlagBit, Depth, RowUp, Row, Width, RootR, Plausible;
    PlausibleMeans(zero, b, |txs|);
    TakenApart(c, zero, b, at, Depth(|txs|) - h);
    RowNode(c, txs, h, i);
  }

  /** Any block that stores no zero hash and whose walk gives the root of a list of as many transactions, ending inside
      its hashes, names only transactions of that list, in their order, each place at most once. */
  lemma InsideWalkNamesTransactions<H(!new)>(c: (H, H) -> H, zero: H, b: Block<H>, txs: seq<H>, room: nat)
    requires txs != [] && Plausible(zero, b, |txs|) && Separates(c, zero)
    requires RootR(c, zero, b, 0, 0, 0).md == RootOf(c, txs) && RootR(c, zero, b, 0, 0, 0).hashIdx <= |b.hashes|
    ensures InOrder(TxHashes(b, room), txs, |txs|)
  {
    hide Plausible, Separates, RootR, TxHashesR, InOrder, Row, Depth;
    var d := Depth(|txs|);
    TopRow(c, txs);
    TopWidth(c, txs);
    FirstOfAll(d);
    assert InOrder<H>([], txs, 0) by { NoneInOrder(txs); }
    HonestNode(c, zero, b, txs, d, 0, room, Matches([], 0, 0));
    PlausibleMeans(zero, b, |txs|);
    WidthLeaves(|txs|, d, 1);
    assert EndLeaf(|txs|, d, 0) == |txs|;
  }

  // ---- the rows that decide -------------------------------------------------

  /** Every row strictly between the transactions and the root has an even number of nodes: a test on their count. */
  ghost predicate EvenRows(n: nat) {
    forall k :: 1 <= k < Depth(n) ==> Width(n, k) % 2 == 0
  }

  /** The walk of the block gives the root of the list, and the block stores what a block can. */
  ghost predicate RightRoot<H>(c: (H, H) -> H, zero: H, txs: seq<H>, b: Block<H>)
    requires txs != []
  {
    Plausible(zero, b, |txs|) && RootR(c, zero, b, 0, 0, 0).md == RootOf(c, txs)
  }

  /** No row of the tree pairs equal nodes. */
  ghost predicate RowsAccepted<H(!new)>(c: (H, H) -> H, txs: seq<H>) {
    forall h :: 0 <= h < Depth(|txs|) ==> !EqualPair(Row(c, txs, h))
  }

  lemma AreAccepted<H(!new)>(c: (H, H) -> H, txs: seq<H>)
    requires !Mutated(c, txs)
    ensures RowsAccepted(c, txs)
  {
    hide Mutated, EqualPair, Row;
    forall h | 0 <= h < Depth(|txs|) ensures !EqualPair(Row(c, txs, h)) { AcceptedRows(c, txs, h); }
  }

  /** Neighbours in an accepted tree differ. */
  lemma SiblingsDiffer<H(!new)>(c: (H, H) -> H, txs: seq<H>, h: nat, i: nat)
    requires RowsAccepted(c, txs) && h < Depth(|txs|) && 2 * i + 1 < Width(|txs|, h)
    ensures Row(c, txs, h)[2 * i] != Row(c, txs, h)[2 * i + 1]
  {
    assert !EqualPair(Row(c, txs, h));
    assert !EqualAt(Row(c, txs, h), i);
    hide Row, Width, Depth;
  }

  lemma InnerIsNotZero<H(!new)>(c: (H, H) -> H, zero: H, txs: seq<H>, h: nat, i: nat)
    requires Separates(c, zero) && 0 < h && i < Width(|txs|, h)
    ensures Row(c, txs, h)[i] != zero
  {
    RowNode(c, txs, h, i);
    hide Row, Width;
  }

  // ---- even rows: the root is enough ----------------------------------------

  /** A walk that finds something takes a flagged inner node apart. */
  lemma FoundApart<H(!new)>(c: (H, H) -> H, zero: H, b: Block<H>, hashIdx: nat, flagIdx: nat, depth: nat)
    requires depth < Depth(b.totalTx) && RootR(c, zero, b, hashIdx, flagIdx, depth).md != zero
    ensures flagIdx / 8 < |b.flags| && hashIdx < |b.hashes|
    ensures var left := RootR(c, zero, b, hashIdx, flagIdx + 1, depth + 1);
            var right := RootR(c, zero, b, left.hashIdx, left.flagIdx, depth + 1);
            var w := RootR(c, zero, b, hashIdx, flagIdx, depth);
            if FlagBit(b.flags, flagIdx) then
              && left.md != zero && left.md != right.md
              && w == Walk(c(left.md, if right.md == zero then left.md else right.md), right.hashIdx, right.flagIdx)
            else w.hashIdx == hashIdx + 1
  {
    hide FlagBit, Depth;
  }

  /** At the leaves a walk that finds nothing moves nothing. */
  lemma LeafWalk<H>(c: (H, H) -> H, zero: H, b: Block<H>, hashIdx: nat, flagIdx: nat)
    requires zero !in b.hashes && hashIdx <= |b.hashes|
    ensures RootR(c, zero, b, hashIdx, flagIdx, Depth(b.totalTx)).hashIdx <= |b.hashes|
  {
    hide FlagBit, Depth;
  }

  /** With even rows, a walk that gives a node of an accepted list ends inside the hashes. */
  lemma {:induction false} EvenEndsInside<H(!new)>(c: (H, H) -> H, zero: H, b: Block<H>, txs: seq<H>, h: nat, i: nat,
                                                   hashIdx: nat, flagIdx: nat)
    requires Plausible(zero, b, |txs|) && Separates(c, zero) && RowsAccepted(c, txs) && EvenRows(|txs|)
    requires h <= Depth(|txs|) && i < Width(|txs|, h) && hashIdx <= |b.hashes|
    requires RootR(c, zero, b, hashIdx, flagIdx, Depth(|txs|) - h).md == Row(c, txs, h)[i]
    ensures RootR(c, zero, b, hashIdx, flagIdx, Depth(|txs|) - h).hashIdx <= |b.hashes|
    decreases h
  {
    hide FlagBit, Depth, Row, Width, RootR, EvenRows, RowsAccepted, Plausible;
    PlausibleMeans(zero, b, |txs|);
    if h == 0 {
      LeafWalk(c, zero, b, hashIdx, flagIdx);
    } else {
      var depth, row := Depth(|txs|) - h, Row(c, txs, h - 1);
      InnerIsNotZero(c, zero, txs, h, i);
      FoundApart(c, zero, b, hashIdx, flagIdx, depth);
      if FlagBit(b.flags, flagIdx) {
        RowNode(c, txs, h, i);
        var left := RootR(c, zero, b, hashIdx, flagIdx + 1, depth + 1);
        var right := RootR(c, zero, b, left.hashIdx, left.flagIdx, depth + 1);
        EvenEndsInside(c, zero, b, txs, h - 1, 2 * i, hashIdx, flagIdx + 1);
        if 2 * i + 1 < |row| { SiblingsDiffer(c, txs, h - 1, i); }
        if right.md != zero {
          EvenEndsInside(c, zero, b, txs, h - 1, 2 * i + 1, left.hashIdx, left.flagIdx);
        } else {
          LastIsLeaf(|txs|, h, i);
          LeafWalk(c, zero, b, left.hashIdx, left.flagIdx);
        }
      }
    }
  }

  /** With even rows only a transaction can lack a sibling. */
  lemma LastIsLeaf(n: nat, h: nat, i: nat)
    requires EvenRows(n) && 0 < h <= Depth(n) && i < Width(n, h) && 2 * i + 1 >= Width(n, h - 1)
    ensures h == 1
  {
    hide Depth;
    WidthDef(n, h);
  }

  /** In a block over a count with even rows that stores no zero hash, a walk that gives the root of an accepted list
      names only transactions of that list, in their order, each place at most once. */
  lemma RootNamesTransactions<H(!new)>(c: (H, H) -> H, zero: H, b: Block<H>, txs: seq<H>, room: nat)
    requires txs != [] && Separates(c, zero) && !Mutated(c, txs) && EvenRows(|txs|) && RightRoot(c, zero, txs, b)
    ensures InOrder(TxHashes(b, room), txs, |txs|)
  {
    hide Separates, RootR, TxHashes, InOrder, Row, Depth, EvenRows, Mutated;
    TopRow(c, txs);
    TopWidth(c, txs);
    AreAccepted(c, txs);
    EvenEndsInside(c, zero, b, txs, Depth(|txs|), 0, 0, 0);
    InsideWalkNamesTransactions(c, zero, b, txs, room);
  }

  // ---- an odd row: the root is not enough -----------------------------------

  lemma {:induction false} WidthPositive(n: nat, h: nat)
    requires n > 0
    ensures Width(n, h) > 0
    decreases h
  {
    if h > 0 { WidthPositive(n, h - 1); }
  }

  /** The left child of the last node at height h. */
  ghost function LastLeft<H>(c: (H, H) -> H, txs: seq<H>, h: nat): H
    requires txs != [] && h > 0
  {
    WidthPositive(|txs|, h);
    RowNode(c, txs, h, Width(|txs|, h) - 1);
    Row(c, txs, h - 1)[2 * (Width(|txs|, h) - 1)]
  }

  ghost function Ones(n: nat): (bits: seq<bool>)
    ensures |bits| == n
  {
    seq(n, i requires 0 <= i => true)
  }

  /** Down the last nodes from height h, left children unexplored, to a node that the row at height k does not have;
      from there every flag is set, down to two equal leaves. */
  ghost function Spine<H>(c: (H, H) -> H, txs: seq<H>, p: H, k: nat, h: nat): (e: Branch<H>)
    requires txs != [] && k <= h
    ensures |e.hashes| == h - k + 2
    decreases h
  {
    if h == k then Branch(Ones(k + 2), [p, p]) else
    var below := Spine(c, txs, p, k, h - 1);
    Branch([true, false] + below.bits, [LastLeft(c, txs, h)] + below.hashes)
  }

  /** Branch e lies in the block at the cursors, with no hash after it. */
  ghost predicate LiesLast<H>(b: Block<H>, e: Branch<H>, hashIdx: nat, flagIdx: nat) {
    LiesAt(b, e, hashIdx, flagIdx) && hashIdx + |e.hashes| == |b.hashes|
  }

  lemma SpineSplit<H>(b: Block<H>, left: H, below: Branch<H>, hashIdx: nat, flagIdx: nat)
    requires LiesLast(b, Branch([true, false] + below.bits, [left] + below.hashes), hashIdx, flagIdx)
    ensures flagIdx / 8 < |b.flags| && FlagBit(b.flags, flagIdx)
    ensures (flagIdx + 1) / 8 < |b.flags| && !FlagBit(b.flags, flagIdx + 1)
    ensures hashIdx < |b.hashes| && b.hashes[hashIdx] == left
    ensures LiesLast(b, below, hashIdx + 1, flagIdx + 2)
  {
    hide FlagBit;
    var e := Branch([true, false] + below.bits, [left] + below.hashes);
    assert e.bits[0] && !e.bits[1];
    var hs := b.hashes[hashIdx..hashIdx + |e.hashes|];
    assert hs[0] == left;
    assert b.hashes[hashIdx + 1..hashIdx + |e.hashes|] == hs[1..];
    forall k | flagIdx + 2 <= k < flagIdx + 2 + |below.bits|
      ensures k / 8 < |b.flags| && FlagBit(b.flags, k) == below.bits[k - flagIdx - 2]
    {
      assert e.bits[k - flagIdx] == below.bits[k - flagIdx - 2];
    }
  }

  lemma OnesSplit<H>(b: Block<H>, p: H, m: nat, hashIdx: nat, flagIdx: nat)
    requires LiesLast(b, Branch(Ones(m + 2), [p, p]), hashIdx, flagIdx)
    ensures hashIdx + 2 == |b.hashes| && b.hashes[hashIdx] == p && b.hashes[hashIdx + 1] == p
    ensures forall k :: flagIdx <= k < flagIdx + m + 2 ==> k / 8 < |b.flags| && FlagBit(b.flags, k)
    ensures m > 0 ==> LiesLast(b, Branch(Ones(m + 1), [p, p]), hashIdx, flagIdx + 1)
  {
    hide FlagBit;
    var e := Branch(Ones(m + 2), [p, p]);
    var hs := b.hashes[hashIdx..hashIdx + 2];
    assert hs[0] == p && hs[1] == p;
    assert forall i :: 0 <= i < |e.bits| ==> e.bits[i];
  }

  /** What the two walks make of a missing node: the first finds nothing and jumps past the end; the second names p. */
  ghost predicate Misses<H>(w: Walk<H>, out: Matches<H>, zero: H, p: H, size: nat) {
    w.md == zero && w.hashIdx == SIZE_MAX && out.hashIdx == size && p in out.txHashes && out.flagIdx == w.flagIdx
  }

  lemma {:induction false} MissingWalk<H(!new)>(c: (H, H) -> H, zero: H, b: Block<H>, p: H, m: nat, hashIdx: nat,
                                                flagIdx: nat, room: nat)
    requires 0 < m <= Depth(b.totalTx) && p != zero && |b.hashes| < SIZE_MAX && room > 0
    requires LiesLast(b, Branch(Ones(m + 2), [p, p]), hashIdx, flagIdx)
    ensures Misses(RootR(c, zero, b, hashIdx, flagIdx, Depth(b.totalTx) - m),
                   TxHashesR(b, room, Matches([], hashIdx, flagIdx), Depth(b.totalTx) - m), zero, p, |b.hashes|)
    decreases m
  {
    hide FlagBit, Depth, LiesLast;
    OnesSplit(b, p, m, hashIdx, flagIdx);
    var depth := Depth(b.totalTx) - m;
    if m == 1 {
      TwinLeaves(c, zero, b, p, hashIdx, flagIdx, room);
    } else {
      MissingWalk(c, zero, b, p, m - 1, hashIdx, flagIdx + 1, room);
      hide RootR, TxHashesR;
      MissingInner(c, zero, b, p, hashIdx, flagIdx, room, depth);
    }
  }

  /** Two flagged equal leaves. */
  lemma TwinLeaves<H(!new)>(c: (H, H) -> H, zero: H, b: Block<H>, p: H, hashIdx: nat, flagIdx: nat, room: nat)
    requires 1 <= Depth(b.totalTx) && p != zero && room > 0
    requires hashIdx + 2 == |b.hashes| && b.hashes[hashIdx] == p && b.hashes[hashIdx + 1] == p
    requires forall k :: flagIdx <= k < flagIdx + 3 ==> k / 8 < |b.flags| && FlagBit(b.flags, k)
    ensures Misses(RootR(c, zero, b, hashIdx, flagIdx, Depth(b.totalTx) - 1),
                   TxHashesR(b, room, Matches([], hashIdx, flagIdx), Depth(b.totalTx) - 1), zero, p, |b.hashes|)
  {
    hide FlagBit, Depth;
    var d := Depth(b.totalTx);
    assert RootR(c, zero, b, hashIdx, flagIdx + 1, d) == Walk(p, hashIdx + 1, flagIdx + 2);
    assert RootR(c, zero, b, hashIdx + 1, flagIdx + 2, d) == Walk(p, hashIdx + 2, flagIdx + 3);
    var first := TxHashesR(b, room, Matches([], hashIdx, flagIdx + 1), d);
    assert first == Matches([] + [p], hashIdx + 1, flagIdx + 2);
    var second := TxHashesR(b, room, first, d);
    assert second == Matches(if 1 < room then first.txHashes + [p] else first.txHashes, hashIdx + 2, flagIdx + 3);
    TxInner(b, room, Matches([], hashIdx, flagIdx), d - 1);
  }

  /** A flagged node over a left child that is missed is missed. */
  lemma MissingInner<H(!new)>(c: (H, H) -> H, zero: H, b: Block<H>, p: H, hashIdx: nat, flagIdx: nat, room: nat,
                              depth: nat)
    requires depth < Depth(b.totalTx) && |b.hashes| < SIZE_MAX && hashIdx < |b.hashes|
    requires flagIdx / 8 < |b.flags| && FlagBit(b.flags, flagIdx)
    requires Misses(RootR(c, zero, b, hashIdx, flagIdx + 1, depth + 1),
                    TxHashesR(b, room, Matches([], hashIdx, flagIdx + 1), depth + 1), zero, p, |b.hashes|)
    ensures Misses(RootR(c, zero, b, hashIdx, flagIdx, depth),
                   TxHashesR(b, room, Matches([], hashIdx, flagIdx), depth), zero, p, |b.hashes|)
  {
    hide FlagBit, Depth;
    var left := RootR(c, zero, b, hashIdx, flagIdx + 1, depth + 1);
    assert RootR(c, zero, b, left.hashIdx, left.flagIdx, depth + 1) == left;
    var found := TxHashesR(b, room, Matches([], hashIdx, flagIdx + 1), depth + 1);
    TxPastTheEnd(b, room, found, depth + 1);
    TxInner(b, room, Matches([], hashIdx, flagIdx), depth);
  }

  /** Row k is odd, and every row above it, below the root's, is even. */
  ghost predicate HighestOdd(n: nat, k: nat) {
    && 1 <= k < Depth(n) && Width(n, k) % 2 == 1
    && forall j :: k < j < Depth(n) ==> Width(n, j) % 2 == 0
  }

  lemma {:induction false} FindHighestOdd(n: nat, top: nat) returns (k: nat)
    requires 1 <= top <= Depth(n) && !EvenRows(n)
    requires forall j :: top <= j < Depth(n) ==> Width(n, j) % 2 == 0
    ensures HighestOdd(n, k)
    decreases top
  {
    hide Depth;
    if top > 1 && Width(n, top - 1) % 2 == 1 {
      k := top - 1;
    } else {
      assert top > 1;
      k := FindHighestOdd(n, top - 1);
    }
  }

  /** An unexplored left child. */
  lemma UnexploredLeft<H>(c: (H, H) -> H, zero: H, b: Block<H>, hashIdx: nat, flagIdx: nat, room: nat, depth: nat)
    requires depth <= Depth(b.totalTx) && flagIdx / 8 < |b.flags| && hashIdx < |b.hashes|
    requires !FlagBit(b.flags, flagIdx)
    ensures RootR(c, zero, b, hashIdx, flagIdx, depth) == Walk(b.hashes[hashIdx], hashIdx + 1, flagIdx + 1)
    ensures TxHashesR(b, room, Matches([], hashIdx, flagIdx), depth) == Matches([], hashIdx + 1, flagIdx + 1)
  {
    hide FlagBit, Depth;
  }

  /** The walk of a node whose left child is not explored, from the walk of its right child. */
  lemma SpineNode<H(!new)>(c: (H, H) -> H, zero: H, b: Block<H>, p: H, left: H, hashIdx: nat, flagIdx: nat, room: nat,
                           depth: nat)
    requires depth < Depth(b.totalTx) && flagIdx / 8 < |b.flags| && (flagIdx + 1) / 8 < |b.flags|
    requires FlagBit(b.flags, flagIdx) && !FlagBit(b.flags, flagIdx + 1)
    requires hashIdx < |b.hashes| && b.hashes[hashIdx] == left != zero
    requires RootR(c, zero, b, hashIdx + 1, flagIdx + 2, depth + 1).md != left
    requires p in TxHashesR(b, room, Matches([], hashIdx + 1, flagIdx + 2), depth + 1).txHashes
    ensures var right := RootR(c, zero, b, hashIdx + 1, flagIdx + 2, depth + 1).md;
            RootR(c, zero, b, hashIdx, flagIdx, depth).md == c(left, if right == zero then left else right)
    ensures p in TxHashesR(b, room, Matches([], hashIdx, flagIdx), depth).txHashes
  {
    hide FlagBit, Depth;
    UnexploredLeft(c, zero, b, hashIdx, flagIdx + 1, room, depth + 1);
    TxInner(b, room, Matches([], hashIdx, flagIdx), depth);
  }

  /** The walk down the spine gives the last node of its row, and names p. */
  lemma {:induction false} SpineWalk<H(!new)>(c: (H, H) -> H, zero: H, b: Block<H>, txs: seq<H>, p: H, k: nat, h: nat,
                                              hashIdx: nat, flagIdx: nat, room: nat)
    requires txs != [] && Plausible(zero, b, |txs|) && Separates(c, zero) && RowsAccepted(c, txs) && p != zero &&
             room > 0
    requires HighestOdd(|txs|, k) && k < h <= Depth(|txs|)
    requires LiesLast(b, Spine(c, txs, p, k, h), hashIdx, flagIdx)
    ensures Width(|txs|, h) > 0
    ensures RootR(c, zero, b, hashIdx, flagIdx, Depth(|txs|) - h).md == Row(c, txs, h)[Width(|txs|, h) - 1]
    ensures p in TxHashesR(b, room, Matches([], hashIdx, flagIdx), Depth(|txs|) - h).txHashes
    decreases h
  {
    hide FlagBit, Depth, Row, Width, RootR, TxHashesR, RowsAccepted, Plausible, LiesLast, Spine, HighestOdd, LastLeft;
    PlausibleMeans(zero, b, |txs|);
    CountsHashes(zero, b, |txs|);
    OddMeans(|txs|, k, h);
    SpineIs(c, txs, p, k, h);
    LastLeftIs(c, txs, h);
    var i, depth, left := Width(|txs|, h) - 1, Depth(|txs|) - h, LastLeft(c, txs, h);
    SpineSplit(b, left, Spine(c, txs, p, k, h - 1), hashIdx, flagIdx);
    RowNode(c, txs, h, i);
    InnerIsNotZero(c, zero, txs, h - 1, 2 * i);
    if h == k + 1 {
      SpineEnds(c, txs, p, k);
      MissingWalk(c, zero, b, p, k, hashIdx + 1, flagIdx + 2, room);
    } else {
      SpineWalk(c, zero, b, txs, p, k, h - 1, hashIdx + 1, flagIdx + 2, room);
      InnerIsNotZero(c, zero, txs, h - 1, 2 * i + 1);
      SiblingsDiffer(c, txs, h - 1, i);
    }
    SpineNode(c, zero, b, p, left, hashIdx, flagIdx, room, depth);
  }

  lemma CountsHashes<H>(zero: H, b: Block<H>, n: nat)
    requires Plausible(zero, b, n)
    ensures |b.hashes| < SIZE_MAX
  {
  }

  /** Above the odd row the last node of a row has a right child; on top of it, it has none. */
  lemma OddMeans(n: nat, k: nat, h: nat)
    requires n > 0 && HighestOdd(n, k) && k < h <= Depth(n)
    ensures 1 <= k < Depth(n) && Width(n, h) > 0
    ensures h == k + 1 ==> 2 * (Width(n, h) - 1) + 1 == Width(n, h - 1)
    ensures h > k + 1 ==> 2 * (Width(n, h) - 1) + 2 == Width(n, h - 1)
  {
    WidthPositive(n, h);
    WidthDef(n, h);
    hide Depth;
  }

  lemma SpineIs<H>(c: (H, H) -> H, txs: seq<H>, p: H, k: nat, h: nat)
    requires txs != [] && k < h
    ensures var below := Spine(c, txs, p, k, h - 1);
            Spine(c, txs, p, k, h) == Branch([true, false] + below.bits, [LastLeft(c, txs, h)] + below.hashes)
  {
    hide LastLeft;
  }

  lemma SpineEnds<H>(c: (H, H) -> H, txs: seq<H>, p: H, k: nat)
    requires txs != []
    ensures Spine(c, txs, p, k, k) == Branch(Ones(k + 2), [p, p])
  {
  }

  lemma LastLeftIs<H>(c: (H, H) -> H, txs: seq<H>, h: nat)
    requires txs != [] && h > 0
    ensures Width(|txs|, h) > 0 && 2 * (Width(|txs|, h) - 1) < Width(|txs|, h - 1)
    ensures LastLeft(c, txs, h) == Row(c, txs, h - 1)[2 * (Width(|txs|, h) - 1)]
  {
    WidthPositive(|txs|, h);
    WidthDef(|txs|, h);
    hide Row, Width;
  }

  lemma {:induction false} SpineStoresNoZero<H(!new)>(c: (H, H) -> H, zero: H, txs: seq<H>, p: H, k: nat, h: nat)
    requires txs != [] && Separates(c, zero) && p != zero && 1 <= k <= h
    ensures zero !in Spine(c, txs, p, k, h).hashes
    decreases h
  {
    hide LastLeft, Row, Width;
    if h > k {
      SpineStoresNoZero(c, zero, txs, p, k, h - 1);
      LastLeftIs(c, txs, h);
      InnerIsNotZero(c, zero, txs, h - 1, 2 * (Width(|txs|, h) - 1));
    }
  }

  /** Over a count with an odd row there is, for every accepted list and every hash but zero, a block that stores no
      zero hash, whose walk gives the root of the list, and that names the hash. */
  lemma OddRowNamesAnything<H(!new)>(c: (H, H) -> H, zero: H, txs: seq<H>, p: H, room: nat) returns (b: Block<H>)
    requires 0 < |txs| <= U32_MAX && Separates(c, zero) && !Mutated(c, txs) && !EvenRows(|txs|)
    requires p != zero && room > 0
    ensures RightRoot(c, zero, txs, b) && p in TxHashes(b, room)
  {
    hide Separates, RootR, TxHashesR, Row, Depth, Width, EvenRows, Mutated, Spine, HighestOdd, FlagBit, RowsAccepted;
    var d := Depth(|txs|);
    HasRows(|txs|);
    var k := FindHighestOdd(|txs|, d);
    assert 1 <= k < d by { OddInside(|txs|, k); }
    var e := Spine(c, txs, p, k, d);
    b := Block(|txs|, e.hashes, Pack(e.bits));
    PackHolds(e.bits);
    assert b.hashes[0..0 + |e.hashes|] == e.hashes;
    DepthWithin(|txs|);
    SpineStoresNoZero(c, zero, txs, p, k, d);
    AreAccepted(c, txs);
    SpineWalk(c, zero, b, txs, p, k, d, 0, 0, room);
    TopRow(c, txs);
    TopWidth(c, txs);
  }

  lemma HasRows(n: nat)
    requires !EvenRows(n)
    ensures Depth(n) >= 1
  {
    hide Depth, Width;
  }

  lemma OddInside(n: nat, k: nat)
    requires HighestOdd(n, k)
    ensures 1 <= k < Depth(n)
  {
    hide Depth, Width;
  }

  /** The root decides what a block can name exactly for the counts with even rows: then every block with the right root
      names transactions of the list in their order; otherwise some block names a hash that is none of them. */
  lemma RootDecidesIff<H(!new)>(c: (H, H) -> H, zero: H, txs: seq<H>, p: H)
    requires 0 < |txs| <= U32_MAX && Separates(c, zero) && !Mutated(c, txs) && p != zero && p !in txs
    ensures EvenRows(|txs|) <==>
              forall b: Block<H>, room: nat :: RightRoot(c, zero, txs, b) ==> InOrder(TxHashes(b, room), txs, |txs|)
  {
    hide *;
    if EvenRows(|txs|) {
      forall b: Block<H>, room: nat | RightRoot(c, zero, txs, b) ensures InOrder(TxHashes(b, room), txs, |txs|) {
        RootNamesTransactions(c, zero, b, txs, room);
      }
    } else {
      var b := OddRowNamesAnything(c, zero, txs, p, 1);
      if InOrder(TxHashes(b, 1), txs, |txs|) { InOrderAmong(TxHashes(b, 1), txs, |txs|); }
    }
  }

  lemma {:induction false} InOrderAmong<H(!new)>(found: seq<H>, txs: seq<H>, j: nat)
    requires j <= |txs| && InOrder(found, txs, j)
    ensures forall x :: x in found ==> x in txs
    decreases j
  {
    if found != [] {
      if InOrder(found, txs, j - 1) {
        InOrderAmong(found, txs, j - 1);
      } else {
        InOrderAmong(found[..|found| - 1], txs, j - 1);
        assert found == found[..|found| - 1] + [found[|found| - 1]];
      }
    }
  }

  /** The rows are even exactly when the pairs of transactions number a power of two. */
  lemma EvenRowsMeans(n: nat)
    requires n > 1
    ensures EvenRows(n) <==> (n + 1) / 2 == Pow2(Depth(n) - 1)
  {
    hide Depth, Pow2;
    var d := Depth(n);
    CountTop(n);
    assert Width(n, 1) == (n + 1) / 2;
    if EvenRows(n) { EvenDoubles(n, 1); }
    if Width(n, 1) == Pow2(d - 1) {
      forall k | 1 <= k < d ensures Width(n, k) % 2 == 0 { PowerHalves(n, k); Pow2Step(d - k); }
    }
  }

  /** The tree of n leaves narrows to one node. */
  lemma CountTop(n: nat)
    requires n > 1
    ensures Depth(n) >= 1 && Width(n, Depth(n)) == 1
  {
    TopWidth((x, y) => 0, seq(n, i => 0));
  }

  lemma {:induction false} EvenDoubles(n: nat, k: nat)
    requires n > 1 && EvenRows(n) && 1 <= k <= Depth(n)
    ensures Width(n, k) == Pow2(Depth(n) - k)
    decreases Depth(n) - k
  {
    hide Depth, Pow2, Width;
    CountTop(n);
    if k < Depth(n) {
      EvenDoubles(n, k + 1);
      WidthDef(n, k + 1);
      Pow2Step(Depth(n) - k);
    } else {
      Pow2Values();
    }
  }

  lemma {:induction false} PowerHalves(n: nat, k: nat)
    requires n > 1 && 1 <= k <= Depth(n) && Width(n, 1) == Pow2(Depth(n) - 1)
    ensures Width(n, k) == Pow2(Depth(n) - k)
    decreases k
  {
    hide Depth, Pow2;
    if k > 1 {
      PowerHalves(n, k - 1);
      WidthDef(n, k);
      Pow2Step(Depth(n) - (k - 1));
    }
  }

  // ---- two blocks -----------------------------------------------------------

  /** That no zero hash is stored is needed: a stored zero hash stands for a missing last leaf, and is named when
      flagged. */
  lemma StoredZeroIsNamed<H(!new)>(c: (H, H) -> H, zero: H, x: H, y: H, z: H)
    requires Separates(c, zero) && zero !in [x, y, z] && x != z
    ensures var b := Block(3, [c(x, y), z, zero], [21]);
            && RootR(c, zero, b, 0, 0, 0) == Walk(RootOf(c, [x, y, z]), 3, 5)
            && TxHashes(b, 1) == [zero] && !InOrder(TxHashes(b, 1), [x, y, z], 3)
  {
    var b := Block(3, [c(x, y), z, zero], [21]);
    SmallDepth();
    FlagsOf21(b.flags);
    ThreeRoot(c, x, y, z);
    hide FlagBit, Depth, RootOf, InOrder;
    assert RootR(c, zero, b, 1, 3, 2) == Walk(z, 2, 4) && RootR(c, zero, b, 2, 4, 2) == Walk(zero, 3, 5);
    assert RootR(c, zero, b, 0, 1, 1) == Walk(c(x, y), 1, 2) && RootR(c, zero, b, 1, 2, 1) == Walk(c(z, z), 3, 5);
    assert TxHashesR(b, 1, Matches([], 0, 1), 1) == Matches([], 1, 2);
    assert TxHashesR(b, 1, Matches([], 1, 3), 2) == Matches([], 2, 4);
    assert TxHashesR(b, 1, Matches([], 2, 4), 2) == Matches([] + [zero], 3, 5);
    assert TxHashesR(b, 1, Matches([], 1, 2), 1) == Matches([zero], 3, 5);
    NotInOrder(zero, [x, y, z], 3);
  }

  /** Five transactions are the first count with an odd row: a missing inner node that is flagged over two equal leaves
      is taken for missing, and its leaves are named. */
  lemma MissingPairIsNamed<H(!new)>(c: (H, H) -> H, zero: H, v: H, w: H, x: H, y: H, z: H, p: H)
    requires Separates(c, zero) && p != zero && (v, w) != (x, y)
    requires c(c(v, w), c(x, y)) != c(c(z, z), c(z, z))
    ensures var b := Block(5, [c(c(v, w), c(x, y)), c(z, z), p, p], [117]);
            && Plausible(zero, b, 5) && RootR(c, zero, b, 0, 0, 0) == Walk(RootOf(c, [v, w, x, y, z]), SIZE_MAX, 7)
            && TxHashes(b, 2) == [p, p]
  {
    hide *;
    var left, last := c(c(v, w), c(x, y)), c(z, z);
    var b := Block(5, [left, last, p, p], [117]);
    NeverZero(c, zero, c(v, w), c(x, y));
    NeverZero(c, zero, z, z);
    NeverZero(c, zero, last, last);
    FiveRoot(c, v, w, x, y, z);
    FiveIsPlausible(zero, b, left, last, p);
    FiveGivesRoot(c, zero, b, left, last, p);
    FiveNames(b, left, last, p);
  }

  lemma NeverZero<H(!new)>(c: (H, H) -> H, zero: H, x: H, y: H)
    requires Separates(c, zero)
    ensures c(x, y) != zero
  {
  }

  lemma FiveIsPlausible<H>(zero: H, b: Block<H>, left: H, last: H, p: H)
    requires b.totalTx == 5 && b.hashes == [left, last, p, p] && zero !in [left, last, p]
    ensures Plausible(zero, b, 5)
  {
  }

  lemma FiveGivesRoot<H>(c: (H, H) -> H, zero: H, b: Block<H>, left: H, last: H, p: H)
    requires b == Block(5, [left, last, p, p], [117]) && zero !in [left, last, p] && left != c(last, last)
    requires c(last, last) != zero
    ensures RootR(c, zero, b, 0, 0, 0) == Walk(c(left, c(last, last)), SIZE_MAX, 7)
  {
    SmallDepth();
    FlagsOf117(b.flags);
    hide FlagBit, Depth;
    assert RootR(c, zero, b, 2, 5, 3) == Walk(p, 3, 6) && RootR(c, zero, b, 3, 6, 3) == Walk(p, 4, 7);
    assert RootR(c, zero, b, 1, 3, 2) == Walk(last, 2, 4) && RootR(c, zero, b, 2, 4, 2) == Walk(zero, SIZE_MAX, 7);
    assert RootR(c, zero, b, 0, 1, 1) == Walk(left, 1, 2);
    assert RootR(c, zero, b, 1, 2, 1) == Walk(c(last, last), SIZE_MAX, 7);
  }

  lemma FiveNames<H>(b: Block<H>, left: H, last: H, p: H)
    requires b == Block(5, [left, last, p, p], [117])
    ensures TxHashes(b, 2) == [p, p]
  {
    SmallDepth();
    FlagsOf117(b.flags);
    hide FlagBit, Depth;
    assert TxHashesR(b, 2, Matches([], 2, 5), 3) == Matches([] + [p], 3, 6);
    assert TxHashesR(b, 2, Matches([p], 3, 6), 3) == Matches([p] + [p], 4, 7);
    assert TxHashesR(b, 2, Matches([], 1, 3), 2) == Matches([], 2, 4);
    assert TxHashesR(b, 2, Matches([], 2, 4), 2) == Matches([p, p], 4, 7);
    assert TxHashesR(b, 2, Matches([], 0, 1), 1) == Matches([], 1, 2);
    assert TxHashesR(b, 2, Matches([], 1, 2), 1) == Matches([p, p], 4, 7);
  }

  lemma FlagsOf117(flags: seq<u8>)
    requires flags == [117]
    ensures FlagBit(flags, 0) && !FlagBit(flags, 1) && FlagBit(flags, 2) && !FlagBit(flags, 3)
    ensures FlagBit(flags, 4) && FlagBit(flags, 5) && FlagBit(flags, 6)
  {
    assert Pow2(0) == 1 && Pow2(1) == 2 && Pow2(2) == 4 && Pow2(3) == 8 && Pow2(4) == 16;
    Pow2Step(5);
    Pow2Step(6);
  }

  lemma FiveRoot<H>(c: (H, H) -> H, v: H, w: H, x: H, y: H, z: H)
    ensures RootOf(c, [v, w, x, y, z]) == c(c(c(v, w), c(x, y)), c(c(z, z), c(z, z)))
  {
    var first := [c(v, w), c(x, y), c(z, z)];
    assert RowUp(c, [v, w, x, y, z]) == first;
    ThreeRoot(c, first[0], first[1], first[2]);
    assert RootOf(c, [v, w, x, y, z]) == RootOf(c, first);
  }

  lemma SmallDepth()
    ensures Depth(3) == 2 && Depth(5) == 3
  {
    assert Depth(2) == 1 + Depth(1);
  }

  lemma FlagsOf21(flags: seq<u8>)
    requires flags == [21]
    ensures FlagBit(flags, 0) && !FlagBit(flags, 1) && FlagBit(flags, 2) && !FlagBit(flags, 3) && FlagBit(flags, 4)
  {
    assert Pow2(0) == 1 && Pow2(1) == 2 && Pow2(2) == 4 && Pow2(3) == 8 && Pow2(4) == 16;
  }

  lemma ThreeRoot<H>(c: (H, H) -> H, x: H, y: H, z: H)
    ensures RootOf(c, [x, y, z]) == c(c(x, y), c(z, z))
  {
    var pairs, top := [c(x, y), c(z, z)], [c(c(x, y), c(z, z))];
    assert RowUp(c, [x, y, z]) == pairs && RowUp(c, pairs) == top;
    assert RootOf(c, top) == top[0] && RootOf(c, pairs) == RootOf(c, top);
  }

  lemma {:induction false} NotInOrder<H(!new)>(h: H, txs: seq<H>, j: nat)
    requires j <= |txs| && h !in txs
    ensures !InOrder([h], txs, j)
    decreases j
  {
    if j > 0 {
      NotInOrder(h, txs, j - 1);
      assert txs[j - 1] in txs;
    }
  }

  lemma NoneInOrder<H(!new)>(txs: seq<H>)
    ensures InOrder<H>([], txs, 0)
  {
  }
}
