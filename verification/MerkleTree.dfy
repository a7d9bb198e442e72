/** Merkle trees. */
module MerkleTree {
  // Trees over a node hash c: rows are formed by pairing neighbours, an odd row's
  // last node with itself.

  import opened FixedWidth
  import opened Arithmetic
  import opened Options

  /** The row above: each pair hashed together, a last node without a partner with itself. */
  function RowUp<H>(c: (H, H) -> H, row: seq<H>): (up: seq<H>)
    ensures |up| == (|row| + 1) / 2
  {
    seq((|row| + 1) / 2, i requires 0 <= i < (|row| + 1) / 2 => c(row[2 * i], row[Min(2 * i + 1, |row| - 1)]))
  }

  lemma RowUpAt<H>(c: (H, H) -> H, row: seq<H>, i: nat)
    requires 2 * i < |row|
    ensures RowUp(c, row)[i] == c(row[2 * i], row[Min(2 * i + 1, |row| - 1)])
  {
  }

  ghost function RootOf<H>(c: (H, H) -> H, row: seq<H>): H
    requires row != []
    decreases |row|
  {
    if |row| == 1 then row[0] else RootOf(c, RowUp(c, row))
  }

  /** Two equal nodes are paired, before an odd last node is doubled. */
  ghost predicate EqualPair<H>(row: seq<H>) {
    exists i :: 0 <= i && EqualAt(row, i)
  }

  ghost predicate EqualAt<H>(row: seq<H>, i: int)
    requires 0 <= i
  {
    2 * i + 1 < |row| && row[2 * i] == row[2 * i + 1]
  }

  /** Some row of the tree pairs two equal nodes. */
  ghost predicate Mutated<H>(c: (H, H) -> H, row: seq<H>)
    decreases |row|
  {
    |row| > 1 && (EqualPair(row) || Mutated(c, RowUp(c, row)))
  }

  function Depth(n: nat): nat {
    if n <= 1 then 0 else 1 + Depth((n + 1) / 2)
  }

  // ---- the reduction in place -----------------------------------------------

  /** The root of a complete, in-order list of transaction hashes; none for an empty or a mutated list. */
  method RootFromTxHashes<H(==, 0)>(c: (H, H) -> H, txHashes: seq<H>) returns (root: Option<H>)
    ensures root.Some? <==> txHashes != [] && !Mutated(c, txHashes)
    ensures root.Some? ==> root.value == RootOf(c, txHashes)
  {
    if |txHashes| == 0 { return None; }
    if |txHashes| == 1 { return Some(txHashes[0]); }
    var row := new H[|txHashes| + 1];
    var n := |txHashes|;
    forall i | 0 <= i < n { row[i] := txHashes[i]; }
    assert row[..n] == txHashes;
    while n > 1
      invariant 1 <= n < row.Length
      invariant Mutated(c, row[..n]) == Mutated(c, txHashes) && RootOf(c, row[..n]) == RootOf(c, txHashes)
    {
      var twin := FindTwin(row, n);
      if twin { return None; }
      n := Reduce(c, row, n);
    }
    root := Some(row[0]);
  }

  method FindTwin<H(==)>(row: array<H>, n: nat) returns (twin: bool)
    requires 1 <= n <= row.Length
    ensures twin == EqualPair(row[..n])
  {
    var i := 0;
    while i + 1 < n
      invariant 0 <= i <= n && i % 2 == 0
      invariant forall k :: 0 <= k < i / 2 ==> !EqualAt(row[..n], k)
    {
      if row[i] == row[i + 1] {
        assert EqualAt(row[..n], i / 2);
        return true;
      }
      assert !EqualAt(row[..n], i / 2);
      i := i + 2;
    }
    return false;
  }

  /** One row up, in place: the odd last node is doubled past the end, then node i overwrites what pair i no longer
      needs. */
  method Reduce<H>(c: (H, H) -> H, row: array<H>, n: nat) returns (m: nat)
    requires 1 < n < row.Length
    modifies row
    ensures m == (n + 1) / 2 && row[..m] == RowUp(c, old(row[..n]))
  {
    ghost var was := row[..n];
    m := n;
    if n % 2 == 1 { row[n] := row[n - 1]; m := n + 1; }
    ghost var even := row[..m];
    hide RowUp;
    m := PairUp(c, row, m);
    RowReduced(c, was, even, row[..m]);
  }

  method PairUp<H>(c: (H, H) -> H, row: array<H>, n: nat) returns (m: nat)
    requires n % 2 == 0 && n <= row.Length
    modifies row
    ensures m == n / 2 && forall k :: 0 <= k < m ==> row[k] == c(old(row[2 * k]), old(row[2 * k + 1]))
  {
    var i := 0;
    while i < n / 2
      invariant i <= n / 2
      invariant forall k :: 0 <= k < i ==> row[k] == c(old(row[2 * k]), old(row[2 * k + 1]))
      invariant forall k :: i <= k < n ==> row[k] == old(row[k])
    {
      row[i] := c(row[2 * i], row[2 * i + 1]);
      i := i + 1;
    }
    m := n / 2;
  }

  lemma RowReduced<H>(c: (H, H) -> H, was: seq<H>, even: seq<H>, now: seq<H>)
    requires was != [] && |even| == 2 * |now| == 2 * ((|was| + 1) / 2)
    requires even == was || even == was + [was[|was| - 1]]
    requires forall k :: 0 <= k < |now| ==> now[k] == c(even[2 * k], even[2 * k + 1])
    ensures now == RowUp(c, was)
  {
    forall k | 0 <= k < |now| ensures now[k] == RowUp(c, was)[k] { RowUpAt(c, was, k); }
  }

  // ---- a root pins its list -------------------------------------------------

  ghost predicate PairInjective<H(!new)>(c: (H, H) -> H) {
    forall a, b, x, y :: c(a, b) == c(x, y) ==> a == x && b == y
  }

  /** Two lists that give the same row above, neither pairing equal nodes, are the same list. */
  lemma RowUpPins<H(!new)>(c: (H, H) -> H, s: seq<H>, t: seq<H>)
    requires PairInjective(c) && RowUp(c, s) == RowUp(c, t) && !EqualPair(s) && !EqualPair(t)
    ensures s == t
  {
    var up := RowUp(c, s);
    assert |s| <= 2 * |up| && |t| <= 2 * |up|;
    forall i | 0 <= i < |up|
      ensures s[2 * i] == t[2 * i] && s[Min(2 * i + 1, |s| - 1)] == t[Min(2 * i + 1, |t| - 1)]
    {
      assert up[i] == RowUp(c, t)[i];
    }
    if |up| > 0 {
      assert !EqualAt(s, |up| - 1) && !EqualAt(t, |up| - 1);
    }
    assert |s| == |t|;
    forall k | 0 <= k < |s| ensures s[k] == t[k] {
      assert s[2 * (k / 2)] == t[2 * (k / 2)];
    }
  }

  /** With a node hash injective on pairs, two accepted lists of the same tree depth with the same root are
      identical. */
  lemma {:induction false} RootPinsList<H(!new)>(c: (H, H) -> H, s: seq<H>, t: seq<H>)
    requires PairInjective(c) && s != [] && t != []
    requires !Mutated(c, s) && !Mutated(c, t) && Depth(|s|) == Depth(|t|) && RootOf(c, s) == RootOf(c, t)
    ensures s == t
    decreases |s|
  {
    if |s| > 1 {
      RootPinsList(c, RowUp(c, s), RowUp(c, t));
      RowUpPins(c, s, t);
    }
  }

  /** The defence is needed: doubling the last of three nodes by hand keeps the root, and only the pair test tells. */
  lemma DoubledTailKeepsRoot<H>(c: (H, H) -> H, x: H, y: H, z: H)
    ensures RootOf(c, [x, y, z, z]) == RootOf(c, [x, y, z])
    ensures Mutated(c, [x, y, z, z])
  {
    assert RowUp(c, [x, y, z, z]) == RowUp(c, [x, y, z]);
    assert EqualAt([x, y, z, z], 1);
  }

  // ---- the depth ------------------------------------------------------------

  /** Bitwise and. */
  function And(x: nat, y: nat): nat
    decreases x
  {
    if x == 0 || y == 0 then 0 else 2 * And(x / 2, y / 2) + (if x % 2 == 1 && y % 2 == 1 then 1 else 0)
  }

  function FloorLog(x: nat): nat {
    if x <= 1 then 0 else 1 + FloorLog(x / 2)
  }

  lemma {:induction false} AndSelf(x: nat)
    ensures And(x, x) == x
    decreases x
  {
    if x > 0 { AndSelf(x / 2); }
  }

  lemma {:induction false} DepthPastPower(k: nat)
    requires k >= 1
    ensures Depth(k + 1) == FloorLog(k) + 1
    decreases k
  {
    if k > 1 {
      DepthPastPower(k / 2);
      assert (k + 1 + 1) / 2 == k / 2 + 1;
    } else {
      assert Depth(2) == 1 + Depth(1);
    }
  }

  /** Rounding up adds one exactly when x & (x - 1) is not zero. */
  lemma {:induction false} DepthByBits(x: nat)
    requires x >= 1
    ensures Depth(x) == FloorLog(x) + (if And(x, x - 1) != 0 then 1 else 0)
    decreases x
  {
    if x > 1 {
      var k := x / 2;
      if x % 2 == 0 {
        DepthByBits(k);
        assert (x - 1) / 2 == k - 1 && (x + 1) / 2 == k;
      } else {
        DepthPastPower(k);
        AndSelf(k);
        assert (x - 1) / 2 == k && (x + 1) / 2 == k + 1;
      }
    } else {
      assert And(1, 0) == 0;
    }
  }

  /** The depth is the least power of two that holds n leaves. */
  lemma {:induction false} DepthHolds(n: nat)
    ensures n <= Pow2(Depth(n)) && (n > 1 ==> Pow2(Depth(n) - 1) < n)
    decreases n
  {
    hide Pow2;
    Pow2Values();
    if n > 1 {
      var m := (n + 1) / 2;
      DepthHolds(m);
      Pow2Step(Depth(n));
      if m > 1 { Pow2Step(Depth(m)); } else { assert Depth(1) == 0; }
    }
  }

  /** The depth of a tree over x leaves, for any 32-bit count: at most 32, and nothing for no leaves. */
  method CeilLog2(x: u32) returns (r: nat)
    ensures r == Depth(x) && r <= 32
  {
    assert x == 0 ==> And(x, Wrap32(x - 1)) == 0;
    hide Pow2, Depth, And;
    r := if And(x, Wrap32(x - 1)) != 0 then 1 else 0;
    ghost var up := r;
    var y := x / 2;
    while y != 0
      invariant 0 <= y
      invariant x == 0 ==> y == 0 && r == 0
      invariant x > 0 ==> FloorLog(x) + up == r + (if y == 0 then 0 else FloorLog(y) + 1)
    {
      r := r + 1;
      y := y / 2;
    }
    if x > 0 { DepthByBits(x); }
    DepthWithin(x);
  }

  lemma DepthWithin(x: u32)
    ensures Depth(x) <= 32 && Depth(0) == 0
  {
    assert Depth(0) == 0;
    hide Pow2, Depth;
    DepthHolds(x);
    Pow2Values();
    if Depth(x) > 32 { Pow2Grows(32, Depth(x) - 1); }
  }
}
