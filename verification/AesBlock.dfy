/** The AES-256 block functions as they run:
    the state and the key window are rewritten in place. */
module AesBlock {
  import opened FixedWidth
  import opened ExclusiveOr
  import opened AesTables
  import opened AesField
  import opened AesCipher

  method AddRoundKey(x: array<u8>, k: array<u8>, half: nat)
    requires x.Length == 16 && k.Length == 32 && half < 2 && x != k
    modifies x
    ensures x[..] == AddKey(old(x[..]), k[..], half)
  {
    hide Xor;
    ghost var was := x[..];
    var j := 0;
    while j < 16
      invariant 0 <= j <= 16
      invariant forall i :: 0 <= i < j ==> x[i] == Xor8(was[i], k[16 * half + i])
      invariant forall i :: j <= i < 16 ==> x[i] == was[i]
    {
      x[j] := Xor8(x[j], k[j + half * 16]);
      j := j + 1;
    }
    assert x[..] == AddKey(was, k[..], half);
  }

  method SubAll(x: array<u8>)
    requires x.Length == 16
    modifies x
    ensures x[..] == SubBytes(old(x[..]))
  {
    hide Sub;
    ghost var was := x[..];
    var j := 0;
    while j < 16
      invariant 0 <= j <= 16
      invariant forall i :: 0 <= i < j ==> x[i] == Sub(was[i])
      invariant forall i :: j <= i < 16 ==> x[i] == was[i]
    {
      x[j] := Sub(x[j]);
      j := j + 1;
    }
  }

  method UnsubAll(x: array<u8>)
    requires x.Length == 16
    modifies x
    ensures x[..] == UnsubBytes(old(x[..]))
  {
    hide Unsub;
    ghost var was := x[..];
    var j := 0;
    while j < 16
      invariant 0 <= j <= 16
      invariant forall i :: 0 <= i < j ==> x[i] == Unsub(was[i])
      invariant forall i :: j <= i < 16 ==> x[i] == was[i]
    {
      x[j] := Unsub(x[j]);
      j := j + 1;
    }
  }

  /** Four bytes take each other's places in a ring, one held aside. */
  method Cycle(x: array<u8>, p: nat, q: nat, r: nat, s: nat)
    requires p < x.Length && q < x.Length && r < x.Length && s < x.Length
    requires p != q && p != r && p != s && q != r && q != s && r != s
    modifies x
    ensures x[..] == old(x[..])[p := old(x[q])][q := old(x[r])][r := old(x[s])][s := old(x[p])]
  {
    var a := x[p];
    x[p] := x[q];
    x[q] := x[r];
    x[r] := x[s];
    x[s] := a;
  }

  method Swap(x: array<u8>, p: nat, q: nat)
    requires p < x.Length && q < x.Length && p != q
    modifies x
    ensures x[..] == old(x[..])[p := old(x[q])][q := old(x[p])]
  {
    var a := x[p];
    x[p] := x[q];
    x[q] := a;
  }

  method ShiftAll(x: array<u8>)
    requires x.Length == 16
    modifies x
    ensures x[..] == ShiftRows(old(x[..]))
  {
    ghost var was := x[..];
    Cycle(x, 1, 5, 9, 13);
    Swap(x, 10, 2);
    Cycle(x, 3, 15, 11, 7);
    Swap(x, 14, 6);
    Shifted(was);
  }

  lemma Shifted(w: Block)
    ensures w[1 := w[5]][5 := w[9]][9 := w[13]][13 := w[1]][10 := w[2]][2 := w[10]]
             [3 := w[15]][15 := w[11]][11 := w[7]][7 := w[3]][14 := w[6]][6 := w[14]] == ShiftRows(w)
  {
  }

  method UnshiftAll(x: array<u8>)
    requires x.Length == 16
    modifies x
    ensures x[..] == UnshiftRows(old(x[..]))
  {
    ghost var was := x[..];
    Cycle(x, 1, 13, 9, 5);
    Swap(x, 2, 10);
    Cycle(x, 3, 7, 11, 15);
    Swap(x, 6, 14);
    Unshifted(was);
  }

  lemma Unshifted(w: Block)
    ensures w[1 := w[13]][13 := w[9]][9 := w[5]][5 := w[1]][2 := w[10]][10 := w[2]]
             [3 := w[7]][7 := w[11]][11 := w[15]][15 := w[3]][6 := w[14]][14 := w[6]] == UnshiftRows(w)
  {
  }

  // ---- columns --------------------------------------------------------------

  /** What is stored of a wide sum: the top of a doubled byte is cut off. */
  lemma Stored(a: u8, e: u8, w: nat)
    ensures Xor(e, w) % 256 == Xor8(e, w % 256)
    ensures Xor(a, Xor(e, w)) % 256 == Xor8(a, Xor8(e, w % 256))
  {
    hide Xor;
    EightBits();
    XorCuts(e, w, 8);
    XorCuts(a, Xor(e, w), 8);
  }

  lemma ColumnSum(a: u8, b: u8, c: u8, d: u8)
    ensures Xor8(Xor8(Xor8(a, b), c), d) == Xor4(a, b, c, d)
    ensures Xor4(a, b, c, d) == Xor4(b, c, d, a) == Xor4(c, d, a, b) == Xor4(d, a, b, c)
  {
    hide Xor, Bit;
    XorBits();
    BitsDecide(Xor8(Xor8(Xor8(a, b), c), d), Xor4(a, b, c, d));
    BitsDecide(Xor4(a, b, c, d), Xor4(b, c, d, a));
    BitsDecide(Xor4(b, c, d, a), Xor4(c, d, a, b));
    BitsDecide(Xor4(c, d, a, b), Xor4(d, a, b, c));
  }

  /** The new byte a of a column, with e the column's sum. */
  method MixedByte(a: u8, b: u8, e: u8) returns (v: u8)
    ensures v == MixStep(a, b, e)
  {
    hide Xor;
    WideIs(Xor8(a, b));
    Stored(a, e, WideXt(Xor8(a, b)));
    v := Xor(a, Xor(e, WideXt(Xor8(a, b)))) % 256;
  }

  /** The columns before byte j are done. */
  ghost predicate Columns(x: seq<u8>, was: seq<u8>, done: seq<u8>, j: nat)
    requires |x| == |was| == |done| == 16
  {
    forall i :: 0 <= i < 16 ==> x[i] == if i < j then done[i] else was[i]
  }

  lemma NextColumn(x: seq<u8>, y: seq<u8>, was: Block, done: Block, j: nat)
    requires |x| == 16 && j + 4 <= 16 && Columns(x, was, done, j)
    requires y == x[j := done[j]][j + 1 := done[j + 1]][j + 2 := done[j + 2]][j + 3 := done[j + 3]]
    ensures |y| == 16 && Columns(y, was, done, j + 4) && forall i :: j <= i < 16 ==> x[i] == was[i]
  {
  }

  lemma ColumnsEnds(x: Block, was: Block, done: Block)
    ensures Columns(was, was, done, 0) && (Columns(x, was, done, 16) ==> x == done)
  {
  }

  method MixColumn(x: array<u8>, j: nat)
    requires x.Length == 16 && j <= 12 && j % 4 == 0
    modifies x
    ensures var a, b, c, d := old(x[j]), old(x[j + 1]), old(x[j + 2]), old(x[j + 3]);
            x[..] == old(x[..])[j := MixByte(a, b, c, d)][j + 1 := MixByte(b, c, d, a)]
                               [j + 2 := MixByte(c, d, a, b)][j + 3 := MixByte(d, a, b, c)]
  {
    hide *;
    var a, b, c, d := x[j], x[j + 1], x[j + 2], x[j + 3];
    var e := Xor8(Xor8(Xor8(a, b), c), d);
    ColumnSum(a, b, c, d);
    MixForm(a, b, c, d); MixForm(b, c, d, a); MixForm(c, d, a, b); MixForm(d, a, b, c);
    x[j] := MixedByte(a, b, e);
    x[j + 1] := MixedByte(b, c, e);
    x[j + 2] := MixedByte(c, d, e);
    x[j + 3] := MixedByte(d, a, e);
  }

  method MixAll(x: array<u8>)
    requires x.Length == 16
    modifies x
    ensures x[..] == MixColumns(old(x[..]))
  {
    hide *;
    ghost var was: Block := x[..];
    ghost var done := MixColumns(was);
    ColumnsEnds(was, was, done);
    var j := 0;
    while j < 16
      invariant 0 <= j <= 16 && j % 4 == 0 && Columns(x[..], was, done, j)
    {
      ghost var before := x[..];
      ColumnOf(was, j);
      ColumnAhead(before, was, done, j);
      MixColumn(x, j);
      NextColumn(before, x[..], was, done, j);
      j := j + 4;
    }
    ColumnsEnds(x[..], was, done);
  }

  lemma ColumnAhead(x: seq<u8>, was: Block, done: Block, j: nat)
    requires |x| == 16 && j + 4 <= 16 && Columns(x, was, done, j)
    ensures x[j] == was[j] && x[j + 1] == was[j + 1] && x[j + 2] == was[j + 2] && x[j + 3] == was[j + 3]
  {
  }

  lemma ColumnOf(w: Block, j: nat)
    requires j < 16 && j % 4 == 0
    ensures var a, b, c, d := w[j], w[j + 1], w[j + 2], w[j + 3];
            && MixColumns(w)[j] == MixByte(a, b, c, d) && MixColumns(w)[j + 1] == MixByte(b, c, d, a)
            && MixColumns(w)[j + 2] == MixByte(c, d, a, b) && MixColumns(w)[j + 3] == MixByte(d, a, b, c)
            && UnmixColumns(w)[j] == UnmixByte(a, b, c, d) && UnmixColumns(w)[j + 1] == UnmixByte(b, c, d, a)
            && UnmixColumns(w)[j + 2] == UnmixByte(c, d, a, b) && UnmixColumns(w)[j + 3] == UnmixByte(d, a, b, c)
  {
    hide MixByte, UnmixByte;
    DownIs(w, j);
    DownIs(w, j + 1);
    DownIs(w, j + 2);
    DownIs(w, j + 3);
    hide Down;
  }

  lemma DownIs(w: Block, i: nat)
    requires i < 16
    ensures var j := i / 4 * 4;
            && (i == j ==>
                Down(w, i, 0) == w[j] && Down(w, i, 1) == w[j + 1] && Down(w, i, 2) == w[j + 2] &&
                Down(w, i, 3) == w[j + 3])
            && (i == j + 1 ==>
                Down(w, i, 0) == w[j + 1] && Down(w, i, 1) == w[j + 2] && Down(w, i, 2) == w[j + 3] &&
                Down(w, i, 3) == w[j])
            && (i == j + 2 ==>
                Down(w, i, 0) == w[j + 2] && Down(w, i, 1) == w[j + 3] && Down(w, i, 2) == w[j] &&
                Down(w, i, 3) == w[j + 1])
            && (i == j + 3 ==>
                Down(w, i, 0) == w[j + 3] && Down(w, i, 1) == w[j] && Down(w, i, 2) == w[j + 1] &&
                Down(w, i, 3) == w[j + 2])
  {
  }

  /** e + 4 (2 e + a + c), cut to a byte after the last doubling. */
  method Diagonal(a: u8, c: u8, e: u8, h: u8) returns (f: u8)
    requires h == Xt(e)
    ensures f == Xor8(e, Xt2(Xor3(h, a, c)))
  {
    hide Xor;
    var v := Xor8(Xor8(h, a), c);
    WideIs(v);
    WideIs(WideXt(v));
    Stored(0, e, WideXt(WideXt(v)));
    f := Xor(e, WideXt(WideXt(v))) % 256;
  }

  method UnmixedByte(a: u8, b: u8, f: u8) returns (v: u8)
    ensures v == Xor8(a, Xor8(f, Xt(Xor8(a, b))))
  {
    hide Xor;
    WideIs(Xor8(a, b));
    Stored(a, f, WideXt(Xor8(a, b)));
    v := Xor(a, Xor(f, WideXt(Xor8(a, b)))) % 256;
  }

  lemma DiagonalSame(h: u8, a: u8, c: u8)
    ensures Xor3(h, a, c) == Xor3(h, c, a)
  {
    hide Xor;
    XorAssociates(h, a, c);
    XorAssociates(h, c, a);
    XorCommutes(a, c);
  }

  method UnmixColumn(x: array<u8>, j: nat)
    requires x.Length == 16 && j <= 12 && j % 4 == 0
    modifies x
    ensures var a, b, c, d := old(x[j]), old(x[j + 1]), old(x[j + 2]), old(x[j + 3]);
            x[..] == old(x[..])[j := UnmixByte(a, b, c, d)][j + 1 := UnmixByte(b, c, d, a)]
                               [j + 2 := UnmixByte(c, d, a, b)][j + 3 := UnmixByte(d, a, b, c)]
  {
    hide UnmixByte, Xor8, Xt, Xt2, Xor3, Xor4;
    var a, b, c, d := x[j], x[j + 1], x[j + 2], x[j + 3];
    var e := Xor8(Xor8(Xor8(a, b), c), d);
    ColumnSum(a, b, c, d);
    UnmixForm(a, b, c, d); UnmixForm(b, c, d, a); UnmixForm(c, d, a, b); UnmixForm(d, a, b, c);
    var h := Xt(e);
    var f := Diagonal(a, c, e, h);
    var g := Diagonal(b, d, e, h);
    DiagonalSame(h, a, c);
    DiagonalSame(h, b, d);
    x[j] := UnmixedByte(a, b, f);
    x[j + 1] := UnmixedByte(b, c, g);
    x[j + 2] := UnmixedByte(c, d, f);
    x[j + 3] := UnmixedByte(d, a, g);
  }

  method UnmixAll(x: array<u8>)
    requires x.Length == 16
    modifies x
    ensures x[..] == UnmixColumns(old(x[..]))
  {
    hide *;
    ghost var was: Block := x[..];
    ghost var done := UnmixColumns(was);
    ColumnsEnds(was, was, done);
    var j := 0;
    while j < 16
      invariant 0 <= j <= 16 && j % 4 == 0 && Columns(x[..], was, done, j)
    {
      ghost var before := x[..];
      ColumnOf(was, j);
      ColumnAhead(before, was, done, j);
      UnmixColumn(x, j);
      NextColumn(before, x[..], was, done, j);
      j := j + 4;
    }
    ColumnsEnds(x[..], was, done);
  }

  // ---- the key window -------------------------------------------------------

  /** The first word takes the last one, turned and through the box. */
  method FirstWord(k: array<u8>, r: u8)
    requires k.Length == 32
    modifies k
    ensures k[0] == Xor8(old(k[0]), Xor8(Sub(old(k[29])), r)) && k[1] == Xor8(old(k[1]), Sub(old(k[30])))
    ensures k[2] == Xor8(old(k[2]), Sub(old(k[31]))) && k[3] == Xor8(old(k[3]), Sub(old(k[28])))
    ensures forall i :: 4 <= i < 32 ==> k[i] == old(k[i])
  {
    hide Sub, Xor8;
    k[0] := Xor8(k[0], Xor8(Sub(k[29]), r));
    k[1] := Xor8(k[1], Sub(k[30]));
    k[2] := Xor8(k[2], Sub(k[31]));
    k[3] := Xor8(k[3], Sub(k[28]));
  }

  /** A word takes the word before it. */
  method JoinWord(k: array<u8>, j: nat)
    requires k.Length == 32 && 4 <= j <= 28
    modifies k
    ensures forall i :: 0 <= i < 32 ==> k[i] == if j <= i < j + 4 then Xor8(old(k[i]), old(k[i - 4])) else old(k[i])
  {
    hide Xor8;
    k[j] := Xor8(k[j], k[j - 4]);
    k[j + 1] := Xor8(k[j + 1], k[j - 3]);
    k[j + 2] := Xor8(k[j + 2], k[j - 2]);
    k[j + 3] := Xor8(k[j + 3], k[j - 1]);
  }

  /** The fifth word takes the fourth, through the box. */
  method JoinBoxed(k: array<u8>)
    requires k.Length == 32
    modifies k
    ensures forall i :: 0 <= i < 32 ==> k[i] == if 16 <= i < 20 then Xor8(old(k[i]), Sub(old(k[i - 4]))) else old(k[i])
  {
    hide Sub, Xor8;
    k[16] := Xor8(k[16], Sub(k[12]));
    k[17] := Xor8(k[17], Sub(k[13]));
    k[18] := Xor8(k[18], Sub(k[14]));
    k[19] := Xor8(k[19], Sub(k[15]));
  }

  /** The first j bytes are those of the next window. */
  ghost predicate Ahead(k: seq<u8>, was: Key, r: u8, j: nat)
    requires |k| == 32
  {
    forall i :: 0 <= i < 32 ==> k[i] == if i < j then ExpandByte(was, r, i) else was[i]
  }

  /** A joined word is the next word of the window. */
  lemma AheadStep(k: seq<u8>, l: seq<u8>, was: Key, r: u8, j: nat)
    requires |k| == |l| == 32 && 4 <= j <= 28 && j % 4 == 0 && Ahead(k, was, r, j)
    requires forall i :: 0 <= i < 32 && !(j <= i < j + 4) ==> l[i] == k[i]
    requires forall i :: j <= i < j + 4 ==> l[i] == Xor8(k[i], if j == 16 then Sub(k[i - 4]) else k[i - 4])
    ensures Ahead(l, was, r, j + 4)
  {
    hide Sub, Xor8, ExpandByte;
    forall i | 0 <= i < 32 ensures l[i] == if i < j + 4 then ExpandByte(was, r, i) else was[i] {
      if j <= i < j + 4 {
        assert k[i - 4] == ExpandByte(was, r, i - 4);
        ExpandByteIs(was, r, i);
        assert 16 <= i < 20 <==> j == 16;
      } else {
        assert l[i] == k[i];
      }
    }
  }

  lemma ExpandByteIs(k: Key, r: u8, i: nat)
    requires 4 <= i < 32
    ensures ExpandByte(k, r, i) == Xor8(k[i], if 16 <= i < 20 then Sub(ExpandByte(k, r, i - 4))
            else ExpandByte(k, r, i - 4))
  {
    hide Sub, Xor8;
  }

  lemma AheadStarts(k: seq<u8>, was: Key, r: u8)
    requires |k| == 32
    requires k[0] == Xor8(was[0], Xor8(Sub(was[29]), r)) && k[1] == Xor8(was[1], Sub(was[30]))
    requires k[2] == Xor8(was[2], Sub(was[31])) && k[3] == Xor8(was[3], Sub(was[28]))
    requires forall i :: 4 <= i < 32 ==> k[i] == was[i]
    ensures Ahead(k, was, r, 4)
  {
    hide Sub, Xor8;
  }

  lemma AheadEnds(k: seq<u8>, was: Key, r: u8)
    requires |k| == 32 && Ahead(k, was, r, 32)
    ensures k == Expand(was, r)
  {
    hide ExpandByte;
  }

  method ExpandKey(k: array<u8>, r: u8)
    requires k.Length == 32
    modifies k
    ensures k[..] == Expand(old(k[..]), r)
  {
    hide *;
    ghost var was: Key := k[..];
    FirstWord(k, r);
    AheadStarts(k[..], was, r);
    var j := 4;
    while j < 16
      invariant 4 <= j <= 16 && j % 4 == 0 && Ahead(k[..], was, r, j)
    {
      ghost var before := k[..];
      JoinWord(k, j);
      AheadStep(before, k[..], was, r, j);
      j := j + 4;
    }
    ghost var half := k[..];
    JoinBoxed(k);
    AheadStep(half, k[..], was, r, 16);
    j := 20;
    while j < 32
      invariant 20 <= j <= 32 && j % 4 == 0 && Ahead(k[..], was, r, j)
    {
      ghost var before := k[..];
      JoinWord(k, j);
      AheadStep(before, k[..], was, r, j);
      j := j + 4;
    }
    AheadEnds(k[..], was, r);
  }

  /** The bytes from j up are those of the window before. */
  ghost predicate Behind(k: seq<u8>, was: Key, r: u8, j: nat)
    requires |k| == 32
  {
    forall i :: 0 <= i < 32 ==> k[i] == if i >= j then UnexpandByte(was, r, i) else was[i]
  }

  method UnexpandKey(k: array<u8>, ghost r: u8)
    requires k.Length == 32
    modifies k
    ensures Behind(k[..], old(k[..]), r, 4)
  {
    hide Sub, Xor8;
    ghost var was: Key := k[..];
    var j := 28;
    while j > 16
      invariant 16 <= j <= 28 && j % 4 == 0 && Behind(k[..], was, r, j + 4)
    {
      JoinWord(k, j);
      j := j - 4;
    }
    JoinBoxed(k);
    assert Behind(k[..], was, r, 16);
    j := 12;
    while j > 0
      invariant 0 <= j <= 12 && j % 4 == 0 && Behind(k[..], was, r, j + 4)
    {
      JoinWord(k, j);
      j := j - 4;
    }
  }

  /** Steps the window and the round constant back: the constant first, then the first word. */
  method StepBack(k: array<u8>, r: u8) returns (before: u8)
    requires k.Length == 32
    modifies k
    ensures before == XtBack(r) && k[..] == Unexpand(old(k[..]), before)
  {
    hide *;
    ghost var was: Key := k[..];
    UnexpandKey(k, XtBack(r));
    before := XtBack(r);
    ghost var late := k[..];
    FirstWord(k, before);
    BehindEnds(late, k[..], was, before);
  }

  lemma BehindEnds(late: seq<u8>, k: seq<u8>, was: Key, r: u8)
    requires |late| == |k| == 32 && Behind(late, was, r, 4)
    requires k[0] == Xor8(late[0], Xor8(Sub(late[29]), r)) && k[1] == Xor8(late[1], Sub(late[30]))
    requires k[2] == Xor8(late[2], Sub(late[31])) && k[3] == Xor8(late[3], Sub(late[28]))
    requires forall i :: 4 <= i < 32 ==> k[i] == late[i]
    ensures k == Unexpand(was, r)
  {
    hide Sub, Xor8, Unexpand, UnexpandByte;
    UnexpandIs(was, r);
    forall i | 0 <= i < 32 ensures k[i] == UnexpandByte(was, r, i) {
      if i < 4 {
        assert late[i] == was[i] && late[28 + (i + 1) % 4] == UnexpandByte(was, r, 28 + (i + 1) % 4);
        UnexpandFirst(was, r, i);
      } else {
        assert k[i] == late[i];
      }
    }
  }

  lemma UnexpandIs(k: Key, r: u8)
    ensures |Unexpand(k, r)| == 32 && forall i :: 0 <= i < 32 ==> Unexpand(k, r)[i] == UnexpandByte(k, r, i)
  {
    hide UnexpandByte;
  }

  lemma UnexpandFirst(k: Key, r: u8, j: nat)
    requires j < 4
    ensures var last := UnexpandByte(k, r, 28 + (j + 1) % 4);
            UnexpandByte(k, r, j) == Xor8(k[j], if j == 0 then Xor8(Sub(last), r) else Sub(last))
  {
    hide Sub, Xor8;
  }

  // ---- the block functions --------------------------------------------------

  method Encrypt(key: Key, x: array<u8>)
    requires x.Length == 16
    modifies x
    ensures x[..] == EncryptOf(key, old(x[..]))
  {
    hide *;
    ghost var block: Block := x[..];
    var k := new u8[32](i requires 0 <= i < 32 => key[i]);
    assert k[..] == key;
    var r := 1;
    var i := 0;
    EncryptStarts(key, block);
    while i < 14
      invariant 0 <= i <= 14 && x[..] == After(key, block, i)
      invariant k[..] == Schedule(key, i / 2) && r == RoundConstant(i / 2)
    {
      RoundIs(key, block, i);
      AddRoundKey(x, k, i % 2);
      SubAll(x);
      ShiftAll(x);
      if i < 13 { MixAll(x); }
      ScheduleIs(key, i / 2);
      if i % 2 != 0 {
        ExpandKey(k, r);
        r := Xt(r);
      }
      i := i + 1;
    }
    AddRoundKey(x, k, 0);
    EncryptIs(key, block);
  }

  lemma EncryptStarts(key: Key, x: Block)
    ensures After(key, x, 0) == x && Schedule(key, 0) == key && RoundConstant(0) == 1
  {
  }

  lemma RoundIs(key: Key, x: Block, i: nat)
    requires i < 14
    ensures var y := ShiftRows(SubBytes(AddKey(After(key, x, i), Schedule(key, i / 2), i % 2)));
            After(key, x, i + 1) == if i < 13 then MixColumns(y) else y
  {
    hide ShiftRows, SubBytes, AddKey, Schedule, MixColumns;
  }

  lemma ScheduleIs(key: Key, m: nat)
    ensures Schedule(key, m + 1) == Expand(Schedule(key, m), RoundConstant(m)) &&
            RoundConstant(m + 1) == Xt(RoundConstant(m))
  {
    hide Expand, Xt;
  }

  lemma EncryptIs(key: Key, x: Block)
    ensures EncryptOf(key, x) == AddKey(After(key, x, 14), Schedule(key, 7), 0)
  {
    hide AddKey, After, Schedule;
  }

  method Decrypt(key: Key, x: array<u8>)
    requires x.Length == 16
    modifies x
    ensures x[..] == DecryptOf(key, old(x[..]))
  {
    hide *;
    ghost var block: Block := x[..];
    var k := new u8[32](i requires 0 <= i < 32 => key[i]);
    assert k[..] == key;
    var r := 1;
    var i := 0;
    EncryptStarts(key, block);
    while i < 7
      invariant 0 <= i <= 7 && k[..] == Schedule(key, i) && r == RoundConstant(i) && x[..] == block
    {
      ScheduleIs(key, i);
      ExpandKey(k, r);
      r := Xt(r);
      i := i + 1;
    }
    i := 0;
    DecryptStarts(key, block);
    while i < 14
      invariant 0 <= i <= 14 && x[..] == Back(key, block, i)
      invariant k[..] == Schedule(key, WindowAt(i)) && r == RoundConstant(WindowAt(i))
    {
      BackRoundIs(key, block, i);
      AddRoundKey(x, k, i % 2);
      if i > 0 { UnmixAll(x); }
      UnshiftAll(x);
      UnsubAll(x);
      WindowBack(key, i);
      if i % 2 == 0 { r := StepBack(k, r); }
      i := i + 1;
    }
    AddRoundKey(x, k, 0);
    DecryptIs(key, block);
  }

  lemma DecryptStarts(key: Key, x: Block)
    ensures Back(key, x, 0) == x && WindowAt(0) == 7 && ROUNDS == 14
  {
  }

  lemma BackRoundIs(key: Key, x: Block, i: nat)
    requires i < 14
    ensures var y := AddKey(Back(key, x, i), Schedule(key, WindowAt(i)), i % 2);
            Back(key, x, i + 1) == UnsubBytes(UnshiftRows(if i > 0 then UnmixColumns(y) else y))
  {
    hide UnshiftRows, UnsubBytes, AddKey, Schedule, UnmixColumns;
  }

  /** On an even round the window steps back by one; on an odd one it stays. */
  lemma WindowBack(key: Key, i: nat)
    requires i < 14
    ensures var k, r := Schedule(key, WindowAt(i)), RoundConstant(WindowAt(i));
            if i % 2 != 0 then WindowAt(i + 1) == WindowAt(i) else
            XtBack(r) == RoundConstant(WindowAt(i + 1)) && Unexpand(k, XtBack(r)) == Schedule(key, WindowAt(i + 1))
  {
    hide Expand, Unexpand, Xt, XtBack, Schedule, RoundConstant;
    if i % 2 == 0 {
      var m := WindowAt(i + 1);
      assert WindowAt(i) == m + 1;
      ScheduleIs(key, m);
      XtBackInverts(RoundConstant(m));
      UnexpandExpand(Schedule(key, m), RoundConstant(m));
    }
  }

  lemma DecryptIs(key: Key, x: Block)
    ensures DecryptOf(key, x) == AddKey(Back(key, x, 14), Schedule(key, WindowAt(14)), 0)
  {
    hide AddKey, Back, Schedule;
  }
}
