/** Golomb-coded sets. */
module GcsCoding {
  // Section "Golomb-Coded Sets" of BIP 158: the bit stream and its coding.

  import opened FixedWidth
  import opened Arithmetic
  import opened LittleEndian
  import opened Options
  import opened Sorting

  const MAX_ENCODED_SIZE: nat := 100 * 1024

  /** Bit k of a byte string, the highest bit of each byte first. */
  function BitOf(b: bytes, k: nat): (bit: nat)
    requires k / 8 < |b|
    ensures bit <= 1
  {
    b[k / 8] / Pow2(7 - k % 8) % 2
  }

  /** The n bits from pos, read as a number. */
  ghost function BitsValue(b: bytes, pos: nat, n: nat): nat
    requires pos + n <= 8 * |b|
  {
    if n == 0 then 0 else 2 * BitsValue(b, pos, n - 1) + BitOf(b, pos + n - 1)
  }

  /** The ones from pos up to the first zero, or the end. */
  ghost function Ones(b: bytes, pos: nat): (n: nat)
    requires pos <= 8 * |b|
    ensures pos + n <= 8 * |b|
    decreases 8 * |b| - pos
  {
    if pos == 8 * |b| || BitOf(b, pos) == 0 then 0 else 1 + Ones(b, pos + 1)
  }

  /** A decoded number and the position after it. */
  datatype Delta = Delta(v: nat, next: nat)

  /** A unary quotient, a zero, then p bits of remainder; none when the stream ends first. */
  ghost function DeltaAt(b: bytes, pos: nat, p: nat): (d: Option<Delta>)
    requires pos <= 8 * |b|
    ensures d.Some? ==> pos < d.value.next <= 8 * |b|
  {
    var q := Ones(b, pos);
    if pos + q + 1 + p > 8 * |b| then None
    else Some(Delta(q * Pow2(p) + BitsValue(b, pos + q + 1, p), pos + q + 1 + p))
  }

  function Last(values: seq<nat>): nat { if values == [] then 0 else values[|values| - 1] }

  datatype Decoded = Decoded(values: seq<nat>, end: nat)

  /** The running sums of n coded deltas; none when the stream ends or a sum reaches f. */
  ghost function ValuesAt(b: bytes, pos: nat, p: nat, f: nat, n: nat): (d: Option<Decoded>)
    requires pos <= 8 * |b|
    ensures d.Some? ==> |d.value.values| == n && pos + n <= d.value.end <= 8 * |b|
  {
    if n == 0 then Some(Decoded([], pos)) else
    var before := ValuesAt(b, pos, p, f, n - 1);
    if before.None? then None else
    var x := DeltaAt(b, before.value.end, p);
    if x.None? || Last(before.value.values) + x.value.v >= f then None
    else Some(Decoded(before.value.values + [Last(before.value.values) + x.value.v], x.value.next))
  }

  lemma {:induction false} ValuesFail(b: bytes, pos: nat, p: nat, f: nat, k: nat, n: nat)
    requires pos <= 8 * |b| && k <= n && ValuesAt(b, pos, p, f, k).None?
    ensures ValuesAt(b, pos, p, f, n).None?
    decreases n
  {
    if k < n { ValuesFail(b, pos, p, f, k, n - 1); }
  }

  /** Decoded values never decrease and stay below the bound. */
  lemma {:induction false} ValuesAscend(b: bytes, pos: nat, p: nat, f: nat, n: nat)
    requires pos <= 8 * |b| && ValuesAt(b, pos, p, f, n).Some?
    ensures var vs := ValuesAt(b, pos, p, f, n).value.values;
            Ascending(vs) && AllBelow(vs, f)
    decreases n
  {
    if n > 0 {
      ValuesAscend(b, pos, p, f, n - 1);
      hide DeltaAt;
    }
  }

  ghost predicate AllBelow(vs: seq<int>, f: int) { forall i :: 0 <= i < |vs| ==> vs[i] < f }

  lemma LastStep(vs: seq<nat>, f: int)
    requires vs != [] && Ascending(vs) && AllBelow(vs, f)
    ensures var n := |vs| - 1;
            Ascending(vs[..n]) && AllBelow(vs[..n], f) && Last(vs[..n]) <= vs[n] < f && vs == vs[..n] + [vs[n]]
  {
  }

  // ---- encoding -------------------------------------------------------------

  /** The n low bits of v, highest first. */
  ghost function LowBits(v: nat, n: nat): (r: seq<nat>)
    ensures |r| == n
  {
    if n == 0 then [] else LowBits(v / 2, n - 1) + [v % 2]
  }

  ghost function Unary(q: nat): (r: seq<nat>)
    ensures |r| == q + 1
  {
    if q == 0 then [0] else [1] + Unary(q - 1)
  }

  ghost function DeltaBits(v: nat, p: nat): (r: seq<nat>)
    ensures |r| > p
  {
    Unary(v / Pow2(p)) + LowBits(v % Pow2(p), p)
  }

  /** The coding of an ascending list: each value as its distance from the one before. */
  ghost function ValueBits(vs: seq<nat>, p: nat): seq<nat>
    requires Ascending(vs)
  {
    if vs == [] then [] else
    var n := |vs| - 1;
    ValueBits(vs[..n], p) + DeltaBits(vs[n] - Last(vs[..n]), p)
  }

  /** These bits lie in the stream at pos. */
  ghost predicate BitsAt(b: bytes, pos: nat, bits: seq<nat>) {
    pos + |bits| <= 8 * |b| && forall i :: pos <= i < pos + |bits| ==> BitOf(b, i) == bits[i - pos]
  }

  lemma BitsSplit(b: bytes, pos: nat, x: seq<nat>, y: seq<nat>)
    requires BitsAt(b, pos, x + y)
    ensures BitsAt(b, pos, x) && BitsAt(b, pos + |x|, y)
  {
    hide BitOf;
    forall i | pos <= i < pos + |x| ensures BitOf(b, i) == x[i - pos] { assert (x + y)[i - pos] == x[i - pos]; }
    forall i | pos + |x| <= i < pos + |x| + |y| ensures BitOf(b, i) == y[i - pos - |x|] {
      assert (x + y)[i - pos] == y[i - pos - |x|];
    }
  }

  lemma {:induction false} LowBitsRead(b: bytes, pos: nat, v: nat, n: nat)
    requires BitsAt(b, pos, LowBits(v, n)) && v < Pow2(n)
    ensures BitsValue(b, pos, n) == v
    decreases n
  {
    if n > 0 {
      BitsSplit(b, pos, LowBits(v / 2, n - 1), [v % 2]);
      LowBitsRead(b, pos, v / 2, n - 1);
      assert [v % 2][0] == v % 2;
    } else {
      Pow2Values();
    }
  }

  lemma {:induction false} UnaryRead(b: bytes, pos: nat, q: nat)
    requires BitsAt(b, pos, Unary(q))
    ensures Ones(b, pos) == q
    decreases q
  {
    assert BitOf(b, pos) == Unary(q)[0];
    if q > 0 {
      BitsSplit(b, pos, [1], Unary(q - 1));
      UnaryRead(b, pos + 1, q - 1);
    }
  }

  lemma DeltaRead(b: bytes, pos: nat, v: nat, p: nat)
    requires BitsAt(b, pos, DeltaBits(v, p))
    ensures DeltaAt(b, pos, p) == Some(Delta(v, pos + |DeltaBits(v, p)|))
  {
    hide BitsAt, Ones, BitsValue, Unary, LowBits;
    var q, r := v / Pow2(p), v % Pow2(p);
    BitsSplit(b, pos, Unary(q), LowBits(r, p));
    UnaryRead(b, pos, q);
    LowBitsRead(b, pos + q + 1, r, p);
    BitsInside(b, pos + q + 1, LowBits(r, p));
    DeltaDef(b, pos, p, q, r);
    assert v == Pow2(p) * q + r;
  }

  lemma BitsInside(b: bytes, pos: nat, bits: seq<nat>)
    requires BitsAt(b, pos, bits)
    ensures pos + |bits| <= 8 * |b|
  {
  }

  lemma DeltaDef(b: bytes, pos: nat, p: nat, q: nat, r: nat)
    requires pos <= 8 * |b| && q == Ones(b, pos) && pos + q + 1 + p <= 8 * |b| && r == BitsValue(b, pos + q + 1, p)
    ensures DeltaAt(b, pos, p) == Some(Delta(Pow2(p) * q + r, pos + q + 1 + p))
  {
    hide Ones, BitsValue, Pow2;
  }

  lemma ValuesStep(b: bytes, pos: nat, p: nat, f: nat, before: Decoded, x: Delta)
    requires pos <= 8 * |b| && ValuesAt(b, pos, p, f, |before.values|) == Some(before)
    requires before.end <= 8 * |b| && DeltaAt(b, before.end, p) == Some(x) && Last(before.values) + x.v < f
    ensures ValuesAt(b, pos, p, f, |before.values| + 1) ==
            Some(Decoded(before.values + [Last(before.values) + x.v], x.next))
  {
    hide DeltaAt;
  }

  /** Decoding the coding of an ascending list below f gives the list, and uses exactly its bits. */
  lemma {:induction false} ValuesRead(b: bytes, pos: nat, vs: seq<nat>, p: nat, f: nat)
    requires Ascending(vs) && AllBelow(vs, f) && BitsAt(b, pos, ValueBits(vs, p))
    ensures pos <= 8 * |b| && ValuesAt(b, pos, p, f, |vs|) == Some(Decoded(vs, pos + |ValueBits(vs, p)|))
    decreases |vs|
  {
    hide *;
    BitsInside(b, pos, ValueBits(vs, p));
    if vs == [] {
      NoValues(b, pos, p, f);
    } else {
      var n := |vs| - 1;
      LastStep(vs, f);
      ValueBitsSnoc(vs, p);
      var v := vs[n] - Last(vs[..n]);
      var x, y := ValueBits(vs[..n], p), DeltaBits(v, p);
      BitsSplit(b, pos, x, y);
      ValuesRead(b, pos, vs[..n], p, f);
      DeltaRead(b, pos + |x|, v, p);
      BitsInside(b, pos, x);
      ValuesStep(b, pos, p, f, Decoded(vs[..n], pos + |x|), Delta(v, pos + |x| + |y|));
    }
  }

  lemma NoValues(b: bytes, pos: nat, p: nat, f: nat)
    requires pos <= 8 * |b|
    ensures ValuesAt(b, pos, p, f, 0) == Some(Decoded([], pos)) && ValueBits([], p) == []
  {
  }

  lemma ValueBitsSnoc(vs: seq<nat>, p: nat)
    requires vs != [] && Ascending(vs)
    ensures var n := |vs| - 1;
            Last(vs[..n]) <= vs[n] && Ascending(vs[..n]) &&
            ValueBits(vs, p) == ValueBits(vs[..n], p) + DeltaBits(vs[n] - Last(vs[..n]), p)
  {
    hide DeltaBits;
  }

  // ---- packing --------------------------------------------------------------

  ghost function BitAt(bits: seq<nat>, k: nat): (bit: nat)
    ensures bit <= 1
  {
    if k < |bits| && bits[k] != 0 then 1 else 0
  }

  /** The m bits from at, highest first; zeros past the end. */
  ghost function HighBits(bits: seq<nat>, at: nat, m: nat): nat {
    if m == 0 then 0 else 2 * HighBits(bits, at, m - 1) + BitAt(bits, at + (m - 1))
  }

  lemma {:induction false} HighBitsHold(bits: seq<nat>, at: nat, m: nat, k: nat)
    ensures HighBits(bits, at, m) < Pow2(m)
    ensures k < m ==> HighBits(bits, at, m) / Pow2(m - 1 - k) % 2 == BitAt(bits, at + k)
    decreases m
  {
    Pow2Values();
    if m > 0 {
      HighBitsHold(bits, at, m - 1, k);
      var h, x := HighBits(bits, at, m - 1), BitAt(bits, at + (m - 1));
      assert Pow2(m) == 2 * Pow2(m - 1);
      if k < m - 1 {
        assert Pow2(m - 1 - k) == 2 * Pow2(m - 2 - k);
        hide Pow2, HighBits, BitAt;
        DivByProduct(2 * h + x, 2, Pow2(m - 2 - k));
        DivUnique(2 * h + x, 2, h, x);
      }
    }
  }

  ghost function Pack(bits: seq<nat>): (b: bytes)
    ensures |b| == (|bits| + 7) / 8
  {
    seq((|bits| + 7) / 8, j requires 0 <= j => ByteOf(bits, 8 * j))
  }

  ghost function ByteOf(bits: seq<nat>, at: nat): u8 {
    HighBitsHold(bits, at, 8, 0);
    Pow2Values();
    HighBits(bits, at, 8)
  }

  /** Packed bits, after any bytes, are the bits they were. */
  lemma PackHolds(pre: bytes, bits: seq<nat>)
    requires forall i :: 0 <= i < |bits| ==> bits[i] <= 1
    ensures BitsAt(pre + Pack(bits), 8 * |pre|, bits)
  {
    var b := pre + Pack(bits);
    forall i | 8 * |pre| <= i < 8 * |pre| + |bits| ensures BitOf(b, i) == bits[i - 8 * |pre|] {
      var k := i - 8 * |pre|;
      assert i / 8 == |pre| + k / 8 && i % 8 == k % 8;
      HighBitsHold(bits, 8 * (k / 8), 8, k % 8);
    }
  }

  lemma {:induction false} ValueBitsAreBits(vs: seq<nat>, p: nat)
    requires Ascending(vs)
    ensures forall i :: 0 <= i < |ValueBits(vs, p)| ==> ValueBits(vs, p)[i] <= 1
    decreases |vs|
  {
    if vs != [] {
      var n := |vs| - 1;
      ValueBitsAreBits(vs[..n], p);
      var v := vs[n] - Last(vs[..n]);
      UnaryBits(v / Pow2(p));
      LowBitsBits(v % Pow2(p), p);
    }
  }

  lemma {:induction false} UnaryBits(q: nat)
    ensures forall i :: 0 <= i < |Unary(q)| ==> Unary(q)[i] <= 1
    decreases q
  {
    if q > 0 { UnaryBits(q - 1); }
  }

  lemma {:induction false} LowBitsBits(v: nat, n: nat)
    ensures forall i :: 0 <= i < n ==> LowBits(v, n)[i] <= 1
    decreases n
  {
    if n > 0 { LowBitsBits(v / 2, n - 1); }
  }
}
