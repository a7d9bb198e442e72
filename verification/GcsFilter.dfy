/** Compact filters. */
module GcsFilter {
  // BIP 158: parsing an encoded set, and asking it for elements.

  import opened FixedWidth
  import opened Arithmetic
  import opened LittleEndian
  import opened Options
  import opened Sorting
  import opened GcsCoding

  /** The element hash, keyed by two words. */
  type ElementHash = (u64, u64, bytes) -> u64

  datatype Filter = Filter(p: u8, m: u32, k0: u64, k1: u64, n: u32, f: nat, encoded: bytes, values: seq<nat>)

  // ---- the range map --------------------------------------------------------

  const HALF: nat := 0x1_0000_0000

  lemma HalfProducts(h: nat, l: nat, top: nat, low: nat)
    requires h < HALF && l < HALF && top < HALF && low < HALF
    ensures l * low < HALF * HALF && l * top < HALF * HALF && h * low < HALF * HALF && h * top < HALF * HALF
    ensures (HALF * h + l) * (HALF * top + low) == HALF * HALF * (h * top) + HALF * (l * top + h * low) + l * low
  {
    MulBelow(l, low); MulBelow(l, top); MulBelow(h, low); MulBelow(h, top);
    assert (HALF * h) * (HALF * top) == HALF * HALF * (h * top);
    assert (HALF * h) * low == HALF * (h * low);
    assert l * (HALF * top) == HALF * (l * top);
  }

  lemma MulBelow(x: nat, y: nat)
    requires x < HALF && y < HALF
    ensures x * y <= (HALF - 1) * (HALF - 1)
  {
    MulMonotone(x, HALF - 1, y);
    MulMonotoneInt(y, HALF - 1, HALF - 1);
  }

  /** The high word of a product by halves; no partial sum overflows 64 bits. */
  function FastRange64(hash: u64, f: u64): (r: u64)
    ensures r == hash * f / (HALF * HALF)
    ensures f > 0 ==> r < f
  {
    var h: nat, l: nat := hash / HALF, hash % HALF;
    var top: nat, low: nat := f / HALF, f % HALF;
    HalfProducts(h, l, top, low);
    var ll: u64, lh: u64, hl: u64, hh: u64 := l * low, l * top, h * low, h * top;
    var mid: u64 := ll / HALF + lh % HALF + hl % HALF;
    HighWord(hash, f, ll, lh, hl, hh);
    var r: u64 := hh + lh / HALF + hl / HALF + mid / HALF;
    r
  }

  lemma HighWord(hash: u64, f: u64, ll: u64, lh: u64, hl: u64, hh: u64)
    requires hash * f == HALF * HALF * hh + HALF * (lh + hl) + ll
    ensures var mid := ll / HALF + lh % HALF + hl % HALF;
            && 0 <= mid < HALF * HALF
            && hh + lh / HALF + hl / HALF + mid / HALF == hash * f / (HALF * HALF)
    ensures 0 <= hash * f / (HALF * HALF) < HALF * HALF && (f > 0 ==> hash * f / (HALF * HALF) < f)
  {
    var mid := ll / HALF + lh % HALF + hl % HALF;
    var rest := HALF * (mid % HALF) + ll % HALF;
    DivUnique(hash * f, HALF * HALF, hh + lh / HALF + hl / HALF + mid / HALF, rest);
    var x: nat, y: nat := hash, f;
    MulMonotone(x + 1, HALF * HALF, y);
    assert (x + 1) * y == x * y + y;
    if y > 0 {
      DivBound(x * y, HALF * HALF, y);
    }
  }

  // ---- element counts -------------------------------------------------------

  datatype Compact = Compact(value: nat, used: nat)

  /** A compact size at the start of a buffer. */
  function CompactSize(b: bytes): (c: Option<Compact>)
    ensures c.Some? ==> 0 < c.value.used <= |b|
  {
    if b == [] then None
    else if b[0] == 0xfd then
      if |b| < 3 then None else Some(Compact(b[1] as int + 0x100 * (b[2] as int), 3))
    else if b[0] == 0xfe then
      if |b| < 5 then None else Some(Compact(GetU32(b, 1), 5))
    else if b[0] == 0xff then
      if |b| < 9 then None else Some(Compact(GetU32(b, 1) as int + 0x1_0000_0000 * (GetU32(b, 5) as int), 9))
    else Some(Compact(b[0], 1))
  }

  ghost function PutCompact(n: u32): bytes {
    if n < 0xfd then [n]
    else if n <= 0xffff then [0xfd, n % 0x100, n / 0x100]
    else [0xfe] + PutU32(n)
  }

  lemma CompactReads(n: u32, post: bytes)
    ensures CompactSize(PutCompact(n) + post) == Some(Compact(n, |PutCompact(n)|))
  {
    var b := PutCompact(n) + post;
    if n > 0xffff {
      assert b == [0xfe] + PutU32(n) + post;
      GetPutU32([0xfe], n, post);
    }
  }

  // ---- parsing --------------------------------------------------------------

  /** The filter of n values coded after the count, when they are all there and nothing else is. */
  ghost function ParseValues(b: bytes, k0: u64, k1: u64, p: u8, m: u32, n: u32, cursor: nat): Option<Filter>
    requires cursor <= |b|
  {
    RangeNonNegative(n, m);
    var d := ValuesAt(b, 8 * cursor, p, n * m, n);
    if d.None? || d.value.end / 8 + 1 < |b| then None
    else Some(Filter(p, m, k0, k1, n, n * m, b, d.value.values))
  }

  lemma RangeNonNegative(n: nat, m: nat)
    ensures n * m >= 0
  {
  }

  /** Everything a filter's bytes must meet, and the filter they give. */
  ghost function ParseOf(b: bytes, k0: u64, k1: u64, p: u8, m: u32): Option<Filter> {
    if |b| > MAX_ENCODED_SIZE || p == 0 || p > 32 || m == 0 || CompactSize(b).None? then None else
    var n, cursor := CompactSize(b).value.value, CompactSize(b).value.used;
    if n > U32_MAX then None
    else if n == 0 then Some(Filter(p, m, k0, k1, 0, 0, b, []))
    else if n > (|b| - cursor) * 8 then None
    else ParseValues(b, k0, k1, p, m, n, cursor)
  }

  /** The values of a parsed filter are as many as it says, never decrease, and lie below n * m. */
  lemma ParsedAscends(b: bytes, k0: u64, k1: u64, p: u8, m: u32)
    requires ParseOf(b, k0, k1, p, m).Some?
    ensures var g := ParseOf(b, k0, k1, p, m).value;
            && g.f == g.n * g.m && |g.values| == g.n && Ascending(g.values) && AllBelow(g.values, g.f)
  {
    hide ValuesAt;
    var n, cursor := CompactSize(b).value.value, CompactSize(b).value.used;
    if n > 0 { ValuesAscend(b, 8 * cursor, p, n * m, n); }
  }

  class BitReader {
    const data: bytes
    var bytePos: nat
    var bitPos: nat

    ghost predicate Valid()
      reads this
    {
      bytePos <= |data| && bitPos < 8 && (bytePos == |data| ==> bitPos == 0)
    }

    ghost function Pos(): (pos: nat)
      requires Valid()
      reads this
      ensures pos <= 8 * |data|
    {
      8 * bytePos + bitPos
    }

    constructor (data: bytes, startByte: nat)
      requires startByte <= |data|
      ensures Valid() && this.data == data && Pos() == 8 * startByte
    {
      this.data, bytePos, bitPos := data, startByte, 0;
    }

    /** The bit under the cursor, which moves past it. */
    method NextBit() returns (bit: nat)
      requires Valid() && bytePos < |data|
      modifies this
      ensures Valid() && Pos() == old(Pos()) + 1 && bit == BitOf(data, old(Pos()))
    {
      bit := data[bytePos] / Pow2(7 - bitPos) % 2;
      BitHere(data, bytePos, bitPos);
      bitPos := bitPos + 1;
      if bitPos >= 8 { bitPos, bytePos := 0, bytePos + 1; }
    }

    /** The next bits as a number, or none when fewer are left. */
    method Read(nbits: u8) returns (out: Option<u64>)
      requires Valid() && nbits <= 64
      modifies this
      ensures Valid()
      ensures out.Some? <==> old(Pos()) + nbits <= 8 * |data|
      ensures out.Some? ==> out.value == BitsValue(data, old(Pos()), nbits) && Pos() == old(Pos()) + nbits
    {
      var v: u64 := 0;
      var i := 0;
      ghost var start := Pos();
      assert BitsValue(data, start, 0) == 0;
      hide BitOf, BitsValue;
      while i < nbits
        invariant i <= nbits && Valid() && Pos() == start + i && v == BitsValue(data, start, i)
      {
        if bytePos >= |data| { return None; }
        BitAppends(data, start, i);
        var bit := NextBit();
        v := v * 2 + bit;
        i := i + 1;
      }
      return Some(v);
    }

    /** The ones before the next zero; none when the stream ends first. */
    method Quotient() returns (quotient: Option<nat>)
      requires Valid() && |data| <= MAX_ENCODED_SIZE
      modifies this
      ensures Valid()
      ensures quotient.Some? <==> old(Pos()) + Ones(data, old(Pos())) + 1 <= 8 * |data|
      ensures quotient.Some? ==> quotient.value == Ones(data, old(Pos())) && Pos() == old(Pos()) + quotient.value + 1
    {
      var q := 0;
      ghost var start := Pos();
      hide BitsValue, Ones, BitOf, Pow2;
      while true
        invariant Valid() && Pos() == start + q && Ones(data, start) == q + Ones(data, start + q)
        decreases 8 * |data| - q
      {
        OnesHere(data, start + q);
        var bit := Read(1);
        if bit.None? { return None; }
        if bit.value == 0 { return Some(q); }
        q := q + 1;
        if q > 0x1_0000_0000 { return None; }
      }
    }

    /** One Golomb-Rice number: a unary quotient, then p bits of remainder. */
    method Decode(p: u8) returns (out: Option<u64>)
      requires Valid() && 0 < p <= 32 && |data| <= MAX_ENCODED_SIZE
      modifies this
      ensures Valid()
      ensures out.Some? <==> DeltaAt(data, old(Pos()), p).Some?
      ensures out.Some? ==> DeltaAt(data, old(Pos()), p) == Some(Delta(out.value, Pos()))
    {
      ghost var start := Pos();
      hide BitsValue, Ones, DeltaAt, Pow2;
      DeltaNone(data, start, p);
      var quotient := Quotient();
      if quotient.None? { return None; }
      var q := quotient.value;
      var r := Read(p);
      if r.None? { return None; }
      DeltaDef(data, start, p, q, r.value);
      DeltaBound(data, start + q + 1, p, q);
      out := Some(q * Pow2(p) + r.value);
    }
  }

  lemma BitHere(b: bytes, bytePos: nat, bitPos: nat)
    requires bytePos < |b| && bitPos < 8
    ensures BitOf(b, 8 * bytePos + bitPos) == b[bytePos] / Pow2(7 - bitPos) % 2
  {
    DivUnique(8 * bytePos + bitPos, 8, bytePos, bitPos);
  }

  lemma SixtyFour()
    ensures Pow2(64) == 0x1_0000_0000_0000_0000
  {
    Pow2Values();
    Pow2Add(32, 32);
  }

  lemma {:induction false} BitsBound(b: bytes, pos: nat, n: nat)
    requires pos + n <= 8 * |b|
    ensures BitsValue(b, pos, n) < Pow2(n)
    decreases n
  {
    if n > 0 { BitsBound(b, pos, n - 1); } else { Pow2Values(); }
  }

  /** The next bit ends a run of ones, or extends it. */
  lemma OnesHere(b: bytes, pos: nat)
    requires pos <= 8 * |b|
    ensures pos == 8 * |b| ==> Ones(b, pos) == 0
    ensures pos < 8 * |b| ==>
              Ones(b, pos) == (if BitsValue(b, pos, 1) == 0 then 0 else 1 + Ones(b, pos + 1)) &&
                  BitsValue(b, pos, 1) <= 1
  {
    if pos < 8 * |b| { assert BitsValue(b, pos, 1) == 2 * BitsValue(b, pos, 0) + BitOf(b, pos); }
  }

  lemma DeltaNone(b: bytes, pos: nat, p: nat)
    requires pos <= 8 * |b|
    ensures DeltaAt(b, pos, p).None? <==> pos + Ones(b, pos) + 1 + p > 8 * |b|
  {
  }

  lemma BitAppends(b: bytes, pos: nat, n: nat)
    requires n < 64 && pos + n < 8 * |b|
    ensures BitsValue(b, pos, n + 1) == 2 * BitsValue(b, pos, n) + BitOf(b, pos + n) < 0x1_0000_0000_0000_0000
  {
    BitsBound(b, pos, n + 1);
    Pow2Grows(n + 1, 64);
    SixtyFour();
  }

  /** A quotient has at most one bit for each of the stream's, so no shifted sum overflows. */
  lemma DeltaBound(b: bytes, pos: nat, p: nat, q: nat)
    requires p <= 32 && pos + p <= 8 * |b| && q <= 8 * MAX_ENCODED_SIZE
    ensures 0 <= q * Pow2(p) + BitsValue(b, pos, p) < 0x10_0000_0000_0000
    ensures q * Pow2(p) == Pow2(p) * q
  {
    hide Pow2, BitsValue, BitOf;
    BitsBound(b, pos, p);
    Pow2Grows(p, 32);
    Pow2Values();
    MulMonotoneInt(Pow2(p), 0x1_0000_0000, q);
  }

  /** What is decoded so far, and the position after it. */
  ghost predicate Partial(b: bytes, start: nat, p: nat, f: nat, values: seq<nat>, pos: nat) {
    start <= 8 * |b| && ValuesAt(b, start, p, f, |values|) == Some(Decoded(values, pos))
  }

  /** The next running sum, or none when the stream ends or the sum reaches f; then the whole decode fails. */
  method NextValue(br: BitReader, p: u8, f: u64, running: u64, ghost n: nat, ghost start: nat, ghost values: seq<nat>)
    returns (sum: Option<u64>)
    requires br.Valid() && 0 < p <= 32 && |br.data| <= MAX_ENCODED_SIZE && f < 0x10_0000_0000_0000 && |values| < n
    requires running == Last(values) < 0x10_0000_0000_0000 && Partial(br.data, start, p, f, values, br.Pos())
    modifies br
    ensures br.Valid()
    ensures sum.None? ==> ValuesAt(br.data, start, p, f, n).None?
    ensures sum.Some? ==> sum.value < f && Partial(br.data, start, p, f, values + [sum.value], br.Pos())
  {
    ValuesNext(br.data, start, p, f, n, Decoded(values, br.Pos()));
    hide ValuesAt, DeltaAt, BitOf, Pow2;
    var delta := br.Decode(p);
    if delta.None? { return None; }
    sum := Some(running + delta.value);
    if sum.value >= f { return None; }
  }

  /** Decodes every value into a new array, or refuses; with the count inside the stream's bits, no sum overflows. */
  method DecodeValues(br: BitReader, p: u8, f: u64, n: u32) returns (values: Option<seq<u64>>)
    requires br.Valid() && 0 < p <= 32 && |br.data| <= MAX_ENCODED_SIZE && f < 0x10_0000_0000_0000
    modifies br
    ensures br.Valid()
    ensures values.Some? <==> ValuesAt(br.data, old(br.Pos()), p, f, n).Some?
    ensures values.Some? ==> ValuesAt(br.data, old(br.Pos()), p, f, n) == Some(Decoded(values.value, br.Pos()))
  {
    var a := new u64[n];
    var running: u64 := 0;
    ghost var start := br.Pos();
    NoValues(br.data, start, p, f);
    assert a[..0] == [];
    assert Partial(br.data, start, p, f, a[..0], br.Pos());
    var i := 0;
    hide ValuesAt, Partial;
    while i < n
      invariant i <= n && br.Valid() && running == Last(a[..i]) < 0x10_0000_0000_0000
      invariant Partial(br.data, start, p, f, a[..i], br.Pos())
    {
      ghost var before := a[..i];
      var sum := NextValue(br, p, f, running, n, start, before);
      if sum.None? { return None; }
      running := sum.value;
      a[i] := running;
      i := i + 1;
      assert a[..i] == before + [running];
    }
    assert a[..n] == a[..];
    values := Some(a[..]);
    PartialDef(br.data, start, p, f, a[..], br.Pos());
  }

  lemma PartialDef(b: bytes, start: nat, p: nat, f: nat, values: seq<nat>, pos: nat)
    requires Partial(b, start, p, f, values, pos)
    ensures start <= 8 * |b| && ValuesAt(b, start, p, f, |values|) == Some(Decoded(values, pos))
  {
  }

  /** One more value: the whole decode fails here, or the next delta extends what was decoded. */
  lemma ValuesNext(b: bytes, pos: nat, p: nat, f: nat, n: nat, before: Decoded)
    requires pos <= 8 * |b| && |b| <= MAX_ENCODED_SIZE && p <= 32 && |before.values| < n
    requires ValuesAt(b, pos, p, f, |before.values|) == Some(before)
    ensures before.end <= 8 * |b|
    ensures var next := ValuesAt(b, pos, p, f, |before.values| + 1);
            var x := DeltaAt(b, before.end, p);
            if x.None? || Last(before.values) + x.value.v >= f then
              ValuesAt(b, pos, p, f, n).None? && (x.Some? ==> x.value.v < 0x10_0000_0000_0000)
            else next == Some(Decoded(before.values + [Last(before.values) + x.value.v], x.value.next)) &&
                 x.value.v < 0x10_0000_0000_0000
  {
    hide DeltaAt;
    SmallDelta(b, before.end, p);
    if ValuesAt(b, pos, p, f, |before.values| + 1).None? {
      ValuesFail(b, pos, p, f, |before.values| + 1, n);
    }
  }

  lemma SmallDelta(b: bytes, pos: nat, p: nat)
    requires pos <= 8 * |b| && |b| <= MAX_ENCODED_SIZE && p <= 32
    ensures DeltaAt(b, pos, p).Some? ==> DeltaAt(b, pos, p).value.v < 0x10_0000_0000_0000
  {
    hide BitsValue, Ones, Pow2;
    var q := Ones(b, pos);
    if pos + q + 1 + p <= 8 * |b| { DeltaBound(b, pos + q + 1, p, q); }
  }

  method Parse(b: bytes, k0: u64, k1: u64, p: u8, m: u32) returns (g: Option<Filter>)
    ensures g == ParseOf(b, k0, k1, p, m)
  {
    if |b| > MAX_ENCODED_SIZE { return None; }
    if p == 0 || p > 32 || m == 0 { return None; }
    var size := CompactSize(b);
    if size.None? { return None; }
    hide CompactSize, ValuesAt;
    var n, cursor := size.value.value, size.value.used;
    if n > U32_MAX { return None; }
    if n == 0 { return Some(Filter(p, m, k0, k1, 0, 0, b, [])); }
    if n > (|b| - cursor) * 8 { return None; }
    RangeFits(n, m);
    var f: u64 := n * m;
    var br := new BitReader(b, cursor);
    var values := DecodeValues(br, p, f, n);
    if values.None? { return None; }
    if br.bytePos + 1 < |b| { return None; }
    g := Some(Filter(p, m, k0, k1, n, f, b, values.value));
  }

  lemma RangeFits(n: nat, m: u32)
    requires n <= 8 * MAX_ENCODED_SIZE
    ensures 0 <= n * m < 0x10_0000_0000_0000
  {
    MulMonotoneInt(m, U32_MAX, n);
  }

  /** The bytes of an ascending list of values. */
  ghost function Encoded(vs: seq<nat>, p: nat): bytes
    requires Ascending(vs) && |vs| <= U32_MAX
  {
    PutCompact(|vs|) + Pack(ValueBits(vs, p))
  }

  /** Parsing the encoding of an ascending list of values below n * m gives back the list. */
  lemma ParseEncoded(vs: seq<nat>, k0: u64, k1: u64, p: u8, m: u32)
    requires 0 < |vs| <= U32_MAX && Ascending(vs) && AllBelow(vs, |vs| * m) && 0 < p <= 32 && 0 < m
    requires |Encoded(vs, p)| <= MAX_ENCODED_SIZE
    ensures ParseOf(Encoded(vs, p), k0, k1, p, m) ==
            Some(Filter(p, m, k0, k1, |vs|, |vs| * m, Encoded(vs, p), vs))
  {
    hide CompactSize, ValuesAt, BitsAt, Pack, ValueBits, PutCompact;
    var b, bits := Encoded(vs, p), ValueBits(vs, p);
    var head := PutCompact(|vs|);
    CompactReads(|vs|, Pack(bits));
    ValueBitsAreBits(vs, p);
    PackHolds(head, bits);
    ValuesRead(b, 8 * |head|, vs, p, |vs| * m);
    BitsInside(b, 8 * |head|, bits);
    assert |b| == |head| + (|bits| + 7) / 8;
    assert ValuesAt(b, 8 * |head|, p, |vs| * m, |vs|).Some?;
    assert |vs| <= |bits|;
  }

  // ---- asking ---------------------------------------------------------------

  method SortedContains(arr: seq<nat>, target: nat) returns (hit: bool)
    requires Ascending(arr) && |arr| <= U32_MAX
    ensures hit <==> target in arr
  {
    var lo: u32, hi: u32 := 0, |arr|;
    while lo < hi
      invariant lo <= hi <= |arr|
      invariant forall i :: 0 <= i < lo ==> arr[i] < target
      invariant forall i :: hi <= i < |arr| ==> arr[i] > target
    {
      var mid := lo + (hi - lo) / 2;
      if arr[mid] == target { return true; }
      if arr[mid] < target { lo := mid + 1; } else { hi := mid; }
    }
    return false;
  }

  /** A filter as a parse leaves it. */
  ghost predicate WellFormed(g: Filter) {
    Ascending(g.values) && |g.values| == g.n && g.f <= U64_MAX
  }

  const U64_MAX: u64 := 0xFFFF_FFFF_FFFF_FFFF

  function InRange(hash: ElementHash, g: Filter, element: bytes): u64
    requires g.f <= U64_MAX
  {
    FastRange64(hash(g.k0, g.k1, element), g.f)
  }

  /** The set says yes to an element exactly when it holds the element's place in its range. */
  ghost predicate Matches(hash: ElementHash, g: Filter, element: bytes)
    requires g.f <= U64_MAX
  {
    InRange(hash, g, element) in g.values
  }

  method Match(hash: ElementHash, g: Filter, element: bytes) returns (hit: bool)
    requires WellFormed(g)
    ensures hit <==> Matches(hash, g, element)
  {
    if g.n == 0 { return false; }
    var q := InRange(hash, g, element);
    hit := SortedContains(g.values, q);
  }

  /** Sorts the places of all elements and walks both lists at once. */
  method MatchAny(hash: ElementHash, g: Filter, elements: seq<bytes>) returns (hit: bool)
    requires WellFormed(g)
    ensures hit <==> exists k :: 0 <= k < |elements| && Matches(hash, g, elements[k])
  {
    if |elements| == 0 { return false; }
    if g.n == 0 { return false; }
    var q := new nat[|elements|];
    var i := 0;
    while i < |elements|
      invariant i <= |elements|
      invariant forall k :: 0 <= k < i ==> q[k] == InRange(hash, g, elements[k])
    {
      q[i] := InRange(hash, g, elements[i]);
      i := i + 1;
    }
    ghost var places := q[..];
    var sorted := Sorted(q[..]);
    SortedIsSorted(places);
    hit := Common(sorted, g.values);
    SameMembers(places, sorted);
    if hit {
      ghost var x :| x in sorted && x in g.values;
      assert x in places;
      ghost var k :| 0 <= k < |places| && places[k] == x;
      assert Matches(hash, g, elements[k]);
    } else {
      forall k | 0 <= k < |elements| ensures !Matches(hash, g, elements[k]) {
        assert places[k] in places;
      }
    }
  }

  lemma SameMembers(s: seq<int>, t: seq<int>)
    requires multiset(s) == multiset(t)
    ensures forall x :: x in s <==> x in t
  {
    assert forall x :: x in s <==> x in multiset(s);
    assert forall x :: x in t <==> x in multiset(t);
  }

  /** A merge scan of two ascending lists for a common element. */
  method Common(s: seq<int>, t: seq<int>) returns (hit: bool)
    requires Ascending(s) && Ascending(t)
    ensures hit <==> exists x :: x in s && x in t
  {
    var i, j := 0, 0;
    while i < |s| && j < |t|
      invariant i <= |s| && j <= |t|
      invariant forall x :: 0 <= x < i ==> s[x] !in t
      invariant forall y :: 0 <= y < j ==> t[y] !in s
      decreases |s| - i + |t| - j
    {
      if s[i] == t[j] {
        assert s[i] in s && s[i] in t;
        return true;
      }
      if s[i] < t[j] {
        NotAmong(s[i], t, j);
        i := i + 1;
      } else {
        NotAmong(t[j], s, i);
        j := j + 1;
      }
    }
    return false;
  }

  lemma NotAmong(x: int, t: seq<int>, j: nat)
    requires Ascending(t) && j < |t| && x < t[j] && forall y :: 0 <= y < j ==> t[y] != x
    ensures x !in t
  {
  }

  // ---- no element is lost ---------------------------------------------------

  ghost function Places(hash: ElementHash, k0: u64, k1: u64, f: u64, elements: seq<bytes>): (r: seq<int>)
    ensures |r| == |elements| && forall i :: 0 <= i < |r| ==> r[i] == FastRange64(hash(k0, k1, elements[i]), f)
  {
    seq(|elements|, i requires 0 <= i < |elements| => FastRange64(hash(k0, k1, elements[i]), f) as int)
  }

  /** The bytes of the filter of these elements. */
  ghost function FilterBytes(hash: ElementHash, k0: u64, k1: u64, p: nat, m: u32, elements: seq<bytes>): bytes
    requires |elements| <= U32_MAX && |elements| * m <= U64_MAX
  {
    var places := Places(hash, k0, k1, |elements| * m, elements);
    SortedIsSorted(places);
    SortedPlaces(hash, k0, k1, |elements| * m, elements);
    Encoded(Sorted(places), p)
  }

  lemma SortedPlaces(hash: ElementHash, k0: u64, k1: u64, f: u64, elements: seq<bytes>)
    ensures var vs := Sorted(Places(hash, k0, k1, f, elements));
            && Ascending(vs) && (forall i :: 0 <= i < |vs| ==> vs[i] >= 0) && (f > 0 ==> AllBelow(vs, f))
            && forall k :: 0 <= k < |elements| ==> FastRange64(hash(k0, k1, elements[k]), f) as int in vs
  {
    var places := Places(hash, k0, k1, f, elements);
    var vs := Sorted(places);
    SortedIsSorted(places);
    SameMembers(places, vs);
    hide FastRange64, Sorted, Ascending;
    forall i | 0 <= i < |vs| ensures 0 <= vs[i] && (f > 0 ==> vs[i] < f) {
      assert vs[i] in vs;
      assert vs[i] in places;
    }
    forall k | 0 <= k < |elements| ensures FastRange64(hash(k0, k1, elements[k]), f) as int in vs {
      assert places[k] in places;
    }
  }

  /** The filter of some elements, encoded and parsed back, matches every one of them. */
  lemma NoElementIsLost(hash: ElementHash, k0: u64, k1: u64, p: u8, m: u32, elements: seq<bytes>, k: nat)
    requires k < |elements| <= U32_MAX && |elements| * m <= U64_MAX && 0 < p <= 32 && 0 < m
    requires |FilterBytes(hash, k0, k1, p, m, elements)| <= MAX_ENCODED_SIZE
    ensures var g := ParseOf(FilterBytes(hash, k0, k1, p, m, elements), k0, k1, p, m);
            g.Some? && WellFormed(g.value) && Matches(hash, g.value, elements[k])
  {
    hide FastRange64, Sorted, Ascending, ParseOf, Encoded;
    var f := |elements| * m;
    MulPositive(|elements|, m);
    SortedPlaces(hash, k0, k1, f, elements);
    ParseEncoded(Sorted(Places(hash, k0, k1, f, elements)), k0, k1, p, m);
  }
}
