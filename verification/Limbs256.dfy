/** 256-bit unsigned arithmetic
    on eight 32-bit limbs, least significant first. */
module Limbs256 {
  import opened FixedWidth
  import opened Arithmetic

  const BASE: nat := 0x1_0000_0000

  /** The number a limb sequence stands for. */
  ghost function Val(a: seq<u32>): nat {
    if a == [] then 0 else a[0] + BASE * Val(a[1..])
  }

  ghost function Place(i: nat): nat { Pow(BASE, i) }

  ghost function Modulus(): (m: nat)
    ensures m > 0
  {
    PlaceIsPow2(8);
    Place(8)
  }

  lemma {:induction false} ValConcat(a: seq<u32>, b: seq<u32>)
    ensures Val(a + b) == Val(a) + Place(|a|) * Val(b)
    decreases |a|
  {
    if a == [] {
      assert a + b == b;
    } else {
      ValConcat(a[1..], b);
      assert (a + b)[1..] == a[1..] + b;
      assert Val(a + b) == a[0] + BASE * (Val(a[1..]) + Place(|a| - 1) * Val(b));
      MulAssociates(BASE, Place(|a| - 1), Val(b));
    }
  }

  lemma ValSnoc(a: seq<u32>, i: nat)
    requires i < |a|
    ensures Val(a[..i + 1]) == Val(a[..i]) + Place(i) * a[i]
  {
    assert a[..i + 1] == a[..i] + [a[i]];
    ValConcat(a[..i], [a[i]]);
    assert [a[i]][1..] == [];
    assert Val([a[i]]) == a[i] + BASE * Val([]);
  }

  lemma ValUpdate(a: seq<u32>, j: nat, x: u32)
    requires j < |a|
    ensures Val(a[j := x]) == Val(a) + Place(j) * x - Place(j) * a[j]
  {
    var b := a[j := x];
    assert a == a[..j + 1] + a[j + 1..] && b == b[..j + 1] + a[j + 1..] && a[..j] == b[..j];
    ValConcat(a[..j + 1], a[j + 1..]);
    ValConcat(b[..j + 1], a[j + 1..]);
    ValSnoc(a, j);
    ValSnoc(b, j);
  }

  lemma {:induction false} ValBound(a: seq<u32>)
    ensures Val(a) < Place(|a|)
    decreases |a|
  {
    if a != [] {
      ValBound(a[1..]);
      MulMonotoneInt(Val(a[1..]) + 1, Place(|a| - 1), BASE);
    }
  }

  lemma ValFits(a: seq<u32>)
    requires |a| == 8
    ensures Val(a) < Modulus()
  {
    ValBound(a);
  }

  lemma {:induction false} ValZeros(a: seq<u32>)
    requires forall i :: 0 <= i < |a| ==> a[i] == 0
    ensures Val(a) == 0
  {
    if a != [] { ValZeros(a[1..]); }
  }

  // ---- multiply and divide --------------------------------------------------

  lemma MulStep(p: nat, n: nat)
    ensures p * (n % BASE) + (BASE * p) * (n / BASE) == p * n
  {
    assert n == n % BASE + BASE * (n / BASE);
    assert p * n == p * (n % BASE) + p * (BASE * (n / BASE));
    MulAssociates(p, BASE, n / BASE);
  }

  /** Wraps modulo 2^256. */
  method MulU32(a: array<u32>, m: u32)
    requires a.Length == 8
    modifies a
    ensures Val(a[..]) == Val(old(a[..])) * m % Modulus()
  {
    ghost var was := a[..];
    var carry: nat := 0;
    var i := 0;
    assert a[..0] == [] && was[..0] == [];
    hide Val, Place;
    while i < 8
      invariant i <= 8 && carry < BASE
      invariant a[i..] == was[i..]
      invariant Multiplied(a[..i], was, m, i, carry)
    {
      var n := carry + a[i] * m;
      MulBound(carry, a[i], m);
      a[i] := n % BASE;
      MultiplyStep(a[..i], was, m, i, carry);
      assert a[..i + 1] == a[..i] + [a[i]];
      carry := n / BASE;
      i := i + 1;
    }
    assert a[..8] == a[..] && was[..8] == was;
    ValBound(a[..]);
    DivUnique(Val(was) * m, Modulus(), carry, Val(a[..]));
  }

  /** The limbs below i are done, and the carry stands at place i. */
  ghost predicate Multiplied(done: seq<u32>, was: seq<u32>, m: nat, i: nat, carry: nat) {
    i <= |was| && |done| == i && Val(done) + Place(i) * carry == Val(was[..i]) * m
  }

  lemma MultiplyStep(done: seq<u32>, was: seq<u32>, m: nat, i: nat, carry: nat)
    requires i < |was| && Multiplied(done, was, m, i, carry)
    ensures var n := carry + was[i] * m;
            n >= 0 && Multiplied(done + [n % BASE], was, m, i + 1, n / BASE)
  {
    hide Val;
    var w: nat := was[i];
    MulMonotoneInt(0, w, m);
    var n := carry + w * m;
    ValSnoc(was, i);
    var next := done + [n % BASE];
    assert next[..i] == done && next[..i + 1] == next;
    ValSnoc(next, i);
    MulStep(Place(i), n);
    MulCollect(Val(was[..i]), Place(i), w, m, carry);
  }

  lemma DigitProduct(carry: nat, w: nat, m: nat, b: nat)
    requires carry < b && w < b && m < b
    ensures 0 <= carry + w * m < b * b
  {
    MulMonotoneInt(w, b - 1, m);
    MulMonotoneInt(m, b - 1, b - 1);
    assert (b - 1) * (b - 1) == b * b - b - b + 1;
  }

  lemma MulBound(carry: nat, w: u32, m: u32)
    requires carry < BASE
    ensures 0 <= carry + w * m < BASE * BASE && (carry + w * m) / BASE < BASE
  {
    DigitProduct(carry, w, m, BASE);
    DivBound(carry + w * m, BASE, BASE);
  }

  lemma MulCollect(v: nat, p: nat, w: nat, m: nat, carry: nat)
    ensures v * m + p * (w * m) == (v + p * w) * m
    ensures p * (carry + w * m) == p * carry + p * (w * m)
  {
    MulAssociates(p, w, m);
  }

  /** Floors. */
  method DivU32(a: array<u32>, d: u32)
    requires a.Length == 8 && d != 0
    modifies a
    ensures Val(a[..]) == Val(old(a[..])) / d
  {
    ghost var was := a[..];
    var rem: nat := 0;
    var i := 8;
    while i > 0
      invariant 0 <= i <= 8 && rem < d
      invariant a[..i] == was[..i]
      invariant Val(was[i..]) == d * Val(a[i..]) + rem
    {
      i := i - 1;
      OrDisjointShift(rem, a[i]);
      var n := Or(rem * BASE, a[i]);
      DivDigit(rem, was[i], d);
      a[i] := n / d;
      assert was[i..][1..] == was[i + 1..] && a[i..][1..] == a[i + 1..];
      DivCollect(Val(a[i + 1..]), d, rem, was[i]);
      rem := n % d;
    }
    assert a[0..] == a[..] && was[0..] == was;
    DivUnique(Val(was), d, Val(a[..]), rem);
  }

  lemma OrDisjointShift(rem: nat, w: u32)
    ensures Or(rem * BASE, w) == BASE * rem + w
  {
    Pow2Values();
    OrDisjoint(w, rem, 32);
  }

  lemma DivDigit(rem: nat, w: u32, d: u32)
    requires d > 0 && rem < d
    ensures (BASE * rem + w) / d < BASE
  {
    MulMonotoneInt(rem + 1, d, BASE);
    DivBound(BASE * rem + w, d, BASE);
  }

  lemma DivCollect(q: nat, d: nat, rem: nat, w: nat)
    requires d > 0
    ensures w + BASE * (d * q + rem) == d * ((BASE * rem + w) / d + BASE * q) + (BASE * rem + w) % d
  {
    var n := BASE * rem + w;
    assert n == d * (n / d) + n % d;
    assert BASE * (d * q) == d * (BASE * q);
  }

  // ---- compare --------------------------------------------------------------

  method Cmp(a: array<u32>, b: array<u32>) returns (c: int)
    requires a.Length == b.Length == 8
    ensures c < 0 <==> Val(a[..]) < Val(b[..])
    ensures c > 0 <==> Val(a[..]) > Val(b[..])
  {
    var i := 8;
    while i > 0
      invariant 0 <= i <= 8 && a[i..] == b[i..]
    {
      i := i - 1;
      if a[i] < b[i] { HigherLimbDecides(a[..], b[..], i); return -1; }
      if a[i] > b[i] { HigherLimbDecides(b[..], a[..], i); return 1; }
      assert a[i..] == [a[i]] + a[i + 1..] && b[i..] == [b[i]] + b[i + 1..];
    }
    assert a[0..] == a[..] && b[0..] == b[..];
    return 0;
  }

  lemma HigherLimbDecides(a: seq<u32>, b: seq<u32>, i: nat)
    requires |a| == |b| && i < |a| && a[i] < b[i] && a[i + 1..] == b[i + 1..]
    ensures Val(a) < Val(b)
  {
    assert a == a[..i + 1] + a[i + 1..] && b == b[..i + 1] + b[i + 1..];
    ValConcat(a[..i + 1], a[i + 1..]);
    ValConcat(b[..i + 1], b[i + 1..]);
    ValSnoc(a, i);
    ValSnoc(b, i);
    ValBound(a[..i]);
    HigherDigitDecides(Val(a[..i]), Val(b[..i]), Place(i), a[i], b[i]);
  }

  lemma HigherDigitDecides(x: nat, y: nat, p: nat, m: nat, n: nat)
    requires x < p && m < n
    ensures x + p * m < y + p * n
  {
    MulMonotoneInt(m + 1, n, p);
  }

  // ---- shifts ---------------------------------------------------------------

  lemma PlaceIsPow2(i: nat)
    ensures Place(i) == Pow2(32 * i) && Place(i) > 0
    decreases i
  {
    Pow2Values();
    if i > 0 {
      PlaceIsPow2(i - 1);
      PowAdd(2, 32, 32 * (i - 1));
    }
    PowPositive(2, 32 * i);
  }

  /** A limb shifted left by s bits: what stays in the limb is a multiple of 2^s with room
      below it, and what moves to the next limb is under 2^s. */
  lemma SplitLeft(w: u32, s: nat) returns (k: nat)
    requires s < 32
    ensures w * Pow2(s) == Pow2(s) * k + BASE * (w / Pow2(32 - s))
    ensures w * Pow2(s) % BASE == Pow2(s) * k && Pow2(s) * k + Pow2(s) <= BASE
    ensures w / Pow2(32 - s) < Pow2(s)
  {
    hide Pow2;
    Pow2Values();
    Pow2Add(s, 32 - s);
    k := w % Pow2(32 - s);
    SplitProduct(w, Pow2(s), Pow2(32 - s));
    DivBound(w, Pow2(32 - s), Pow2(s));
    MulMonotoneInt(0, k, Pow2(s));
    DivUnique(w * Pow2(s), BASE, w / Pow2(32 - s), Pow2(s) * k);
  }

  lemma SplitProduct(w: nat, p: nat, q: nat)
    requires p > 0 && q > 0
    ensures w * p == p * (w % q) + (p * q) * (w / q)
    ensures p * (w % q) + p <= p * q
  {
    assert w == q * (w / q) + w % q;
    MulAssociates(p, q, w / q);
    MulMonotoneInt(w % q + 1, q, p);
  }

  /** r[j] |= x, where the two share no bit, adds x at its place. */
  method OrInto(r: array<u32>, j: nat, x: u32, s: nat, ghost k: nat)
    requires r.Length == 8 && j < 8 && r[j] < Pow2(s) && x == Pow2(s) * k && r[j] + x < BASE
    modifies r
    ensures r[j] == old(r[j]) + x && forall i :: 0 <= i < 8 && i != j ==> r[i] == old(r[i])
    ensures Val(r[..]) == Val(old(r[..])) + Place(j) * x
  {
    ghost var was := r[..];
    OrDisjoint(r[j], k, s);
    r[j] := Or(r[j], x);
    ValUpdate(was, j, r[j]);
    assert r[..] == was[j := r[j]];
    MulSum(Place(j), was[j], x);
  }

  /** The whole product, before anything is dropped. */
  ghost function Shifted(v: nat, bits: nat): nat { v * Pow2(bits) }

  lemma WholeShift(bits: nat, v: nat)
    ensures Shifted(v, bits) == v * Pow2(bits % 32) * Place(bits / 32)
  {
    PlaceIsPow2(bits / 32);
    PowAdd(2, bits % 32, 32 * (bits / 32));
    assert bits % 32 + 32 * (bits / 32) == bits;
    MulAssociates(v, Pow2(bits % 32), Place(bits / 32));
  }

  ghost function At(j: nat, x: nat): nat { if j < 8 then Place(j) * x else 0 }

  /** What shifting limb w by s and adding it at place j makes of a total; places past the end are dropped. */
  ghost predicate Landed(before: nat, after: nat, w: u32, j: nat, s: nat) {
    s < 32 && after == before + At(j, w * Pow2(s) % BASE) + At(j + 1, w / Pow2(32 - s))
  }

  lemma LandedIs(before: nat, after: nat, w: u32, j: nat, s: nat)
    requires Landed(before, after, w, j, s)
    ensures s < 32 && after == before + At(j, w * Pow2(s) % BASE) + At(j + 1, w / Pow2(32 - s))
  {
    hide Pow2, At;
  }

  method LandLeft(r: array<u32>, w: u32, j: nat, s: nat)
    requires r.Length == 8 && s < 32
    requires (j < 8 ==> r[j] < Pow2(s)) && forall i :: j < i < 8 ==> r[i] == 0
    modifies r
    ensures Landed(Val(old(r[..])), Val(r[..]), w, j, s)
    ensures (j + 1 < 8 ==> r[j + 1] < Pow2(s)) && forall i :: j + 1 < i < 8 ==> r[i] == 0
  {
    Pow2Values();
    hide Val, Pow2, Place, Or;
    ghost var lo := SplitLeft(w, s);
    var hi := w / Pow2(32 - s);
    if j + 1 < 8 && s != 0 {
      OrInto(r, j + 1, hi, 0, hi);
    }
    if j < 8 {
      OrInto(r, j, w * Pow2(s) % BASE, s, lo);
    }
  }

  method ShiftLeft(a: array<u32>, bits: nat)
    requires a.Length == 8
    modifies a
    ensures Val(a[..]) == Val(old(a[..])) * Pow2(bits) % Modulus()
  {
    var k, s := bits / 32, bits % 32;
    var r := new u32[8](_ => 0);
    ghost var was := a[..];
    ValZeros(r[..]);
    PlaceIsPow2(8);
    assert Shifted(0, bits) == 0;
    assert LeftDone(was, bits, 0, r[..]);
    Pow2Values();
    var i := 0;
    hide Val, Pow2, Place, Or, Landed, LeftDone;
    while i < 8
      invariant i <= 8 && a[..] == was
      invariant LeftDone(was, bits, i, r[..])
      invariant forall j :: i + k < j < 8 ==> r[j] == 0
      invariant i + k < 8 ==> r[i + k] < Pow2(s)
    {
      ghost var before := r[..];
      LandLeft(r, a[i], i + k, s);
      LimbShifted(was, bits, i, before, r[..]);
      i := i + 1;
    }
    assert was[..8] == was;
    ghost var result := r[..];
    LeftFinished(was, bits, result);
    forall j | 0 <= j < 8 { a[j] := r[j]; }
    assert a[..] == result;
  }

  /** r is the first i limbs, shifted. */
  ghost predicate LeftDone(was: seq<u32>, bits: nat, i: nat, r: seq<u32>)
    requires i <= |was|
  {
    Val(r) == Shifted(Val(was[..i]), bits) % Modulus()
  }

  lemma LimbShifted(was: seq<u32>, bits: nat, i: nat, before: seq<u32>, after: seq<u32>)
    requires |was| == 8 && i < 8 && |after| == 8 && LeftDone(was, bits, i, before)
    requires Landed(Val(before), Val(after), was[i], i + bits / 32, bits % 32)
    ensures LeftDone(was, bits, i + 1, after)
  {
    hide Val, Shifted, Place, Landed;
    ValSnoc(was, i);
    ValBound(after);
    ShiftLimb(Val(was[..i]), was[i], bits, i, Val(before), Val(after));
  }

  lemma LeftFinished(was: seq<u32>, bits: nat, r: seq<u32>)
    requires |was| == 8 && LeftDone(was, bits, 8, r)
    ensures Val(r) == Val(was) * Pow2(bits) % Modulus()
  {
    assert was[..8] == was;
  }

  /** One source limb of a left shift. */
  lemma ShiftLimb(v: nat, w: u32, bits: nat, i: nat, before: nat, after: nat)
    requires before == Shifted(v, bits) % Modulus() && after < Modulus()
    requires Landed(before, after, w, i + bits / 32, bits % 32)
    ensures after == Shifted(v + Place(i) * w, bits) % Modulus()
  {
    hide *;
    var s := bits % 32;
    var lo := SplitLeft(w, s);
    LandedIs(before, after, w, i + bits / 32, s);
    PlaceIsPow2(i);
    MulMonotoneInt(0, w, Place(i));
    WholeShift(bits, v);
    WholeShift(bits, v + Place(i) * w);
    ShiftProduct(v, w, Pow2(s), lo, w / Pow2(32 - s), i, bits / 32);
    ShiftLeftStep(Shifted(v, bits), Pow2(s) * lo, w / Pow2(32 - s), i + bits / 32, before, after);
  }

  /** One source limb lands on two places of the result, or beyond its end. */
  lemma ShiftLeftStep(x: nat, lo: nat, hi: nat, j: nat, before: nat, after: nat)
    requires before == x % Modulus() && after < Modulus() && after == before + At(j, lo) + At(j + 1, hi)
    ensures after == (x + Place(j) * lo + Place(j + 1) * hi) % Modulus()
  {
    hide Place;
    PlaceIsPow2(8);
    if j + 1 < 8 {
      ModAdd(x, Place(j) * lo + Place(j + 1) * hi, Modulus());
    } else if j + 1 == 8 {
      ModAdd(x, Place(j) * lo, Modulus());
      ModOfMultiple(x + Place(j) * lo, hi, Modulus());
    } else {
      PlacePast(j, lo);
      PlacePast(j + 1, hi);
      ModOfMultiple(x, Place(j - 8) * lo, Modulus());
      ModOfMultiple(x + Place(j) * lo, Place(j + 1 - 8) * hi, Modulus());
    }
  }

  lemma PlacePast(j: nat, x: nat)
    requires j >= 8
    ensures Place(j - 8) * x >= 0 && Place(j) * x == Modulus() * (Place(j - 8) * x)
  {
    PowAdd(BASE, 8, j - 8);
    MulAssociates(Modulus(), Place(j - 8), x);
    MulMonotoneInt(0, x, Place(j - 8));
  }

  lemma ShiftProduct(v: nat, w: nat, p: nat, lo: nat, hi: nat, i: nat, k: nat)
    requires w * p == p * lo + BASE * hi
    ensures (v + Place(i) * w) * p * Place(k) == v * p * Place(k) + Place(i + k) * (p * lo) + Place(i + k + 1) * hi
  {
    PowAdd(BASE, i, k);
    ShiftSpread(Place(i), w, p, Place(k), lo, hi);
    assert (v + Place(i) * w) * p * Place(k) == v * p * Place(k) + Place(i) * w * p * Place(k);
  }

  lemma MulSum(p: nat, x: nat, y: nat)
    ensures p * (x + y) == p * x + p * y
  {
  }

  lemma ShiftSpread(pi: nat, w: nat, p: nat, pk: nat, lo: nat, hi: nat)
    requires w * p == p * lo + BASE * hi
    ensures pi * w * p * pk == (pi * pk) * (p * lo) + (BASE * (pi * pk)) * hi
  {
    assert pi * w * p * pk == (pi * pk) * (w * p);
    assert (pi * pk) * (p * lo + BASE * hi) == (pi * pk) * (p * lo) + (pi * pk) * (BASE * hi);
    MulAssociates(pi * pk, BASE, hi);
  }

  /** What shifting limb w right by s and adding it at place j makes of a total. */
  ghost predicate Dropped(before: nat, after: nat, w: u32, j: int, s: nat) {
    && s < 32
    && after == before + (if j >= 1 then Place(j - 1) * (w * Pow2(32 - s) % BASE) else 0)
                       + (if j >= 0 then Place(j) * (w / Pow2(s)) else 0)
  }

  method LandRight(r: array<u32>, w: u32, j: int, s: nat)
    requires r.Length == 8 && s < 32 && j < 8
    requires (j >= 1 ==> r[j - 1] < Pow2(32 - s)) && forall i :: Max(j, 0) <= i < 8 ==> r[i] == 0
    modifies r
    ensures Dropped(Val(old(r[..])), Val(r[..]), w, j, s)
    ensures (j >= 0 ==> r[j] < Pow2(32 - s)) && forall i :: Max(j + 1, 0) <= i < 8 ==> r[i] == 0
  {
    hide Val, Pow2, Place, Or;
    Pow2Values();
    SplitRight(w, s);
    if j >= 1 && s != 0 {
      ghost var lo := SplitLeft(w, 32 - s);
      OrInto(r, j - 1, w * Pow2(32 - s) % BASE, 32 - s, lo);
    }
    if j >= 0 {
      OrInto(r, j, w / Pow2(s), 0, w / Pow2(s));
    }
  }

  lemma SplitRight(w: u32, s: nat)
    requires s < 32
    ensures 0 <= w / Pow2(s) < Pow2(32 - s) && w / Pow2(s) < BASE
    ensures s == 0 ==> w * Pow2(32 - s) % BASE == 0
    ensures w * Pow2(32 - s) == w * Pow2(32 - s) % BASE + BASE * (w / Pow2(s))
  {
    hide Pow2;
    Pow2Values();
    Pow2Add(s, 32 - s);
    DivBound(w, Pow2(s), Pow2(32 - s));
    Pow2Grows(32 - s, 32);
    if s == 0 {
      DivUnique(w * BASE, BASE, w, 0);
    } else {
      var lo := SplitLeft(w, 32 - s);
    }
  }

  ghost predicate RightDone(was: seq<u32>, bits: nat, i: nat, r: seq<u32>)
    requires i <= |was|
  {
    Val(r) == Val(was[..i]) / Pow2(bits)
  }

  lemma LimbDropped(was: seq<u32>, bits: nat, i: nat, before: seq<u32>, after: seq<u32>)
    requires i < |was| && RightDone(was, bits, i, before)
    requires Dropped(Val(before), Val(after), was[i], i - bits / 32, bits % 32)
    ensures RightDone(was, bits, i + 1, after)
  {
    hide Val;
    ValSnoc(was, i);
    ValBound(was[..i]);
    DropLimb(Val(was[..i]), was[i], bits, i);
  }

  /** One source limb of a right shift. */
  lemma DropLimb(v: nat, w: u32, bits: nat, i: nat)
    requires v < Place(i)
    ensures Dropped(v / Pow2(bits), (v + Place(i) * w) / Pow2(bits), w, i - bits / 32, bits % 32)
  {
    hide Place, Pow2;
    if i < bits / 32 {
      DropBelow(v, w, bits, i);
    } else if i == bits / 32 {
      DropAt(v, w, bits);
    } else {
      DropAbove(v, w, bits, i - bits / 32);
    }
  }

  lemma DropBelow(v: nat, w: u32, bits: nat, i: nat)
    requires v < Place(i) && i < bits / 32
    ensures v / Pow2(bits) == 0 && (v + Place(i) * w) / Pow2(bits) == 0
  {
    PlaceIsPow2(i + 1);
    PowGrows(2, 32 * (i + 1), bits);
    var x: nat := w;
    MulMonotoneInt(x + 1, BASE, Place(i));
    assert Place(i) * (x + 1) == Place(i) * x + Place(i);
    assert Place(i + 1) == BASE * Place(i);
    SmallQuotient(v, Pow2(bits));
    SmallQuotient(v + Place(i) * w, Pow2(bits));
  }

  lemma DropAt(v: nat, w: u32, bits: nat)
    requires v < Place(bits / 32)
    ensures v / Pow2(bits) == 0
    ensures (v + Place(bits / 32) * w) / Pow2(bits) == w / Pow2(bits % 32) && Place(0) == 1
  {
    var k, s := bits / 32, bits % 32;
    PlaceIsPow2(k);
    PowAdd(2, 32 * k, s);
    assert 32 * k + s == bits;
    SmallQuotient(v, Place(k));
    DivOfMultiple(v, w, Place(k));
    DivByProduct(v + Place(k) * w, Place(k), Pow2(s));
    DivByProduct(v, Place(k), Pow2(s));
    SmallQuotient(0, Pow2(s));
  }

  lemma DropAbove(v: nat, w: u32, bits: nat, j: nat)
    requires j > 0
    ensures var i, s := j + bits / 32, bits % 32;
            (v + Place(i) * w) / Pow2(bits) ==
              v / Pow2(bits) + Place(j - 1) * (w * Pow2(32 - s) % BASE) + Place(j) * (w / Pow2(s))
  {
    var i, s := j + bits / 32, bits % 32;
    PlaceIsPow2(i);
    PlaceIsPow2(j - 1);
    SplitRight(w, s);
    PowAdd(2, bits, 32 * (j - 1) + (32 - s));
    PowAdd(2, 32 * (j - 1), 32 - s);
    assert bits + (32 * (j - 1) + (32 - s)) == 32 * i;
    assert Place(j) == BASE * Place(j - 1);
    DropHigh(v, w, Pow2(bits), Place(j - 1), Pow2(32 - s), w * Pow2(32 - s) % BASE, w / Pow2(s));
  }

  lemma SmallQuotient(v: nat, d: nat)
    requires v < d
    ensures v / d == 0
  {
    DivUnique(v, d, 0, v);
  }

  lemma DropHigh(v: nat, w: nat, d: nat, p: nat, q: nat, lo: nat, hi: nat)
    requires d > 0 && w * q == lo + BASE * hi
    ensures (v + d * (p * q) * w) / d == v / d + p * lo + (BASE * p) * hi
  {
    var add := p * lo + (BASE * p) * hi;
    assert (p * q) * w == p * (w * q);
    assert p * (lo + BASE * hi) == p * lo + p * (BASE * hi);
    MulAssociates(p, BASE, hi);
    MulAssociates(d, p * q, w);
    DivOfMultiple(v, add, d);
  }

  method ShiftRight(a: array<u32>, bits: nat)
    requires a.Length == 8
    modifies a
    ensures Val(a[..]) == Val(old(a[..])) / Pow2(bits)
  {
    var k, s := bits / 32, bits % 32;
    var r := new u32[8](_ => 0);
    ghost var was := a[..];
    ValZeros(r[..]);
    SmallQuotient(0, Pow2(bits));
    assert RightDone(was, bits, 0, r[..]);
    var i := 0;
    hide Val, Pow2, Place, Or, Dropped, RightDone;
    while i < 8
      invariant i <= 8 && a[..] == was
      invariant RightDone(was, bits, i, r[..])
      invariant forall j :: Max(i - k, 0) <= j < 8 ==> r[j] == 0
      invariant i - k >= 1 ==> r[i - k - 1] < Pow2(32 - s)
    {
      ghost var before := r[..];
      LandRight(r, a[i], i - k, s);
      LimbDropped(was, bits, i, before, r[..]);
      i := i + 1;
    }
    ghost var result := r[..];
    RightFinished(was, bits, result);
    forall j | 0 <= j < 8 { a[j] := r[j]; }
    assert a[..] == result;
  }

  lemma RightFinished(was: seq<u32>, bits: nat, r: seq<u32>)
    requires |was| == 8 && RightDone(was, bits, 8, r)
    ensures Val(r) == Val(was) / Pow2(bits)
  {
    assert was[..8] == was;
  }

  // ---- bit length -----------------------------------------------------------

  /** n is the number of bits v needs. */
  ghost predicate BitLength(v: nat, n: nat) {
    if v == 0 then n == 0 else n > 0 && Pow2(n - 1) <= v < Pow2(n)
  }

  method Bits(a: array<u32>) returns (n: nat)
    requires a.Length == 8
    ensures BitLength(Val(a[..]), n) && n <= 256
  {
    var i := 8;
    while i > 0
      invariant 0 <= i <= 8 && forall j :: i <= j < 8 ==> a[j] == 0
    {
      i := i - 1;
      if a[i] != 0 {
        var b := TopBit(a[i]);
        TopLimb(a[..], i, b);
        return 32 * i + b + 1;
      }
    }
    ValZeros(a[..]);
    return 0;
  }

  /** The highest set bit of a non-zero limb, tested from bit 31 down. */
  method TopBit(w: u32) returns (b: nat)
    requires w != 0
    ensures b < 32 && Pow2(b) <= w < Pow2(b + 1)
  {
    Pow2Values();
    b := 31;
    while w / Pow2(b) % 2 == 0
      invariant b <= 31 && w < Pow2(b + 1)
      decreases b
    {
      BitClear(w, b);
      b := b - 1;
    }
    BitSet(w, b);
  }

  lemma BitClear(w: nat, b: nat)
    requires w < Pow2(b + 1) && w / Pow2(b) % 2 == 0
    ensures w < Pow2(b)
  {
    DivBound(w, Pow2(b), 2);
    assert w == Pow2(b) * (w / Pow2(b)) + w % Pow2(b);
  }

  lemma BitSet(w: nat, b: nat)
    requires w / Pow2(b) % 2 != 0
    ensures Pow2(b) <= w
  {
    MulMonotoneInt(1, w / Pow2(b), Pow2(b));
  }

  lemma TopLimb(a: seq<u32>, i: nat, b: nat)
    requires |a| == 8 && i < 8 && b < 32 && Pow2(b) <= a[i] < Pow2(b + 1)
    requires forall j :: i < j < 8 ==> a[j] == 0
    ensures BitLength(Val(a), 32 * i + b + 1)
  {
    hide Val, Pow2, Place;
    assert a == a[..i + 1] + a[i + 1..];
    ValConcat(a[..i + 1], a[i + 1..]);
    ValZeros(a[i + 1..]);
    ValSnoc(a, i);
    ValBound(a[..i]);
    TopDigit(Val(a[..i]), a[i], i, b);
  }

  lemma TopDigit(x: nat, w: nat, i: nat, b: nat)
    requires x < Place(i) && Pow2(b) <= w < Pow2(b + 1)
    ensures Pow2(32 * i + b) <= x + Place(i) * w < Pow2(32 * i + b + 1)
  {
    hide Pow2, Place;
    PlaceIsPow2(i);
    Pow2Add(32 * i, b);
    Pow2Add(32 * i, b + 1);
    MulMonotoneInt(Pow2(b), w, Place(i));
    MulMonotoneInt(w + 1, Pow2(b + 1), Place(i));
    MulSum(Place(i), w, 1);
  }
}
