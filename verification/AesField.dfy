/** The byte field of AES
    (section 4.2 of FIPS 197),
    and its column mixing (sections 5.1.3 and 5.3.3). */
module AesField {
  import opened FixedWidth
  import opened Arithmetic
  import opened ExclusiveOr

  // ---- the field ------------------------------------------------------------

  function Xor8(x: u8, y: u8): (r: u8)
    ensures r == Xor(x, y)
  {
    EightBits();
    XorBound(x, y, 8);
    Xor(x, y)
  }

  lemma EightBits()
    ensures Pow2(8) == 256 && Pow2(7) == 128 && Pow2(1) == 2
  {
    Pow2Values();
  }

  /** Multiplication by two in the integers the source computes it in: nothing is cut off at the top. */
  function WideXt(x: nat): nat { Xor(2 * x, x / 128 % 2 * 0x1b) }

  /** Multiplication by two in the field: what is stored of it. */
  function Xt(x: u8): u8 { WideXt(x) % 256 }

  /** Whatever lies above the low byte never reaches the low byte of a further step. */
  lemma WideIs(x: nat)
    ensures WideXt(x) % 256 == Xt(x % 256)
  {
    hide Xor;
    EightBits();
    XorCuts(2 * x, x / 128 % 2 * 0x1b, 8);
    XorCuts(2 * (x % 256), x / 128 % 2 * 0x1b, 8);
    LowByteOf(x);
  }

  lemma LowByteOf(x: nat)
    ensures x % 256 / 128 % 2 == x / 128 % 2 && 2 * x % 256 == 2 * (x % 256) % 256
  {
    var q, y := x / 256, x % 256;
    DivUnique(x, 128, 2 * q + y / 128, y % 128);
    DivUnique(2 * x, 256, 2 * q + 2 * y / 256, 2 * y % 256);
  }

  lemma XtLinear(x: u8, y: u8)
    ensures Xt(Xor8(x, y)) == Xor8(Xt(x), Xt(y))
  {
    hide Xor;
    EightBits();
    var z := Xor(x, y);
    XorShiftsUp(x, y, 1);
    XorShiftsDown(x, y, 7);
    PickTop(x / 128, y / 128);
    var p, q := x / 128 % 2 * 0x1b, y / 128 % 2 * 0x1b;
    XorPairs(2 * x, 2 * y, p, q);
    XorCuts(Xor(2 * x, p), Xor(2 * y, q), 8);
  }

  lemma PickTop(u: nat, v: nat)
    ensures Xor(u, v) % 2 * 0x1b == Xor(u % 2 * 0x1b, v % 2 * 0x1b)
  {
    hide Xor;
    XorHalf(u, v);
    Parity(u, v);
    PickBits(u % 2, v % 2);
  }

  lemma PickBits(a: nat, b: nat)
    requires a < 2 && b < 2
    ensures (a + b) % 2 * 0x1b == Xor(a * 0x1b, b * 0x1b)
  {
    hide Xor;
    XorSelf(0x1b);
    XorZero(0x1b);
    XorZero(0);
    if a == 0 { if b == 0 {} else { assert b == 1; } } else { assert a == 1; if b == 0 {} else { assert b == 1; } }
  }

  /** The round constant's step back. */
  function XtBack(r: u8): u8 { Xor8(r / 2, r % 2 * 0x8d) }

  lemma XtBackInverts(r: u8)
    ensures XtBack(Xt(r)) == r
  {
    hide Xor;
    EightBits();
    if r < 128 {
      XorZero(2 * r);
      XorZero(r);
    } else {
      var u := r - 128;
      XorCuts(2 * r, 0x1b, 8);
      assert 2 * r % 256 == 2 * u;
      XorHalf(2 * u, 0x1b);
      XorAssociates(u, 0x0d, 0x8d);
      Constants();
      XorDisjoint(u, 1, 7);
    }
  }

  lemma Constants()
    ensures Xor(0x0d, 0x8d) == 0x80
  {
    assert Xor(0, 0x8) == 8;
    assert Xor(1, 0x11) == 2 * Xor(0, 8);
    assert Xor(3, 0x23) == 2 * Xor(1, 0x11);
    assert Xor(6, 0x46) == 2 * Xor(3, 0x23);
    assert Xor(0x0d, 0x8d) == 2 * Xor(6, 0x46);
  }

  // ---- columns --------------------------------------------------------------

  function Xor3(x: u8, y: u8, z: u8): u8 { Xor8(Xor8(x, y), z) }

  function Xor4(x: u8, y: u8, z: u8, w: u8): u8 { Xor8(Xor8(x, y), Xor8(z, w)) }

  /** 2 a + 3 b + c + d in the field. */
  function MixByte(a: u8, b: u8, c: u8, d: u8): u8 { Xor4(Xt(a), Xor8(Xt(b), b), c, d) }

  function Xt2(x: u8): u8 { Xt(Xt(x)) }

  function Xt3(x: u8): u8 { Xt(Xt(Xt(x))) }

  /** 14 a + 11 b + 13 c + 9 d in the field. */
  function UnmixByte(a: u8, b: u8, c: u8, d: u8): u8 {
    Xor4(Xor3(Xt3(a), Xt2(a), Xt(a)), Xor3(Xt3(b), Xt(b), b), Xor3(Xt3(c), Xt2(c), c), Xor8(Xt3(d), d))
  }

  /** What encryption stores in a column: a ^ e ^ xt(a ^ b). */
  function MixStep(a: u8, b: u8, e: u8): u8 { Xor8(a, Xor8(e, Xt(Xor8(a, b)))) }

  /** What decryption stores in a column: a ^ e ^ xt(xt(xt(e) ^ a ^ c)) ^ xt(a ^ b). */
  function UnmixStep(a: u8, b: u8, c: u8, e: u8): u8 {
    Xor8(a, Xor8(Xor8(e, Xt2(Xor3(Xt(e), a, c))), Xt(Xor8(a, b))))
  }

  lemma XtSum4(a: u8, b: u8, c: u8, d: u8)
    ensures Xt(Xor4(a, b, c, d)) == Xor4(Xt(a), Xt(b), Xt(c), Xt(d))
  {
    hide Xt, Xor;
    XtLinear(Xor8(a, b), Xor8(c, d));
    XtLinear(a, b);
    XtLinear(c, d);
  }

  /** The column-sum form the rounds use is the matrix form of the standard. */
  lemma MixForm(a: u8, b: u8, c: u8, d: u8)
    ensures MixStep(a, b, Xor4(a, b, c, d)) == MixByte(a, b, c, d)
  {
    hide Xt, Xor;
    XtLinear(a, b);
    MixSum(a, b, c, d, Xt(a), Xt(b));
  }

  lemma MixSum(a: u8, b: u8, c: u8, d: u8, p: u8, q: u8)
    ensures Xor8(a, Xor8(Xor4(a, b, c, d), Xor8(p, q))) == Xor4(p, Xor8(q, b), c, d)
  {
    hide Xor, Bit;
    XorBits();
    BitsDecide(Xor8(a, Xor8(Xor4(a, b, c, d), Xor8(p, q))), Xor4(p, Xor8(q, b), c, d));
  }

  lemma UnmixForm(a: u8, b: u8, c: u8, d: u8)
    ensures UnmixStep(a, b, c, Xor4(a, b, c, d)) == UnmixByte(a, b, c, d)
  {
    hide Xt, Xor;
    var e := Xor4(a, b, c, d);
    XtSum4(a, b, c, d);
    XtSum4(Xt(a), Xt(b), Xt(c), Xt(d));
    XtSum4(Xt2(a), Xt2(b), Xt2(c), Xt2(d));
    Xt2Sum3(Xt(e), a, c);
    XtLinear(a, b);
    UnmixSum(a, b, c, d, Xt(a), Xt(b), Xt2(a), Xt2(c), Xt3(a), Xt3(b), Xt3(c), Xt3(d));
  }

  lemma Xt2Sum3(x: u8, y: u8, z: u8)
    ensures Xt2(Xor3(x, y, z)) == Xor3(Xt2(x), Xt2(y), Xt2(z))
  {
    hide Xt, Xor;
    XtLinear(Xor8(x, y), z);
    XtLinear(x, y);
    XtLinear(Xor8(Xt(x), Xt(y)), Xt(z));
    XtLinear(Xt(x), Xt(y));
  }

  lemma UnmixSum(a: u8, b: u8, c: u8, d: u8, a2: u8, b2: u8, a4: u8, c4: u8, a8: u8, b8: u8, c8: u8, d8: u8)
    ensures Xor8(a, Xor8(Xor8(Xor4(a, b, c, d), Xor3(Xor4(a8, b8, c8, d8), a4, c4)), Xor8(a2, b2))) ==
            Xor4(Xor3(a8, a4, a2), Xor3(b8, b2, b), Xor3(c8, c4, c), Xor8(d8, d))
  {
    hide Xor, Bit;
    XorBits();
    BitsDecide(Xor8(a, Xor8(Xor8(Xor4(a, b, c, d), Xor3(Xor4(a8, b8, c8, d8), a4, c4)), Xor8(a2, b2))),
               Xor4(Xor3(a8, a4, a2), Xor3(b8, b2, b), Xor3(c8, c4, c), Xor8(d8, d)));
  }

  /** Mixing a column is undone by the inverse matrix. */
  lemma UnmixMix(a: u8, b: u8, c: u8, d: u8)
    ensures UnmixByte(MixByte(a, b, c, d), MixByte(b, c, d, a), MixByte(c, d, a, b), MixByte(d, a, b, c)) == a
  {
    hide Xt, Xor, UnmixByte, MixByte;
    var p, q, r, s := Xt(a), Xt(b), Xt(c), Xt(d);
    var x, y, z, w := MixByte(a, b, c, d), MixByte(b, c, d, a), MixByte(c, d, a, b), MixByte(d, a, b, c);
    MixByteIs(a, b, c, d); MixByteIs(b, c, d, a); MixByteIs(c, d, a, b); MixByteIs(d, a, b, c);
    UnmixForm(x, y, z, w);
    SumKept(a, b, c, d, p, q, r, s);
    DiagonalKept(a, b, c, d, p, q, r, s);
    NeighboursKept(a, b, c, d, p, q, r);
    XtSum4(a, b, c, d);
    XtLinear(a, c);
    XtLinear(a, b);
    XtLinear(Xor8(a, b), Xt(Xor8(a, c)));
    LastSum(a, b, c, d, p, q, Xt2(Xor8(a, c)));
  }

  lemma MixByteIs(a: u8, b: u8, c: u8, d: u8)
    ensures MixByte(a, b, c, d) == Xor4(Xt(a), Xor8(Xt(b), b), c, d)
  {
  }

  lemma SumKept(a: u8, b: u8, c: u8, d: u8, p: u8, q: u8, r: u8, s: u8)
    ensures Xor4(Xor4(p, Xor8(q, b), c, d), Xor4(q, Xor8(r, c), d, a), Xor4(r, Xor8(s, d), a, b),
            Xor4(s, Xor8(p, a), b, c)) ==
            Xor4(a, b, c, d)
  {
    hide Xor, Bit;
    XorBits();
    BitsDecide(Xor4(Xor4(p, Xor8(q, b), c, d), Xor4(q, Xor8(r, c), d, a), Xor4(r, Xor8(s, d), a, b),
                    Xor4(s, Xor8(p, a), b, c)),
               Xor4(a, b, c, d));
  }

  lemma DiagonalKept(a: u8, b: u8, c: u8, d: u8, p: u8, q: u8, r: u8, s: u8)
    ensures Xor3(Xor4(p, q, r, s), Xor4(p, Xor8(q, b), c, d), Xor4(r, Xor8(s, d), a, b)) == Xor8(a, c)
  {
    hide Xor, Bit;
    XorBits();
    BitsDecide(Xor3(Xor4(p, q, r, s), Xor4(p, Xor8(q, b), c, d), Xor4(r, Xor8(s, d), a, b)), Xor8(a, c));
  }

  lemma NeighboursKept(a: u8, b: u8, c: u8, d: u8, p: u8, q: u8, r: u8)
    ensures Xor8(Xor4(p, Xor8(q, b), c, d), Xor4(q, Xor8(r, c), d, a)) == Xor8(Xor8(a, b), Xor8(p, r))
  {
    hide Xor, Bit;
    XorBits();
    BitsDecide(Xor8(Xor4(p, Xor8(q, b), c, d), Xor4(q, Xor8(r, c), d, a)), Xor8(Xor8(a, b), Xor8(p, r)));
  }

  lemma LastSum(a: u8, b: u8, c: u8, d: u8, p: u8, q: u8, t: u8)
    ensures Xor8(Xor4(p, Xor8(q, b), c, d), Xor8(Xor8(Xor4(a, b, c, d), t), Xor8(Xor8(p, q), t))) == a
  {
    hide Xor, Bit;
    XorBits();
    BitsDecide(Xor8(Xor4(p, Xor8(q, b), c, d), Xor8(Xor8(Xor4(a, b, c, d), t), Xor8(Xor8(p, q), t))), a);
  }
}
