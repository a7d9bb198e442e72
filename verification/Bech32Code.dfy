/** The Bech32 checksum. */
module Bech32Code {
  // Section "Bech32" of BIP 173 and section "Bech32m" of BIP 350: the checksum as
  // a code on values.

  import opened Arithmetic
  import opened ExclusiveOr
  import opened Radix

  // ---- the checksum ---------------------------------------------------------

  const TOP: nat := 0x200_0000

  /** A generator, when bit 25 + k of x is set. */
  function Feedback(x: nat, place: nat, generator: nat): nat
    requires place > 0
  {
    if x / place % 2 == 1 then generator else 0
  }

  function Polymod(x: nat): nat {
    Xor(Xor(Xor(Xor(Xor(32 * (x % TOP),
      Feedback(x, 0x200_0000, 0x3b6a_57b2)),
      Feedback(x, 0x400_0000, 0x2650_8e6d)),
      Feedback(x, 0x800_0000, 0x1ea1_19fa)),
      Feedback(x, 0x1000_0000, 0x3d42_33dd)),
      Feedback(x, 0x2000_0000, 0x2a14_62b3))
  }

  function Absorb(chk: nat, vs: seq<int>): nat
    requires AreDigits(32, vs)
  {
    if vs == [] then chk else Xor(Polymod(Absorb(chk, vs[..|vs| - 1])), vs[|vs| - 1])
  }

  function Steps(chk: nat, n: nat): nat {
    if n == 0 then chk else Polymod(Steps(chk, n - 1))
  }

  lemma HighPowers()
    ensures Pow2(25) == 0x200_0000 && Pow2(26) == 0x400_0000 && Pow2(27) == 0x800_0000
    ensures Pow2(28) == 0x1000_0000 && Pow2(29) == 0x2000_0000 && Pow2(5) == 32 && Pow2(30) == 0x4000_0000
  {
    Pow2Values();
    Pow2Step(25); Pow2Step(26); Pow2Step(27); Pow2Step(28); Pow2Step(29); Pow2Step(30);
    assert Pow2(5) == 32;
  }

  lemma FeedbackLinear(x: nat, y: nat, n: nat, g: nat)
    ensures Feedback(Xor(x, y), Pow2(n), g) == Xor(Feedback(x, Pow2(n), g), Feedback(y, Pow2(n), g))
  {
    hide Xor, Pow2;
    XorShiftsDown(x, y, n);
    PickLinear(x / Pow2(n), y / Pow2(n), Xor(x, y) / Pow2(n), g);
  }

  lemma PickLinear(u: nat, v: nat, w: nat, g: nat)
    requires w == Xor(u, v)
    ensures (if w % 2 == 1 then g else 0) == Xor(if u % 2 == 1 then g else 0, if v % 2 == 1 then g else 0)
  {
    XorHalf(u, v);
    XorSelf(g);
    XorZero(g);
    XorZero(0);
    hide Xor;
  }

  lemma RestLinear(x: nat, y: nat)
    ensures 32 * (Xor(x, y) % TOP) == Xor(32 * (x % TOP), 32 * (y % TOP))
  {
    hide Xor, Pow2;
    HighPowers();
    XorCuts(x, y, 25);
    XorShiftsUp(x % TOP, y % TOP, 5);
  }

  /** The checksum step is linear over exclusive or. */
  lemma PolymodLinear(x: nat, y: nat)
    ensures Polymod(Xor(x, y)) == Xor(Polymod(x), Polymod(y))
  {
    hide Xor, Feedback, Pow2;
    HighPowers();
    RestLinear(x, y);
    FeedbackLinear(x, y, 25, 0x3b6a_57b2);
    FeedbackLinear(x, y, 26, 0x2650_8e6d);
    FeedbackLinear(x, y, 27, 0x1ea1_19fa);
    FeedbackLinear(x, y, 28, 0x3d42_33dd);
    FeedbackLinear(x, y, 29, 0x2a14_62b3);
    var a0, b0 := 32 * (x % TOP), 32 * (y % TOP);
    var f0, g0 := Feedback(x, 0x200_0000, 0x3b6a_57b2), Feedback(y, 0x200_0000, 0x3b6a_57b2);
    var a1, b1 := Xor(a0, f0), Xor(b0, g0);
    var f1, g1 := Feedback(x, 0x400_0000, 0x2650_8e6d), Feedback(y, 0x400_0000, 0x2650_8e6d);
    var a2, b2 := Xor(a1, f1), Xor(b1, g1);
    var f2, g2 := Feedback(x, 0x800_0000, 0x1ea1_19fa), Feedback(y, 0x800_0000, 0x1ea1_19fa);
    var a3, b3 := Xor(a2, f2), Xor(b2, g2);
    var f3, g3 := Feedback(x, 0x1000_0000, 0x3d42_33dd), Feedback(y, 0x1000_0000, 0x3d42_33dd);
    var a4, b4 := Xor(a3, f3), Xor(b3, g3);
    var f4, g4 := Feedback(x, 0x2000_0000, 0x2a14_62b3), Feedback(y, 0x2000_0000, 0x2a14_62b3);
    XorPairs(a0, b0, f0, g0);
    XorPairs(a1, b1, f1, g1);
    XorPairs(a2, b2, f2, g2);
    XorPairs(a3, b3, f3, g3);
    XorPairs(a4, b4, f4, g4);
  }

  /** A value with nothing in its top five bits is only shifted. */
  lemma PolymodShifts(x: nat)
    requires x < TOP
    ensures Polymod(x) == 32 * x
  {
    hide Xor;
    assert x / 0x200_0000 == 0 && x / 0x400_0000 == 0 && x / 0x800_0000 == 0 && x / 0x1000_0000 == 0 &&
           x / 0x2000_0000 == 0;
    XorZero(32 * x);
  }

  /** Up to six values are absorbed as one number, after as many empty steps. */
  lemma {:induction false} AbsorbsNumber(chk: nat, vs: seq<int>)
    requires AreDigits(32, vs) && |vs| <= 6
    ensures Value(32, vs) >= 0 && Absorb(chk, vs) == Xor(Steps(chk, |vs|), Value(32, vs))
    decreases |vs|
  {
    hide Polymod, Xor, Pow;
    if vs == [] {
      XorZero(chk);
    } else {
      var n := |vs| - 1;
      AbsorbsNumber(chk, vs[..n]);
      ValueBound(32, vs[..n]);
      var v, s := Value(32, vs[..n]), Steps(chk, n);
      PowGrows(32, n, 5);
      ThirtyTwoToTheFive();
      PolymodLinear(s, v);
      PolymodShifts(v);
      XorAssociates(Polymod(s), 32 * v, vs[n]);
      HighPowers();
      XorCommutes(32 * v, vs[n]);
      XorDisjoint(vs[n], v, 5);
    }
  }

  lemma ThirtyTwoToTheFive()
    ensures Pow(32, 5) == TOP
  {
    assert Pow(32, 2) == 1024;
    assert Pow(32, 3) == 32768;
    PowAdd(32, 2, 3);
  }

  /** The six values of a 30-bit checksum, highest first. */
  function Six(c: nat): (vs: seq<int>)
    ensures AreDigits(32, vs) && |vs| == 6
  {
    [c / 0x200_0000 % 32, c / 0x10_0000 % 32, c / 0x8000 % 32, c / 0x400 % 32, c / 0x20 % 32, c % 32]
  }

  lemma SixIsNumber(c: nat)
    requires c < 0x4000_0000
    ensures Value(32, Six(c)) == c
  {
    var a0, a1, a2, a3, a4, a5 := c / 0x200_0000 % 32, c / 0x10_0000 % 32, c / 0x8000 % 32, c / 0x400 % 32,
        c / 0x20 % 32, c % 32;
    ValueSnoc(32, [], a0);
    ValueSnoc(32, [a0], a1);
    ValueSnoc(32, [a0, a1], a2);
    ValueSnoc(32, [a0, a1, a2], a3);
    ValueSnoc(32, [a0, a1, a2, a3], a4);
    ValueSnoc(32, [a0, a1, a2, a3, a4], a5);
    assert [] + [a0] == [a0] && [a0] + [a1] == [a0, a1] && [a0, a1] + [a2] == [a0, a1, a2];
    assert [a0, a1, a2] + [a3] == [a0, a1, a2, a3] && [a0, a1, a2, a3] + [a4] == [a0, a1, a2, a3, a4];
    assert [a0, a1, a2, a3, a4] + [a5] == Six(c);
    hide Value;
    Horner(c);
  }

  lemma Horner(c: nat)
    requires c < 0x4000_0000
    ensures ((((c / 0x200_0000 % 32 * 32 + c / 0x10_0000 % 32) * 32 + c / 0x8000 % 32) * 32 + c / 0x400 % 32) * 32
             + c / 0x20 % 32) * 32 + c % 32 == c
  {
    assert c / 0x200_0000 % 32 == c / 0x200_0000;
    NextDigit(c, 0x10_0000);
    NextDigit(c, 0x8000);
    NextDigit(c, 0x400);
    NextDigit(c, 0x20);
    NextDigit(c, 1);
  }

  lemma NextDigit(c: nat, place: nat)
    requires place > 0
    ensures c / (place * 32) * 32 + c / place % 32 == c / place
  {
    DivByProduct(c, place, 32);
  }

  lemma PolymodBound(x: nat)
    ensures Polymod(x) < 0x4000_0000
  {
    hide Xor, Pow2;
    HighPowers();
    var a0 := 32 * (x % TOP);
    var a1 := Xor(a0, Feedback(x, 0x200_0000, 0x3b6a_57b2));
    XorBound(a0, Feedback(x, 0x200_0000, 0x3b6a_57b2), 30);
    var a2 := Xor(a1, Feedback(x, 0x400_0000, 0x2650_8e6d));
    XorBound(a1, Feedback(x, 0x400_0000, 0x2650_8e6d), 30);
    var a3 := Xor(a2, Feedback(x, 0x800_0000, 0x1ea1_19fa));
    XorBound(a2, Feedback(x, 0x800_0000, 0x1ea1_19fa), 30);
    var a4 := Xor(a3, Feedback(x, 0x1000_0000, 0x3d42_33dd));
    XorBound(a3, Feedback(x, 0x1000_0000, 0x3d42_33dd), 30);
    XorBound(a4, Feedback(x, 0x2000_0000, 0x2a14_62b3), 30);
  }

  /** The six values that make any prefix's checksum come out as k. */
  function Checksum(chk: nat, k: nat): (vs: seq<int>)
    ensures AreDigits(32, vs) && |vs| == 6
  {
    Six(Xor(Steps(chk, 6), k))
  }

  /** Absorbing its checksum brings any prefix to the constant. */
  lemma ChecksumCloses(chk: nat, k: nat)
    requires k < 0x4000_0000
    ensures Absorb(chk, Checksum(chk, k)) == k
  {
    hide Polymod, Xor, Absorb, Six;
    var s := Steps(chk, 6);
    PolymodBound(Steps(chk, 5));
    HighPowers();
    XorBound(s, k, 30);
    AbsorbsNumber(chk, Six(Xor(s, k)));
    SixIsNumber(Xor(s, k));
    XorAssociates(s, s, k);
    XorSelf(s);
    XorZero(k);
  }
}
