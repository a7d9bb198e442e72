/** The Bech32 checksum as a code over the field of 32 elements. */
module Bech32Field {
  // BIP 173: a checksum is a polynomial of degree below six over GF(32), with
  // a^5 = a^3 + 1; absorbing a value multiplies it by x, adds the value and
  // reduces by x^6 + {29}x^5 + {22}x^4 + {20}x^3 + {21}x^2 + {29}x + {18}.

  import opened FixedWidth
  import opened Arithmetic
  import opened ExclusiveOr
  import opened ByteWords
  import opened Bech32Groups
  import opened Bech32Code

  // ---- the field ------------------------------------------------------------

  /** Addition in the field. */
  function Xor5(x: u5, y: u5): (r: u5)
    ensures r == Xor(x, y)
  {
    FiveBits();
    XorBound(x, y, 5);
    Xor(x, y)
  }

  lemma FiveBits()
    ensures Pow2(5) == 32
  {
    HighPowers();
  }

  /** Multiplication by a in the field: a^5 is a^3 + 1. */
  function Twice(x: u5): u5 { if x < 16 then 2 * x else Xor5(2 * x - 0x20, 0x09) }

  /** x times the low n bits of y, lowest first. */
  function TimesLow(x: u5, y: nat, n: nat): u5
    decreases n
  {
    if n == 0 then 0 else Xor5(if y % 2 == 1 then x else 0, TimesLow(Twice(x), y / 2, n - 1))
  }

  /** Multiplication in the field. */
  function Times(x: u5, y: u5): u5 { TimesLow(x, y, 5) }

  // ---- numbers by their digits ----------------------------------------------

  datatype Six = Six(d5: u5, d4: u5, d3: u5, d2: u5, d1: u5, d0: u5)

  function Then(u: nat, a: u5): nat { u * 32 + a }

  function Number(d: Six): nat { Then(Then(Then(Then(Then(d.d5, d.d4), d.d3), d.d2), d.d1), d.d0) }

  function Sum(a: Six, b: Six): Six {
    Six(Xor5(a.d5, b.d5), Xor5(a.d4, b.d4), Xor5(a.d3, b.d3), Xor5(a.d2, b.d2), Xor5(a.d1, b.d1), Xor5(a.d0, b.d0))
  }

  lemma XorDigit(u: nat, a: u5, v: nat, b: u5)
    ensures Xor(Then(u, a), Then(v, b)) == Then(Xor(u, v), Xor5(a, b))
  {
    hide Xor, Xor5;
    FiveBits();
    var p, q := Xor5(a, b), Xor(u, v);
    XorDisjoint(a, u, 5);
    XorDisjoint(b, v, 5);
    XorShiftsUp(u, v, 5);
    XorPairs(a, b, 32 * u, 32 * v);
    XorDisjoint(p, q, 5);
  }

  lemma XorNumber(a: Six, b: Six)
    ensures Xor(Number(a), Number(b)) == Number(Sum(a, b))
  {
    hide Xor, Xor5, Then;
    var a4, b4 := Then(a.d5, a.d4), Then(b.d5, b.d4);
    var a3, b3 := Then(a4, a.d3), Then(b4, b.d3);
    var a2, b2 := Then(a3, a.d2), Then(b3, b.d2);
    XorDigit(a.d5, a.d4, b.d5, b.d4);
    XorDigit(a4, a.d3, b4, b.d3);
    XorDigit(a3, a.d2, b3, b.d2);
    XorDigit(a2, a.d1, b2, b.d1);
    XorDigit(Then(a2, a.d1), a.d0, Then(b2, b.d1), b.d0);
  }

  // ---- one step -------------------------------------------------------------

  /** The digits, when bit k of the top digit is set. */
  function Picked(t: u5, place: nat, g: Six): Six
    requires place > 0
  {
    if t / place % 2 == 1 then g else Six(0, 0, 0, 0, 0, 0)
  }

  /** The generator polynomial below x^6, times 1, a, a^2, a^3 and a^4. */
  const G0 := Six(29, 22, 20, 21, 29, 18)
  const G1 := Six(19, 5, 1, 3, 19, 13)
  const G2 := Six(15, 10, 2, 6, 15, 26)
  const G3 := Six(30, 20, 4, 12, 30, 29)
  const G4 := Six(21, 1, 8, 24, 21, 19)

  lemma GeneratorDigits()
    ensures Number(G0) == 0x3b6a_57b2 && Number(G1) == 0x2650_8e6d && Number(G2) == 0x1ea1_19fa
    ensures Number(G3) == 0x3d42_33dd && Number(G4) == 0x2a14_62b3
  {
  }

  /** The digits, shifted up by one place; the top digit is what falls out. */
  function Up(d: Six): Six { Six(d.d4, d.d3, d.d2, d.d1, d.d0, 0) }

  lemma TopDigit(d: Six)
    ensures 32 * (Number(d) % TOP) == Number(Up(d)) && Number(d) / TOP == d.d5
    ensures Number(d) / 0x400_0000 == d.d5 / 2 && Number(d) / 0x800_0000 == d.d5 / 4
    ensures Number(d) / 0x1000_0000 == d.d5 / 8 && Number(d) / 0x2000_0000 == d.d5 / 16
  {
    var low := Number(Six(0, d.d4, d.d3, d.d2, d.d1, d.d0));
    assert Number(d) == d.d5 * TOP + low && 32 * low == Number(Up(d));
    DivUnique(Number(d), TOP, d.d5, low);
    HighPart(Number(d), d.d5, 2);
    HighPart(Number(d), d.d5, 4);
    HighPart(Number(d), d.d5, 8);
    HighPart(Number(d), d.d5, 16);
  }

  lemma HighPart(x: nat, t: nat, p: nat)
    requires p > 0 && x / TOP == t
    ensures x / (TOP * p) == t / p
  {
    DivByProduct(x, TOP, p);
  }

  lemma PolymodDigits(d: Six)
    ensures Polymod(Number(d)) ==
            Number(Sum(Sum(Sum(Sum(Sum(Up(d), Picked(d.d5, 1, G0)), Picked(d.d5, 2, G1)), Picked(d.d5, 4, G2)),
                   Picked(d.d5, 8, G3)), Picked(d.d5, 16, G4)))
  {
    hide Xor, Sum, Number, Then;
    var t := d.d5;
    TopDigit(d);
    GeneratorDigits();
    NoDigits();
    var s0 := Up(d);
    var s1 := Sum(s0, Picked(t, 1, G0));
    var s2 := Sum(s1, Picked(t, 2, G1));
    var s3 := Sum(s2, Picked(t, 4, G2));
    var s4 := Sum(s3, Picked(t, 8, G3));
    XorNumber(s0, Picked(t, 1, G0));
    XorNumber(s1, Picked(t, 2, G1));
    XorNumber(s2, Picked(t, 4, G2));
    XorNumber(s3, Picked(t, 8, G3));
    XorNumber(s4, Picked(t, 16, G4));
  }

  lemma NoDigits()
    ensures Number(Six(0, 0, 0, 0, 0, 0)) == 0
  {
  }

  // ---- one step is one multiplication by x ----------------------------------

  function Pick(t: nat, g: u5): u5 { if t % 2 == 1 then g else 0 }

  lemma WordXor5(x: u5, y: u5)
    ensures Word(Xor5(x, y)) == Word(x) ^ Word(y)
  {
    WordXor(x, y);
  }

  lemma Wraps29()
    ensures Twice(19) == 15 && Twice(29) == 19 && Twice(30) == 21
  {
    hide Xor5;
    XorNine(6, 15); XorNine(26, 19); XorNine(28, 21);
  }

  lemma Wraps22()
    ensures Twice(22) == 5 && Twice(20) == 1 && Twice(21) == 3
  {
    hide Xor5;
    XorNine(12, 5); XorNine(8, 1); XorNine(10, 3);
  }

  lemma Wraps18()
    ensures Twice(18) == 13 && Twice(26) == 29
  {
    hide Xor5;
    XorNine(4, 13); XorNine(20, 29);
  }

  /** Each generator is a times the one before, digit by digit. */
  lemma GeneratorsDouble()
    ensures Twice(29) == 19 && Twice(19) == 15 && Twice(15) == 30 && Twice(30) == 21 && Twice(22) == 5
    ensures Twice(5) == 10 && Twice(10) == 20 && Twice(20) == 1 && Twice(1) == 2 && Twice(2) == 4 && Twice(4) == 8
    ensures Twice(21) == 3 && Twice(3) == 6 && Twice(6) == 12 && Twice(12) == 24
    ensures Twice(18) == 13 && Twice(13) == 26 && Twice(26) == 29
  {
    hide Xor5;
    Wraps29();
    Wraps22();
    Wraps18();
  }

  lemma XorNine(x: u5, y: u5)
    requires x as bv8 ^ 0x09 == y as bv8
    ensures Xor5(x, 9) == y
  {
    WordXor5(x, 9);
    assert Word(9) == 0x09;
    WordsApart(Xor5(x, 9), y);
  }

  lemma TimesUnrolled(t: u5, g0: u5, g1: u5, g2: u5, g3: u5, g4: u5)
    requires g1 == Twice(g0) && g2 == Twice(g1) && g3 == Twice(g2) && g4 == Twice(g3)
    ensures Times(g0, t) ==
            Xor5(Pick(t, g0), Xor5(Pick(t / 2, g1), Xor5(Pick(t / 4, g2), Xor5(Pick(t / 8, g3), Pick(t / 16, g4)))))
  {
    hide Xor5, Twice, Pick, TimesLow;
    TimesStep(g0, t, 5);
    TimesStep(g1, t / 2, 4);
    TimesStep(g2, t / 4, 3);
    TimesStep(g3, t / 8, 2);
    TimesStep(g4, t / 16, 1);
    assert t / 2 / 2 == t / 4 && t / 4 / 2 == t / 8 && t / 8 / 2 == t / 16;
    TimesNone(Twice(g4), t / 16 / 2);
    SumZero(Pick(t / 16, g4));
  }

  lemma TimesStep(x: u5, y: nat, n: nat)
    requires n > 0
    ensures TimesLow(x, y, n) == Xor5(Pick(y, x), TimesLow(Twice(x), y / 2, n - 1))
  {
    hide Xor5, Twice;
  }

  lemma TimesNone(x: u5, y: nat)
    ensures TimesLow(x, y, 0) == 0
  {
  }

  lemma SumZero(x: u5)
    ensures Xor5(x, 0) == x && Xor5(0, x) == x
  {
    XorZero(x);
    XorCommutes(x, 0);
  }

  /** One digit of a step. */
  lemma Column(x: u5, t: u5, g0: u5, g1: u5, g2: u5, g3: u5, g4: u5)
    requires g1 == Twice(g0) && g2 == Twice(g1) && g3 == Twice(g2) && g4 == Twice(g3)
    ensures Xor5(Xor5(Xor5(Xor5(Xor5(x, Pick(t, g0)), Pick(t / 2, g1)), Pick(t / 4, g2)), Pick(t / 8, g3)),
                 Pick(t / 16, g4)) == Xor5(x, Times(g0, t))
  {
    hide *;
    TimesUnrolled(t, g0, g1, g2, g3, g4);
    Regroup(x, Pick(t, g0), Pick(t / 2, g1), Pick(t / 4, g2), Pick(t / 8, g3), Pick(t / 16, g4));
  }

  lemma Regroup(x: u5, a: u5, b: u5, c: u5, d: u5, e: u5)
    ensures Xor5(Xor5(Xor5(Xor5(Xor5(x, a), b), c), d), e) == Xor5(x, Xor5(a, Xor5(b, Xor5(c, Xor5(d, e)))))
  {
    hide Xor5;
    var p, q, r := Xor5(x, a), Xor5(Xor5(x, a), b), Xor5(Xor5(Xor5(x, a), b), c);
    SumAssociates(r, d, e);
    SumAssociates(q, c, Xor5(d, e));
    SumAssociates(p, b, Xor5(c, Xor5(d, e)));
    SumAssociates(x, a, Xor5(b, Xor5(c, Xor5(d, e))));
  }

  lemma SumAssociates(x: u5, y: u5, z: u5)
    ensures Xor5(Xor5(x, y), z) == Xor5(x, Xor5(y, z))
  {
    XorAssociates(x, y, z);
    hide Xor;
  }

  lemma PickedDigits(t: u5, p: nat, g: Six)
    requires p > 0
    ensures Picked(t, p, g) ==
            Six(Pick(t / p, g.d5), Pick(t / p, g.d4), Pick(t / p, g.d3), Pick(t / p, g.d2), Pick(t / p, g.d1),
                Pick(t / p, g.d0))
  {
  }

  /** What the digits are after a step: x times the polynomial, less the generator times its top digit. */
  function Advanced(d: Six, v: u5): Six {
    var t := d.d5;
    Six(Xor5(d.d4, Times(29, t)), Xor5(d.d3, Times(22, t)), Xor5(d.d2, Times(20, t)), Xor5(d.d1, Times(21, t)),
        Xor5(d.d0, Times(29, t)), Xor5(v, Times(18, t)))
  }

  lemma PolymodIsTimesX(d: Six)
    ensures Polymod(Number(d)) == Number(Advanced(d, 0))
  {
    hide Xor5, Twice, Times, Pick, Number, Polymod, Picked;
    var t := d.d5;
    PolymodDigits(d);
    GeneratorsDouble();
    PickedDigits(t, 1, G0);
    PickedDigits(t, 2, G1);
    PickedDigits(t, 4, G2);
    PickedDigits(t, 8, G3);
    PickedDigits(t, 16, G4);
    assert t / 1 == t;
    Column(d.d4, t, 29, 19, 15, 30, 21);
    Column(d.d3, t, 22, 5, 10, 20, 1);
    Column(d.d2, t, 20, 1, 2, 4, 8);
    Column(d.d1, t, 21, 3, 6, 12, 24);
    Column(d.d0, t, 29, 19, 15, 30, 21);
    Column(0, t, 18, 13, 26, 29, 19);
  }

  lemma AddValue(e: Six, v: u5)
    ensures Xor(Number(e), v) == Number(Six(e.d5, e.d4, e.d3, e.d2, e.d1, Xor5(v, e.d0)))
  {
    hide Xor, Xor5;
    var w := Six(0, 0, 0, 0, 0, v);
    assert Number(w) == v;
    XorNumber(e, w);
    SumZero(e.d5); SumZero(e.d4); SumZero(e.d3); SumZero(e.d2); SumZero(e.d1);
    XorCommutes(e.d0, v);
  }

  /** Absorbing a value multiplies the checksum's polynomial by x modulo the generator and adds the value. */
  lemma AbsorbIsField(d: Six, v: u5)
    ensures Xor(Polymod(Number(d)), v) == Number(Advanced(d, v))
  {
    hide Xor, Xor5, Times, Number, Polymod;
    PolymodIsTimesX(d);
    AddValue(Advanced(d, 0), v);
    SumZero(Times(18, d.d5));
  }
}
