/** Two addresses the standards give. */
module Bech32Vectors {
  // The version 0 example of BIP 173 and a version 16 example of BIP 350: what
  // the encoder writes for them, and so what the decoder reads.

  import opened FixedWidth
  import opened Arithmetic
  import opened ExclusiveOr
  import opened ByteWords
  import opened Options
  import opened Bech32Groups
  import opened Bech32Code
  import opened Bech32Field
  import opened Bech32
  import opened Bech32Reencode

  // ---- the digits of a run --------------------------------------------------

  /** The checksum's digits after the first n values. */
  function After(vs: seq<u5>, n: nat): Six
    requires n <= |vs|
  {
    if n == 0 then Six(0, 0, 0, 0, 0, 1) else Advanced(After(vs, n - 1), vs[n - 1])
  }

  lemma {:induction false} AbsorbedIs(vs: seq<u5>, n: nat)
    requires n <= |vs|
    ensures Absorbed(vs[..n]) == Number(After(vs, n))
    decreases n
  {
    hide Polymod, Xor, Advanced, Number;
    AreFives(vs[..n]);
    if n == 0 {
      FirstNumber();
    } else {
      AbsorbedIs(vs, n - 1);
      AreFives(vs[..n - 1]);
      assert vs[..n][..n - 1] == vs[..n - 1];
      AbsorbIsField(After(vs, n - 1), vs[n - 1]);
    }
  }

  lemma FirstNumber()
    ensures Number(Six(0, 0, 0, 0, 0, 1)) == 1
  {
  }

  // ---- a step on words ------------------------------------------------------

  function Folded(x: bv8, t: bv8, g0: bv8, g1: bv8, g2: bv8, g3: bv8, g4: bv8): bv8 {
    x ^ (if t & 0x01 == 0x01 then g0 else 0) ^ (if t & 0x02 == 0x02 then g1 else 0) ^
    (if t & 0x04 == 0x04 then g2 else 0) ^ (if t & 0x08 == 0x08 then g3 else 0) ^ (if t & 0x10 == 0x10 then g4 else 0)
  }

  lemma PickWord(t: nat, g: u5, c: bool)
    requires c <==> t % 2 == 1
    ensures Word(Pick(t, g)) == if c then Word(g) else 0
  {
    assert Word(0) == 0;
  }

  lemma DigitWord(x: u5, t: u5, g0: u5, g1: u5, g2: u5, g3: u5, g4: u5)
    requires g1 == Twice(g0) && g2 == Twice(g1) && g3 == Twice(g2) && g4 == Twice(g3)
    ensures Word(Xor5(x, Times(g0, t))) == Folded(Word(x), Word(t), Word(g0), Word(g1), Word(g2), Word(g3), Word(g4))
  {
    hide Word, Xor5, Twice, Times, Pick, Bit;
    Column(x, t, g0, g1, g2, g3, g4);
    var w := Word(t);
    WordBits(t);
    BitsAt(t);
    PickWord(t, g0, w & 0x01 == 0x01);
    PickWord(t / 2, g1, w & 0x02 == 0x02);
    PickWord(t / 4, g2, w & 0x04 == 0x04);
    PickWord(t / 8, g3, w & 0x08 == 0x08);
    PickWord(t / 16, g4, w & 0x10 == 0x10);
    var p, q, r := Xor5(x, Pick(t, g0)), Xor5(Xor5(x, Pick(t, g0)), Pick(t / 2, g1)),
        Xor5(Xor5(Xor5(x, Pick(t, g0)), Pick(t / 2, g1)), Pick(t / 4, g2));
    WordXor5(x, Pick(t, g0));
    WordXor5(p, Pick(t / 2, g1));
    WordXor5(q, Pick(t / 4, g2));
    WordXor5(r, Pick(t / 8, g3));
    WordXor5(Xor5(r, Pick(t / 8, g3)), Pick(t / 16, g4));
  }

  /** The digits e follow the digits d with the value v; written out so that it folds on constants. */
  predicate Follows(d5: bv8, d4: bv8, d3: bv8, d2: bv8, d1: bv8, d0: bv8, v: bv8,
                    e5: bv8, e4: bv8, e3: bv8, e2: bv8, e1: bv8, e0: bv8) {
    var b0, b1, b2, b3, b4 := d5 & 1 == 1, d5 & 2 == 2, d5 & 4 == 4, d5 & 8 == 8, d5 & 16 == 16;
    && e5 == d4 ^ (if b0 then 29 else 0) ^ (if b1 then 19 else 0) ^ (if b2 then 15 else 0) ^
             (if b3 then 30 else 0) ^ (if b4 then 21 else 0)
    && e4 == d3 ^ (if b0 then 22 else 0) ^ (if b1 then 5 else 0) ^ (if b2 then 10 else 0) ^
             (if b3 then 20 else 0) ^ (if b4 then 1 else 0)
    && e3 == d2 ^ (if b0 then 20 else 0) ^ (if b1 then 1 else 0) ^ (if b2 then 2 else 0) ^
             (if b3 then 4 else 0) ^ (if b4 then 8 else 0)
    && e2 == d1 ^ (if b0 then 21 else 0) ^ (if b1 then 3 else 0) ^ (if b2 then 6 else 0) ^
             (if b3 then 12 else 0) ^ (if b4 then 24 else 0)
    && e1 == d0 ^ (if b0 then 29 else 0) ^ (if b1 then 19 else 0) ^ (if b2 then 15 else 0) ^
             (if b3 then 30 else 0) ^ (if b4 then 21 else 0)
    && e0 == v ^ (if b0 then 18 else 0) ^ (if b1 then 13 else 0) ^ (if b2 then 26 else 0) ^
             (if b3 then 29 else 0) ^ (if b4 then 19 else 0)
  }

  lemma FollowsMeans(d5: bv8, d4: bv8, d3: bv8, d2: bv8, d1: bv8, d0: bv8, v: bv8,
                     e5: bv8, e4: bv8, e3: bv8, e2: bv8, e1: bv8, e0: bv8)
    requires Follows(d5, d4, d3, d2, d1, d0, v, e5, e4, e3, e2, e1, e0)
    ensures e5 == Folded(d4, d5, 29, 19, 15, 30, 21) && e4 == Folded(d3, d5, 22, 5, 10, 20, 1)
    ensures e3 == Folded(d2, d5, 20, 1, 2, 4, 8) && e2 == Folded(d1, d5, 21, 3, 6, 12, 24)
    ensures e1 == Folded(d0, d5, 29, 19, 15, 30, 21) && e0 == Folded(v, d5, 18, 13, 26, 29, 19)
  {
  }

  lemma FollowsAdvanced(d: Six, v: u5, e: Six)
    requires Follows(Word(d.d5), Word(d.d4), Word(d.d3), Word(d.d2), Word(d.d1), Word(d.d0), Word(v),
                     Word(e.d5), Word(e.d4), Word(e.d3), Word(e.d2), Word(e.d1), Word(e.d0))
    ensures Advanced(d, v) == e
  {
    hide Word, Xor5, Twice, Times, Folded, Follows;
    var t, a := d.d5, Advanced(d, v);
    GeneratorsDouble();
    GeneratorWords();
    FollowsMeans(Word(d.d5), Word(d.d4), Word(d.d3), Word(d.d2), Word(d.d1), Word(d.d0), Word(v),
                 Word(e.d5), Word(e.d4), Word(e.d3), Word(e.d2), Word(e.d1), Word(e.d0));
    DigitWord(d.d4, t, 29, 19, 15, 30, 21);
    DigitWord(d.d3, t, 22, 5, 10, 20, 1);
    DigitWord(d.d2, t, 20, 1, 2, 4, 8);
    DigitWord(d.d1, t, 21, 3, 6, 12, 24);
    DigitWord(d.d0, t, 29, 19, 15, 30, 21);
    DigitWord(v, t, 18, 13, 26, 29, 19);
    WordsApart(a.d5, e.d5); WordsApart(a.d4, e.d4); WordsApart(a.d3, e.d3);
    WordsApart(a.d2, e.d2); WordsApart(a.d1, e.d1); WordsApart(a.d0, e.d0);
  }

  lemma GeneratorWords()
    ensures Word(29) == 29 && Word(19) == 19 && Word(15) == 15 && Word(30) == 30 && Word(21) == 21 && Word(22) == 22
    ensures Word(5) == 5 && Word(10) == 10 && Word(20) == 20 && Word(1) == 1 && Word(2) == 2 && Word(4) == 4
    ensures Word(8) == 8 && Word(3) == 3 && Word(6) == 6 && Word(12) == 12 && Word(24) == 24 && Word(18) == 18
    ensures Word(13) == 13 && Word(26) == 26
  {
  }

  // ---- the same from words to digits ----------------------------------------

  type b5 = x: bv8 | x < 32

  function Five(x: b5): u5 { x as int }

  lemma FiveWord(x: b5)
    ensures Word(Five(x)) == x
  {
  }

  function Eight(a: b5, b: b5, c: b5, d: b5, e: b5, f: b5, g: b5, h: b5): seq<u5> {
    [Five(a), Five(b), Five(c), Five(d), Five(e), Five(f), Five(g), Five(h)]
  }

  function State(d5: b5, d4: b5, d3: b5, d2: b5, d1: b5, d0: b5): Six {
    Six(Five(d5), Five(d4), Five(d3), Five(d2), Five(d1), Five(d0))
  }

  lemma Step(vs: seq<u5>, n: nat, d5: b5, d4: b5, d3: b5, d2: b5, d1: b5, d0: b5, v: b5,
             e5: b5, e4: b5, e3: b5, e2: b5, e1: b5, e0: b5)
    requires n < |vs| && vs[n] == Five(v) && After(vs, n) == State(d5, d4, d3, d2, d1, d0)
    requires Follows(d5, d4, d3, d2, d1, d0, v, e5, e4, e3, e2, e1, e0)
    ensures After(vs, n + 1) == State(e5, e4, e3, e2, e1, e0)
  {
    hide Advanced, Follows, Word, Five;
    FiveWord(d5); FiveWord(d4); FiveWord(d3); FiveWord(d2); FiveWord(d1); FiveWord(d0); FiveWord(v);
    FiveWord(e5); FiveWord(e4); FiveWord(e3); FiveWord(e2); FiveWord(e1); FiveWord(e0);
    FollowsAdvanced(After(vs, n), Five(v), State(e5, e4, e3, e2, e1, e0));
  }

  // ---- the runs -------------------------------------------------------------

  lemma AbsorbsPrefix(vs: seq<u5>, n: nat)
    requires n + 5 <= |vs| && vs[n..n + 5] == [Five(3), Five(3), Five(0), Five(2), Five(3)]
    requires After(vs, n) == State(0, 0, 0, 0, 0, 1)
    ensures After(vs, n + 5) == State(1, 3, 3, 0, 2, 3)
  {
    hide After, State, Five;
    Step(vs, n, 0, 0, 0, 0, 0, 1, 3, 0, 0, 0, 0, 1, 3);
    Step(vs, n + 1, 0, 0, 0, 0, 1, 3, 3, 0, 0, 0, 1, 3, 3);
    Step(vs, n + 2, 0, 0, 0, 1, 3, 3, 0, 0, 0, 1, 3, 3, 0);
    Step(vs, n + 3, 0, 0, 1, 3, 3, 0, 2, 0, 1, 3, 3, 0, 2);
    Step(vs, n + 4, 0, 1, 3, 3, 0, 2, 3, 1, 3, 3, 0, 2, 3);
  }

  lemma AbsorbsZero0(vs: seq<u5>, n: nat)
    requires n < |vs| && vs[n] == Five(0)
    requires After(vs, n) == State(1, 3, 3, 0, 2, 3)
    ensures After(vs, n + 1) == State(30, 21, 20, 23, 30, 18)
  {
    hide After, State, Five;
    Step(vs, n, 1, 3, 3, 0, 2, 3, 0, 30, 21, 20, 23, 30, 18);
  }

  lemma AbsorbsZero1(vs: seq<u5>, n: nat)
    requires n + 8 <= |vs| && vs[n..n + 8] == Eight(14, 20, 15, 7, 13, 26, 0, 25)
    requires After(vs, n) == State(30, 21, 20, 23, 30, 18)
    ensures After(vs, n + 8) == State(21, 17, 23, 18, 30, 14)
  {
    hide After, State, Five;
    Step(vs, n, 30, 21, 20, 23, 30, 18, 14, 2, 14, 24, 15, 5, 23);
    Step(vs, n + 1, 2, 14, 24, 15, 5, 23, 20, 29, 29, 14, 6, 4, 25);
    Step(vs, n + 2, 29, 29, 14, 6, 4, 25, 15, 4, 7, 28, 3, 0, 9);
    Step(vs, n + 3, 4, 7, 28, 3, 0, 9, 7, 8, 22, 1, 6, 6, 29);
    Step(vs, n + 4, 8, 22, 1, 6, 6, 29, 13, 8, 21, 2, 10, 3, 16);
    Step(vs, n + 5, 8, 21, 2, 10, 3, 16, 26, 11, 22, 14, 15, 14, 7);
    Step(vs, n + 6, 11, 22, 14, 15, 14, 7, 0, 6, 9, 30, 20, 23, 2);
    Step(vs, n + 7, 6, 9, 30, 20, 23, 2, 25, 21, 17, 23, 18, 30, 14);
  }

  lemma AbsorbsZero2(vs: seq<u5>, n: nat)
    requires n + 8 <= |vs| && vs[n..n + 8] == Eight(18, 6, 11, 13, 8, 21, 4, 20)
    requires After(vs, n) == State(21, 17, 23, 18, 30, 14)
    ensures After(vs, n + 8) == State(17, 26, 3, 31, 26, 11)
  {
    hide After, State, Five;
    Step(vs, n, 21, 17, 23, 18, 30, 14, 18, 22, 10, 12, 21, 9, 9);
    Step(vs, n + 1, 22, 10, 12, 21, 9, 9, 6, 3, 2, 30, 20, 0, 2);
    Step(vs, n + 2, 3, 2, 30, 20, 0, 2, 11, 12, 13, 1, 22, 12, 20);
    Step(vs, n + 3, 12, 13, 1, 22, 12, 20, 13, 28, 31, 16, 6, 5, 10);
    Step(vs, n + 4, 28, 31, 16, 6, 5, 10, 8, 27, 15, 8, 23, 14, 28);
    Step(vs, n + 5, 27, 15, 8, 23, 14, 28, 21, 10, 14, 14, 12, 25, 4);
    Step(vs, n + 6, 10, 14, 14, 12, 25, 4, 4, 3, 31, 9, 22, 9, 20);
    Step(vs, n + 7, 3, 31, 9, 22, 9, 20, 20, 17, 26, 3, 31, 26, 11);
  }

  lemma AbsorbsZero3(vs: seq<u5>, n: nat)
    requires n + 8 <= |vs| && vs[n..n + 8] == Eight(3, 17, 2, 29, 3, 12, 29, 3)
    requires After(vs, n) == State(17, 26, 3, 31, 26, 11)
    ensures After(vs, n + 8) == State(21, 3, 16, 28, 11, 20)
  {
    hide After, State, Five;
    Step(vs, n, 17, 26, 3, 31, 26, 11, 3, 18, 20, 3, 23, 3, 2);
    Step(vs, n + 1, 18, 20, 3, 23, 3, 2, 17, 18, 7, 30, 24, 4, 15);
    Step(vs, n + 2, 18, 7, 30, 24, 4, 15, 2, 1, 26, 17, 31, 9, 28);
    Step(vs, n + 3, 1, 26, 17, 31, 9, 28, 29, 7, 7, 11, 28, 1, 15);
    Step(vs, n + 4, 7, 7, 11, 28, 1, 15, 3, 6, 18, 11, 17, 14, 6);
    Step(vs, n + 5, 6, 18, 11, 17, 14, 6, 12, 14, 4, 18, 11, 26, 27);
    Step(vs, n + 6, 14, 4, 18, 11, 26, 27, 29, 6, 9, 12, 19, 25, 23);
    Step(vs, n + 7, 6, 9, 12, 19, 25, 23, 3, 21, 3, 16, 28, 11, 20);
  }

  lemma AbsorbsZero4(vs: seq<u5>, n: nat)
    requires n + 8 <= |vs| && vs[n..n + 8] == Eight(4, 15, 24, 20, 6, 14, 30, 22)
    requires After(vs, n) == State(21, 3, 16, 28, 11, 20)
    ensures After(vs, n + 8) == State(4, 23, 19, 17, 7, 13)
  {
    hide After, State, Five;
    Step(vs, n, 21, 3, 16, 28, 11, 20, 4, 4, 13, 2, 0, 19, 31);
    Step(vs, n + 1, 4, 13, 2, 0, 19, 31, 15, 2, 8, 2, 21, 16, 21);
    Step(vs, n + 2, 2, 8, 2, 21, 16, 21, 24, 27, 7, 20, 19, 6, 21);
    Step(vs, n + 3, 27, 7, 20, 19, 6, 21, 20, 2, 18, 10, 4, 16, 5);
    Step(vs, n + 4, 2, 18, 10, 4, 16, 5, 6, 1, 15, 5, 19, 22, 11);
    Step(vs, n + 5, 1, 15, 5, 19, 22, 11, 14, 18, 19, 7, 3, 22, 28);
    Step(vs, n + 6, 18, 19, 7, 3, 22, 28, 30, 21, 3, 10, 13, 26, 0);
    Step(vs, n + 7, 21, 3, 10, 13, 26, 0, 22, 4, 23, 19, 17, 7, 13);
  }

  lemma AbsorbsZero5(vs: seq<u5>, n: nat)
    requires n + 6 <= |vs| && vs[n..n + 6] == [Five(12), Five(7), Five(9), Five(17), Five(11), Five(21)]
    requires After(vs, n) == State(4, 23, 19, 17, 7, 13)
    ensures After(vs, n + 6) == State(0, 0, 0, 0, 0, 1)
  {
    hide After, State, Five;
    Step(vs, n, 4, 23, 19, 17, 7, 13, 12, 24, 25, 19, 1, 2, 22);
    Step(vs, n + 1, 24, 25, 19, 1, 2, 22, 7, 18, 6, 13, 22, 29, 9);
    Step(vs, n + 2, 18, 6, 13, 22, 29, 9, 9, 0, 9, 31, 6, 15, 23);
    Step(vs, n + 3, 0, 9, 31, 6, 15, 23, 17, 9, 31, 6, 15, 23, 17);
    Step(vs, n + 4, 9, 31, 6, 15, 23, 17, 11, 28, 4, 31, 14, 18, 4);
    Step(vs, n + 5, 28, 4, 31, 14, 18, 4, 21, 0, 0, 0, 0, 0, 1);
  }

  lemma AbsorbsSixteen0(vs: seq<u5>, n: nat)
    requires n < |vs| && vs[n] == Five(16)
    requires After(vs, n) == State(1, 3, 3, 0, 2, 3)
    ensures After(vs, n + 1) == State(30, 21, 20, 23, 30, 2)
  {
    hide After, State, Five;
    Step(vs, n, 1, 3, 3, 0, 2, 3, 16, 30, 21, 20, 23, 30, 2);
  }

  lemma AbsorbsSixteen1(vs: seq<u5>, n: nat)
    requires n + 4 <= |vs| && vs[n..n + 4] == [Five(14), Five(20), Five(15), Five(0)]
    requires After(vs, n) == State(30, 21, 20, 23, 30, 2)
    ensures After(vs, n + 4) == State(8, 6, 1, 6, 6, 26)
  {
    hide After, State, Five;
    Step(vs, n, 30, 21, 20, 23, 30, 2, 14, 2, 14, 24, 15, 21, 23);
    Step(vs, n + 1, 2, 14, 24, 15, 21, 23, 20, 29, 29, 14, 22, 4, 25);
    Step(vs, n + 2, 29, 29, 14, 22, 4, 25, 15, 4, 7, 12, 3, 0, 9);
    Step(vs, n + 3, 4, 7, 12, 3, 0, 9, 0, 8, 6, 1, 6, 6, 26);
  }

  lemma AbsorbsSixteen2(vs: seq<u5>, n: nat)
    requires n + 6 <= |vs| && vs[n..n + 6] == [Five(8), Five(13), Five(2), Five(10), Five(20), Five(18)]
    requires After(vs, n) == State(8, 6, 1, 6, 6, 26)
    ensures After(vs, n + 6) == State(21, 28, 16, 12, 5, 3)
  {
    hide After, State, Five;
    Step(vs, n, 8, 6, 1, 6, 6, 26, 8, 24, 21, 2, 10, 4, 21);
    Step(vs, n + 1, 24, 21, 2, 10, 4, 21, 13, 30, 23, 6, 16, 30, 3);
    Step(vs, n + 2, 30, 23, 6, 16, 30, 3, 2, 0, 28, 31, 15, 20, 27);
    Step(vs, n + 3, 0, 28, 31, 15, 20, 27, 10, 28, 31, 15, 20, 27, 10);
    Step(vs, n + 4, 28, 31, 15, 20, 27, 10, 20, 27, 16, 26, 9, 14, 0);
    Step(vs, n + 5, 27, 16, 26, 9, 14, 0, 18, 21, 28, 16, 12, 5, 3);
  }

  // ---- the groups and the characters ----------------------------------------

  lemma Fives0()
    ensures Five(0) == 0 && Five(1) == 1 && Five(2) == 2 && Five(3) == 3 && Five(4) == 4 && Five(5) == 5 && Five(6) == 6
    ensures Five(7) == 7 && Five(8) == 8 && Five(9) == 9 && Five(10) == 10 && Five(11) == 11 && Five(12) == 12
    ensures Five(13) == 13 && Five(14) == 14 && Five(15) == 15
  {
  }

  lemma Fives1()
    ensures Five(16) == 16 && Five(17) == 17 && Five(18) == 18 && Five(19) == 19 && Five(20) == 20 && Five(21) == 21
    ensures Five(22) == 22 && Five(23) == 23 && Five(24) == 24 && Five(25) == 25 && Five(26) == 26 && Five(27) == 27
    ensures Five(28) == 28 && Five(29) == 29 && Five(30) == 30 && Five(31) == 31
  {
  }

  /** Group 8 m + c lies across the bytes x and y. */
  lemma GroupAt(p: seq<u8>, m: nat, c: nat, x: u8, y: u8, w: nat)
    requires c < 8 && 5 * (8 * m + c) < 8 * |p|
    requires x == At(p, 5 * m + 5 * c / 8) && y == At(p, 5 * m + 5 * c / 8 + 1) && w == Pow2(11 - 5 * c % 8)
    ensures 8 * m + c < |Quintets(p)| && Quintets(p)[8 * m + c] == Two(x, y, w)
  {
    hide At, Two, Pow2, QuintetAt;
    QuintetIs(p, m, c);
  }

  lemma LastGroup(e: u8, next: u8)
    ensures Two(e, next, 256) == e % 32
  {
    assert (e * 256 + next) / 256 == e;
  }

  /** The eight groups of five bytes. */
  lemma GroupsOf(p: seq<u8>, m: nat, a: u8, b: u8, c: u8, d: u8, e: u8)
    requires 5 * m + 5 <= |p| && p[5 * m..5 * m + 5] == [a, b, c, d, e]
    ensures 8 * m + 8 <= |Quintets(p)|
    ensures Quintets(p)[8 * m..8 * m + 8] ==
            [Two(a, b, 2048), Two(a, b, 64), Two(b, c, 512), Two(b, c, 16), Two(c, d, 128), Two(d, e, 1024),
             Two(d, e, 32), e % 32]
  {
    hide Two, Pow2, At, Quintets;
    var q := Quintets(p);
    Powers();
    BytesAt(p, m, a, b, c, d, e);
    LastGroup(e, At(p, 5 * m + 5));
    GroupAt(p, m, 0, a, b, 2048); GroupAt(p, m, 1, a, b, 64); GroupAt(p, m, 2, b, c, 512); GroupAt(p, m, 3, b, c, 16);
    GroupAt(p, m, 4, c, d, 128); GroupAt(p, m, 5, d, e, 1024); GroupAt(p, m, 6, d, e, 32);
    GroupAt(p, m, 7, e, At(p, 5 * m + 5), 256);
  }

  lemma BytesAt(p: seq<u8>, m: nat, a: u8, b: u8, c: u8, d: u8, e: u8)
    requires 5 * m + 5 <= |p| && p[5 * m..5 * m + 5] == [a, b, c, d, e]
    ensures At(p, 5 * m) == a && At(p, 5 * m + 1) == b && At(p, 5 * m + 2) == c && At(p, 5 * m + 3) == d
    ensures At(p, 5 * m + 4) == e
  {
    var s := p[5 * m..5 * m + 5];
    assert s[0] == a && s[1] == b && s[2] == c && s[3] == d && s[4] == e;
  }

  predicate Names(v: u5, c: char) {
    c == if v < 8 then "qpzry9x8"[v] else if v < 16 then "gf2tvdw0"[v - 8]
         else if v < 24 then "s3jn54kh"[v - 16] else "ce6mua7l"[v - 24]
  }

  // ---- the two addresses ----------------------------------------------------

  const PROGRAM0: seq<u8> :=
    [0x75, 0x1e, 0x76, 0xe8, 0x19] + [0x91, 0x96, 0xd4, 0x54, 0x94] + [0x1c, 0x45, 0xd1, 0xb3, 0xa3] +
    [0x23, 0xf1, 0x43, 0x3b, 0xd6]

  /** Eight groups on words. */
  lemma TwoAre(a: u8, b: u8, c: u8, d: u8, e: u8, q0: b5, q1: b5, q2: b5, q3: b5, q4: b5, q5: b5, q6: b5, q7: b5)
    requires Five(q0) == Two(a, b, 2048) && Five(q1) == Two(a, b, 64) && Five(q2) == Two(b, c, 512)
    requires Five(q3) == Two(b, c, 16) && Five(q4) == Two(c, d, 128) && Five(q5) == Two(d, e, 1024)
    requires Five(q6) == Two(d, e, 32) && Five(q7) == e % 32
    ensures [Two(a, b, 2048), Two(a, b, 64), Two(b, c, 512), Two(b, c, 16), Two(c, d, 128), Two(d, e, 1024),
             Two(d, e, 32), e % 32] == Eight(q0, q1, q2, q3, q4, q5, q6, q7)
  {
    hide Five, Two;
  }

  lemma Groups0()
    ensures |Quintets(PROGRAM0)| == 32 && Quintets(PROGRAM0)[0..8] == Eight(14, 20, 15, 7, 13, 26, 0, 25)
  {
    assert PROGRAM0[0..5] == [0x75, 0x1e, 0x76, 0xe8, 0x19];
    hide At, Quintets, Pow2;
    GroupsOf(PROGRAM0, 0, 0x75, 0x1e, 0x76, 0xe8, 0x19);
    TwoAre(0x75, 0x1e, 0x76, 0xe8, 0x19, 14, 20, 15, 7, 13, 26, 0, 25);
  }

  lemma Groups1()
    ensures |Quintets(PROGRAM0)| == 32 && Quintets(PROGRAM0)[8..16] == Eight(18, 6, 11, 13, 8, 21, 4, 20)
  {
    assert PROGRAM0[5..10] == [0x91, 0x96, 0xd4, 0x54, 0x94];
    hide At, Quintets, Pow2;
    GroupsOf(PROGRAM0, 1, 0x91, 0x96, 0xd4, 0x54, 0x94);
    TwoAre(0x91, 0x96, 0xd4, 0x54, 0x94, 18, 6, 11, 13, 8, 21, 4, 20);
  }

  lemma Groups2()
    ensures |Quintets(PROGRAM0)| == 32 && Quintets(PROGRAM0)[16..24] == Eight(3, 17, 2, 29, 3, 12, 29, 3)
  {
    assert PROGRAM0[10..15] == [0x1c, 0x45, 0xd1, 0xb3, 0xa3];
    hide At, Quintets, Pow2;
    GroupsOf(PROGRAM0, 2, 0x1c, 0x45, 0xd1, 0xb3, 0xa3);
    TwoAre(0x1c, 0x45, 0xd1, 0xb3, 0xa3, 3, 17, 2, 29, 3, 12, 29, 3);
  }

  lemma Groups3()
    ensures |Quintets(PROGRAM0)| == 32 && Quintets(PROGRAM0)[24..32] == Eight(4, 15, 24, 20, 6, 14, 30, 22)
  {
    assert PROGRAM0[15..20] == [0x23, 0xf1, 0x43, 0x3b, 0xd6];
    hide At, Quintets, Pow2;
    GroupsOf(PROGRAM0, 3, 0x23, 0xf1, 0x43, 0x3b, 0xd6);
    TwoAre(0x23, 0xf1, 0x43, 0x3b, 0xd6, 4, 15, 24, 20, 6, 14, 30, 22);
  }

  lemma CharNames(v: u5)
    ensures |CHARSET| == 32 && Names(v, CHARSET[v])
  {
    CharsetSize();
    if v < 8 { CharsetRow0(v); } else if v < 16 { CharsetRow1(v); } else if v < 24 { CharsetRow2(v); } else {
      CharsetRow3(v);
    }
  }

  lemma SameName(v: u5, c: char, d: char)
    requires Names(v, c) && Names(v, d)
    ensures c == d
  {
  }

  /** The text of a list of groups is the one that names them. */
  lemma CharsAre(vs: seq<u5>, s: string)
    requires |s| == |vs| && forall i :: 0 <= i < |vs| ==> Names(vs[i], s[i])
    ensures Chars(vs) == s
  {
    hide Names;
    forall i | 0 <= i < |vs| ensures Chars(vs)[i] == s[i] {
      CharNames(vs[i]);
      SameName(vs[i], CHARSET[vs[i]], s[i]);
    }
  }

  lemma ZeroChars()
    ensures Chars([14, 20, 15, 7, 13, 26, 0, 25]) == "w508d6qe" && Chars([18, 6, 11, 13, 8, 21, 4, 20]) == "jxtdg4y5"
  {
    hide Chars;
    CharsAre([14, 20, 15, 7, 13, 26, 0, 25], "w508d6qe");
    CharsAre([18, 6, 11, 13, 8, 21, 4, 20], "jxtdg4y5");
  }

  lemma MoreZeroChars()
    ensures Chars([3, 17, 2, 29, 3, 12, 29, 3]) == "r3zarvar" && Chars([4, 15, 24, 20, 6, 14, 30, 22]) == "y0c5xw7k"
  {
    hide Chars;
    CharsAre([3, 17, 2, 29, 3, 12, 29, 3], "r3zarvar");
    CharsAre([4, 15, 24, 20, 6, 14, 30, 22], "y0c5xw7k");
  }

  lemma EndChars()
    ensures Chars([0]) == "q" && Chars([12, 7, 9, 17, 11, 21]) == "v8f3t4"
    ensures Chars([16]) == "s" && Chars([14, 20, 15, 0]) == "w50q" && Chars([8, 13, 2, 10, 20, 18]) == "gdz25j"
  {
    hide Chars;
    CharsAre([0], "q");
    CharsAre([12, 7, 9, 17, 11, 21], "v8f3t4");
    CharsAre([16], "s");
    CharsAre([14, 20, 15, 0], "w50q");
    CharsAre([8, 13, 2, 10, 20, 18], "gdz25j");
  }

  lemma PrefixValues()
    ensures Plain("bc") && NoUpper("bc") && HrpValues("bc") == [Five(3), Five(3), Five(0), Five(2), Five(3)]
  {
    Fives0();
    assert HighBits("bc") == [3, 3] && LowBits("bc") == [2, 3];
  }

  const SIX0: seq<u5> := [12, 7, 9, 17, 11, 21]
  const SIX16: seq<u5> := [8, 13, 2, 10, 20, 18]

  lemma Middle(a: seq<u5>, q: seq<u5>, c: seq<u5>, i: nat, j: nat)
    requires i <= j <= |q|
    ensures var vs := a + q + c; |a| + j <= |vs| && vs[|a| + i..|a| + j] == q[i..j]
  {
  }

  /** The 44 values of the version 0 address close on 1. */
  lemma ZeroCloses()
    ensures Plain("bc") && Absorbed(HrpValues("bc") + ([0] + Quintets(PROGRAM0)) + SIX0) == 1
  {
    hide Absorbed, After, State, Five, Quintets, HrpValues, Eight;
    PrefixValues();
    Fives0();
    Fives1();
    var a := HrpValues("bc") + [0];
    var q := Quintets(PROGRAM0);
    var vs := HrpValues("bc") + ([0] + q) + SIX0;
    Groups0(); Groups1(); Groups2(); Groups3();
    assert vs == a + q + SIX0;
    Middle(a, q, SIX0, 0, 8); Middle(a, q, SIX0, 8, 16); Middle(a, q, SIX0, 16, 24); Middle(a, q, SIX0, 24, 32);
    assert vs[0..5] == HrpValues("bc") && vs[5] == 0 && vs[38..44] == SIX0;
    ZeroRun(vs);
  }

  lemma ZeroRun(vs: seq<u5>)
    requires |vs| == 44 && vs[0..5] == [Five(3), Five(3), Five(0), Five(2), Five(3)] && vs[5] == Five(0)
    requires vs[6..14] == Eight(14, 20, 15, 7, 13, 26, 0, 25) && vs[14..22] == Eight(18, 6, 11, 13, 8, 21, 4, 20)
    requires vs[22..30] == Eight(3, 17, 2, 29, 3, 12, 29, 3) && vs[30..38] == Eight(4, 15, 24, 20, 6, 14, 30, 22)
    requires vs[38..44] == [Five(12), Five(7), Five(9), Five(17), Five(11), Five(21)]
    ensures Absorbed(vs) == 1
  {
    hide *;
    StartState(vs);
    AbsorbsPrefix(vs, 0);
    AbsorbsZero0(vs, 5);
    AbsorbsZero1(vs, 6);
    AbsorbsZero2(vs, 14);
    AbsorbsZero3(vs, 22);
    AbsorbsZero4(vs, 30);
    AbsorbsZero5(vs, 38);
    AbsorbedIs(vs, 44);
    assert vs[..44] == vs;
    EndOnOne();
  }

  lemma StartState(vs: seq<u5>)
    ensures After(vs, 0) == State(0, 0, 0, 0, 0, 1)
  {
    Fives0();
    hide Five;
  }

  lemma EndOnOne()
    ensures Number(State(0, 0, 0, 0, 0, 1)) == 1
  {
    Fives0();
    hide Five;
  }

  /** The 16 values of the version 16 address close on the Bech32m constant. */
  lemma SixteenCloses()
    ensures Plain("bc") && Absorbed(HrpValues("bc") + ([16] + Quintets([0x75, 0x1e])) + SIX16) == 0x2bc8_30a3
  {
    hide Absorbed, After, State, Five, Quintets, HrpValues;
    PrefixValues();
    Fives0();
    Fives1();
    ShortGroups();
    var q := Quintets([0x75, 0x1e]);
    var vs := HrpValues("bc") + ([16] + q) + SIX16;
    assert vs[0..5] == HrpValues("bc") && vs[5] == 16 && vs[6..10] == q && vs[10..16] == SIX16;
    SixteenRun(vs);
  }

  lemma ShortGroups()
    ensures Quintets([0x75, 0x1e]) == [14, 20, 15, 0]
  {
    hide Quintets, QuintetAt, Pow2;
    var p: seq<u8> := [0x75, 0x1e];
    assert At(p, 0) == 0x75 && At(p, 1) == 0x1e && At(p, 2) == 0;
    Powers();
    GroupAt(p, 0, 0, 0x75, 0x1e, 2048);
    GroupAt(p, 0, 1, 0x75, 0x1e, 64);
    GroupAt(p, 0, 2, 0x1e, 0, 512);
    GroupAt(p, 0, 3, 0x1e, 0, 16);
  }

  lemma SixteenRun(vs: seq<u5>)
    requires |vs| == 16 && vs[0..5] == [Five(3), Five(3), Five(0), Five(2), Five(3)] && vs[5] == Five(16)
    requires vs[6..10] == [Five(14), Five(20), Five(15), Five(0)]
    requires vs[10..16] == [Five(8), Five(13), Five(2), Five(10), Five(20), Five(18)]
    ensures Absorbed(vs) == 0x2bc8_30a3
  {
    hide *;
    StartState(vs);
    AbsorbsPrefix(vs, 0);
    AbsorbsSixteen0(vs, 5);
    AbsorbsSixteen1(vs, 6);
    AbsorbsSixteen2(vs, 10);
    AbsorbedIs(vs, 16);
    assert vs[..16] == vs;
    EndOnBech32m();
  }

  lemma EndOnBech32m()
    ensures Number(State(21, 28, 16, 12, 5, 3)) == 0x2bc8_30a3
  {
    Fives0();
    Fives1();
    hide Five;
  }

  lemma AddressIs(hrp: string, ver: u5, program: seq<u8>, six: seq<u5>, k: nat)
    requires Plain(hrp) && |six| == 6 && k == Constant(ver)
    requires Absorbed(HrpValues(hrp) + ([ver] + Quintets(program)) + six) == k
    ensures AddressOf(hrp, ver, program) == hrp + "1" + (Chars([ver]) + Chars(Quintets(program))) + Chars(six)
  {
    ClosesOnly(HrpValues(hrp) + ([ver] + Quintets(program)), six, k);
    CharsConcat([ver], Quintets(program));
    hide Constant, Absorbed, HrpValues, Quintets, Chars, SixOf;
  }

  lemma ZeroText()
    ensures Chars(Quintets(PROGRAM0)) == "w508d6qe" + "jxtdg4y5" + "r3zarvar" + "y0c5xw7k"
  {
    hide Quintets, Chars, Five;
    var q := Quintets(PROGRAM0);
    Groups0(); Groups1(); Groups2(); Groups3();
    Fives0();
    Fives1();
    assert q == q[0..8] + q[8..16] + q[16..24] + q[24..32];
    CharsConcat(q[0..8] + q[8..16] + q[16..24], q[24..32]);
    CharsConcat(q[0..8] + q[8..16], q[16..24]);
    CharsConcat(q[0..8], q[8..16]);
    ZeroChars();
    MoreZeroChars();
  }

  lemma AddressLength(hrp: string, ver: u5, program: seq<u8>)
    requires Plain(hrp)
    ensures |AddressOf(hrp, ver, program)| == |hrp| + 8 + (8 * |program| + 4) / 5
  {
    hide Absorbed, HrpValues, Constant;
  }

  /** Decoding an address of the prefix bc reads what was written. */
  lemma DecodesBack(hrp: string, op: u8, ver: u5, program: seq<u8>)
    requires hrp == "bc" && Plain(hrp) && NoUpper(hrp)
    requires (op == 0 || 0x51 <= op <= 0x60) && ver == Version(op) && 2 <= |program| <= 40
    ensures DecodeOf(AddressOf(hrp, ver, program)) == Some(Decoded(hrp, [op, |program|] + program))
  {
    hide AddressOf, DecodeOf, Plain, NoUpper;
    var data := [op, |program|] + program;
    assert data[2..] == program;
    AddressLength(hrp, ver, program);
    DecodeEncode(hrp, data);
  }

  const ZERO_ADDRESS: string := "bc1q" + ("w508d6qe" + "jxtdg4y5" + "r3zarvar" + "y0c5xw7k") + "v8f3t4"
  const SIXTEEN_ADDRESS: string := "bc1s" + "w50q" + "gdz25j"

  lemma Joined(t: string, c: string, six: string)
    requires |c| == 1
    ensures "bc" + "1" + (c + t) + six == "bc1" + c + t + six
  {
  }

  lemma Heads()
    ensures "bc1" + "q" == "bc1q" && "bc1" + "s" == "bc1s"
  {
  }

  /** The address BIP 173 gives for the version 0 program of 20 bytes. */
  lemma Bip173Address()
    ensures Plain("bc") && AddressOf("bc", 0, PROGRAM0) == ZERO_ADDRESS
    ensures DecodeOf(ZERO_ADDRESS) == Some(Decoded("bc", [0, 20] + PROGRAM0))
  {
    hide Absorbed, HrpValues, Quintets, Chars, SixOf, AddressOf, DecodeOf, Plain, NoUpper;
    ZeroCloses();
    PrefixValues();
    AddressIs("bc", 0, PROGRAM0, SIX0, 1);
    DecodesBack("bc", 0, 0, PROGRAM0);
    ZeroText();
    EndChars();
    Joined("w508d6qe" + "jxtdg4y5" + "r3zarvar" + "y0c5xw7k", "q", "v8f3t4");
    Heads();
  }

  /** The address BIP 350 gives for the version 16 program of two bytes, in lower case. */
  lemma Bip350Address()
    ensures Plain("bc") && AddressOf("bc", 16, [0x75, 0x1e]) == SIXTEEN_ADDRESS
    ensures DecodeOf(SIXTEEN_ADDRESS) == Some(Decoded("bc", [0x60, 2, 0x75, 0x1e]))
  {
    hide Absorbed, HrpValues, Quintets, Chars, SixOf, AddressOf, DecodeOf, Plain, NoUpper;
    SixteenCloses();
    PrefixValues();
    AddressIs("bc", 16, [0x75, 0x1e], SIX16, 0x2bc8_30a3);
    DecodesBack("bc", 0x60, 16, [0x75, 0x1e]);
    ShortGroups();
    EndChars();
    Joined("w50q", "s", "gdz25j");
    Heads();
    assert [0x60, 2] + [0x75, 0x1e] == [0x60, 2, 0x75, 0x1e];
  }
}
