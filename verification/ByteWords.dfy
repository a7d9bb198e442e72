/** Bytes as machine words, where constants fold. */
module ByteWords {
  // What an exclusive or of two bytes is can be read off the words; the words
  // of two bytes differ when the bytes do.

  import opened FixedWidth
  import opened Arithmetic
  import opened ExclusiveOr

  function Word(x: u8): bv8 { x as bv8 }

  lemma BitsAt(x: u8)
    ensures (Bit(x, 0) <==> x % 2 == 1) && (Bit(x, 1) <==> x / 2 % 2 == 1) && (Bit(x, 2) <==> x / 4 % 2 == 1)
    ensures (Bit(x, 3) <==> x / 8 % 2 == 1) && (Bit(x, 4) <==> x / 16 % 2 == 1) && (Bit(x, 5) <==> x / 32 % 2 == 1)
    ensures (Bit(x, 6) <==> x / 64 % 2 == 1) && (Bit(x, 7) <==> x / 128 % 2 == 1)
  {
    var x1, x2, x3 := x / 2, x / 4, x / 8;
    var x4, x5, x6 := x / 16, x / 32, x / 64;
    assert x1 / 2 == x2 && x2 / 2 == x3 && x3 / 2 == x4 && x4 / 2 == x5 && x5 / 2 == x6 && x6 / 2 == x / 128;
    assert Bit(x, 1) == Bit(x1, 0) && Bit(x, 2) == Bit(x1, 1) == Bit(x2, 0);
    assert Bit(x, 3) == Bit(x1, 2) == Bit(x2, 1) == Bit(x3, 0);
    assert Bit(x, 4) == Bit(x1, 3) == Bit(x2, 2) == Bit(x3, 1) == Bit(x4, 0);
    assert Bit(x, 5) == Bit(x1, 4) == Bit(x2, 3) == Bit(x3, 2) == Bit(x4, 1) == Bit(x5, 0);
    assert Bit(x, 6) == Bit(x1, 5) == Bit(x2, 4) == Bit(x3, 3) == Bit(x4, 2) == Bit(x5, 1) == Bit(x6, 0);
    assert Bit(x, 7) == Bit(x1, 6) == Bit(x2, 5) == Bit(x3, 4) == Bit(x4, 3) == Bit(x5, 2) == Bit(x6, 1);
  }

  lemma WordBits(x: u8)
    ensures (Word(x) & 0x01 == 0x01 <==> Bit(x, 0)) && (Word(x) & 0x02 == 0x02 <==> Bit(x, 1))
    ensures (Word(x) & 0x04 == 0x04 <==> Bit(x, 2)) && (Word(x) & 0x08 == 0x08 <==> Bit(x, 3))
    ensures (Word(x) & 0x10 == 0x10 <==> Bit(x, 4)) && (Word(x) & 0x20 == 0x20 <==> Bit(x, 5))
    ensures (Word(x) & 0x40 == 0x40 <==> Bit(x, 6)) && (Word(x) & 0x80 == 0x80 <==> Bit(x, 7))
  {
    BitsAt(x);
    hide Bit;
  }

  /** A word stands for one byte. */
  lemma WordsApart(x: u8, y: u8)
    requires Word(x) == Word(y)
    ensures x == y
  {
    hide Word, Bit, BitOf;
    WordBits(x);
    WordBits(y);
    assert Bit(x, 0) == Bit(y, 0) && Bit(x, 1) == Bit(y, 1) && Bit(x, 2) == Bit(y, 2) && Bit(x, 3) == Bit(y, 3);
    assert Bit(x, 4) == Bit(y, 4) && Bit(x, 5) == Bit(y, 5) && Bit(x, 6) == Bit(y, 6) && Bit(x, 7) == Bit(y, 7);
    SameBytes(x, y);
  }

  function BitOf(x: u8, i: nat): nat { if Bit(x, i) then 1 else 0 }

  lemma SameBytes(x: u8, y: u8)
    requires Bit(x, 0) == Bit(y, 0) && Bit(x, 1) == Bit(y, 1) && Bit(x, 2) == Bit(y, 2) && Bit(x, 3) == Bit(y, 3)
    requires Bit(x, 4) == Bit(y, 4) && Bit(x, 5) == Bit(y, 5) && Bit(x, 6) == Bit(y, 6) && Bit(x, 7) == Bit(y, 7)
    ensures x == y
  {
    assert BitOf(x, 0) == BitOf(y, 0) && BitOf(x, 1) == BitOf(y, 1) && BitOf(x, 2) == BitOf(y, 2);
    assert BitOf(x, 3) == BitOf(y, 3) && BitOf(x, 4) == BitOf(y, 4) && BitOf(x, 5) == BitOf(y, 5);
    assert BitOf(x, 6) == BitOf(y, 6) && BitOf(x, 7) == BitOf(y, 7);
    hide BitOf, Bit;
    BitsMake(x);
    BitsMake(y);
  }

  lemma BitsMake(x: u8)
    ensures x == BitOf(x, 0) + 2 * BitOf(x, 1) + 4 * BitOf(x, 2) + 8 * BitOf(x, 3) + 16 * BitOf(x, 4) +
                 32 * BitOf(x, 5) + 64 * BitOf(x, 6) + 128 * BitOf(x, 7)
  {
    BitsAt(x);
    assert BitOf(x, 0) == x % 2 && BitOf(x, 1) == x / 2 % 2 && BitOf(x, 2) == x / 4 % 2 && BitOf(x, 3) == x / 8 % 2;
    assert BitOf(x, 4) == x / 16 % 2 && BitOf(x, 5) == x / 32 % 2 && BitOf(x, 6) == x / 64 % 2;
    assert BitOf(x, 7) == x / 128 % 2;
    hide BitOf, Bit;
    BinarySum(x);
  }

  lemma BinarySum(x: u8)
    ensures x == x % 2 + 2 * (x / 2 % 2) + 4 * (x / 4 % 2) + 8 * (x / 8 % 2) + 16 * (x / 16 % 2) + 32 * (x / 32 % 2) +
                 64 * (x / 64 % 2) + 128 * (x / 128 % 2)
  {
    assert x / 2 / 2 == x / 4 && x / 4 / 2 == x / 8 && x / 8 / 2 == x / 16;
    assert x / 16 / 2 == x / 32 && x / 32 / 2 == x / 64 && x / 64 / 2 == x / 128 && x / 128 / 2 == 0;
  }

  lemma WordXor(x: u8, y: u8)
    ensures Xor(x, y) < 256 && Word(Xor(x, y)) == Word(x) ^ Word(y)
  {
    hide Word, Bit, Xor;
    Pow2Values();
    XorBound(x, y, 8);
    var z := Xor(x, y);
    WordBits(x);
    WordBits(y);
    WordBits(z);
    XorBit(x, y, 0); XorBit(x, y, 1); XorBit(x, y, 2); XorBit(x, y, 3);
    XorBit(x, y, 4); XorBit(x, y, 5); XorBit(x, y, 6); XorBit(x, y, 7);
  }

  lemma SmallWords()
    ensures Word(0) == 0 && Word(1) == 1 && Word(0x1b) == 0x1b && Word(0x63) == 0x63
  {
  }

  /** The bits above do not matter. */
  lemma {:induction false} BitLow(y: nat, k: nat, m: nat, i: nat)
    requires i < k
    ensures Bit(y + Pow2(k) * m, i) == Bit(y, i)
    decreases i
  {
    var rest := Pow2(k - 1) * m;
    Pow2Step(k);
    MulAssociates(2, Pow2(k - 1), m);
    assert (y + 2 * rest) / 2 == y / 2 + rest && (y + 2 * rest) % 2 == y % 2;
    if i > 0 { BitLow(y / 2, k - 1, m, i - 1); }
  }
}
