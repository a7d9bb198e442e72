/** The substitution box and the field. */
module AesBox {
  // Section 5.1.1 of FIPS 197: the box is the affine map of the inverse in the
  // byte field of section 4.2. Its 256 entries are decided on machine words,
  // where constants fold, and carried over to the numbers the cipher works on.

  import opened FixedWidth
  import opened Arithmetic
  import opened ExclusiveOr
  import opened AesTables
  import opened AesField
  import opened ByteWords

  // ---- the field ------------------------------------------------------------

  /** a times the low n bits of b, highest first: multiplication by two is Xt, addition is exclusive or. */
  function TimesLow(a: u8, b: nat, n: nat): u8 {
    if n == 0 then 0 else
    var rest := Xt(TimesLow(a, b / 2, n - 1));
    if b % 2 == 1 then Xor8(a, rest) else rest
  }

  /** Multiplication in the field. */
  function Times(a: u8, b: u8): u8 { TimesLow(a, b, 8) }

  /** Bit i of the affine map of w: bits i, i + 4, i + 5, i + 6 and i + 7 of w, around the byte, and bit i of 0x63. */
  predicate AffineBit(w: u8, i: nat) {
    Bit(w, i) != (Bit(w, (i + 4) % 8) != (Bit(w, (i + 5) % 8) != (Bit(w, (i + 6) % 8) !=
    (Bit(w, (i + 7) % 8) != Bit(0x63, i)))))
  }

  // ---- on words -------------------------------------------------------------

  lemma WordTwice(x: u8)
    ensures Word(2 * x % 256) == Word(x) << 1
  {
    hide Word, Bit;
    WordBits(x);
    WordBits(2 * x % 256);
    TwiceBits(x);
  }

  lemma TwiceBits(x: u8)
    ensures !Bit(2 * x % 256, 0) && forall i: nat {:trigger Bit(x, i)} :: i < 7 ==> Bit(2 * x % 256, i + 1) == Bit(x, i)
  {
    var d, q := 2 * x % 256, 2 * x / 256;
    EightBits();
    assert 2 * x == d + Pow2(8) * q;
    BitLow(d, 8, q, 0);
    assert 2 * x / 2 == x;
    forall i: nat | i < 7 ensures Bit(d, i + 1) == Bit(x, i) { BitLow(d, 8, q, i + 1); }
  }

  function Doubled(a: bv8): bv8 { (a << 1) ^ (if a & 0x80 == 0x80 then 0x1b else 0) }

  lemma WordXt(x: u8)
    ensures Word(Xt(x)) == Doubled(Word(x))
  {
    hide Word, Bit, Xor8, Xor;
    var top := x / 128 % 2 * 0x1b;
    assert Xt(x) == Xor8(2 * x % 256, top) by { EightBits(); XorCuts(2 * x, top, 8); }
    WordXor(2 * x % 256, top);
    WordTwice(x);
    WordBits(x);
    BitsAt(x);
    SmallWords();
  }

  /** One step of the product, for one bit of b. */
  function Stepped(a: bv8, c: bool, t: bv8): bv8 { if c then a ^ Doubled(t) else Doubled(t) }

  function Multiplied(a: bv8, b: bv8): bv8 {
    var h4 := Stepped(a, b & 0x10 == 0x10, Stepped(a, b & 0x20 == 0x20, Stepped(a, b & 0x40 == 0x40,
              Stepped(a, b & 0x80 == 0x80, 0))));
    Stepped(a, b & 0x01 == 0x01, Stepped(a, b & 0x02 == 0x02, Stepped(a, b & 0x04 == 0x04,
    Stepped(a, b & 0x08 == 0x08, h4))))
  }

  lemma TimesStep(a: u8, b: nat, n: nat)
    requires n > 0
    ensures Word(TimesLow(a, b, n)) == Stepped(Word(a), b % 2 == 1, Word(TimesLow(a, b / 2, n - 1)))
  {
    hide Word, Xt, Doubled;
    var rest := TimesLow(a, b / 2, n - 1);
    WordXt(rest);
    WordXor(a, Xt(rest));
  }

  lemma WordTimes(a: u8, b: u8)
    ensures Word(Times(a, b)) == Multiplied(Word(a), Word(b))
  {
    hide Word, Stepped, TimesLow, Bit;
    WordBits(b);
    BitsAt(b);
    var b1, b2, b3, b4, b5, b6, b7 := b / 2, b / 4, b / 8, b / 16, b / 32, b / 64, b / 128;
    assert b1 / 2 == b2 && b2 / 2 == b3 && b3 / 2 == b4 && b4 / 2 == b5 && b5 / 2 == b6 && b6 / 2 == b7;
    TimesStep(a, b, 8); TimesStep(a, b1, 7); TimesStep(a, b2, 6); TimesStep(a, b3, 5);
    TimesStep(a, b4, 4); TimesStep(a, b5, 3); TimesStep(a, b6, 2); TimesStep(a, b7, 1);
    TimesNone(a, b7 / 2);
  }

  lemma TimesNone(a: u8, b: nat)
    ensures Word(TimesLow(a, b, 0)) == 0
  {
    SmallWords();
  }

  // ---- the affine map -------------------------------------------------------

  function Mapped(w: bv8): bv8 {
    w ^ ((w >> 4) | (w << 4)) ^ ((w >> 5) | (w << 3)) ^ ((w >> 6) | (w << 2)) ^ ((w >> 7) | (w << 1)) ^ 0x63
  }

  function Unmapped(s: bv8): bv8 { ((s << 1) | (s >> 7)) ^ ((s << 3) | (s >> 5)) ^ ((s << 6) | (s >> 2)) ^ 0x05 }

  lemma MappedUnmapped(s: bv8)
    ensures Mapped(Unmapped(s)) == s
  {
  }

  // ---- every entry ----------------------------------------------------------

  /** On words: s is the affine map of v's inverse, or of zero for zero. */
  predicate Entry(v: u8, s: u8) {
    var w := Unmapped(s as bv8);
    if v == 0 then w == 0 else Multiplied(v as bv8, w) == 1
  }

  lemma Entries0()
    ensures Entry(0x00, 0x63) && Entry(0x01, 0x7c) && Entry(0x02, 0x77) && Entry(0x03, 0x7b)
    ensures Entry(0x04, 0xf2) && Entry(0x05, 0x6b) && Entry(0x06, 0x6f) && Entry(0x07, 0xc5)
    ensures Entry(0x08, 0x30) && Entry(0x09, 0x01) && Entry(0x0a, 0x67) && Entry(0x0b, 0x2b)
    ensures Entry(0x0c, 0xfe) && Entry(0x0d, 0xd7) && Entry(0x0e, 0xab) && Entry(0x0f, 0x76)
  {
  }

  lemma Entries1()
    ensures Entry(0x10, 0xca) && Entry(0x11, 0x82) && Entry(0x12, 0xc9) && Entry(0x13, 0x7d)
    ensures Entry(0x14, 0xfa) && Entry(0x15, 0x59) && Entry(0x16, 0x47) && Entry(0x17, 0xf0)
    ensures Entry(0x18, 0xad) && Entry(0x19, 0xd4) && Entry(0x1a, 0xa2) && Entry(0x1b, 0xaf)
    ensures Entry(0x1c, 0x9c) && Entry(0x1d, 0xa4) && Entry(0x1e, 0x72) && Entry(0x1f, 0xc0)
  {
  }

  lemma Entries2()
    ensures Entry(0x20, 0xb7) && Entry(0x21, 0xfd) && Entry(0x22, 0x93) && Entry(0x23, 0x26)
    ensures Entry(0x24, 0x36) && Entry(0x25, 0x3f) && Entry(0x26, 0xf7) && Entry(0x27, 0xcc)
    ensures Entry(0x28, 0x34) && Entry(0x29, 0xa5) && Entry(0x2a, 0xe5) && Entry(0x2b, 0xf1)
    ensures Entry(0x2c, 0x71) && Entry(0x2d, 0xd8) && Entry(0x2e, 0x31) && Entry(0x2f, 0x15)
  {
  }

  lemma Entries3()
    ensures Entry(0x30, 0x04) && Entry(0x31, 0xc7) && Entry(0x32, 0x23) && Entry(0x33, 0xc3)
    ensures Entry(0x34, 0x18) && Entry(0x35, 0x96) && Entry(0x36, 0x05) && Entry(0x37, 0x9a)
    ensures Entry(0x38, 0x07) && Entry(0x39, 0x12) && Entry(0x3a, 0x80) && Entry(0x3b, 0xe2)
    ensures Entry(0x3c, 0xeb) && Entry(0x3d, 0x27) && Entry(0x3e, 0xb2) && Entry(0x3f, 0x75)
  {
  }

  lemma Entries4()
    ensures Entry(0x40, 0x09) && Entry(0x41, 0x83) && Entry(0x42, 0x2c) && Entry(0x43, 0x1a)
    ensures Entry(0x44, 0x1b) && Entry(0x45, 0x6e) && Entry(0x46, 0x5a) && Entry(0x47, 0xa0)
    ensures Entry(0x48, 0x52) && Entry(0x49, 0x3b) && Entry(0x4a, 0xd6) && Entry(0x4b, 0xb3)
    ensures Entry(0x4c, 0x29) && Entry(0x4d, 0xe3) && Entry(0x4e, 0x2f) && Entry(0x4f, 0x84)
  {
  }

  lemma Entries5()
    ensures Entry(0x50, 0x53) && Entry(0x51, 0xd1) && Entry(0x52, 0x00) && Entry(0x53, 0xed)
    ensures Entry(0x54, 0x20) && Entry(0x55, 0xfc) && Entry(0x56, 0xb1) && Entry(0x57, 0x5b)
    ensures Entry(0x58, 0x6a) && Entry(0x59, 0xcb) && Entry(0x5a, 0xbe) && Entry(0x5b, 0x39)
    ensures Entry(0x5c, 0x4a) && Entry(0x5d, 0x4c) && Entry(0x5e, 0x58) && Entry(0x5f, 0xcf)
  {
  }

  lemma Entries6()
    ensures Entry(0x60, 0xd0) && Entry(0x61, 0xef) && Entry(0x62, 0xaa) && Entry(0x63, 0xfb)
    ensures Entry(0x64, 0x43) && Entry(0x65, 0x4d) && Entry(0x66, 0x33) && Entry(0x67, 0x85)
    ensures Entry(0x68, 0x45) && Entry(0x69, 0xf9) && Entry(0x6a, 0x02) && Entry(0x6b, 0x7f)
    ensures Entry(0x6c, 0x50) && Entry(0x6d, 0x3c) && Entry(0x6e, 0x9f) && Entry(0x6f, 0xa8)
  {
  }

  lemma Entries7()
    ensures Entry(0x70, 0x51) && Entry(0x71, 0xa3) && Entry(0x72, 0x40) && Entry(0x73, 0x8f)
    ensures Entry(0x74, 0x92) && Entry(0x75, 0x9d) && Entry(0x76, 0x38) && Entry(0x77, 0xf5)
    ensures Entry(0x78, 0xbc) && Entry(0x79, 0xb6) && Entry(0x7a, 0xda) && Entry(0x7b, 0x21)
    ensures Entry(0x7c, 0x10) && Entry(0x7d, 0xff) && Entry(0x7e, 0xf3) && Entry(0x7f, 0xd2)
  {
  }

  lemma Entries8()
    ensures Entry(0x80, 0xcd) && Entry(0x81, 0x0c) && Entry(0x82, 0x13) && Entry(0x83, 0xec)
    ensures Entry(0x84, 0x5f) && Entry(0x85, 0x97) && Entry(0x86, 0x44) && Entry(0x87, 0x17)
    ensures Entry(0x88, 0xc4) && Entry(0x89, 0xa7) && Entry(0x8a, 0x7e) && Entry(0x8b, 0x3d)
    ensures Entry(0x8c, 0x64) && Entry(0x8d, 0x5d) && Entry(0x8e, 0x19) && Entry(0x8f, 0x73)
  {
  }

  lemma Entries9()
    ensures Entry(0x90, 0x60) && Entry(0x91, 0x81) && Entry(0x92, 0x4f) && Entry(0x93, 0xdc)
    ensures Entry(0x94, 0x22) && Entry(0x95, 0x2a) && Entry(0x96, 0x90) && Entry(0x97, 0x88)
    ensures Entry(0x98, 0x46) && Entry(0x99, 0xee) && Entry(0x9a, 0xb8) && Entry(0x9b, 0x14)
    ensures Entry(0x9c, 0xde) && Entry(0x9d, 0x5e) && Entry(0x9e, 0x0b) && Entry(0x9f, 0xdb)
  {
  }

  lemma Entries10()
    ensures Entry(0xa0, 0xe0) && Entry(0xa1, 0x32) && Entry(0xa2, 0x3a) && Entry(0xa3, 0x0a)
    ensures Entry(0xa4, 0x49) && Entry(0xa5, 0x06) && Entry(0xa6, 0x24) && Entry(0xa7, 0x5c)
    ensures Entry(0xa8, 0xc2) && Entry(0xa9, 0xd3) && Entry(0xaa, 0xac) && Entry(0xab, 0x62)
    ensures Entry(0xac, 0x91) && Entry(0xad, 0x95) && Entry(0xae, 0xe4) && Entry(0xaf, 0x79)
  {
  }

  lemma Entries11()
    ensures Entry(0xb0, 0xe7) && Entry(0xb1, 0xc8) && Entry(0xb2, 0x37) && Entry(0xb3, 0x6d)
    ensures Entry(0xb4, 0x8d) && Entry(0xb5, 0xd5) && Entry(0xb6, 0x4e) && Entry(0xb7, 0xa9)
    ensures Entry(0xb8, 0x6c) && Entry(0xb9, 0x56) && Entry(0xba, 0xf4) && Entry(0xbb, 0xea)
    ensures Entry(0xbc, 0x65) && Entry(0xbd, 0x7a) && Entry(0xbe, 0xae) && Entry(0xbf, 0x08)
  {
  }

  lemma Entries12()
    ensures Entry(0xc0, 0xba) && Entry(0xc1, 0x78) && Entry(0xc2, 0x25) && Entry(0xc3, 0x2e)
    ensures Entry(0xc4, 0x1c) && Entry(0xc5, 0xa6) && Entry(0xc6, 0xb4) && Entry(0xc7, 0xc6)
    ensures Entry(0xc8, 0xe8) && Entry(0xc9, 0xdd) && Entry(0xca, 0x74) && Entry(0xcb, 0x1f)
    ensures Entry(0xcc, 0x4b) && Entry(0xcd, 0xbd) && Entry(0xce, 0x8b) && Entry(0xcf, 0x8a)
  {
  }

  lemma Entries13()
    ensures Entry(0xd0, 0x70) && Entry(0xd1, 0x3e) && Entry(0xd2, 0xb5) && Entry(0xd3, 0x66)
    ensures Entry(0xd4, 0x48) && Entry(0xd5, 0x03) && Entry(0xd6, 0xf6) && Entry(0xd7, 0x0e)
    ensures Entry(0xd8, 0x61) && Entry(0xd9, 0x35) && Entry(0xda, 0x57) && Entry(0xdb, 0xb9)
    ensures Entry(0xdc, 0x86) && Entry(0xdd, 0xc1) && Entry(0xde, 0x1d) && Entry(0xdf, 0x9e)
  {
  }

  lemma Entries14()
    ensures Entry(0xe0, 0xe1) && Entry(0xe1, 0xf8) && Entry(0xe2, 0x98) && Entry(0xe3, 0x11)
    ensures Entry(0xe4, 0x69) && Entry(0xe5, 0xd9) && Entry(0xe6, 0x8e) && Entry(0xe7, 0x94)
    ensures Entry(0xe8, 0x9b) && Entry(0xe9, 0x1e) && Entry(0xea, 0x87) && Entry(0xeb, 0xe9)
    ensures Entry(0xec, 0xce) && Entry(0xed, 0x55) && Entry(0xee, 0x28) && Entry(0xef, 0xdf)
  {
  }

  lemma Entries15()
    ensures Entry(0xf0, 0x8c) && Entry(0xf1, 0xa1) && Entry(0xf2, 0x89) && Entry(0xf3, 0x0d)
    ensures Entry(0xf4, 0xbf) && Entry(0xf5, 0xe6) && Entry(0xf6, 0x42) && Entry(0xf7, 0x68)
    ensures Entry(0xf8, 0x41) && Entry(0xf9, 0x99) && Entry(0xfa, 0x2d) && Entry(0xfb, 0x0f)
    ensures Entry(0xfc, 0xb0) && Entry(0xfd, 0x54) && Entry(0xfe, 0xbb) && Entry(0xff, 0x16)
  {
  }

  lemma SubEntry(v: u8)
    ensures Entry(v, Sub(v))
  {
    hide Entry;
    var r, c := v / 16, v % 16;
    assert v == 16 * r + c;
    match r
    case 0 => Entries0(); case 1 => Entries1(); case 2 => Entries2(); case 3 => Entries3();
    case 4 => Entries4(); case 5 => Entries5(); case 6 => Entries6(); case 7 => Entries7();
    case 8 => Entries8(); case 9 => Entries9(); case 10 => Entries10(); case 11 => Entries11();
    case 12 => Entries12(); case 13 => Entries13(); case 14 => Entries14(); case _ => Entries15();
  }

  /** The box takes every byte to the affine map of its inverse in the field, and zero to that of zero. */
  lemma SubIsAffine(v: u8) returns (w: u8)
    ensures if v == 0 then w == 0 else Times(v, w) == 1
    ensures forall i: nat :: i < 8 ==> (Bit(Sub(v), i) <==> AffineBit(w, i))
  {
    var s := Word(Sub(v));
    w := Unmapped(s) as u8;
    assert Word(w) == Unmapped(s);
    SubEntry(v);
    WordTimes(v, w);
    SmallWords();
    if Word(w) == 0 { WordsApart(w, 0); }
    if Word(Times(v, w)) == 1 { WordsApart(Times(v, w), 1); }
    MappedUnmapped(s);
    AffineWord(w, Sub(v));
    hide *;
  }

  lemma AffineWord(w: u8, s: u8)
    requires Word(s) == Mapped(Word(w))
    ensures forall i: nat :: i < 8 ==> (Bit(s, i) <==> AffineBit(w, i))
  {
    hide Word, Bit;
    WordBits(w);
    WordBits(s);
    WordBits(0x63);
    SmallWords();
    forall i: nat | i < 8 ensures Bit(s, i) <==> AffineBit(w, i) {
      match i
      case 0 => case 1 => case 2 => case 3 => case 4 => case 5 => case 6 => case _ =>
    }
  }
}
