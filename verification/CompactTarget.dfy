/** Compact targets. */
module CompactTarget {
  // The floating form of a 256-bit target: a size byte, a sign bit and a 23-bit
  // mantissa.

  import opened FixedWidth
  import opened Arithmetic
  import opened Limbs256

  /** 256^n. */
  ghost function Bytes(n: nat): (r: nat)
    ensures r > 0
  {
    Pow2(8 * n)
  }

  /** The bits v needs, counted by halving. */
  ghost function BitCount(v: nat): nat {
    if v == 0 then 0 else 1 + BitCount(v / 2)
  }

  /** A 23-bit word scaled to `size` bytes. */
  ghost function Scale(word: nat, size: nat): nat {
    if size <= 3 then word / Bytes(3 - size) else word * Bytes(size - 3)
  }

  /** The number a compact form stands for, before it is cut to 256 bits. */
  ghost function Expand(c: nat): nat { Scale(c % 0x80_0000, c / 0x100_0000) }

  predicate SignBit(c: nat) { c / 0x80_0000 % 2 == 1 }

  /** The bytes of a compact form's size field: one bit is kept free for the sign. */
  ghost function SizeOf(v: nat): nat { BitCount(v) / 8 + 1 }

  ghost function MantissaOf(v: nat): nat {
    var size := SizeOf(v);
    if size <= 3 then v * Bytes(3 - size) else v / Bytes(size - 3)
  }

  ghost function CompactOf(v: nat): nat {
    if v == 0 then 0 else SizeOf(v) * 0x100_0000 + MantissaOf(v)
  }

  // ---- bit counts -----------------------------------------------------------

  lemma {:induction false} BitCountIsLength(v: nat)
    ensures BitLength(v, BitCount(v))
    decreases v
  {
    if v > 1 {
      BitCountIsLength(v / 2);
      assert v / 2 > 0;
      assert Pow2(BitCount(v)) == 2 * Pow2(BitCount(v) - 1) && Pow2(BitCount(v) - 1) == 2 * Pow2(BitCount(v) - 2);
    } else if v == 1 {
      assert BitCount(1) == 1 + BitCount(0);
      Pow2Values();
    }
  }

  lemma BitLengthIsCount(v: nat, n: nat)
    requires BitLength(v, n)
    ensures n == BitCount(v)
  {
    var m := BitCount(v);
    BitCountIsLength(v);
    hide Pow2, BitCount;
    if v != 0 && n != m {
      if n < m { Pow2Grows(n, m - 1); } else { Pow2Grows(m, n - 1); }
    }
  }

  lemma BitCountMonotone(v: nat, w: nat)
    requires v <= w
    ensures BitCount(v) <= BitCount(w)
  {
    BitCountIsLength(v);
    BitCountIsLength(w);
    hide Pow2, BitCount;
    if BitCount(v) > BitCount(w) { Pow2Grows(BitCount(w), BitCount(v) - 1); }
  }

  /** A number's size brackets it: 256^size is more than twice the number, 256^(size-1) at most twice. */
  lemma SizeBrackets(v: nat)
    requires v > 0
    ensures v < Pow2(8 * SizeOf(v) - 1)
    ensures SizeOf(v) > 1 ==> Pow2(8 * SizeOf(v) - 9) <= v
  {
    BitCountIsLength(v);
    hide Pow2, BitCount;
    var n := BitCount(v);
    Pow2Grows(n, 8 * (n / 8 + 1) - 1);
    if n >= 8 { Pow2Grows(8 * (n / 8 + 1) - 9, n - 1); }
  }

  lemma BytesAdd(m: nat, n: nat)
    ensures Bytes(m + n) == Bytes(m) * Bytes(n)
  {
    Pow2Add(8 * m, 8 * n);
    assert 8 * (m + n) == 8 * m + 8 * n;
  }

  lemma BytesValues()
    ensures Bytes(0) == 1 && Bytes(1) == 0x100 && Bytes(2) == 0x1_0000 && Bytes(3) == 0x100_0000
  {
    Pow2Values();
  }

  /** The mantissa of a non-zero number always fits below the sign bit and fills the top of its field. */
  lemma MantissaFits(v: nat)
    requires v > 0
    ensures 0x8000 <= MantissaOf(v) < 0x80_0000
  {
    SizeBrackets(v);
    Pow2Values();
    BytesValues();
    hide Pow2, BitCount, SizeOf, Bytes;
    var size := SizeOf(v);
    assert size >= 1 by { assert SizeOf(v) == BitCount(v) / 8 + 1 by { SizeDef(v); } }
    if size == 1 {
    } else if size == 2 {
    } else if size == 3 {
    } else {
      var u := Bytes(size - 3);
      BytesIsPow2(size - 3);
      Pow2Add(8 * (size - 3), 23);
      Pow2Add(8 * (size - 3), 15);
      assert Pow2(8 * size - 1) == u * 0x80_0000;
      assert Pow2(8 * size - 9) == u * 0x8000;
      DivBound(v, u, 0x80_0000);
      DivMonotone(u * 0x8000, v, u);
      DivUnique(u * 0x8000, u, 0x8000, 0);
    }
  }

  lemma SizeDef(v: nat)
    ensures SizeOf(v) == BitCount(v) / 8 + 1
  {
  }

  lemma BytesIsPow2(n: nat)
    ensures Bytes(n) == Pow2(8 * n)
  {
  }

  // ---- what the form keeps --------------------------------------------------

  /** The grain the form can resolve at v's size. */
  ghost function Grain(v: nat): (g: nat)
    ensures g > 0
  {
    if SizeOf(v) <= 3 then 1 else Bytes(SizeOf(v) - 3)
  }

  lemma MantissaScales(v: nat)
    ensures Scale(MantissaOf(v), SizeOf(v)) == v / Grain(v) * Grain(v)
  {
    var size := SizeOf(v);
    if size <= 3 {
      DivUnique(v * Bytes(3 - size), Bytes(3 - size), v, 0);
    }
  }

  lemma CompactFields(v: nat)
    requires v > 0
    ensures CompactOf(v) % 0x80_0000 == MantissaOf(v) && CompactOf(v) / 0x100_0000 == SizeOf(v)
    ensures !SignBit(CompactOf(v))
  {
    MantissaFits(v);
    hide MantissaOf, SizeOf;
    var s, m := SizeOf(v), MantissaOf(v);
    DivUnique(CompactOf(v), 0x100_0000, s, m);
    DivUnique(CompactOf(v), 0x80_0000, 2 * s, m);
  }

  /** Decoding an encoded number gives the number rounded down to its grain, under a part in 2^15 less. */
  lemma CompactRoundsDown(v: nat)
    ensures Expand(CompactOf(v)) == v / Grain(v) * Grain(v)
    ensures v - Grain(v) < Expand(CompactOf(v)) <= v
    ensures v > 0 ==> v / Grain(v) > 0
    ensures SizeOf(v) > 3 ==> 0x8000 * Grain(v) <= v
  {
    BytesValues();
    assert v == Grain(v) * (v / Grain(v)) + v % Grain(v);
    if v > 0 {
      CompactFields(v);
      MantissaScales(v);
      MantissaFits(v);
      if SizeOf(v) > 3 { MulMonotoneInt(0x8000, v / Grain(v), Grain(v)); }
    } else {
      ZeroCompact();
    }
  }

  lemma ZeroCompact()
    ensures CompactOf(0) == 0 && Expand(0) == 0 && SizeOf(0) == 1
  {
    BytesValues();
    assert BitCount(0) == 0;
  }

  /** Numbers that fit 256 bits have a compact form that fits 32. */
  lemma CompactFits(v: nat)
    requires v < Modulus()
    ensures CompactOf(v) <= 0x217f_ffff
  {
    PlaceIsPow2(8);
    if v > 0 {
      MantissaFits(v);
      BitCountIsLength(v);
      hide Pow2, BitCount, MantissaOf, Place;
      if BitCount(v) > 256 { Pow2Grows(256, BitCount(v) - 1); }
    }
  }

  /** A decoded number has a compact form that decodes to it: nothing is lost the second time. */
  lemma DecodedIsExact(c: nat)
    ensures Expand(CompactOf(Expand(c))) == Expand(c)
  {
    hide CompactOf, SizeOf, Bytes;
    CompactRoundsDown(Expand(c));
    ScaledIsExact(c % 0x80_0000, c / 0x100_0000);
  }

  lemma ScaledIsExact(word: nat, size: nat)
    requires word < 0x80_0000
    ensures var v := Scale(word, size); v / Grain(v) * Grain(v) == v
  {
    var v := Scale(word, size);
    hide SizeOf;
    if SizeOf(v) > 3 {
      if size <= 3 {
        SmallScale(word, size);
        SizeOfSmall(v);
      } else {
        GrainDivides(v, size - 3, word);
      }
    }
  }

  lemma SmallScale(word: nat, size: nat)
    requires word < 0x80_0000 && size <= 3
    ensures Scale(word, size) < 0x80_0000
  {
    DivBound(word, Bytes(3 - size), 0x80_0000);
  }

  lemma SizeOfSmall(v: nat)
    requires v < 0x80_0000
    ensures SizeOf(v) <= 3
  {
    Pow2Values();
    BitCountIsLength(v);
    if v > 0 && BitCount(v) > 23 { Pow2Grows(23, BitCount(v) - 1); }
  }

  lemma GrainDivides(v: nat, n: nat, word: nat)
    requires v == word * Bytes(n) && word < 0x80_0000 && SizeOf(v) > 3
    ensures v / Grain(v) * Grain(v) == v
  {
    var g := SizeOf(v) - 3;
    GrainFits(v, n, word);
    hide SizeOf, Bytes;
    BytesAdd(g, n - g);
    assert g + (n - g) == n;
    MulAssociates(word, Bytes(n - g), Bytes(g));
    DivUnique(v, Bytes(g), word * Bytes(n - g), 0);
  }

  lemma GrainFits(v: nat, n: nat, word: nat)
    requires v == word * Bytes(n) && word < 0x80_0000 && SizeOf(v) > 3
    ensures SizeOf(v) - 3 <= n
  {
    if v == 0 { ZeroCompact(); }
    SizeBrackets(v);
    hide SizeOf, Pow2, BitCount;
    BytesIsPow2(n);
    Pow2Values();
    Pow2Add(8 * n, 23);
    MulMonotone(word + 1, 0x80_0000, Bytes(n));
    assert (word + 1) * Bytes(n) == word * Bytes(n) + Bytes(n);
    if SizeOf(v) > n + 3 { Pow2Grows(8 * n + 23, 8 * SizeOf(v) - 9); }
  }

  /** Both the form and what it decodes to keep the order of the numbers. */
  lemma CompactMonotone(v: nat, w: nat)
    requires v <= w
    ensures CompactOf(v) <= CompactOf(w) && Expand(CompactOf(v)) <= Expand(CompactOf(w))
  {
    BitCountMonotone(v, w);
    CompactRoundsDown(v);
    CompactRoundsDown(w);
    if v > 0 {
      MantissaFits(v);
      MantissaFits(w);
      hide BitCount, Expand;
      if SizeOf(v) == SizeOf(w) {
        SameSize(v, w);
      } else {
        SmallerSize(v, w);
      }
    }
  }

  lemma SameSize(v: nat, w: nat)
    requires v <= w && SizeOf(v) == SizeOf(w)
    ensures MantissaOf(v) <= MantissaOf(w) && v / Grain(v) * Grain(v) <= w / Grain(w) * Grain(w)
  {
    var size := SizeOf(v);
    DivMonotone(v, w, Grain(v));
    MulMonotone(v / Grain(v), w / Grain(v), Grain(v));
    if size <= 3 { MulMonotone(v, w, Bytes(3 - size)); }
  }

  lemma SmallerSize(v: nat, w: nat)
    requires 0 < v <= w && SizeOf(v) < SizeOf(w)
    ensures v <= w / Grain(w) * Grain(w)
  {
    hide BitCount;
    if SizeOf(w) > 3 {
      MantissaFits(w);
      SizeBrackets(v);
      Pow2Grows(8 * SizeOf(v) - 1, 8 * SizeOf(w) - 9);
      Pow2Add(8 * (SizeOf(w) - 3), 15);
      Pow2Values();
      BytesIsPow2(SizeOf(w) - 3);
      MulMonotoneInt(0x8000, w / Grain(w), Grain(w));
    }
  }

  // ---- the operations -------------------------------------------------------

  method SetCompact(compact: u32) returns (a: array<u32>, negative: bool, tooLarge: bool)
    ensures fresh(a) && a.Length == 8
    ensures Val(a[..]) == Expand(compact) % Modulus()
    ensures negative <==> Expand(compact) != 0 && SignBit(compact)
    ensures tooLarge <==> Expand(compact) >= Modulus()
  {
    a := new u32[8](_ => 0);
    var size: nat, word: nat := compact / 0x100_0000, compact % 0x80_0000;
    if size <= 3 {
      SmallScale(word, size);
      word := word / Pow2(8 * (3 - size));
      a[0] := word;
      OneLimb(a[..], word);
      FitsMantissa(word);
    } else {
      a[0] := word;
      OneLimb(a[..], word);
      ShiftLeft(a, 8 * (size - 3));
    }
    negative := word != 0 && SignBit(compact);
    tooLarge := word != 0 && (size > 34 || (word > 0xff && size > 33) || (word > 0xffff && size > 32));
    WordMatters(compact);
  }

  lemma OneLimb(a: seq<u32>, w: u32)
    requires |a| == 8 && a[0] == w && forall i :: 0 < i < 8 ==> a[i] == 0
    ensures Val(a) == w
  {
    ValZeros(a[1..]);
  }

  lemma FitsMantissa(word: nat)
    requires word < 0x80_0000
    ensures word < Modulus() && word % Modulus() == word
  {
    PlaceIsPow2(8);
    Pow2Values();
    Pow2Grows(23, 256);
    DivUnique(word, Modulus(), 0, word);
  }

  /** When the scaled word is zero, and when it needs more than 256 bits. */
  lemma WordMatters(c: u32)
    ensures var word, size := c % 0x80_0000, c / 0x100_0000;
            size > 3 ==>
              && (Expand(c) == 0 <==> word == 0)
              && (Expand(c) >= Modulus() <==>
                    word != 0 && (size > 34 || (word > 0xff && size > 33) || (word > 0xffff && size > 32)))
  {
    var word: nat, size: nat := c % 0x80_0000, c / 0x100_0000;
    if size > 3 {
      ModulusIsBytes();
      hide Bytes, Place;
      if word != 0 { MulPositive(word, Bytes(size - 3)); }
      if size > 34 {
        if word != 0 { ScaleAbove(word, size - 3, 0); }
      } else {
        ScaleAround(word, size - 3);
      }
    }
  }

  lemma ModulusIsBytes()
    ensures Modulus() == Bytes(32)
  {
    PlaceIsPow2(8);
  }

  lemma BytesGrows(m: nat, n: nat)
    requires m <= n
    ensures Bytes(m) <= Bytes(n)
  {
    Pow2Grows(8 * m, 8 * n);
  }

  lemma ScaleAbove(word: nat, n: nat, k: nat)
    requires n + k >= 32 && word >= Bytes(k)
    ensures word * Bytes(n) >= Bytes(32)
  {
    BytesAdd(k, n);
    BytesGrows(32, n + k);
    MulMonotone(Bytes(k), word, Bytes(n));
  }

  lemma ScaleBelow(word: nat, n: nat, k: nat)
    requires n + k <= 32 && word < Bytes(k)
    ensures word * Bytes(n) < Bytes(32)
  {
    BytesAdd(k, n);
    BytesGrows(n + k, 32);
    MulMonotone(word + 1, Bytes(k), Bytes(n));
    assert (word + 1) * Bytes(n) == word * Bytes(n) + Bytes(n);
  }

  lemma ScaleAround(word: nat, n: nat)
    requires 0 < n <= 31 && word < 0x80_0000
    ensures word * Bytes(n) >= Bytes(32) <==> word != 0 && ((word > 0xff && n > 30) || (word > 0xffff && n > 29))
  {
    BytesValues();
    hide Bytes;
    if word <= 0xff {
      ScaleBelow(word, n, 1);
    } else if n == 31 {
      ScaleAbove(word, n, 1);
    } else if word <= 0xffff {
      ScaleBelow(word, n, 2);
    } else if n == 30 {
      ScaleAbove(word, n, 2);
    } else {
      ScaleBelow(word, n, 3);
    }
  }

  /** The low three bytes before the sign bit is cleared of mantissa, and the size they belong to. */
  ghost predicate Raw(v: nat, size: nat, word: nat) {
    && size == (BitCount(v) + 7) / 8
    && word == (if size <= 3 then v * Bytes(3 - size) else v / Bytes(size - 3))
  }

  /** The raw word has its sign bit set exactly when the bit length is a multiple of eight; moving it one
      size up then gives the compact form, and otherwise it is the compact form. */
  lemma RawIsCompact(v: nat, size: nat, word: nat)
    requires Raw(v, size, word)
    ensures word < 0x100_0000
    ensures if word >= 0x80_0000 then CompactOf(v) == (size + 1) * 0x100_0000 + word / 0x100
            else CompactOf(v) == size * 0x100_0000 + word
  {
    BytesValues();
    if v == 0 {
      ZeroCompact();
    } else {
      BitCountIsLength(v);
      hide Pow2, BitCount, Bytes;
      if BitCount(v) % 8 != 0 {
        assert size == SizeOf(v);
        MantissaFits(v);
      } else {
        assert size + 1 == SizeOf(v);
        RawTop(v, size, word);
      }
    }
  }

  lemma RawTop(v: nat, size: nat, word: nat)
    requires v > 0 && size + 1 == SizeOf(v) && Raw(v, size, word) && size >= 1 && BitLength(v, 8 * size)
    ensures 0x80_0000 <= word < 0x100_0000 && word / 0x100 == MantissaOf(v)
  {
    BytesValues();
    Pow2Values();
    hide BitCount, SizeOf;
    if size <= 2 {
      assert MantissaOf(v) == v * Bytes(3 - (size + 1));
      BytesAdd(1, 2 - size);
      assert Bytes(1 + (2 - size)) == Bytes(3 - size);
      assert word == 0x100 * MantissaOf(v);
      DivUnique(word, 0x100, MantissaOf(v), 0);
    } else if size == 3 {
    } else {
      var u := Bytes(size - 3);
      Pow2Add(8 * (size - 3), 24);
      Pow2Add(8 * (size - 3), 23);
      DivBound(v, u, 0x100_0000);
      DivMonotone(u * 0x80_0000, v, u);
      DivUnique(u * 0x80_0000, u, 0x80_0000, 0);
      BytesAdd(size - 3, 1);
      DivByProduct(v, u, 0x100);
    }
  }

  lemma LowLimb(a: seq<u32>)
    requires |a| == 8 && Val(a) < BASE
    ensures a[0] == Val(a)
  {
    DivUnique(Val(a), BASE, Val(a[1..]), a[0]);
    DivBound(Val(a), BASE, 1);
  }

  /** The sign bit goes on only over a non-zero mantissa. */
  ghost function Signed(c: nat, negative: bool): nat {
    if negative && c % 0x80_0000 != 0 then c + 0x80_0000 else c
  }

  method GetCompact(a: array<u32>, negative: bool) returns (compact: u32)
    requires a.Length == 8
    ensures compact == Signed(CompactOf(Val(a[..])), negative)
  {
    hide *;
    var bits := Bits(a);
    BitLengthIsCount(Val(a[..]), bits);
    var size := (bits + 7) / 8;
    var word := LeadingWord(a, size);
    RawIsCompact(Val(a[..]), size, word);
    ValFits(a[..]);
    if word / 0x80_0000 % 2 == 1 {
      word, size := word / 0x100, size + 1;
    }
    compact := JoinFields(word, size, negative, Val(a[..]));
  }

  /** The leading three bytes of a number of `size` bytes. */
  method LeadingWord(a: array<u32>, size: nat) returns (word: u32)
    requires a.Length == 8 && size == (BitCount(Val(a[..])) + 7) / 8
    ensures Raw(Val(a[..]), size, word)
  {
    ghost var v := Val(a[..]);
    hide Val, Pow2, BitCount, CompactOf;
    if size <= 3 {
      SmallRaw(v, size);
      LowLimb(a[..]);
      assert Pow2(8 * (3 - size)) == Bytes(3 - size);
      word := a[0] * Pow2(8 * (3 - size));
    } else {
      var b := new u32[8](i requires 0 <= i < 8 reads a => a[i]);
      assert b[..] == a[..];
      ShiftRight(b, 8 * (size - 3));
      assert Pow2(8 * (size - 3)) == Bytes(size - 3);
      RawIsCompact(v, size, v / Bytes(size - 3));
      LowLimb(b[..]);
      word := b[0];
    }
  }

  lemma SmallRaw(v: nat, size: nat)
    requires size <= 3 && size == (BitCount(v) + 7) / 8
    ensures v * Bytes(3 - size) < 0x100_0000 && Raw(v, size, v * Bytes(3 - size)) && v < 0x100_0000
  {
    hide BitCount, CompactOf, Bytes;
    RawIsCompact(v, size, v * Bytes(3 - size));
    MulMonotoneInt(1, Bytes(3 - size), v);
  }

  method JoinFields(word: u32, size: nat, negative: bool, ghost v: nat) returns (compact: u32)
    requires v < Modulus() && word < 0x80_0000 && CompactOf(v) == size * 0x100_0000 + word
    ensures compact == Signed(CompactOf(v), negative)
  {
    hide CompactOf, Pow2, Or, Modulus;
    CompactFits(v);
    FieldsJoin(word, size);
    compact := Or(word, size * 0x100_0000);
    if negative && compact % 0x80_0000 != 0 {
      compact := Or(compact, 0x80_0000);
    }
  }

  lemma FieldsJoin(word: nat, size: nat)
    requires word < 0x80_0000
    ensures Or(word, size * 0x100_0000) == size * 0x100_0000 + word
    ensures Or(size * 0x100_0000 + word, 0x80_0000) == size * 0x100_0000 + word + 0x80_0000
  {
    Pow2Values();
    hide Pow2, Or;
    OrDisjoint(word, size, 24);
    DivUnique(size * 0x100_0000 + word, 0x80_0000, 2 * size, word);
    OrBit(size * 0x100_0000 + word, 23);
  }
}
