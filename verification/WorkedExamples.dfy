/** Values others fixed. */
module WorkedExamples {
  // What the codings give on values that the standards, or blocks and texts that
  // exist, have settled.

  import opened FixedWidth
  import opened Arithmetic
  import opened LittleEndian
  import opened Options
  import opened Radix
  import A = AmountFormat
  import B = Base58
  import C = GcsCoding
  import F = GcsFilter
  import L = Limbs256
  import T = CompactTarget
  import V = DifficultyV4

  lemma Powers()
    ensures Pow2(0) == 1 && Pow2(1) == 2 && Pow2(2) == 4 && Pow2(3) == 8 && Pow2(4) == 16 && Pow2(5) == 32
    ensures Pow2(6) == 64 && Pow2(7) == 128 && Pow2(19) == 0x8_0000
  {
    assert Pow2(2) == 4 && Pow2(3) == 8 && Pow2(4) == 16 && Pow2(5) == 32 && Pow2(6) == 64;
    Pow2Values();
    Pow2Add(16, 3);
  }

  // ---- targets --------------------------------------------------------------

  /** The compact form of the first block's target. */
  lemma FirstTarget()
    ensures T.Expand(0x1d00ffff) == 0xffff * Pow2(208) && T.CompactOf(0xffff * Pow2(208)) == 0x1d00ffff
  {
    var p := Pow2(208);
    T.BytesIsPow2(26);
    TopBits(p);
    MulPositive(0xffff, p);
    T.BitLengthIsCount(0xffff * p, 224);
    DivUnique(0xffff * p, p, 0xffff, 0);
    hide Pow2, T.BitCount, T.Bytes;
  }

  lemma TopBits(p: nat)
    requires p == Pow2(208)
    ensures p > 0 && Pow2(223) == 32768 * p && Pow2(224) == 65536 * p && Pow2(225) == 131072 * p
  {
    Pow2Values();
    Pow2Add(208, 15);
    Pow2Add(208, 16);
    Pow2Step(225);
    hide Pow2;
  }

  /** After that target, a window of 800 seconds, damped to 762, eases it by 762 to 750 in the algorithm's own turn. */
  lemma DampedTarget()
    ensures T.CompactOf(V.TargetOf(V.MAIN_NET, T.Expand(0x1d00ffff), 800, 4)) == 0x1d01_0417
  {
    hide *;
    FirstTarget();
    var p := Pow2(208);
    var v := 0xffff * p * 762 / 750;
    TopBits(p);
    DampedRatio(p, v);
    CompactIs(v, p);
    LimitIsFar(v, p);
    TargetIs(p, v);
  }

  lemma CompactIs(v: nat, p: nat)
    requires p == Pow2(208) && 65536 * p <= v < 131072 * p && v / p == 0x1_0417
    ensures T.CompactOf(v) == 0x1d01_0417
  {
    TopBits(p);
    T.BytesIsPow2(26);
    hide Pow2, T.BitCount, T.Bytes;
    assert L.BitLength(v, 225);
    T.BitLengthIsCount(v, 225);
  }

  lemma TargetIs(p: nat, v: nat)
    requires v == 0xffff * p * 762 / 750 && v <= V.PowLimitOf(V.MAIN_NET)
    ensures V.TargetOf(V.MAIN_NET, 0xffff * p, 800, 4) == v
  {
    hide V.PowLimitOf;
    V.OneStep(v);
    assert V.Timespan(V.MAIN_NET, 800) == 762;
    assert V.Ratio(0xffff * p, 762, 750) == v;
  }

  lemma DampedRatio(p: nat, v: nat)
    requires p > 0 && v == 0xffff * p * 762 / 750
    ensures 65536 * p <= v < 131072 * p && v / p == 0x1_0417
  {
    assert 0x1_0417 * p <= v < 0x1_0418 * p;
    DivUnique(v, p, 0x1_0417, v - 0x1_0417 * p);
  }

  lemma LimitIsFar(v: nat, p: nat)
    requires p == Pow2(208) && v < 131072 * p
    ensures v <= V.PowLimitOf(V.MAIN_NET)
  {
    hide *;
    TopBits(p);
    FullRange();
    FarBelow(L.Modulus(), Pow2(225), Pow2(20));
    LimitIs();
  }

  lemma FullRange()
    ensures L.Modulus() == Pow2(225) * (Pow2(20) * 2048) && Pow2(225) > 0 && Pow2(20) > 0
  {
    L.PlaceIsPow2(8);
    Pow2Add(225, 31);
    Pow2Add(20, 11);
    Powers();
    Pow2Values();
    Pow2Add(8, 3);
    hide Pow2;
  }

  lemma LimitIs()
    ensures Pow2(20) > 0 && V.PowLimitOf(V.MAIN_NET) == (L.Modulus() - 1) / Pow2(20)
  {
    hide Pow2;
  }

  lemma FarBelow(m: nat, q: nat, r: nat)
    requires q > 0 && r > 0 && m == q * (r * 2048)
    ensures (m - 1) / r >= q
  {
    MulAssociates(q, r, 2048);
    MulPositive(q, r);
    DivMonotone(q * r, m - 1, r);
    DivUnique(q * r, r, q, 0);
  }

  // ---- texts ----------------------------------------------------------------

  /** One byte below 58 is one character; the alphabet has no 0, O, I or l. */
  lemma Base58Characters(v: u8)
    requires v < 58
    ensures |B.EncodeOf([v])| == 1
    ensures B.EncodeOf([v])[0] as int ==
            v + if v < 9 then 49 else if v < 17 then 56 else if v < 22 then 57 else if v < 33 then 58
                else if v < 44 then 64 else 65
  {
    OneDigit(v);
    if v < 33 { B.AlphabetLow(v); } else { B.AlphabetHigh(v); }
    hide Recode, B.ALPHABET;
  }

  lemma OneDigit(v: u8)
    requires v < 58
    ensures Recode(256, 58, [v]) == [v]
  {
    var s: seq<int> := [v];
    ValueSnoc(256, [], v);
    assert [] + [v as int] == s;
    LeadingZerosUnique(s, if v == 0 then 1 else 0);
    assert Radix.Digits(58, v) == if v == 0 then [] else [v] by { assert Radix.Digits(58, 0) == []; }
    RecodeIs(256, 58, s);
  }

  lemma HalfDigits()
    ensures A.FixedText(5000_0000, 8) == "50000000"
  {
    assert A.FixedText(5, 1) == "5" && A.FixedText(50, 2) == "50" && A.FixedText(500, 3) == "500";
    assert A.FixedText(5000, 4) == "5000" && A.FixedText(5_0000, 5) == "50000";
    assert A.FixedText(50_0000, 6) == "500000" && A.FixedText(500_0000, 7) == "5000000";
  }

  lemma OneZero(s: string)
    ensures A.WithoutZeros(s + "0") == A.WithoutZeros(s)
  {
    assert (s + "0")[..|s|] == s;
  }

  lemma HalfTrimmed()
    ensures A.WithoutZeros("50000000") == "5"
  {
    OneZero("5"); OneZero("50"); OneZero("500"); OneZero("5000"); OneZero("50000"); OneZero("500000");
    OneZero("5000000");
    assert A.WithoutZeros("5") == "5";
    hide A.WithoutZeros;
    FewZeros();
    MoreZeros();
  }

  lemma FewZeros()
    ensures "5" + "0" == "50" && "50" + "0" == "500" && "500" + "0" == "5000" && "5000" + "0" == "50000"
  {
  }

  lemma MoreZeros()
    ensures "50000" + "0" == "500000" && "500000" + "0" == "5000000" && "5000000" + "0" == "50000000"
  {
  }

  /** A coin has eight decimals: a coin and a half. */
  lemma CoinAndAHalf()
    ensures A.FormatOf(1_5000_0000) == "1.5"
  {
    HalfDigits();
    HalfTrimmed();
    hide A.FixedText, A.WithoutZeros;
    assert A.WholeText(1) == "1";
  }

  // ---- filters --------------------------------------------------------------

  /** The lengths a compact size can have; the number's lowest byte comes first. */
  lemma CompactSizes(a: u8, b: u8, c: u8, d: u8)
    ensures a < 253 ==> F.CompactSize([a]) == Some(F.Compact(a, 1))
    ensures F.CompactSize([253, a, b]) == Some(F.Compact(a as int + 256 * (b as int), 3))
    ensures F.CompactSize([254, a, b, c, d]) ==
            Some(F.Compact(a as int + 256 * (b as int) + 65536 * (c as int) + 16777216 * (d as int), 5))
    ensures F.CompactSize([255, a, b, c, d, 0, 0, 0, 0]) ==
            Some(F.Compact(a as int + 256 * (b as int) + 65536 * (c as int) + 16777216 * (d as int), 9))
  {
  }

  const FILTER: bytes := [0x01, 0x9d, 0xfc, 0xa8]

  lemma FilterBits()
    ensures C.BitOf(FILTER, 8) == 1 && C.BitOf(FILTER, 9) == 0 && C.BitOf(FILTER, 10) == 0 && C.BitOf(FILTER, 11) == 1
    ensures C.BitOf(FILTER, 12) == 1 && C.BitOf(FILTER, 13) == 1 && C.BitOf(FILTER, 14) == 0 && C.BitOf(FILTER, 15) == 1
    ensures C.BitOf(FILTER, 16) == 1 && C.BitOf(FILTER, 17) == 1 && C.BitOf(FILTER, 18) == 1 && C.BitOf(FILTER, 19) == 1
    ensures C.BitOf(FILTER, 20) == 1 && C.BitOf(FILTER, 21) == 1 && C.BitOf(FILTER, 22) == 0 && C.BitOf(FILTER, 23) == 0
    ensures C.BitOf(FILTER, 24) == 1 && C.BitOf(FILTER, 25) == 0 && C.BitOf(FILTER, 26) == 1 && C.BitOf(FILTER, 27) == 0
    ensures C.BitOf(FILTER, 28) == 1
  {
    Powers();
    hide Pow2;
  }

  /** The nineteen bits after the unary part. */
  lemma FilterRemainder()
    ensures C.BitsValue(FILTER, 10, 19) == 245653
  {
    FilterBits();
    hide C.BitOf;
    assert C.BitsValue(FILTER, 10, 0) == 0 && C.BitsValue(FILTER, 10, 1) == 0;
    assert C.BitsValue(FILTER, 10, 2) == 1;
    assert C.BitsValue(FILTER, 10, 3) == 3;
    assert C.BitsValue(FILTER, 10, 4) == 7;
    assert C.BitsValue(FILTER, 10, 5) == 14;
    assert C.BitsValue(FILTER, 10, 6) == 29;
    assert C.BitsValue(FILTER, 10, 7) == 59;
    assert C.BitsValue(FILTER, 10, 8) == 119;
    assert C.BitsValue(FILTER, 10, 9) == 239;
    assert C.BitsValue(FILTER, 10, 10) == 479;
    assert C.BitsValue(FILTER, 10, 11) == 959;
    assert C.BitsValue(FILTER, 10, 12) == 1919;
    assert C.BitsValue(FILTER, 10, 13) == 3838;
    assert C.BitsValue(FILTER, 10, 14) == 7676;
    assert C.BitsValue(FILTER, 10, 15) == 15353;
    assert C.BitsValue(FILTER, 10, 16) == 30706;
    assert C.BitsValue(FILTER, 10, 17) == 61413;
    assert C.BitsValue(FILTER, 10, 18) == 122826;
  }

  lemma FilterDelta()
    ensures C.DeltaAt(FILTER, 8, 19) == Some(C.Delta(769941, 29))
  {
    FilterBits();
    FilterRemainder();
    Powers();
    hide C.BitOf, C.BitsValue, Pow2;
    assert C.Ones(FILTER, 9) == 0;
    assert C.Ones(FILTER, 8) == 1;
  }

  lemma FilterValues()
    ensures C.ValuesAt(FILTER, 8, 19, 784931, 1) == Some(C.Decoded([769941], 29))
  {
    FilterDelta();
    hide C.DeltaAt;
    assert C.ValuesAt(FILTER, 8, 19, 784931, 0) == Some(C.Decoded([], 8));
    var none: seq<nat> := [];
    assert C.Last(none) == 0 && none + [769941] == [769941];
  }

  /** The basic filter that BIP 158 gives for the test network's first block: one value, as one unary step and nineteen
      bits, highest first. */
  lemma FirstFilter(k0: u64, k1: u64)
    ensures F.ParseOf(FILTER, k0, k1, 19, 784931) ==
            Some(F.Filter(19, 784931, k0, k1, 1, 784931, FILTER, [769941]))
  {
    FilterValues();
    hide C.ValuesAt;
    assert F.CompactSize(FILTER) == Some(F.Compact(1, 1));
    OneValue(FILTER, k0, k1, 19, 784931, C.Decoded([769941], 29));
    hide F.ParseValues;
  }

  lemma OneValue(b: bytes, k0: u64, k1: u64, p: u8, m: u32, d: C.Decoded)
    requires |b| > 0 && C.ValuesAt(b, 8, p, m, 1) == Some(d) && d.end / 8 + 1 >= |b|
    ensures F.ParseValues(b, k0, k1, p, m, 1, 1) == Some(F.Filter(p, m, k0, k1, 1, m, b, d.values))
  {
    hide C.ValuesAt;
    assert 1 * m == m;
  }
}
