/** Bech32, the other way round. */
module Bech32Reencode {
  // When an address that decodes is the one its prefix and program are encoded as.

  import opened FixedWidth
  import opened Arithmetic
  import opened ExclusiveOr
  import opened Radix
  import opened Bech32Code
  import opened Bech32Groups
  import opened Bech32

  // ---- bytes from quintets and back -----------------------------------------

  /** No quintet is left over once the bytes are full. */
  predicate Tight(qs: seq<u5>) { |qs| == (8 * (|qs| * 5 / 8) + 4) / 5 }

  /** The bits left over after the last whole byte. */
  function PadBits(qs: seq<u5>): nat { 5 * |qs| - 8 * (|qs| * 5 / 8) }

  /** They are zero, in the last quintet. */
  predicate PadClear(qs: seq<u5>) { qs != [] ==> qs[|qs| - 1] % Pow2(PadBits(qs)) == 0 }

  lemma TwoOver(b: u8, pad: nat)
    requires pad <= 4
    ensures Two(b, 0, Pow2(8 - pad)) % Pow2(pad) == 0
  {
    Powers();
    hide Pow2, Two;
    if pad == 1 { TwoShift(b, 128, 2, 16); } else if pad == 2 { TwoShift(b, 64, 4, 8); }
    else if pad == 3 { TwoShift(b, 32, 8, 4); } else if pad == 4 { TwoShift(b, 16, 16, 2); }
  }

  lemma TwoShift(b: u8, w: nat, p: nat, q: nat)
    requires (w, p, q) == (128, 2, 16) || (w, p, q) == (64, 4, 8) || (w, p, q) == (32, 8, 4) || (w, p, q) == (16, 16, 2)
    ensures Two(b, 0, w) % p == 0
  {
    Cut(b * 256 + 0, b * p, w, 0);
    Cut(b * p, b / q, 32, b % q * p);
    Cut(b % q * p, b % q, p, 0);
  }

  lemma ThreeOver(x: u5, pad: nat)
    requires pad <= 4 && x % Pow2(pad) == 0
    ensures pad > 0 ==> Three(x, 0, 0, Pow2(2 + pad)) == 0
  {
    Powers();
    hide Pow2;
    if pad == 1 { assert x == 2 * (x / 2); } else if pad == 2 { assert x == 4 * (x / 4); }
    else if pad == 3 { assert x == 8 * (x / 8); } else if pad == 4 { assert x == 16 * (x / 16); }
  }

  /** Past the last whole byte the quintets hold nothing when the left-over bits are zero. */
  lemma PadByte(qs: seq<u5>)
    requires qs != [] && Tight(qs) && PadClear(qs)
    ensures ByteAt(qs, |qs| * 5 / 8) == 0
  {
    var n, pad, x := |qs| * 5 / 8, PadBits(qs), qs[|qs| - 1];
    ThreeOver(x, pad);
    if pad == 0 {
      assert 8 * n / 5 == |qs|;
    } else {
      assert 8 * n / 5 == |qs| - 1 && 8 * n % 5 == 5 - pad;
    }
    hide Pow2;
  }

  lemma QuintetInside(qs: seq<u5>, j: nat)
    requires Tight(qs) && j < |qs|
    requires 5 * j / 8 + 1 < |qs| * 5 / 8 || ByteAt(qs, |qs| * 5 / 8) == 0
    ensures QuintetAt(ProgramBytes(qs), j) == qs[j]
  {
    var n, i, bytes := |qs| * 5 / 8, 5 * j / 8, ProgramBytes(qs);
    BytesHold(qs, j);
    InsideBytes(|qs|, j);
    assert At(bytes, i) == ByteAt(qs, i) && At(bytes, i + 1) == if i + 1 < n then ByteAt(qs, i + 1) else 0;
    hide ByteAt, Two, Pow2, At;
  }

  lemma InsideBytes(m: nat, j: nat)
    requires m == (8 * (m * 5 / 8) + 4) / 5 && j < m
    ensures 5 * j / 8 < m * 5 / 8
  {
  }

  lemma LastQuintet(qs: seq<u5>)
    requires qs != [] && Tight(qs) && Quintets(ProgramBytes(qs)) == qs
    ensures PadClear(qs)
  {
    var n, pad, j, bytes := |qs| * 5 / 8, PadBits(qs), |qs| - 1, ProgramBytes(qs);
    hide Two, ByteAt;
    if pad == 0 {
      Pow2Values();
    } else {
      assert 5 * j == 8 * (n - 1) + (3 + pad);
      DivUnique(5 * j, 8, n - 1, 3 + pad);
      assert QuintetAt(bytes, j) == Two(At(bytes, n - 1), At(bytes, n), Pow2(8 - pad));
      assert At(bytes, n) == 0;
      TwoOver(At(bytes, n - 1), pad);
      assert qs[j] == Quintets(bytes)[j] == QuintetAt(bytes, j);
    }
  }

  /** Regrouping into bytes and back gives the quintets exactly when none is left over and the left-over bits are
      zero. */
  lemma RegroupsBack(qs: seq<u5>)
    ensures Quintets(ProgramBytes(qs)) == qs <==> Tight(qs) && PadClear(qs)
  {
    hide QuintetAt, ByteAt, Pow2, PadBits;
    if qs == [] {
      assert Quintets(ProgramBytes(qs)) == [];
    } else if Tight(qs) {
      if PadClear(qs) {
        PadByte(qs);
        forall j | 0 <= j < |qs| ensures Quintets(ProgramBytes(qs))[j] == qs[j] { QuintetInside(qs, j); }
      }
      if Quintets(ProgramBytes(qs)) == qs { LastQuintet(qs); }
    }
  }

  // ---- one checksum alone ---------------------------------------------------

  /** Six values are the digits of their number. */
  lemma NumberIsSix(vs: seq<u5>)
    requires |vs| == 6
    ensures AreDigits(32, vs) && Value(32, vs) >= 0 && Six(Value(32, vs)) == vs
  {
    AreFives(vs);
    var c5 := Prefix(vs, 6);
    var c4, c3, c2, c1, c0 := Prefix(vs, 5), Prefix(vs, 4), Prefix(vs, 3), Prefix(vs, 2), Prefix(vs, 1);
    assert vs[..6] == vs;
    PrefixStep(vs, 5); PrefixStep(vs, 4); PrefixStep(vs, 3); PrefixStep(vs, 2); PrefixStep(vs, 1); PrefixStep(vs, 0);
    assert Prefix(vs, 0) == 0;
    hide Value, Prefix;
    DivByProduct(c5, 0x20, 0x20); DivByProduct(c5, 0x400, 0x20); DivByProduct(c5, 0x8000, 0x20);
    DivByProduct(c5, 0x10_0000, 0x20);
  }

  ghost function Prefix(vs: seq<u5>, n: nat): int
    requires n <= |vs|
  {
    AreFives(vs[..n]);
    Value(32, vs[..n])
  }

  lemma PrefixStep(vs: seq<u5>, n: nat)
    requires n < |vs|
    ensures Prefix(vs, n + 1) == 32 * Prefix(vs, n) + vs[n] && Prefix(vs, n) >= 0
    ensures Prefix(vs, n + 1) / 32 == Prefix(vs, n) && Prefix(vs, n + 1) % 32 == vs[n] && Prefix(vs, n + 1) >= 0
  {
    AreFives(vs[..n]);
    AreFives(vs[..n + 1]);
    assert vs[..n + 1] == vs[..n] + [vs[n]];
    ValueBound(32, vs[..n]);
    ValueSnoc(32, vs[..n], vs[n]);
    hide Value;
    DivUnique(Prefix(vs, n + 1), 32, Prefix(vs, n), vs[n]);
  }

  /** The checksum that closes a prefix on a constant is the only one. */
  lemma ClosesOnly(vs: seq<u5>, six: seq<u5>, k: nat)
    requires |six| == 6 && Absorbed(vs + six) == k
    ensures six == SixOf(Absorbed(vs), k)
  {
    hide Xor, Absorb, Six, Steps, Value;
    AreFives(vs);
    AreFives(six);
    AbsorbConcat(1, vs, six);
    var s := Steps(Absorb(1, vs), 6);
    NumberIsSix(six);
    AbsorbsNumber(Absorb(1, vs), six);
    XorAssociates(s, s, Value(32, six));
    XorSelf(s);
    XorZero(Value(32, six));
  }

  // ---- characters -----------------------------------------------------------

  lemma DataChar(c: char)
    requires ValueOf(c) < 32
    ensures |CHARSET| == 32 && CHARSET[ValueOf(c)] == c
  {
    var v := ValueOf(c);
    if v < 8 { assert CHARSET[v] == "qpzry9x8"[v]; }
    else if v < 16 { assert CHARSET[v] == "gf2tvdw0"[v - 8]; }
    else if v < 24 { assert CHARSET[v] == "s3jn54kh"[v - 16]; }
    else { assert CHARSET[v] == "ce6mua7l"[v - 24]; }
  }

  /** Data characters are what their values are written as, in lower case. */
  lemma CharsOfFives(s: string)
    requires AllData(s)
    ensures Chars(Fives(s)) == Lowered(s)
  {
    hide ValueOf;
    forall i | 0 <= i < |s| ensures Chars(Fives(s))[i] == Lowered(s)[i] { DataChar(ToLower(s[i])); }
  }

  lemma LoweredPrefix(s: string)
    requires Plain(s)
    ensures Plain(Lowered(s)) && NoUpper(Lowered(s)) && HrpValues(Lowered(s)) == HrpValues(s)
  {
    forall i | 0 <= i < |s|
      ensures ToLower(ToLower(s[i])) == ToLower(s[i]) && ToLower(s[i]) as int % 32 == s[i] as int % 32 {}
    assert HighBits(Lowered(s)) == HighBits(s);
    assert LowBits(Lowered(s)) == LowBits(s);
  }

  lemma {:induction false} LastOneHolds(s: string)
    requires LastOne(s) > 0
    ensures LastOne(s) < |s| && s[LastOne(s)] == '1'
    decreases |s|
  {
    if s[|s| - 1] != '1' { LastOneHolds(s[..|s| - 1]); }
  }

  lemma LoweredParts(addr: string, sep: nat)
    requires sep < |addr| && addr[sep] == '1'
    ensures Lowered(addr) == Lowered(addr[..sep]) + "1" + Lowered(addr[sep + 1..])
  {
  }

  lemma CharsApart(a: seq<u5>, b: seq<u5>, c: seq<u5>, d: seq<u5>)
    requires Chars(a) + Chars(b) == Chars(c) + Chars(d) && |b| == |d|
    ensures a == c && b == d
  {
    FivesOfChars(a);
    FivesOfChars(b);
    FivesOfChars(c);
    FivesOfChars(d);
    hide Fives, AllData, Plain, NoUpper;
    var ab, cd := Chars(a) + Chars(b), Chars(c) + Chars(d);
    assert Chars(a) == ab[..|a|] && Chars(b) == ab[|a|..] && Chars(c) == cd[..|c|] && Chars(d) == cd[|c|..];
  }

  // ---- addresses ------------------------------------------------------------

  /** The quintets of an address's program. */
  function ProgramFives(addr: string): seq<u5>
    requires |addr| >= LastOne(addr) + 8
  {
    var vs := Fives(addr[LastOne(addr) + 1..]);
    vs[1..|vs| - 6]
  }

  /** What the decoder found in an address it accepts. */
  lemma Accepted(addr: string)
    requires DecodeOf(addr).Some?
    ensures |addr| >= LastOne(addr) + 8 && LastOne(addr) > 0 && Plain(addr[..LastOne(addr)]) &&
            AllData(addr[LastOne(addr) + 1..])
    ensures var sep, d := LastOne(addr), DecodeOf(addr).value;
            var vs, qs := Fives(addr[sep + 1..]), ProgramFives(addr);
            && |vs| >= 7 && vs[0] <= 16 && vs == [vs[0]] + qs + vs[|vs| - 6..]
            && d == Decoded(Lowered(addr[..sep]), Payload(vs[0], ProgramBytes(qs))) && 2 <= |ProgramBytes(qs)| <= 40
            && Absorbed(HrpValues(addr[..sep]) + vs) == Constant(vs[0]) && sep <= 82
  {
    hide LastOne, AllData, Fives, Absorbed, HrpValues, ProgramBytes, Lowered, IsPlain;
  }

  /** An address that decodes gives a prefix and a program that can be encoded, and encoding them gives the address
      back, in lower case, exactly when it has no quintet too many and its left-over bits are zero. */
  lemma Reencodes(addr: string)
    requires DecodeOf(addr).Some?
    ensures var d := DecodeOf(addr).value;
            && |d.data| == 2 + d.data[1] && d.hrp != "" && Encodable(d.hrp, d.data) && |addr| >= LastOne(addr) + 8
            && (AddressOf(d.hrp, Version(d.data[0]), d.data[2..]) == Lowered(addr) <==>
                  Tight(ProgramFives(addr)) && PadClear(ProgramFives(addr)))
  {
    hide *;
    Accepted(addr);
    var sep, qs := LastOne(addr), ProgramFives(addr);
    var vs := Fives(addr[sep + 1..]);
    var ver, six, hrp, bytes := vs[0], vs[|vs| - 6..], Lowered(addr[..sep]), ProgramBytes(qs);
    PayloadParts(ver, bytes);
    LoweredPrefix(addr[..sep]);
    LastOneHolds(addr);
    LoweredParts(addr, sep);
    CharsOfFives(addr[sep + 1..]);
    RegroupsBack(qs);
    CanEncode(hrp, ver, bytes);
    CharsConcat([ver] + qs, six);
    SameAddress(hrp, ver, qs, six, bytes);
  }

  lemma PayloadParts(ver: u5, bytes: seq<u8>)
    requires ver <= 16 && 2 <= |bytes| <= 40
    ensures var p := Payload(ver, bytes);
            && |p| == 2 + |bytes| && p[1] == |bytes| && Version(p[0]) == ver && p[2..] == bytes && !(0 < p[0] < 0x51)
  {
  }

  lemma CanEncode(hrp: string, ver: u5, bytes: seq<u8>)
    requires |hrp| <= 84 && Plain(hrp) && NoUpper(hrp) && ver <= 16 && 2 <= |bytes| <= 40
    ensures Encodable(hrp, Payload(ver, bytes))
  {
    PayloadParts(ver, bytes);
    hide Plain, NoUpper, Payload;
  }

  lemma SameAddress(hrp: string, ver: u5, qs: seq<u5>, six: seq<u5>, bytes: seq<u8>)
    requires Plain(hrp) && |six| == 6 && Absorbed(HrpValues(hrp) + ([ver] + qs + six)) == Constant(ver)
    ensures AddressOf(hrp, ver, bytes) == hrp + "1" + (Chars([ver] + qs) + Chars(six)) <==> Quintets(bytes) == qs
  {
    var values, again := [ver] + qs, [ver] + Quintets(bytes);
    var close := SixOf(Absorbed(HrpValues(hrp) + again), Constant(ver));
    AddressIs(hrp, ver, bytes);
    hide *;
    assert HrpValues(hrp) + (values + six) == HrpValues(hrp) + values + six;
    ClosesOnly(HrpValues(hrp) + values, six, Constant(ver));
    if AddressOf(hrp, ver, bytes) == hrp + "1" + (Chars(values) + Chars(six)) {
      SameTail(hrp + "1", Chars(again) + Chars(close), Chars(values) + Chars(six));
      CharsApart(again, close, values, six);
      assert again[1..] == Quintets(bytes) && values[1..] == qs;
    }
  }

  lemma SameTail(a: string, x: string, y: string)
    requires a + x == a + y
    ensures x == y
  {
    assert (a + x)[|a|..] == x && (a + y)[|a|..] == y;
  }

  lemma AddressIs(hrp: string, ver: u5, bytes: seq<u8>)
    requires Plain(hrp)
    ensures var again := [ver] + Quintets(bytes);
            AddressOf(hrp, ver, bytes) ==
              hrp + "1" + (Chars(again) + Chars(SixOf(Absorbed(HrpValues(hrp) + again), Constant(ver))))
  {
    hide Chars, SixOf, Absorbed, HrpValues, Quintets, Constant;
    var again := [ver] + Quintets(bytes);
    var x, y := Chars(again), Chars(SixOf(Absorbed(HrpValues(hrp) + again), Constant(ver)));
    assert hrp + "1" + x + y == hrp + "1" + (x + y);
  }
}
