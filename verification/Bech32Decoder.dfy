/** The decoding loops of Bech32 addresses as they run: checks, checksum and bit filling by cursor over one fixed
    buffer. */
module Bech32Decoder {
  import opened FixedWidth
  import opened Arithmetic
  import opened ExclusiveOr
  import opened Options
  import opened Bech32Code
  import opened Bech32Groups
  import opened Bech32
  import Bech32Encoder

  const BUFFER: nat := 52

  // ---- the buffer being filled ----------------------------------------------

  /** Byte b when j quintets are in: whole, its top bits, or empty. */
  ghost function Part(qs: seq<u5>, b: nat, j: nat): u8 {
    if 8 * b + 8 <= 5 * j then ByteAt(qs, b)
    else if 8 * b < 5 * j then Top(ByteAt(qs, b), 5 * j - 8 * b)
    else 0
  }

  ghost predicate Filled(buf: seq<u8>, qs: seq<u5>, j: nat) {
    forall b :: 0 <= b < |buf| ==> buf[b] == Part(qs, b, j)
  }

  lemma PartOther(qs: seq<u5>, b: nat, j: nat)
    requires b != 5 * j / 8 && (5 * j % 8 > 3 ==> b != 5 * j / 8 + 1)
    ensures Part(qs, b, j + 1) == Part(qs, b, j)
  {
    hide ByteAt, Top;
    if b == 5 * j / 8 + 1 { assert 5 * (j + 1) <= 8 * b; }
  }

  lemma PartForms(qs: seq<u5>, b: nat, x: nat, j: nat)
    requires 5 * j == 8 * b + x && x < 8
    ensures Part(qs, b, j) == Top(ByteAt(qs, b), x) && Part(qs, b + 1, j) == 0
    ensures x <= 3 ==> Part(qs, b, j + 1) == Top(ByteAt(qs, b), x + 5)
    ensures x > 3 ==> Part(qs, b, j + 1) == ByteAt(qs, b) && Part(qs, b + 1, j + 1) == Top(ByteAt(qs, b + 1), x - 3)
  {
    TopWhole(ByteAt(qs, b));
    hide ByteAt, Top;
  }

  lemma Split(j: nat, b: nat, x: nat)
    requires b == 5 * j / 8 && x == 5 * j % 8
    ensures 5 * j == 8 * b + x && x < 8
  {
  }

  lemma PlacedIs(qs: seq<u5>, b: nat, x: nat, j: nat, c: u5)
    requires x < 8 && Placed(qs, b, x, j) && FiveAt(qs, j) == c
    ensures Two(ByteAt(qs, b), ByteAt(qs, b + 1), Pow2(11 - x)) == c
  {
  }

  lemma PartHere(qs: seq<u5>, b: nat, x: nat, j: nat, c: u5)
    requires b == 5 * j / 8 && x == 5 * j % 8 && FiveAt(qs, j) == c
    ensures Or(Part(qs, b, j), Shr(c * 8, x)) == Part(qs, b, j + 1)
    ensures 3 < x < 8 ==> Or(Part(qs, b + 1, j), Shl(c, 11 - x)) % 256 == Part(qs, b + 1, j + 1)
  {
    hide *;
    Split(j, b, x);
    BytesHold(qs, j);
    PlacedIs(qs, b, x, j, c);
    PartForms(qs, b, x, j);
    if x <= 3 {
      FillInside(ByteAt(qs, b), ByteAt(qs, b + 1), x, c);
    } else {
      FillAcross(ByteAt(qs, b), ByteAt(qs, b + 1), x, c);
      OrZero(Shl(c, 11 - x));
    }
  }

  lemma OrZero(y: nat)
    ensures Or(0, y) == y
  {
  }

  /** Puts quintet j at its bits. */
  method Fill(buf: array<u8>, j: nat, c: u5, ghost qs: seq<u5>)
    requires Filled(buf[..], qs, j) && FiveAt(qs, j) == c && 5 * j / 8 + 1 < buf.Length
    modifies buf
    ensures Filled(buf[..], qs, j + 1)
  {
    hide Part, Or, Pow2, FiveAt, Shl, Shr;
    var x := j % 8 * 5 - j % 8 * 5 / 8 * 8;
    var at := j / 8 * 5 + j % 8 * 5 / 8;
    Placing(j);
    ghost var was := buf[..];
    PartHere(qs, at, x, j, c);
    buf[at] := Or(buf[at], Shr(c * 8, x));
    if x > 3 { buf[at + 1] := Or(buf[at + 1], Shl(c, 11 - x)) % 256; }
    forall b | 0 <= b < buf.Length ensures buf[b] == Part(qs, b, j + 1) {
      if b != at && (x > 3 ==> b != at + 1) { PartOther(qs, b, j); assert buf[b] == was[b]; }
    }
  }

  lemma Placing(j: nat)
    ensures j % 8 * 5 - j % 8 * 5 / 8 * 8 == 5 * j % 8 && j / 8 * 5 + j % 8 * 5 / 8 == 5 * j / 8
  {
  }

  // ---- the loops ------------------------------------------------------------

  method CheckCharacters(addr: string) returns (ok: bool)
    ensures ok <==> Plain(addr) && (NoUpper(addr) || forall i :: 0 <= i < |addr| ==> !IsLower(addr[i]))
  {
    var upper, lower := false, false;
    var i := 0;
    while i < |addr|
      invariant i <= |addr| && Plain(addr[..i])
      invariant lower <==> exists k :: 0 <= k < i && IsLower(addr[k])
      invariant upper <==> exists k :: 0 <= k < i && IsUpper(addr[k])
    {
      if addr[i] as int < 33 || addr[i] as int > 126 {
        assert !IsPlain(addr[i]);
        return false;
      }
      if IsLower(addr[i]) { lower := true; }
      if IsUpper(addr[i]) { upper := true; }
      assert addr[..i + 1] == addr[..i] + [addr[i]];
      i := i + 1;
    }
    assert addr[..i] == addr;
    ok := !(upper && lower);
  }

  method FindSeparator(addr: string) returns (sep: nat)
    ensures sep == LastOne(addr)
  {
    sep := |addr|;
    while sep > 0 && (sep == |addr| || addr[sep] != '1')
      invariant sep <= |addr| && forall k :: sep < k < |addr| ==> addr[k] != '1'
      decreases sep
    {
      sep := sep - 1;
    }
    if sep > 0 { LastOneIs(addr, sep); } else { NoLaterOne(addr); }
  }

  lemma NoLaterOne(s: string)
    requires forall k :: 0 < k < |s| ==> s[k] != '1'
    ensures LastOne(s) == 0
    decreases |s|
  {
    if |s| > 1 { NoLaterOne(s[..|s| - 1]); }
  }

  /** Absorbs the prefix: its high bits lower-cased, a zero, its low bits. */
  method AbsorbPrefix(hrp: string) returns (chk: nat)
    requires Plain(hrp)
    ensures chk == Absorbed(HrpValues(hrp))
  {
    hide Absorbed, Polymod, Xor;
    chk := 1;
    EmptyAbsorbed();
    var i := 0;
    assert HighBits(hrp)[..0] == [];
    while i < |hrp|
      invariant i <= |hrp| && chk == Absorbed(HighBits(hrp)[..i])
    {
      Bech32Encoder.AbsorbedSnoc(HighBits(hrp)[..i], HighBits(hrp)[i]);
      assert HighBits(hrp)[..i + 1] == HighBits(hrp)[..i] + [HighBits(hrp)[i]];
      chk := Xor(Polymod(chk), ToLower(hrp[i]) as int / 32);
      i := i + 1;
    }
    assert HighBits(hrp)[..i] == HighBits(hrp);
    Bech32Encoder.AbsorbedSnoc(HighBits(hrp), 0);
    XorZero(Polymod(chk));
    chk := Polymod(chk);
    ghost var middle := HighBits(hrp) + [0];
    i := 0;
    assert middle + LowBits(hrp)[..0] == middle;
    while i < |hrp|
      invariant i <= |hrp| && chk == Absorbed(middle + LowBits(hrp)[..i])
    {
      Bech32Encoder.AbsorbedSnoc(middle + LowBits(hrp)[..i], LowBits(hrp)[i]);
      assert middle + LowBits(hrp)[..i + 1] == middle + LowBits(hrp)[..i] + [LowBits(hrp)[i]];
      chk := Xor(Polymod(chk), hrp[i] as int % 32);
      i := i + 1;
    }
    assert LowBits(hrp)[..i] == LowBits(hrp);
  }

  lemma EmptyAbsorbed()
    ensures Absorbed([]) == 1
  {
  }

  /** Absorbs the data part; its first value is the version, its last six the checksum, and the rest fill the buffer. */
  method ReadData(tail: string, start: nat, ghost prefix: seq<u5>) returns (ok: bool, chk: nat, ver: u5, buf: array<u8>)
    requires 7 <= |tail| <= 88 && start == Absorbed(prefix)
    ensures ok <==> AllData(tail)
    ensures fresh(buf) && buf.Length == BUFFER
    ensures ok ==> chk == Absorbed(prefix + Fives(tail)) && ver == Fives(tail)[0]
    ensures ok ==> Filled(buf[..], Fives(tail)[1..|tail| - 6], |tail| - 7)
  {
    hide Absorbed, Polymod, Xor, Part, ValueOf;
    ghost var vs := Fives(tail);
    ghost var qs := vs[1..|vs| - 6];
    buf := new u8[BUFFER](_ => 0);
    chk, ver, ok := start, 0, false;
    NothingFilled(buf[..], qs);
    var p := 0;
    assert prefix + vs[..0] == prefix;
    while p < |tail|
      invariant p <= |tail| && AllData(tail[..p]) && chk == Absorbed(prefix + vs[..p])
      invariant p > 0 ==> ver == vs[0]
      invariant Filled(buf[..], qs, if p == 0 then 0 else Min(p - 1, |qs|))
    {
      var c := ValueOf(ToLower(tail[p]));
      if c >= 32 { return; }
      assert vs[p] == c;
      assert tail[..p + 1] == tail[..p] + [tail[p]];
      Bech32Encoder.AbsorbedSnoc(prefix + vs[..p], c);
      assert prefix + vs[..p + 1] == prefix + vs[..p] + [vs[p]];
      chk := Xor(Polymod(chk), c);
      if p == 0 { ver := c; }
      if p > 0 && p + 6 < |tail| {
        assert FiveAt(qs, p - 1) == c;
        Fill(buf, p - 1, c, qs);
      }
      p := p + 1;
    }
    assert tail[..p] == tail && vs[..p] == vs;
    ok := true;
  }

  lemma NothingFilled(buf: seq<u8>, qs: seq<u5>)
    requires forall b :: 0 <= b < |buf| ==> buf[b] == 0
    ensures Filled(buf, qs, 0)
  {
  }

  lemma AllFilled(buf: seq<u8>, qs: seq<u5>)
    requires Filled(buf, qs, |qs|) && |qs| * 5 / 8 <= |buf|
    ensures buf[..|qs| * 5 / 8] == ProgramBytes(qs)
  {
    hide ByteAt;
  }

  /** The prefix, version opcode and program of an address, or none. */
  method Decode(addr: string) returns (r: Option<Decoded>)
    ensures r == DecodeOf(addr)
  {
    hide LastOne, AllData, Fives, Absorbed, HrpValues, ProgramBytes, Lowered, Filled;
    var plain := CheckCharacters(addr);
    if !plain { return None; }
    var sep := FindSeparator(addr);
    if |addr| < 8 || |addr| > 90 || sep < 1 || sep + 2 + 6 > |addr| { return None; }
    assert WellShaped(addr) && Plain(addr[..sep]);
    var chk := AbsorbPrefix(addr[..sep]);
    var ok, whole, ver, buf := ReadData(addr[sep + 1..], chk, HrpValues(addr[..sep]));
    if !ok { return None; }
    var bufLen := (|addr| - (sep + 2 + 6)) * 5 / 8;
    ghost var qs := Fives(addr[sep + 1..])[1..|addr| - sep - 7];
    AllFilled(buf[..], qs);
    assert buf[..][..bufLen] == buf[..bufLen];
    if whole != (if ver == 0 then 1 else 0x2bc8_30a3) || ver > 16 || bufLen < 2 || bufLen > 40 { return None; }
    r := Some(Decoded(Lowered(addr[..sep]), [if ver == 0 then 0 else ver + 0x51 - 1, bufLen] + buf[..bufLen]));
  }
}
