/** Bech32 addresses. */
module Bech32 {
  // Bech32 and Bech32m addresses of witness programs, on values.

  import opened FixedWidth
  import opened Options
  import opened Radix
  import opened Bech32Code
  import opened Bech32Groups

  // ---- characters -----------------------------------------------------------

  const CHARSET: string := "qpzry9x8" + "gf2tvdw0" + "s3jn54kh" + "ce6mua7l"

  /** A data character's value, or 32 for any other character. */
  function ValueOf(c: char): nat {
    match c
    case 'q' => 0 case 'p' => 1 case 'z' => 2 case 'r' => 3 case 'y' => 4 case '9' => 5 case 'x' => 6 case '8' => 7
    case 'g' => 8 case 'f' => 9 case '2' => 10 case 't' => 11
    case 'v' => 12 case 'd' => 13 case 'w' => 14 case '0' => 15
    case 's' => 16 case '3' => 17 case 'j' => 18 case 'n' => 19
    case '5' => 20 case '4' => 21 case 'k' => 22 case 'h' => 23
    case 'c' => 24 case 'e' => 25 case '6' => 26 case 'm' => 27
    case 'u' => 28 case 'a' => 29 case '7' => 30 case 'l' => 31
    case _ => 32
  }

  predicate IsUpper(c: char) { 'A' <= c <= 'Z' }

  predicate IsLower(c: char) { 'a' <= c <= 'z' }

  function ToLower(c: char): char { if IsUpper(c) then (c as int + 32) as char else c }

  predicate IsPlain(c: char) { 33 <= c as int <= 126 }

  predicate Plain(s: string) { forall i :: 0 <= i < |s| ==> IsPlain(s[i]) }

  predicate NoUpper(s: string) { forall i :: 0 <= i < |s| ==> !IsUpper(s[i]) }

  lemma CharsetRow0(v: nat)
    requires v < 8
    ensures |CHARSET| == 32 && ValueOf(CHARSET[v]) == v && IsPlain(CHARSET[v]) && !IsUpper(CHARSET[v]) &&
            CHARSET[v] != '1'
  {
    assert CHARSET[v] == "qpzry9x8"[v];
  }

  lemma CharsetRow1(v: nat)
    requires 8 <= v < 16
    ensures |CHARSET| == 32 && ValueOf(CHARSET[v]) == v && IsPlain(CHARSET[v]) && !IsUpper(CHARSET[v]) &&
            CHARSET[v] != '1'
  {
    assert CHARSET[v] == "gf2tvdw0"[v - 8];
  }

  lemma CharsetRow2(v: nat)
    requires 16 <= v < 24
    ensures |CHARSET| == 32 && ValueOf(CHARSET[v]) == v && IsPlain(CHARSET[v]) && !IsUpper(CHARSET[v]) &&
            CHARSET[v] != '1'
  {
    assert CHARSET[v] == "s3jn54kh"[v - 16];
  }

  lemma CharsetRow3(v: nat)
    requires 24 <= v < 32
    ensures |CHARSET| == 32 && ValueOf(CHARSET[v]) == v && IsPlain(CHARSET[v]) && !IsUpper(CHARSET[v]) &&
            CHARSET[v] != '1'
  {
    assert CHARSET[v] == "ce6mua7l"[v - 24];
  }

  /** A data character names its value, is lower case or a digit, and is never the separator. */
  lemma CharsetHolds(v: nat)
    requires v < 32
    ensures |CHARSET| == 32 && ValueOf(CHARSET[v]) == v && IsPlain(CHARSET[v]) && !IsUpper(CHARSET[v]) &&
            CHARSET[v] != '1'
  {
    hide *;
    if v < 8 { CharsetRow0(v); } else if v < 16 { CharsetRow1(v); } else if v < 24 { CharsetRow2(v); } else {
      CharsetRow3(v);
    }
  }

  lemma CharsetSize()
    ensures |CHARSET| == 32
  {
  }

  function Chars(vs: seq<u5>): (s: string)
    ensures |s| == |vs| && |CHARSET| == 32 && forall i :: 0 <= i < |s| ==> s[i] == CHARSET[vs[i]]
  {
    CharsetSize();
    seq(|vs|, i requires 0 <= i < |vs| => CHARSET[vs[i]])
  }

  /** A character's value; only used where every character has one. */
  function FiveOf(c: char): u5 { if ValueOf(c) < 32 then ValueOf(c) else 0 }

  function Fives(s: string): (vs: seq<u5>)
    ensures |vs| == |s| && forall i :: 0 <= i < |s| ==> vs[i] == FiveOf(ToLower(s[i]))
  {
    seq(|s|, i requires 0 <= i < |s| => FiveOf(ToLower(s[i])))
  }

  predicate AllData(s: string) { forall i :: 0 <= i < |s| ==> ValueOf(ToLower(s[i])) < 32 }

  lemma FivesOfChars(vs: seq<u5>)
    ensures Fives(Chars(vs)) == vs && AllData(Chars(vs)) && Plain(Chars(vs)) && NoUpper(Chars(vs))
    ensures forall i :: 0 <= i < |vs| ==> Chars(vs)[i] != '1'
  {
    hide ValueOf;
    forall i | 0 <= i < |vs|
      ensures ValueOf(ToLower(Chars(vs)[i])) == vs[i] && IsPlain(Chars(vs)[i]) && !IsUpper(Chars(vs)[i]) &&
              Chars(vs)[i] != '1'
    {
      CharsetHolds(vs[i]);
    }
  }

  // ---- the checksum of an address -------------------------------------------

  function HighBits(hrp: string): (vs: seq<u5>)
    requires Plain(hrp)
    ensures |vs| == |hrp| && forall i :: 0 <= i < |hrp| ==> vs[i] == ToLower(hrp[i]) as int / 32
  {
    seq(|hrp|, i requires 0 <= i < |hrp| => ToLower(hrp[i]) as int / 32)
  }

  function LowBits(hrp: string): (vs: seq<u5>)
    ensures |vs| == |hrp| && forall i :: 0 <= i < |hrp| ==> vs[i] == hrp[i] as int % 32
  {
    seq(|hrp|, i requires 0 <= i < |hrp| => hrp[i] as int % 32)
  }

  /** What the checksum absorbs of the human-readable part. */
  function HrpValues(hrp: string): seq<u5>
    requires Plain(hrp)
  {
    HighBits(hrp) + [0] + LowBits(hrp)
  }

  lemma AreFives(vs: seq<u5>)
    ensures AreDigits(32, vs)
  {
  }

  function Absorbed(vs: seq<u5>): nat {
    AreFives(vs);
    Absorb(1, vs)
  }

  function SixOf(chk: nat, k: nat): (vs: seq<u5>)
    ensures |vs| == 6
  {
    Checksum(chk, k)
  }

  /** Version 0 closes the checksum on 1, the others on the Bech32m constant. */
  function Constant(ver: nat): nat { if ver == 0 then 1 else 0x2bc8_30a3 }

  // ---- encoding -------------------------------------------------------------

  function Version(op: u8): int { if op >= 0x51 then op - 0x50 else 0 }

  /** What the encoder accepts: a lower-case prefix, a version opcode and a program length in range. */
  predicate Encodable(hrp: string, data: seq<u8>)
    requires |data| >= 2
  {
    && |hrp| <= 84 && Plain(hrp) && NoUpper(hrp)
    && !(0 < data[0] < 0x51) && Version(data[0]) <= 16 && 2 <= data[1] <= 40
  }

  function AddressOf(hrp: string, ver: u5, program: seq<u8>): string
    requires Plain(hrp)
  {
    var values := [ver] + Quintets(program);
    hrp + "1" + Chars(values) + Chars(SixOf(Absorbed(HrpValues(hrp) + values), Constant(ver)))
  }

  // ---- decoding -------------------------------------------------------------

  datatype Decoded = Decoded(hrp: string, data: seq<u8>)

  /** The last separator, or 0. */
  function LastOne(s: string): (i: nat)
    ensures i <= |s|
  {
    if s == [] then 0 else if s[|s| - 1] == '1' then |s| - 1 else LastOne(s[..|s| - 1])
  }

  predicate WellShaped(addr: string) {
    && Plain(addr) && (NoUpper(addr) || forall i :: 0 <= i < |addr| ==> !IsLower(addr[i]))
    && 8 <= |addr| <= 90 && 1 <= LastOne(addr) <= |addr| - 8
  }

  function Lowered(s: string): (t: string)
    ensures |t| == |s|
  {
    seq(|s|, i requires 0 <= i < |s| => ToLower(s[i]))
  }

  function ProgramBytes(qs: seq<u5>): (bytes: seq<u8>)
    ensures |bytes| == |qs| * 5 / 8
  {
    seq(|qs| * 5 / 8, i requires 0 <= i => ByteAt(qs, i))
  }

  /** A version opcode, a length and the program. */
  function Payload(ver: u5, program: seq<u8>): seq<u8>
    requires |program| <= 40
  {
    [if ver == 0 then 0 else ver + 0x50, |program|] + program
  }

  function DecodeOf(addr: string): Option<Decoded> {
    if !WellShaped(addr) then None else
    var sep := LastOne(addr);
    if !AllData(addr[sep + 1..]) then None else
    var vs := Fives(addr[sep + 1..]);
    var ver, bytes := vs[0], ProgramBytes(vs[1..|vs| - 6]);
    if Absorbed(HrpValues(addr[..sep]) + vs) != Constant(ver) || ver > 16 || |bytes| < 2 || |bytes| > 40 then None else
    Some(Decoded(Lowered(addr[..sep]), Payload(ver, bytes)))
  }

  // ---- the round trip -------------------------------------------------------

  lemma {:induction false} LastOneIs(s: string, i: nat)
    requires i < |s| && s[i] == '1' && forall k :: i < k < |s| ==> s[k] != '1'
    ensures LastOne(s) == i
    decreases |s|
  {
    if i < |s| - 1 { LastOneIs(s[..|s| - 1], i); }
  }

  lemma {:induction false} AbsorbConcat(chk: nat, a: seq<int>, b: seq<int>)
    requires AreDigits(32, a) && AreDigits(32, b)
    ensures Absorb(chk, a + b) == Absorb(Absorb(chk, a), b)
    decreases |b|
  {
    if b == [] {
      assert a + b == a;
    } else {
      AbsorbConcat(chk, a, b[..|b| - 1]);
      assert (a + b)[..|a + b| - 1] == a + b[..|b| - 1];
    }
  }

  lemma Closes(vs: seq<u5>, k: nat)
    requires k < 0x4000_0000
    ensures Absorbed(vs + SixOf(Absorbed(vs), k)) == k
  {
    hide Checksum, Absorb;
    AreFives(vs);
    AreFives(SixOf(Absorbed(vs), k));
    AbsorbConcat(1, vs, SixOf(Absorbed(vs), k));
    ChecksumCloses(Absorb(1, vs), k);
  }

  /** An address has the shape the decoder wants, with its separator after the prefix. */
  lemma AddressShape(hrp: string, ver: u5, program: seq<u8>)
    requires hrp != "" && Plain(hrp) && NoUpper(hrp) && |AddressOf(hrp, ver, program)| <= 90
    ensures var a := AddressOf(hrp, ver, program);
            && |a| == |hrp| + 8 + (8 * |program| + 4) / 5
            && WellShaped(a) && LastOne(a) == |hrp|
  {
    var values := [ver] + Quintets(program);
    var six := SixOf(Absorbed(HrpValues(hrp) + values), Constant(ver));
    FivesOfChars(values);
    FivesOfChars(six);
    hide Chars, Quintets, SixOf, Absorbed, HrpValues, LastOne, ValueOf;
    ShapeOf(hrp, Chars(values), Chars(six));
  }

  predicate DataText(s: string) { forall i :: 0 <= i < |s| ==> IsPlain(s[i]) && !IsUpper(s[i]) && s[i] != '1' }

  lemma ShapeOf(hrp: string, x: string, y: string)
    requires hrp != "" && Plain(hrp) && NoUpper(hrp) && DataText(x) && DataText(y)
    requires |x| + |y| >= 7 && |hrp| + 1 + |x| + |y| <= 90
    ensures var a := hrp + "1" + x + y; WellShaped(a) && LastOne(a) == |hrp|
  {
    var a, t := hrp + "1" + x + y, x + y;
    assert DataText(t);
    assert a == hrp + "1" + t;
    forall i | 0 <= i < |a| ensures IsPlain(a[i]) && !IsUpper(a[i]) && (i > |hrp| ==> a[i] != '1') {
      if i > |hrp| { assert a[i] == t[i - |hrp| - 1]; } else if i < |hrp| { assert a[i] == hrp[i]; }
    }
    LastOneIs(a, |hrp|);
    hide LastOne, IsPlain;
  }

  lemma AddressTail(hrp: string, ver: u5, program: seq<u8>)
    requires Plain(hrp)
    ensures var a := AddressOf(hrp, ver, program);
            var values := [ver] + Quintets(program);
            var six := SixOf(Absorbed(HrpValues(hrp) + values), Constant(ver));
            && |a| >= |hrp| + 1 && a[..|hrp|] == hrp
            && AllData(a[|hrp| + 1..]) && Fives(a[|hrp| + 1..]) == values + six
  {
    var a := AddressOf(hrp, ver, program);
    var values := [ver] + Quintets(program);
    var six := SixOf(Absorbed(HrpValues(hrp) + values), Constant(ver));
    FivesOfChars(values + six);
    CharsConcat(values, six);
    hide Quintets, SixOf, Absorbed, HrpValues, ValueOf, Chars, Fives, AllData;
    assert a == hrp + "1" + (Chars(values) + Chars(six));
    assert a[|hrp| + 1..] == Chars(values + six);
  }

  lemma CharsConcat(a: seq<u5>, b: seq<u5>)
    ensures Chars(a + b) == Chars(a) + Chars(b)
  {
  }

  lemma ProgramBack(program: seq<u8>)
    ensures ProgramBytes(Quintets(program)) == program
  {
    hide ByteAt, QuintetAt;
    forall i | 0 <= i < |program| ensures ProgramBytes(Quintets(program))[i] == program[i] { Regroups(program, i); }
  }

  lemma LoweredIs(hrp: string)
    requires NoUpper(hrp)
    ensures Lowered(hrp) == hrp
  {
  }

  /** Decoding the address of a witness program gives back the prefix, the version opcode and the program. */
  lemma DecodeEncode(hrp: string, data: seq<u8>)
    requires hrp != "" && |data| >= 2 && Encodable(hrp, data) && |data| == 2 + data[1]
    requires |AddressOf(hrp, Version(data[0]), data[2..])| <= 90
    ensures DecodeOf(AddressOf(hrp, Version(data[0]), data[2..])) == Some(Decoded(hrp, data))
  {
    hide AddressOf, DecodeOf;
    RoundTrip(hrp, Version(data[0]), data[2..]);
    assert data == [data[0], data[1]] + data[2..];
  }

  lemma RoundTrip(hrp: string, ver: u5, program: seq<u8>)
    requires hrp != "" && Plain(hrp) && NoUpper(hrp) && ver <= 16 && 2 <= |program| <= 40
    requires |AddressOf(hrp, ver, program)| <= 90
    ensures DecodeOf(AddressOf(hrp, ver, program)) ==
            Some(Decoded(hrp, Payload(ver, program)))
  {
    hide *;
    var values := [ver] + Quintets(program);
    var vs := HrpValues(hrp) + values;
    var six := SixOf(Absorbed(vs), Constant(ver));
    AddressShape(hrp, ver, program);
    AddressTail(hrp, ver, program);
    ConstantFits(ver);
    Closes(vs, Constant(ver));
    ProgramBack(program);
    LoweredIs(hrp);
    ValuesSplit(ver, Quintets(program), six);
    assert HrpValues(hrp) + (values + six) == vs + six;
    var addr := AddressOf(hrp, ver, program);
    DecodeParts(addr, hrp, addr[|hrp| + 1..], values + six, ver, Quintets(program), program);
  }

  lemma ConstantFits(ver: nat)
    ensures Constant(ver) < 0x4000_0000
  {
  }

  lemma ValuesSplit(ver: u5, qs: seq<u5>, six: seq<u5>)
    requires |six| == 6
    ensures var vs := [ver] + qs + six; vs[0] == ver && vs[1..|vs| - 6] == qs
  {
  }

  /** What the decoder answers, from the parts of an address. */
  lemma DecodeParts(addr: string, hrp: string, tail: string, vs: seq<u5>, ver: u5, qs: seq<u5>, bytes: seq<u8>)
    requires WellShaped(addr) && LastOne(addr) == |hrp| && addr[..|hrp|] == hrp && addr[|hrp| + 1..] == tail
    requires AllData(tail) && Fives(tail) == vs && |vs| >= 7 && ver == vs[0] <= 16 && qs == vs[1..|vs| - 6]
    requires Plain(hrp) && Absorbed(HrpValues(hrp) + vs) == Constant(ver)
    requires ProgramBytes(qs) == bytes && 2 <= |bytes| <= 40
    ensures DecodeOf(addr) == Some(Decoded(Lowered(hrp), Payload(ver, bytes)))
  {
    hide LastOne, AllData, Fives, Absorbed, HrpValues, ProgramBytes, Lowered, WellShaped;
  }
}
