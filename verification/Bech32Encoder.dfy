/** The encoding loop of Bech32 addresses as it runs: checks, regrouping and checksum by cursor over one fixed
    buffer. */
module Bech32Encoder {
  import opened FixedWidth
  import opened Arithmetic
  import opened ExclusiveOr
  import opened Options
  import opened Bech32Code
  import opened Bech32Groups
  import opened Bech32

  lemma AbsorbedSnoc(vs: seq<u5>, c: u5)
    ensures Absorbed(vs + [c]) == Xor(Polymod(Absorbed(vs)), c)
  {
    hide Polymod, Xor;
    AreFives(vs);
    AreFives(vs + [c]);
    assert (vs + [c])[..|vs|] == vs;
  }

  // ---- encoding -------------------------------------------------------------

  /** The address being written, and the checksum of what it stands for. */
  class Writer {
    const addr: array<char>
    var i: nat
    var chk: nat

    constructor ()
      ensures Holds("", []) && addr.Length == 91 && fresh(addr)
    {
      addr := new char[91];
      i, chk := 0, 1;
      new;
      assert addr[..0] == "";
    }

    ghost predicate Holds(text: string, vs: seq<u5>)
      reads this, addr
    {
      i == |text| <= addr.Length && addr[..i] == text && chk == Absorbed(vs)
    }

    method AbsorbValue(c: u5, ghost text: string, ghost vs: seq<u5>)
      requires Holds(text, vs)
      modifies this`chk
      ensures Holds(text, vs + [c])
    {
      AbsorbedSnoc(vs, c);
      chk := Xor(Polymod(chk), c);
    }

    method Put(ch: char, ghost text: string, ghost vs: seq<u5>)
      requires Holds(text, vs) && i < addr.Length
      modifies this`i, addr
      ensures Holds(text + [ch], vs)
    {
      addr[i] := ch;
      i := i + 1;
    }

    method Emit(c: u5, ghost text: string, ghost vs: seq<u5>)
      requires Holds(text, vs) && i < addr.Length && |CHARSET| == 32
      modifies this, addr
      ensures Holds(text + [CHARSET[c]], vs + [c])
    {
      AbsorbValue(c, text, vs);
      Put(CHARSET[c], text, vs + [c]);
    }

    /** Absorbs and writes the prefix; refuses one that is too long, not plain, or not lower case. */
    method WritePrefix(hrp: string) returns (ok: bool)
      requires Holds("", []) && addr.Length == 91
      modifies this, addr
      ensures ok <==> |hrp| <= 84 && Plain(hrp) && NoUpper(hrp)
      ensures ok ==> Holds(hrp, HrpValues(hrp))
    {
      hide Absorbed, Polymod, Xor;
      i := 0;
      assert hrp[..0] == "" && HighPart(hrp, 0) == [];
      while i < |hrp|
        invariant i <= |hrp| && i <= 84 && Plain(hrp[..i]) && NoUpper(hrp[..i])
        invariant Holds(hrp[..i], HighPart(hrp, i))
      {
        var k := i;
        if k > 83 || hrp[k] as int < 33 || hrp[k] as int > 126 || IsUpper(hrp[k]) {
          assert IsPlain(hrp[k]) && !IsUpper(hrp[k]) ==> |hrp| > 84;
          return false;
        }
        assert hrp[..k + 1] == hrp[..k] + [hrp[k]];
        assert HighPart(hrp, k + 1) == HighPart(hrp, k) + [hrp[k] as int / 32];
        AbsorbValue(hrp[i] as int / 32, hrp[..k], HighPart(hrp, k));
        Put(hrp[i], hrp[..k], HighPart(hrp, k + 1));
      }
      assert hrp[..i] == hrp;
      HighPartIs(hrp);
      AbsorbValue(0, hrp, HighBits(hrp));
      var j := 0;
      assert HighBits(hrp) + [0] + LowBits(hrp)[..0] == HighBits(hrp) + [0];
      while j < i
        invariant j <= i == |hrp| && Holds(hrp, HighBits(hrp) + [0] + LowBits(hrp)[..j])
      {
        assert HighBits(hrp) + [0] + LowBits(hrp)[..j] + [LowBits(hrp)[j]] == HighBits(hrp) + [0] +
               LowBits(hrp)[..j + 1];
        AbsorbValue(hrp[j] as int % 32, hrp, HighBits(hrp) + [0] + LowBits(hrp)[..j]);
        j := j + 1;
      }
      assert LowBits(hrp)[..j] == LowBits(hrp);
      return true;
    }

    /** Writes and absorbs the quintets of a program, byte by byte. */
    method WriteProgram(program: seq<u8>, ghost text: string, ghost vs: seq<u5>)
      requires Holds(text, vs) && |text| + (8 * |program| + 4) / 5 <= addr.Length
      modifies this, addr
      ensures Holds(text + Chars(Quintets(program)), vs + Quintets(program))
    {
      hide *;
      var b: u8 := 0;
      var j := 0;
      NothingWritten(program, text, vs);
      while j <= |program|
        invariant 0 <= j <= |program| + 1 && b == At(program, j - 1)
        invariant Holds(TextOf(program, text, Emitted(program, j)), ValuesOf(program, vs, Emitted(program, j)))
      {
        var a := b;
        b := if j < |program| then program[j] else 0;
        AtIs(program, j);
        WriteByte(a, b, j, |program|, program, text, vs);
        j := j + 1;
      }
      AllWritten(program, text, vs);
    }

    /** The quintet that ends in byte j, and the one inside it. */
    method WriteByte(a: u8, b: u8, j: nat, n: nat, ghost program: seq<u8>, ghost text: string, ghost vs: seq<u5>)
      requires j <= n == |program| && a == At(program, j - 1) && b == At(program, j)
      requires |text| + (8 * |program| + 4) / 5 <= addr.Length
      requires Holds(TextOf(program, text, Emitted(program, j)), ValuesOf(program, vs, Emitted(program, j)))
      modifies this, addr
      ensures Holds(TextOf(program, text, Emitted(program, j + 1)), ValuesOf(program, vs, Emitted(program, j + 1)))
    {
      hide Absorbed, Polymod, Xor, Or, Pow2, Shl, Shr, QuintetAt, At, Quintets, Chars, TextOf, ValuesOf, Emitted, Holds;
      CharsetSize();
      var x := j % 5 * 8 - j % 5 * 8 / 5 * 5;
      Leftover(j);
      EmittedNext(program, j);
      ghost var m := 8 * j / 5;
      if j < n || j % 5 > 0 {
        EmitFirst(program, j);
        var c: u5 := Or(Shl(a, 5 - x), Shr(b, 3 + x)) % 32;
        WriteQuintet(c, program, text, vs, m);
      }
      if x >= 2 && j < n {
        EmitSecond(program, j);
        var c: u5 := Shr(b, x - 2) % 32;
        WriteQuintet(c, program, text, vs, m + 1);
      }
    }

    method WriteQuintet(c: u5, ghost program: seq<u8>, ghost text: string, ghost vs: seq<u5>, ghost m: nat)
      requires m < (8 * |program| + 4) / 5 && c == QuintetAt(program, m)
      requires |text| + (8 * |program| + 4) / 5 <= addr.Length
      requires Holds(TextOf(program, text, m), ValuesOf(program, vs, m))
      modifies this, addr
      ensures Holds(TextOf(program, text, m + 1), ValuesOf(program, vs, m + 1))
    {
      AppendQuintet(program, text, vs, m);
      hide Absorbed, Quintets, Chars, TextOf, ValuesOf, QuintetAt;
      Emit(c, TextOf(program, text, m), ValuesOf(program, vs, m));
    }

    /** Six empty steps, the constant, and the six characters that bring the checksum to it. */
    method WriteChecksum(ver: u5, ghost text: string, ghost vs: seq<u5>)
      requires Holds(text, vs) && |text| + 6 <= addr.Length
      modifies this, addr
      ensures i == |text| + 6 && addr[..i] == text + Chars(SixOf(Absorbed(vs), Constant(ver)))
    {
      hide Absorbed, Polymod, Xor, Pow2, Chars;
      ghost var before := chk;
      var j := 0;
      assert Steps(before, 0) == before;
      while j < 6
        invariant 0 <= j <= 6 && chk == Steps(before, j) && i == |text| && addr[..i] == text
      {
        chk := Polymod(chk);
        j := j + 1;
      }
      chk := Xor(chk, Constant(ver));
      ghost var six := SixOf(Absorbed(vs), Constant(ver));
      CharsetSize();
      assert text + Chars(six)[..0] == text;
      j := 0;
      while j < 6
        invariant 0 <= j <= 6 && i == |text| + j && addr[..i] == text + Chars(six)[..j]
        invariant chk == Xor(Steps(before, 6), Constant(ver))
      {
        SixthIs(chk, j);
        addr[i] := CHARSET[chk / Pow2((5 - j) * 5) % 32];
        i := i + 1;
        assert Chars(six)[..j + 1] == Chars(six)[..j] + [CHARSET[six[j]]];
        j := j + 1;
      }
      assert Chars(six)[..6] == Chars(six);
    }
  }

  /** The high bits of the first n characters, each at most 31. */
  ghost function HighPart(hrp: string, n: nat): (vs: seq<u5>)
    requires n <= |hrp|
    ensures |vs| == n
  {
    seq(n, i requires 0 <= i < n => ToLower(hrp[i]) as int / 32 % 32)
  }

  lemma HighPartIs(hrp: string)
    requires Plain(hrp)
    ensures HighPart(hrp, |hrp|) == HighBits(hrp)
  {
  }

  // ---- the quintets written so far ------------------------------------------

  /** How many quintets are written before byte j. */
  ghost function Emitted(program: seq<u8>, j: nat): (m: nat)
    ensures m <= (8 * |program| + 4) / 5
  {
    if j <= |program| then 8 * j / 5 else (8 * |program| + 4) / 5
  }

  ghost function ValuesOf(program: seq<u8>, vs: seq<u5>, m: nat): seq<u5>
    requires m <= (8 * |program| + 4) / 5
  {
    vs + Quintets(program)[..m]
  }

  ghost function TextOf(program: seq<u8>, text: string, m: nat): string
    requires m <= (8 * |program| + 4) / 5
  {
    text + Chars(Quintets(program)[..m])
  }

  lemma NothingWritten(program: seq<u8>, text: string, vs: seq<u5>)
    ensures Emitted(program, 0) == 0 && TextOf(program, text, 0) == text && ValuesOf(program, vs, 0) == vs
    ensures At(program, -1) == 0
  {
    assert Chars([]) == "";
    assert Quintets(program)[..0] == [];
  }

  lemma AllWritten(program: seq<u8>, text: string, vs: seq<u5>)
    ensures var m := Emitted(program, |program| + 1);
            TextOf(program, text, m) == text + Chars(Quintets(program)) &&
                ValuesOf(program, vs, m) == vs + Quintets(program)
  {
    assert Quintets(program)[..|Quintets(program)|] == Quintets(program);
  }

  lemma AtIs(program: seq<u8>, j: nat)
    ensures At(program, j) == if j < |program| then program[j] else 0
  {
  }

  lemma Leftover(j: nat)
    ensures j % 5 * 8 - j % 5 * 8 / 5 * 5 == 8 * j % 5 < 5
    ensures 8 * j % 5 == 0 <==> j % 5 == 0
  {
  }

  lemma EmittedNext(program: seq<u8>, j: nat)
    requires j <= |program|
    ensures Emitted(program, j) == 8 * j / 5
    ensures j < |program| ==> 8 * j / 5 + 1 <= (8 * |program| + 4) / 5
    ensures j < |program| && 8 * j % 5 >= 2 ==> Emitted(program, j + 1) == 8 * j / 5 + 2 <= (8 * |program| + 4) / 5
    ensures j < |program| && 8 * j % 5 < 2 ==> Emitted(program, j + 1) == 8 * j / 5 + 1
    ensures j == |program| && j % 5 > 0 ==> Emitted(program, j + 1) == 8 * j / 5 + 1
    ensures j == |program| && j % 5 == 0 ==> Emitted(program, j + 1) == 8 * j / 5
  {
  }

  lemma AppendQuintet(program: seq<u8>, text: string, vs: seq<u5>, m: nat)
    requires m < (8 * |program| + 4) / 5
    ensures |CHARSET| == 32
    ensures TextOf(program, text, m + 1) == TextOf(program, text, m) + [CHARSET[QuintetAt(program, m)]]
    ensures ValuesOf(program, vs, m + 1) == ValuesOf(program, vs, m) + [QuintetAt(program, m)]
    ensures |TextOf(program, text, m)| == |text| + m
  {
    hide QuintetAt;
    var qs := Quintets(program);
    CharsetSize();
    assert qs[..m + 1] == qs[..m] + [qs[m]];
    assert Chars(qs[..m + 1]) == Chars(qs[..m]) + [CHARSET[qs[m]]];
    assert text + (Chars(qs[..m]) + [CHARSET[qs[m]]]) == text + Chars(qs[..m]) + [CHARSET[qs[m]]];
    assert vs + (qs[..m] + [qs[m]]) == vs + qs[..m] + [qs[m]];
  }

  /** The address of a witness program, or none for a prefix or a program the encoder does not accept. What the code
      asks of its caller: the whole program, and an address within its buffer of 90 characters and a terminator. */
  method Encode(hrp: string, data: seq<u8>) returns (r: Option<string>)
    requires |data| >= 2
    requires Encodable(hrp, data) ==>
               |data| >= 2 + data[1] && |hrp| + 8 + (8 * (data[1] as int) + 4) / 5 <= 90
    ensures r.Some? <==> Encodable(hrp, data)
    ensures r.Some? ==> |data| >= 2 + data[1] && Encodable(hrp, data) &&
                        r.value == AddressOf(hrp, Version(data[0]), data[2..2 + data[1]])
  {
    hide Absorbed, HrpValues, Quintets, Chars, SixOf, AddressOf;
    var w := new Writer();
    var ok := w.WritePrefix(hrp);
    if !ok { return None; }
    if 0 < data[0] < 0x51 { return None; }
    var ver := if data[0] >= 0x51 then data[0] as int + 1 - 0x51 else 0;
    if ver > 16 || data[1] < 2 || data[1] > 40 { return None; }
    ghost var program := data[2..2 + data[1]];
    ghost var values := [ver] + Quintets(program);
    AddressParts(hrp, ver, program);
    w.Put('1', hrp, HrpValues(hrp));
    CharsetSize();
    w.Emit(ver, hrp + "1", HrpValues(hrp));
    w.WriteProgram(data[2..2 + data[1]], hrp + "1" + [CHARSET[ver]], HrpValues(hrp) + [ver]);
    JoinValues(hrp, ver, program);
    w.WriteChecksum(ver, hrp + "1" + Chars(values), HrpValues(hrp) + values);
    r := Some(w.addr[..w.i]);
  }

  lemma AddressParts(hrp: string, ver: u5, program: seq<u8>)
    requires Plain(hrp)
    ensures var values := [ver] + Quintets(program);
            AddressOf(hrp, ver, program) ==
              hrp + "1" + Chars(values) + Chars(SixOf(Absorbed(HrpValues(hrp) + values), Constant(ver)))
    ensures |AddressOf(hrp, ver, program)| == |hrp| + 8 + (8 * |program| + 4) / 5
  {
    hide Absorbed, HrpValues, SixOf;
  }

  lemma JoinValues(hrp: string, ver: u5, program: seq<u8>)
    requires Plain(hrp)
    ensures |CHARSET| == 32
    ensures hrp + "1" + [CHARSET[ver]] + Chars(Quintets(program)) == hrp + "1" + Chars([ver] + Quintets(program))
    ensures HrpValues(hrp) + [ver] + Quintets(program) == HrpValues(hrp) + ([ver] + Quintets(program))
  {
    hide HrpValues, Quintets;
    CharsetSize();
    assert Chars([ver] + Quintets(program)) == [CHARSET[ver]] + Chars(Quintets(program));
  }

  lemma SixthIs(c: nat, j: nat)
    requires j < 6
    ensures c / Pow2((5 - j) * 5) % 32 == Six(c)[j]
  {
    HighPowers();
    Pow2Values();
    assert Pow2(20) == 0x10_0000 && Pow2(10) == 0x400 by {
      Pow2Add(16, 4); Pow2Add(8, 2);
      assert Pow2(4) == 16 && Pow2(2) == 4;
    }
    hide Pow2;
  }
}
