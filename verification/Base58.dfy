/** Base58. */
module Base58 {
  // Byte strings as base-58 numerals, one leading '1' for each leading zero byte.

  import opened FixedWidth
  import opened Arithmetic
  import opened Radix

  /** I, O, l and 0 are left out. */
  const ALPHABET: string :=
    "123456789" + "ABCDEFGH" + "JKLMN" + "PQRSTUVWXYZ" + "abcdefghijk" + "mnopqrstuvwxyz"

  /** The longest string a decode reads. */
  const MAX_STR_LEN: nat := 128

  /** log(58)/log(256), rounded up, for the longest string. */
  const DECODE_SIZE: nat := MAX_STR_LEN * 733 / 1000 + 1

  /** A character's digit, or U32_MAX for one outside the alphabet. */
  function DigitOf(c: char): u32 {
    if '1' <= c <= '9' then c as int - '1' as int
    else if 'A' <= c <= 'H' then c as int + 9 - 'A' as int
    else if 'J' <= c <= 'N' then c as int + 17 - 'J' as int
    else if 'P' <= c <= 'Z' then c as int + 22 - 'P' as int
    else if 'a' <= c <= 'k' then c as int + 33 - 'a' as int
    else if 'm' <= c <= 'z' then c as int + 44 - 'm' as int
    else U32_MAX
  }

  predicate InAlphabet(s: string) { forall i :: 0 <= i < |s| ==> DigitOf(s[i]) < 58 }

  /** Where the runs of the alphabet start. */
  lemma AlphabetLow(d: nat)
    requires d < 33
    ensures |ALPHABET| == 58
    ensures d < 9 ==> ALPHABET[d] as int == '1' as int + d
    ensures 9 <= d < 17 ==> ALPHABET[d] as int == 'A' as int + (d - 9)
    ensures 17 <= d < 22 ==> ALPHABET[d] as int == 'J' as int + (d - 17)
    ensures 22 <= d ==> ALPHABET[d] as int == 'P' as int + (d - 22)
  {
    if d < 9 { assert ALPHABET[d] == "123456789"[d]; }
    else if d < 17 { assert ALPHABET[d] == "ABCDEFGH"[d - 9]; }
    else if d < 22 { assert ALPHABET[d] == "JKLMN"[d - 17]; }
    else { assert ALPHABET[d] == "PQRSTUVWXYZ"[d - 22]; }
  }

  lemma AlphabetHigh(d: nat)
    requires 33 <= d < 58
    ensures |ALPHABET| == 58
    ensures d < 44 ==> ALPHABET[d] as int == 'a' as int + (d - 33)
    ensures 44 <= d ==> ALPHABET[d] as int == 'm' as int + (d - 44)
  {
    if d < 44 { assert ALPHABET[d] == "abcdefghijk"[d - 33]; }
    else { assert ALPHABET[d] == "mnopqrstuvwxyz"[d - 44]; }
  }

  lemma AlphabetDigits(d: nat)
    requires d < 58
    ensures |ALPHABET| == 58 && DigitOf(ALPHABET[d]) == d
  {
    if d < 33 { AlphabetLow(d); } else { AlphabetHigh(d); }
  }

  lemma DigitsAlphabet(c: char)
    requires DigitOf(c) < 58
    ensures |ALPHABET| == 58 && ALPHABET[DigitOf(c)] == c
  {
    var d := DigitOf(c);
    if d < 33 { AlphabetLow(d); } else { AlphabetHigh(d); }
    assert ALPHABET[d] as int == c as int;
  }

  // ---- the text form --------------------------------------------------------

  function Chars(ds: seq<int>): (s: string)
    requires AreDigits(58, ds)
    ensures |s| == |ds| && forall i :: 0 <= i < |s| ==> s[i] == ALPHABET[ds[i]]
  {
    seq(|ds|, i requires 0 <= i < |ds| => ALPHABET[ds[i]])
  }

  function Indexes(s: string): (ds: seq<int>)
    ensures |ds| == |s| && forall i :: 0 <= i < |s| ==> ds[i] == DigitOf(s[i])
    ensures InAlphabet(s) ==> AreDigits(58, ds)
  {
    seq(|s|, i requires 0 <= i < |s| => DigitOf(s[i]))
  }

  lemma CharsInvert(ds: seq<int>)
    requires AreDigits(58, ds)
    ensures InAlphabet(Chars(ds)) && Indexes(Chars(ds)) == ds
  {
    forall i | 0 <= i < |ds| ensures DigitOf(Chars(ds)[i]) == ds[i] { AlphabetDigits(ds[i]); }
  }

  lemma IndexesInvert(s: string)
    requires InAlphabet(s)
    ensures Chars(Indexes(s)) == s
  {
    forall i | 0 <= i < |s| ensures Chars(Indexes(s))[i] == s[i] { DigitsAlphabet(s[i]); }
  }

  lemma BytesAreDigits(data: seq<u8>)
    ensures AreDigits(256, data)
  {
  }

  ghost function EncodeOf(data: seq<u8>): string {
    BytesAreDigits(data);
    RecodeHolds(256, 58, data);
    Chars(Recode(256, 58, data))
  }

  /** Nothing for a string that is too long or has a character outside the alphabet. */
  ghost function DecodeOf(s: string): (data: seq<int>) {
    if |s| <= MAX_STR_LEN && InAlphabet(s) then Recode(58, 256, Indexes(s)) else []
  }

  /** Every byte string whose encoding is not too long decodes back to itself. */
  lemma DecodeEncode(data: seq<u8>)
    requires |EncodeOf(data)| <= MAX_STR_LEN
    ensures DecodeOf(EncodeOf(data)) == data
  {
    BytesAreDigits(data);
    RecodeInverts(256, 58, data);
    CharsInvert(Recode(256, 58, data));
  }

  /** Every alphabet string that is not too long is the encoding of the bytes it decodes to. */
  lemma EncodeDecode(s: string)
    requires |s| <= MAX_STR_LEN && InAlphabet(s)
    ensures var data := DecodeOf(s); AreDigits(256, data) && EncodeOf(data) == s
  {
    RecodeInverts(58, 256, Indexes(s));
    IndexesInvert(s);
  }

  /** A decode is empty only for the empty string, and for the strings that are refused. */
  lemma RefusedDecodes(s: string)
    ensures DecodeOf(s) == [] <==> s == "" || |s| > MAX_STR_LEN || !InAlphabet(s)
  {
    if |s| <= MAX_STR_LEN && InAlphabet(s) && s != "" {
      EncodeDecode(s);
      if DecodeOf(s) == [] { EmptyEncodes(); }
    } else if s == "" {
      assert Indexes(s) == [];
      assert Value(58, Indexes(s)) == 0 && Digits(256, 0) == [];
      assert LeadingZeros(Indexes(s)) == 0;
    }
  }

  lemma EmptyEncodes()
    ensures EncodeOf([]) == ""
  {
    assert Value(256, []) == 0 && Digits(58, 0) == [] && LeadingZeros([]) == 0;
  }

  // ---- the buffers are large enough -----------------------------------------

  lemma {:induction false} PowOfPow(b: nat, m: nat, n: nat)
    ensures Pow(b, m * n) == Pow(Pow(b, m), n)
    decreases n
  {
    if n > 0 {
      PowOfPow(b, m, n - 1);
      assert m * n == m + m * (n - 1);
      PowAdd(b, m, m * (n - 1));
    }
  }

  lemma {:induction false} PowMonotone(a: nat, b: nat, n: nat)
    requires a <= b
    ensures Pow(a, n) <= Pow(b, n)
    decreases n
  {
    if n > 0 {
      PowMonotone(a, b, n - 1);
      MulMonotone(a, b, Pow(a, n - 1));
      MulMonotoneInt(Pow(a, n - 1), Pow(b, n - 1), b);
    }
  }

  /** Products of powers keep an order that holds factor by factor. */
  lemma PowProduct(a: nat, m: nat, k: nat, b: nat, n: nat, l: nat)
    requires Pow(a, m) <= Pow(b, n) && Pow(a, k) <= Pow(b, l)
    ensures Pow(a, m + k) <= Pow(b, n + l)
  {
    PowAdd(a, m, k);
    PowAdd(b, n, l);
    MulMonotone(Pow(a, m), Pow(b, n), Pow(a, k));
    MulMonotoneInt(Pow(a, k), Pow(b, l), Pow(b, n));
  }

  lemma SmallPowers()
    ensures Pow(256, 0) <= Pow(58, 1) && Pow(256, 1) <= Pow(58, 2) && Pow(256, 2) <= Pow(58, 3)
    ensures Pow(256, 3) <= Pow(58, 5) && Pow(256, 4) <= Pow(58, 6)
  {
    assert Pow(58, 2) == 3364;
    assert Pow(58, 3) == 195112;
    assert Pow(58, 5) == 3364 * 195112 by { PowAdd(58, 2, 3); }
    assert Pow(58, 6) == 195112 * 195112 by { PowAdd(58, 3, 3); }
    assert Pow(256, 2) == 65536;
    assert Pow(256, 4) == 65536 * 65536 by { PowAdd(256, 2, 2); }
  }

  /** The buffer an m-byte tail is encoded in has a place for every digit. */
  lemma EncodeFits(m: nat)
    ensures Pow(256, m) <= Pow(58, m * 138 / 100 + 1)
  {
    SmallPowers();
    hide Pow;
    PowProduct(256, 4, 1, 58, 6, 2);
    PowProduct(256, 4, 2, 58, 6, 3);
    assert Pow(256, 8) <= Pow(58, 11) by { EightBytes(); }
    LargePowers();
    var q, r := m / 8, m % 8;
    PowOfPow(256, 8, q);
    PowOfPow(58, 11, q);
    PowMonotone(Pow(256, 8), Pow(58, 11), q);
    var f := if r == 0 then 0 else if r == 1 then 2 else if r == 2 then 3 else if r == 3 then 5 else
             if r == 4 then 6 else if r == 5 then 7 else if r == 6 then 9 else 10;
    assert Pow(256, r) <= Pow(58, f) by { ZeroPowers(); }
    PowProduct(256, 8 * q, r, 58, 11 * q, f);
    PowGrows(58, 11 * q + f, m * 138 / 100 + 1);
  }

  lemma ZeroPowers()
    ensures Pow(256, 0) <= Pow(58, 0)
  {
  }

  lemma EightBytes()
    ensures Pow(256, 8) <= Pow(58, 11)
  {
    LargePowers();
    assert Pow(256, 8) == 0x1_0000_0000_0000_0000 by {
      PowAdd(256, 4, 4); PowAdd(256, 2, 2); assert Pow(256, 2) == 65536;
    }
    assert Pow(58, 11) == 656356768 * 38068692544 by { PowAdd(58, 5, 6); }
  }

  lemma LargePowers()
    ensures Pow(58, 5) == 656356768 && Pow(58, 6) == 38068692544
    ensures Pow(256, 5) <= Pow(58, 7) && Pow(256, 6) <= Pow(58, 9) && Pow(256, 7) <= Pow(58, 10)
  {
    assert Pow(58, 2) == 3364;
    assert Pow(58, 3) == 195112;
    PowAdd(58, 2, 3); PowAdd(58, 3, 3); PowAdd(58, 5, 2); PowAdd(58, 6, 3); PowAdd(58, 5, 5);
    assert Pow(256, 2) == 65536;
    assert Pow(256, 3) == 16777216;
    PowAdd(256, 2, 3); PowAdd(256, 3, 3); PowAdd(256, 5, 2);
  }

  /** The decoder's buffer has room for the longest string it reads. */
  lemma DecodeFits()
    ensures Pow(58, MAX_STR_LEN) < Pow(256, DECODE_SIZE)
  {
    LargePowers();
    assert Pow(58, 8) == 656356768 * 195112 by { PowAdd(58, 5, 3); assert Pow(58, 3) == 195112; }
    assert Pow(58, 15) == 656356768 * (656356768 * 656356768) by { PowAdd(58, 5, 10); PowAdd(58, 5, 5); }
    assert Pow(256, 3) == 16777216;
    PowAdd(256, 3, 3);
    PowAdd(256, 6, 3);
    PowAdd(256, 9, 2);
    assert Pow(256, 2) == 65536;
    hide Pow;
    PowMonotone(Pow(58, 15), Pow(256, 11), 8);
    PowOfPow(58, 15, 8);
    PowOfPow(256, 11, 8);
    PowAdd(58, 8, 120);
    PowAdd(256, 6, 88);
    PowPositive(58, 120);
    StrictProduct(Pow(58, 8), Pow(256, 6), Pow(58, 120), Pow(256, 88));
  }

  lemma StrictProduct(x: nat, y: nat, p: nat, q: nat)
    requires x < y && 0 < p <= q
    ensures x * p < y * q
  {
    MulMonotoneInt(p, q, y);
    MulMonotone(x + 1, y, p);
    assert (x + 1) * p == x * p + p;
  }

  // ---- the operations -------------------------------------------------------

  lemma NextDigit(b: nat, s: seq<int>, from: nat, i: nat)
    requires from <= i < |s|
    ensures Value(b, s[from..i + 1]) == Value(b, s[from..i]) * b + s[i]
  {
    assert s[from..i + 1] == s[from..i] + [s[i]];
    ValueSnoc(b, s[from..i], s[i]);
  }

  lemma EncodeRoom(s: seq<u8>, m: nat)
    requires |s| <= m
    ensures Value(256, s) < Pow(58, m * 138 / 100 + 1)
  {
    BytesAreDigits(s);
    ValueBound(256, s);
    PowGrows(256, |s|, m);
    EncodeFits(m);
  }

  lemma DecodeRoom(s: seq<int>)
    requires AreDigits(58, s) && |s| <= MAX_STR_LEN
    ensures Value(58, s) < Pow(256, DECODE_SIZE)
  {
    hide Pow, Value;
    ValueBound(58, s);
    PowGrows(58, |s|, MAX_STR_LEN);
    DecodeFits();
  }

  /** Where the digits of a buffer start; what is past there are the digits of its value. */
  method SkipZeros(b: nat, buf: array<u8>) returns (i: nat)
    requires b > 1 && AreDigits(b, buf[..])
    ensures i <= buf.Length && AreDigits(b, buf[i..])
    ensures Value(b, buf[..]) >= 0 && Digits(b, Value(b, buf[..])) == buf[i..]
  {
    i := 0;
    while i < buf.Length && buf[i] == 0
      invariant i <= buf.Length && forall k :: 0 <= k < i ==> buf[k] == 0
    {
      i := i + 1;
    }
    ZerosDropped(b, buf[..], i);
    assert buf[..][i..] == buf[i..];
    DigitsUnique(b, buf[i..]);
  }

  /** The value of the bytes after the leading zeros, in base-58 digits. */
  method EncodeDigits(data: seq<u8>, zcount: nat) returns (buf: array<u8>)
    requires zcount <= |data|
    ensures fresh(buf) && AreDigits(58, buf[..]) && Value(58, buf[..]) == Value(256, data[zcount..])
  {
    hide *;
    buf := NewDigits((|data| - zcount) * 138 / 100 + 1);
    var i := zcount;
    NothingYet(data, zcount);
    while i < |data|
      invariant zcount <= i <= |data| && AreDigits(58, buf[..])
      invariant Value(58, buf[..]) == Value(256, data[zcount..i]) && buf.Length == (|data| - zcount) * 138 / 100 + 1
    {
      NextDigit(256, data, zcount, i);
      EncodeRoom(data[zcount..i + 1], |data| - zcount);
      MulAdd(buf, 58, 256, data[i]);
      i := i + 1;
    }
    assert data[zcount..i] == data[zcount..];
  }

  method NewDigits(size: nat) returns (buf: array<u8>)
    ensures fresh(buf) && buf.Length == size && AreDigits(58, buf[..]) && Value(58, buf[..]) == 0
  {
    buf := new u8[size](_ => 0);
    ValueZeros(58, buf[..]);
  }

  lemma NothingYet(data: seq<u8>, from: nat)
    requires from <= |data|
    ensures Value(256, data[from..from]) == 0
  {
  }

  /** Writes the terminated encoding of data, or nothing when it does not fit; answers the characters written. */
  method Encode(str: array<char>, data: seq<u8>) returns (len: nat)
    modifies str
    ensures var text := EncodeOf(data) + "\0";
            if |text| <= str.Length then len == |text| && str[..] == text + old(str[..])[len..]
            else len == 0 && str[..] == old(str[..])
  {
    var zcount := 0;
    while zcount < |data| && data[zcount] == 0
      invariant zcount <= |data| && forall k :: 0 <= k < zcount ==> data[k] == 0
    {
      zcount := zcount + 1;
    }
    LeadingZerosUnique(data, zcount);
    ZerosDropped(256, data, zcount);
    BytesAreDigits(data);
    hide Value, Pow, Digits, Chars;
    var buf := EncodeDigits(data, zcount);
    var i := SkipZeros(58, buf);
    assert Recode(256, 58, data) == Zeros(zcount) + buf[i..];
    len := zcount + buf.Length - i + 1;
    if len <= str.Length {
      WriteChars(str, zcount, buf[i..]);
    } else {
      len := 0;
    }
  }

  method WriteChars(str: array<char>, zcount: nat, digits: seq<u8>)
    requires AreDigits(58, digits) && zcount + |digits| < str.Length
    modifies str
    ensures AreDigits(58, Zeros(zcount) + digits)
    ensures var text := Chars(Zeros(zcount) + digits) + "\0"; str[..] == text + old(str[..])[|text|..]
  {
    ghost var text := Chars(Zeros(zcount) + digits) + "\0";
    ghost var was := str[..];
    var p := 0;
    while p < zcount
      invariant p <= zcount && str[..p] == text[..p] && str[p..] == was[p..]
    {
      assert ALPHABET[0] == '1';
      assert str[p..][1..] == str[p + 1..] && was[p..][1..] == was[p + 1..];
      str[p] := ALPHABET[0];
      p := p + 1;
    }
    var i := 0;
    while i < |digits|
      invariant i <= |digits| && p == zcount + i && str[..p] == text[..p] && str[p..] == was[p..]
    {
      assert text[p] == ALPHABET[digits[i]];
      assert str[p..][1..] == str[p + 1..] && was[p..][1..] == was[p + 1..];
      str[p] := ALPHABET[digits[i]];
      i, p := i + 1, p + 1;
    }
    str[p] := '\0';
    assert str[..] == text + was[|text|..];
  }

  /** The value of the characters after the leading ones, in bytes; refuses a character outside the alphabet. */
  method Accumulate(str: string, zcount: nat) returns (ok: bool, buf: array<u8>)
    requires zcount <= |str| <= MAX_STR_LEN
    ensures fresh(buf) && AreDigits(256, buf[..])
    ensures ok <==> InAlphabet(str[zcount..])
    ensures ok ==> Value(256, buf[..]) == Value(58, Indexes(str)[zcount..])
  {
    hide *;
    buf := NewBuffer();
    ok := false;
    var p := zcount;
    NothingRead(str, zcount);
    while p < |str|
      invariant zcount <= p <= |str| && AreDigits(256, buf[..])
      invariant InAlphabet(str[zcount..p])
      invariant Value(256, buf[..]) == Value(58, Indexes(str)[zcount..p])
    {
      var carry := DigitOf(str[p]);
      ReadCharacter(str, zcount, p);
      if carry >= 58 { return; }
      MulAdd(buf, 256, 58, carry);
      p := p + 1;
    }
    assert |Indexes(str)| == |str|;
    assert Indexes(str)[zcount..p] == Indexes(str)[zcount..] && str[zcount..p] == str[zcount..];
    ok := true;
  }

  method NewBuffer() returns (buf: array<u8>)
    ensures fresh(buf) && buf.Length == DECODE_SIZE && AreDigits(256, buf[..]) && Value(256, buf[..]) == 0
  {
    buf := new u8[DECODE_SIZE](_ => 0);
    ValueZeros(256, buf[..]);
  }

  lemma NothingRead(str: string, from: nat)
    requires from <= |str|
    ensures InAlphabet(str[from..from]) && Value(58, Indexes(str)[from..from]) == 0
  {
  }

  lemma ReadCharacter(str: string, from: nat, p: nat)
    requires from <= p < |str| <= MAX_STR_LEN && InAlphabet(str[from..p])
    ensures if DigitOf(str[p]) >= 58 then !InAlphabet(str[from..]) else
            && InAlphabet(str[from..p + 1])
            && Value(58, Indexes(str)[from..p + 1]) == Value(58, Indexes(str)[from..p]) * 58 + DigitOf(str[p])
            && Value(58, Indexes(str)[from..p + 1]) < Pow(256, DECODE_SIZE)
  {
    if DigitOf(str[p]) >= 58 {
      assert str[from..][p - from] == str[p];
    } else {
      assert str[from..p + 1] == str[from..p] + [str[p]];
      NextDigit(58, Indexes(str), from, p);
      assert Indexes(str)[from..p + 1] == Indexes(str[from..p + 1]);
      DecodeRoom(Indexes(str)[from..p + 1]);
    }
  }

  /** Writes the bytes of str, or nothing when they do not fit; answers the bytes written. */
  method Decode(data: array<u8>, str: string) returns (len: nat)
    modifies data
    ensures var bytes := DecodeOf(str);
            if |bytes| <= data.Length then len == |bytes| && data[..] == bytes + old(data[..])[len..]
            else len == 0 && data[..] == old(data[..])
  {
    len := 0;
    while len <= MAX_STR_LEN && len < |str|
      invariant len <= |str| && len <= MAX_STR_LEN + 1
    {
      len := len + 1;
    }
    if len > MAX_STR_LEN { return 0; }
    var zcount := 0;
    while zcount < |str| && str[zcount] == '1'
      invariant zcount <= |str| && forall k :: 0 <= k < zcount ==> str[k] == '1'
    {
      zcount := zcount + 1;
    }
    hide *;
    FirstDigit(str, zcount);
    var ok, buf := Accumulate(str, zcount);
    DecodedParts(str, zcount);
    if !ok { return 0; }
    var i := SkipZeros(256, buf);
    len := zcount + buf.Length - i;
    if len <= data.Length {
      WriteBytes(data, zcount, buf[i..]);
    } else {
      len := 0;
    }
  }

  lemma DecodedParts(str: string, zcount: nat)
    requires |str| <= MAX_STR_LEN && zcount <= |str| && LeadingZeros(Indexes(str)) == zcount
    requires forall k :: 0 <= k < zcount ==> DigitOf(str[k]) == 0
    ensures !InAlphabet(str[zcount..]) ==> DecodeOf(str) == []
    ensures InAlphabet(str[zcount..]) ==>
              && Value(58, Indexes(str)[zcount..]) >= 0
              && DecodeOf(str) == Zeros(zcount) + Digits(256, Value(58, Indexes(str)[zcount..]))
  {
    if InAlphabet(str[zcount..]) {
      forall k | 0 <= k < |str| ensures DigitOf(str[k]) < 58 {
        if k >= zcount { assert str[k] == str[zcount..][k - zcount]; }
      }
      ZerosDropped(58, Indexes(str), zcount);
      ValueBound(58, Indexes(str));
    } else {
      var k :| 0 <= k < |str[zcount..]| && DigitOf(str[zcount..][k]) >= 58;
      assert DigitOf(str[zcount + k]) >= 58;
    }
  }

  lemma FirstDigit(str: string, n: nat)
    requires n <= |str| && (forall k :: 0 <= k < n ==> str[k] == '1') && (n < |str| ==> str[n] != '1')
    ensures LeadingZeros(Indexes(str)) == n && forall k :: 0 <= k < n ==> DigitOf(str[k]) == 0
  {
    assert ALPHABET[0] == '1';
    if n < |str| && DigitOf(str[n]) == 0 { DigitsAlphabet(str[n]); }
    LeadingZerosUnique(Indexes(str), n);
  }

  method WriteBytes(data: array<u8>, zcount: nat, bytes: seq<u8>)
    requires zcount + |bytes| <= data.Length
    modifies data
    ensures data[..] == Zeros(zcount) + bytes + old(data[..])[zcount + |bytes|..]
  {
    ghost var was := data[..];
    forall k | 0 <= k < zcount { data[k] := 0; }
    forall k | 0 <= k < |bytes| { data[zcount + k] := bytes[k]; }
    assert data[..zcount] == Zeros(zcount);
    assert data[zcount..zcount + |bytes|] == bytes;
    assert data[zcount + |bytes|..] == was[zcount + |bytes|..];
  }
}
