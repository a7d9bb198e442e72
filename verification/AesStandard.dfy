/** AES-256 as FIPS 197 words it. */
module AesStandard {
  // The key expansion over words (section 5.2) and the cipher over the bytes
  // s[r, c] of the state (section 5.1), written from the standard; the cipher
  // on values meets them on every key and block.

  import opened FixedWidth
  import opened ExclusiveOr
  import opened AesTables
  import opened AesField
  import opened AesCipher
  import opened AesBox

  // ---- the standard's text --------------------------------------------------

  /** Byte r of Rcon[j]: the power j - 1 of two in the field, then zeros. */
  function Rcon(j: nat, r: nat): u8
    requires j > 0
  {
    if r != 0 then 0 else if j == 1 then 1 else Times(Rcon(j - 1, 0), 0x02)
  }

  /** Byte r of the word w[i] of the key expansion, with Nk = 8. */
  function KeyWord(key: Key, i: nat, r: nat): u8
    requires r < 4
  {
    if i < 8 then key[4 * i + r] else
    var temp :=
      if i % 8 == 0 then Xor8(Sub(KeyWord(key, i - 1, (r + 1) % 4)), Rcon(i / 8, r))
      else if i % 8 == 4 then Sub(KeyWord(key, i - 1, r))
      else KeyWord(key, i - 1, r);
    Xor8(KeyWord(key, i - 8, r), temp)
  }

  /** Byte s[r, c] after the substitution and the row shift of round n. */
  function ShiftedByte(key: Key, x: Block, n: nat, r: nat, c: nat): u8
    requires 0 < n && r < 4 && c < 4
    decreases n, 0
  {
    Sub(StateByte(key, x, n - 1, r, (c + r) % 4))
  }

  /** Byte s[r, c] after round n's key was added; the last of the 14 rounds mixes no columns. */
  function StateByte(key: Key, x: Block, n: nat, r: nat, c: nat): u8
    requires r < 4 && c < 4
    decreases n, 1
  {
    var before :=
      if n == 0 then x[r + 4 * c]
      else if n == ROUNDS then ShiftedByte(key, x, n, r, c)
      else
        Xor4(Times(ShiftedByte(key, x, n, r, c), 0x02), Times(ShiftedByte(key, x, n, (r + 1) % 4, c), 0x03),
             ShiftedByte(key, x, n, (r + 2) % 4, c), ShiftedByte(key, x, n, (r + 3) % 4, c));
    Xor8(before, KeyWord(key, 4 * n + c, r))
  }

  // ---- products by two and three --------------------------------------------

  lemma {:induction false} TimesZero(a: u8, n: nat)
    ensures TimesLow(a, 0, n) == 0
  {
    if n > 0 { TimesZero(a, n - 1); XorZero(0); }
  }

  lemma TimesSmall(a: u8)
    ensures Times(a, 0x02) == Xt(a) && Times(a, 0x03) == Xor8(Xt(a), a)
  {
    hide Xor, Xt;
    TimesOne(a);
    XorCommutes(a, Xt(a));
    assert TimesLow(a, 2, 8) == Xt(TimesLow(a, 1, 7));
    assert TimesLow(a, 3, 8) == Xor8(a, Xt(TimesLow(a, 1, 7)));
  }

  lemma TimesOne(a: u8)
    ensures TimesLow(a, 1, 7) == a
  {
    hide Xor;
    TimesZero(a, 6);
    XorZero(0);
    XorZero(a);
    assert Xt(0) == 0;
  }

  lemma {:induction false} RconIs(m: nat)
    ensures Rcon(m + 1, 0) == RoundConstant(m)
  {
    hide Xt, Times;
    if m > 0 { RconIs(m - 1); TimesSmall(RoundConstant(m - 1)); }
  }

  // ---- the key schedule -----------------------------------------------------

  /** The words of window m are the words 8 m to 8 m + 7 of the expansion. */
  lemma {:induction false} ScheduleIsStandard(key: Key, m: nat, i: nat, r: nat)
    requires i < 8 && r < 4
    ensures Schedule(key, m)[4 * i + r] == KeyWord(key, 8 * m + i, r)
    decreases m, i
  {
    hide *;
    if m == 0 {
      ScheduleStarts(key, i, r);
    } else {
      var k := Schedule(key, m - 1);
      ScheduleIsStandard(key, m - 1, i, r);
      if i == 0 {
        ScheduleIsStandard(key, m - 1, 7, (r + 1) % 4);
        FirstWord(key, k, m, r);
      } else {
        ScheduleIsStandard(key, m, i - 1, r);
        LaterWord(key, k, m, i, r);
      }
    }
  }

  lemma ScheduleStarts(key: Key, i: nat, r: nat)
    requires i < 8 && r < 4
    ensures Schedule(key, 0)[4 * i + r] == KeyWord(key, i, r)
  {
    hide Expand, Sub, Xor8, Rcon;
  }

  lemma FirstWord(key: Key, k: Key, m: nat, r: nat)
    requires m > 0 && r < 4 && k == Schedule(key, m - 1)
    requires k[r] == KeyWord(key, 8 * m - 8, r) && k[28 + (r + 1) % 4] == KeyWord(key, 8 * m - 1, (r + 1) % 4)
    ensures Schedule(key, m)[r] == KeyWord(key, 8 * m, r)
  {
    hide *;
    var s := Sub(k[28 + (r + 1) % 4]);
    ScheduleByte(key, m, r);
    ExpandByteStarts(k, RoundConstant(m - 1), r);
    WordIs(key, 8 * m, r);
    RconIs(m - 1);
    if r > 0 { RconTail(m, r); }
    SumZero(s);
  }

  lemma SumZero(s: u8)
    ensures Xor8(s, 0) == s
  {
    XorZero(s);
  }

  lemma LaterWord(key: Key, k: Key, m: nat, i: nat, r: nat)
    requires m > 0 && 0 < i < 8 && r < 4 && k == Schedule(key, m - 1)
    requires k[4 * i + r] == KeyWord(key, 8 * m - 8 + i, r)
    requires Schedule(key, m)[4 * i + r - 4] == KeyWord(key, 8 * m + i - 1, r)
    ensures Schedule(key, m)[4 * i + r] == KeyWord(key, 8 * m + i, r)
  {
    hide *;
    ScheduleByte(key, m, 4 * i + r);
    ScheduleByte(key, m, 4 * i + r - 4);
    ExpandByteFollows(k, RoundConstant(m - 1), 4 * i + r);
    WordIs(key, 8 * m + i, r);
    assert (8 * m + i) % 8 == i && 8 * m + i - 8 == 8 * m - 8 + i;
  }

  lemma ExpandByteStarts(k: Key, rc: u8, j: nat)
    requires j < 4
    ensures ExpandByte(k, rc, j) ==
            Xor8(k[j], if j == 0 then Xor8(Sub(k[28 + (j + 1) % 4]), rc) else Sub(k[28 + (j + 1) % 4]))
  {
    hide Sub, Xor8;
  }

  lemma ExpandByteFollows(k: Key, rc: u8, j: nat)
    requires 4 <= j < 32
    ensures ExpandByte(k, rc, j) ==
            Xor8(k[j], if 16 <= j < 20 then Sub(ExpandByte(k, rc, j - 4)) else ExpandByte(k, rc, j - 4))
  {
    hide Sub, Xor8;
  }

  lemma ScheduleByte(key: Key, m: nat, j: nat)
    requires m > 0 && j < 32
    ensures Schedule(key, m)[j] == ExpandByte(Schedule(key, m - 1), RoundConstant(m - 1), j)
  {
    hide ExpandByte;
  }

  lemma RconTail(m: nat, r: nat)
    requires m > 0 && r > 0
    ensures Rcon(m, r) == 0
  {
  }

  lemma WordIs(key: Key, i: nat, r: nat)
    requires 8 <= i && r < 4
    ensures KeyWord(key, i, r) == Xor8(KeyWord(key, i - 8, r),
              if i % 8 == 0 then Xor8(Sub(KeyWord(key, i - 1, (r + 1) % 4)), Rcon(i / 8, r))
              else if i % 8 == 4 then Sub(KeyWord(key, i - 1, r)) else KeyWord(key, i - 1, r))
  {
    hide Sub, Xor8, Rcon;
  }

  // ---- the cipher -----------------------------------------------------------

  /** What the cipher holds once round n's key was added. */
  function Keyed(key: Key, x: Block, n: nat): Block { AddKey(After(key, x, n), Schedule(key, n / 2), n % 2) }

  lemma KeyedAt(key: Key, x: Block, n: nat, r: nat, c: nat)
    requires r < 4 && c < 4
    ensures Keyed(key, x, n)[r + 4 * c] == Xor8(After(key, x, n)[r + 4 * c], KeyWord(key, 4 * n + c, r))
  {
    hide Xor8, After, Schedule, KeyWord;
    var i := 4 * (n % 2) + c;
    ScheduleIsStandard(key, n / 2, i, r);
    assert 8 * (n / 2) + i == 4 * n + c && 16 * (n % 2) + (r + 4 * c) == 4 * i + r;
  }

  lemma ShiftedAt(y: Block, r: nat, c: nat)
    requires r < 4 && c < 4
    ensures ShiftRows(SubBytes(y))[r + 4 * c] == Sub(y[r + 4 * ((c + r) % 4)])
  {
    hide Sub;
    var i := r + 4 * c;
    assert i % 4 == r;
    assert (i + 4 * r) % 16 == r + 4 * ((c + r) % 4);
  }

  lemma MixedByteAt(z: Block, r: nat, c: nat)
    requires r < 4 && c < 4
    ensures MixColumns(z)[r + 4 * c] ==
            MixByte(z[r + 4 * c], z[(r + 1) % 4 + 4 * c], z[(r + 2) % 4 + 4 * c], z[(r + 3) % 4 + 4 * c])
  {
    hide MixByte, MixColumns;
    var i := r + 4 * c;
    assert i / 4 * 4 == 4 * c;
    assert (i + 1) % 4 == (r + 1) % 4 && (i + 2) % 4 == (r + 2) % 4 && (i + 3) % 4 == (r + 3) % 4;
    MixedAt(z, i);
  }

  lemma MixByteIsStandard(a: u8, b: u8, c: u8, d: u8)
    ensures MixByte(a, b, c, d) == Xor4(Times(a, 0x02), Times(b, 0x03), c, d)
  {
    hide Xor8, Xt, Times;
    TimesSmall(a);
    TimesSmall(b);
  }

  lemma AfterIs(key: Key, x: Block, n: nat)
    ensures After(key, x, 0) == x
    ensures 0 < n ==> var z := ShiftRows(SubBytes(Keyed(key, x, n - 1)));
                      After(key, x, n) == if n < ROUNDS then MixColumns(z) else z
  {
    hide AddKey, Schedule, ShiftRows, SubBytes, MixColumns;
  }

  lemma ShiftedByteIs(key: Key, x: Block, n: nat, r: nat, c: nat)
    requires 0 < n && r < 4 && c < 4
    ensures ShiftedByte(key, x, n, r, c) == Sub(StateByte(key, x, n - 1, r, (c + r) % 4))
  {
    hide Sub, StateByte;
  }

  lemma StateByteIs(key: Key, x: Block, n: nat, r: nat, c: nat)
    requires r < 4 && c < 4
    ensures n == 0 ==> StateByte(key, x, n, r, c) == Xor8(x[r + 4 * c], KeyWord(key, 4 * n + c, r))
    ensures n == ROUNDS ==>
              StateByte(key, x, n, r, c) == Xor8(ShiftedByte(key, x, n, r, c), KeyWord(key, 4 * n + c, r))
    ensures 0 < n && n != ROUNDS ==>
              StateByte(key, x, n, r, c) ==
              Xor8(Xor4(Times(ShiftedByte(key, x, n, r, c), 0x02), Times(ShiftedByte(key, x, n, (r + 1) % 4, c), 0x03),
                        ShiftedByte(key, x, n, (r + 2) % 4, c), ShiftedByte(key, x, n, (r + 3) % 4, c)),
                   KeyWord(key, 4 * n + c, r))
  {
    hide Xor8, Xor4, Times, KeyWord, ShiftedByte;
  }

  lemma {:induction false} KeyedIsStandard(key: Key, x: Block, n: nat, r: nat, c: nat)
    requires n <= ROUNDS && r < 4 && c < 4
    ensures Keyed(key, x, n)[r + 4 * c] == StateByte(key, x, n, r, c)
    decreases n, 1
  {
    hide *;
    KeyedAt(key, x, n, r, c);
    AfterIs(key, x, n);
    StateByteIs(key, x, n, r, c);
    if n > 0 {
      var z := ShiftRows(SubBytes(Keyed(key, x, n - 1)));
      ShiftedIsStandard(key, x, n, r, c);
      if n < ROUNDS {
        ShiftedIsStandard(key, x, n, (r + 1) % 4, c);
        ShiftedIsStandard(key, x, n, (r + 2) % 4, c);
        ShiftedIsStandard(key, x, n, (r + 3) % 4, c);
        MixedByteAt(z, r, c);
        MixByteIsStandard(z[r + 4 * c], z[(r + 1) % 4 + 4 * c], z[(r + 2) % 4 + 4 * c], z[(r + 3) % 4 + 4 * c]);
      }
    }
  }

  lemma {:induction false} ShiftedIsStandard(key: Key, x: Block, n: nat, r: nat, c: nat)
    requires 0 < n <= ROUNDS && r < 4 && c < 4
    ensures ShiftRows(SubBytes(Keyed(key, x, n - 1)))[r + 4 * c] == ShiftedByte(key, x, n, r, c)
    decreases n, 0
  {
    hide *;
    KeyedIsStandard(key, x, n - 1, r, (c + r) % 4);
    ShiftedAt(Keyed(key, x, n - 1), r, c);
    ShiftedByteIs(key, x, n, r, c);
  }

  /** Encryption is the standard's cipher, for every key and block, byte by byte of the state. */
  lemma EncryptIsStandard(key: Key, x: Block, r: nat, c: nat)
    requires r < 4 && c < 4
    ensures EncryptOf(key, x)[r + 4 * c] == StateByte(key, x, ROUNDS, r, c)
  {
    hide AddKey, After, Schedule, StateByte;
    KeyedIsStandard(key, x, ROUNDS, r, c);
  }
}
