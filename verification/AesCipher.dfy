/** AES-256 on values. */
module AesCipher {
  // One block (sections 5.1 to 5.3 of FIPS 197), and that decryption undoes
  // encryption.

  import opened FixedWidth
  import opened Arithmetic
  import opened ExclusiveOr
  import opened AesTables
  import opened AesField

  type Block = s: seq<u8> | |s| == 16 witness [0, 0, 0, 0, 0, 0, 0, 0, 0, 0, 0, 0, 0, 0, 0, 0]

  /** Two round keys: the window of the key schedule that is kept. */
  type Key = s: seq<u8> | |s| == 32 witness [0, 0, 0, 0, 0, 0, 0, 0, 0, 0, 0, 0, 0, 0, 0, 0, 0, 0, 0, 0, 0, 0, 0, 0, 0,
      0, 0, 0, 0, 0, 0, 0]

  // ---- the steps of a round -------------------------------------------------

  function AddKey(x: Block, k: Key, half: nat): Block
    requires half < 2
  {
    seq(16, i requires 0 <= i < 16 => Xor8(x[i], k[16 * half + i]))
  }

  function SubBytes(x: Block): Block { seq(16, i requires 0 <= i < 16 => Sub(x[i])) }

  function UnsubBytes(x: Block): Block { seq(16, i requires 0 <= i < 16 => Unsub(x[i])) }

  /** Row r of the state moves r columns to the left; a column is four bytes. */
  function ShiftRows(x: Block): Block { seq(16, i requires 0 <= i < 16 => x[(i + 4 * (i % 4)) % 16]) }

  function UnshiftRows(x: Block): Block { seq(16, i requires 0 <= i < 16 => x[(i + 12 * (i % 4)) % 16]) }

  /** The byte n rows further down the same column. */
  function Down(x: Block, i: nat, n: nat): u8
    requires i < 16
  {
    x[i / 4 * 4 + (i + n) % 4]
  }

  function MixColumns(x: Block): Block {
    seq(16, i requires 0 <= i < 16 => MixByte(Down(x, i, 0), Down(x, i, 1), Down(x, i, 2), Down(x, i, 3)))
  }

  function UnmixColumns(x: Block): Block {
    seq(16, i requires 0 <= i < 16 => UnmixByte(Down(x, i, 0), Down(x, i, 1), Down(x, i, 2), Down(x, i, 3)))
  }

  lemma AddKeyTwice(x: Block, k: Key, half: nat)
    requires half < 2
    ensures AddKey(AddKey(x, k, half), k, half) == x
  {
    hide Xor;
    forall i | 0 <= i < 16 ensures AddKey(AddKey(x, k, half), k, half)[i] == x[i] {
      XorCancels(x[i], k[16 * half + i]);
    }
  }

  lemma UnsubSub(x: Block)
    ensures UnsubBytes(SubBytes(x)) == x
  {
    hide Sub, Unsub;
    forall i | 0 <= i < 16 ensures UnsubBytes(SubBytes(x))[i] == x[i] { SubInverts(x[i]); }
  }

  lemma UnshiftShift(x: Block)
    ensures UnshiftRows(ShiftRows(x)) == x
  {
    forall i | 0 <= i < 16 ensures UnshiftRows(ShiftRows(x))[i] == x[i] { ShiftIndex(i); }
  }

  lemma ShiftIndex(i: nat)
    requires i < 16
    ensures var j := (i + 12 * (i % 4)) % 16; (j + 4 * (j % 4)) % 16 == i
  {
    var q, r := i / 4, i % 4;
    var t := (q + 3 * r) % 4;
    DivUnique(i + 12 * r, 16, (q + 3 * r) / 4, 4 * t + r);
    DivUnique(4 * t + r, 4, t, r);
    DivUnique(4 * t + r + 4 * r, 16, r - (q + 3 * r) / 4, i);
  }

  lemma UnmixColumnsMix(x: Block)
    ensures UnmixColumns(MixColumns(x)) == x
  {
    hide MixByte, UnmixByte;
    var y := MixColumns(x);
    forall i | 0 <= i < 16 ensures UnmixColumns(y)[i] == x[i] {
      ColumnsMix(x, i);
      UnmixMix(Down(x, i, 0), Down(x, i, 1), Down(x, i, 2), Down(x, i, 3));
    }
  }

  lemma ColumnsMix(x: Block, i: nat)
    requires i < 16
    ensures var y, a, b, c, d := MixColumns(x), Down(x, i, 0), Down(x, i, 1), Down(x, i, 2), Down(x, i, 3);
            && Down(y, i, 0) == MixByte(a, b, c, d) && Down(y, i, 1) == MixByte(b, c, d, a)
            && Down(y, i, 2) == MixByte(c, d, a, b) && Down(y, i, 3) == MixByte(d, a, b, c) && a == x[i]
  {
    hide MixByte, MixColumns, Down;
    DownMixed(x, i, 0); DownMixed(x, i, 1); DownMixed(x, i, 2); DownMixed(x, i, 3);
    DownAround(x, i);
  }

  lemma DownMixed(x: Block, i: nat, n: nat)
    requires i < 16 && n < 4
    ensures Down(MixColumns(x), i, n) == MixByte(Down(x, i, n), Down(x, i, n + 1), Down(x, i, n + 2), Down(x, i, n + 3))
  {
    hide *;
    var j := i / 4 * 4 + (i + n) % 4;
    Around(i, n);
    SameDown(x, i, n, j, 0); SameDown(x, i, n + 1, j, 1); SameDown(x, i, n + 2, j, 2); SameDown(x, i, n + 3, j, 3);
    MixedAt(x, j);
    DownAt(MixColumns(x), i, n);
  }

  lemma SameDown(x: Block, i: nat, n: nat, j: nat, m: nat)
    requires i < 16 && j < 16 && j / 4 == i / 4 && (j + m) % 4 == (i + n) % 4
    ensures Down(x, j, m) == Down(x, i, n)
  {
  }

  lemma MixedAt(x: Block, j: nat)
    requires j < 16
    ensures MixColumns(x)[j] == MixByte(Down(x, j, 0), Down(x, j, 1), Down(x, j, 2), Down(x, j, 3))
  {
    hide Down, MixByte;
  }

  lemma DownAt(x: Block, i: nat, n: nat)
    requires i < 16
    ensures i / 4 * 4 + (i + n) % 4 < 16 && Down(x, i, n) == x[i / 4 * 4 + (i + n) % 4]
  {
  }

  lemma DownAround(x: Block, i: nat)
    requires i < 16
    ensures Down(x, i, 4) == Down(x, i, 0) && Down(x, i, 5) == Down(x, i, 1) && Down(x, i, 6) == Down(x, i, 2)
    ensures Down(x, i, 0) == x[i]
  {
  }

  lemma Around(i: nat, n: nat)
    requires i < 16 && n < 4
    ensures var j := i / 4 * 4 + (i + n) % 4;
            && j < 16 && j / 4 == i / 4 && (j + 0) % 4 == (i + n) % 4 && (j + 1) % 4 == (i + n + 1) % 4
            && (j + 2) % 4 == (i + n + 2) % 4 && (j + 3) % 4 == (i + n + 3) % 4
  {
    var r, q := (i + n) % 4, (i + n) / 4;
    assert i + n == 4 * q + r;
    ModShift(i / 4, q, r, 0); ModShift(i / 4, q, r, 1); ModShift(i / 4, q, r, 2); ModShift(i / 4, q, r, 3);
  }

  lemma ModShift(a: nat, b: nat, r: nat, k: nat)
    ensures (a * 4 + r + k) % 4 == (4 * b + r + k) % 4
  {
  }

  // ---- the key schedule -----------------------------------------------------

  /** Byte j of the next window: each word joins the word before it, every fourth through the box. */
  function ExpandByte(k: Key, r: u8, j: nat): u8
    requires j < 32
  {
    if j < 4 then Xor8(k[j], if j == 0 then Xor8(Sub(k[28 + (j + 1) % 4]), r) else Sub(k[28 + (j + 1) % 4]))
    else if 16 <= j < 20 then Xor8(k[j], Sub(ExpandByte(k, r, j - 4)))
    else Xor8(k[j], ExpandByte(k, r, j - 4))
  }

  function Expand(k: Key, r: u8): Key { seq(32, j requires 0 <= j < 32 => ExpandByte(k, r, j)) }

  /** Byte j of the window before. */
  function UnexpandByte(k: Key, r: u8, j: nat): u8
    requires j < 32
    decreases if j < 4 then 1 else 0
  {
    if j < 4 then
      var last := UnexpandByte(k, r, 28 + (j + 1) % 4);
      Xor8(k[j], if j == 0 then Xor8(Sub(last), r) else Sub(last))
    else if 16 <= j < 20 then Xor8(k[j], Sub(k[j - 4]))
    else Xor8(k[j], k[j - 4])
  }

  function Unexpand(k: Key, r: u8): Key { seq(32, j requires 0 <= j < 32 => UnexpandByte(k, r, j)) }

  /** Stepping the window back gives the window it was expanded from. */
  lemma UnexpandExpand(k: Key, r: u8)
    ensures Unexpand(Expand(k, r), r) == k
  {
    var e := Expand(k, r);
    forall j | 0 <= j < 32 ensures UnexpandByte(e, r, j) == k[j] {
      if j < 4 { UnexpandLate(k, r, 28 + (j + 1) % 4); UnexpandEarly(k, r, j); } else { UnexpandLate(k, r, j); }
    }
  }

  lemma UnexpandLate(k: Key, r: u8, j: nat)
    requires 4 <= j < 32
    ensures UnexpandByte(Expand(k, r), r, j) == k[j]
  {
    hide Xor, Sub;
    var before := ExpandByte(k, r, j - 4);
    XorCancels(k[j], before);
    XorCancels(k[j], Sub(before));
  }

  lemma UnexpandEarly(k: Key, r: u8, j: nat)
    requires j < 4 && UnexpandByte(Expand(k, r), r, 28 + (j + 1) % 4) == k[28 + (j + 1) % 4]
    ensures UnexpandByte(Expand(k, r), r, j) == k[j]
  {
    hide Xor, Sub;
    var last := k[28 + (j + 1) % 4];
    XorCancels(k[j], Sub(last));
    XorCancels(k[j], Xor8(Sub(last), r));
  }

  function RoundConstant(m: nat): u8 { if m == 0 then 1 else Xt(RoundConstant(m - 1)) }

  /** The window after m expansions. */
  function Schedule(key: Key, m: nat): Key {
    if m == 0 then key else Expand(Schedule(key, m - 1), RoundConstant(m - 1))
  }

  // ---- the cipher -----------------------------------------------------------

  const ROUNDS: nat := 14

  function Round(key: Key, i: nat, x: Block): Block {
    var y := ShiftRows(SubBytes(AddKey(x, Schedule(key, i / 2), i % 2)));
    if i < ROUNDS - 1 then MixColumns(y) else y
  }

  function After(key: Key, x: Block, i: nat): Block { if i == 0 then x else Round(key, i - 1, After(key, x, i - 1)) }

  function EncryptOf(key: Key, x: Block): Block { AddKey(After(key, x, ROUNDS), Schedule(key, 7), 0) }

  /** Which window the decryption's round i works with. */
  function WindowAt(i: nat): nat
    requires i <= ROUNDS
  {
    7 - (i + 1) / 2
  }

  function BackRound(key: Key, i: nat, x: Block): Block
    requires i < ROUNDS
  {
    var y := AddKey(x, Schedule(key, WindowAt(i)), i % 2);
    UnsubBytes(UnshiftRows(if i > 0 then UnmixColumns(y) else y))
  }

  function Back(key: Key, x: Block, i: nat): Block
    requires i <= ROUNDS
  {
    if i == 0 then x else BackRound(key, i - 1, Back(key, x, i - 1))
  }

  function DecryptOf(key: Key, x: Block): Block { AddKey(Back(key, x, ROUNDS), Schedule(key, 0), 0) }

  /** Before its round i, decryption holds what encryption held in round 14 - i once the round key was added;
      and that round key is in the window it has stepped back to. */
  lemma {:induction false} BackMeets(key: Key, x: Block, i: nat)
    requires 0 < i <= ROUNDS
    ensures Back(key, EncryptOf(key, x), i) ==
            AddKey(After(key, x, ROUNDS - i), Schedule(key, (ROUNDS - i) / 2), (ROUNDS - i) % 2)
    decreases i
  {
    hide AddKey, SubBytes, UnsubBytes, ShiftRows, UnshiftRows, MixColumns, UnmixColumns, Schedule;
    var j := ROUNDS - i;
    var held := AddKey(After(key, x, j), Schedule(key, j / 2), j % 2);
    var mixed := ShiftRows(SubBytes(held));
    UnshiftShift(SubBytes(held));
    UnsubSub(held);
    if i == 1 {
      assert After(key, x, 14) == Round(key, 13, After(key, x, 13));
      AddKeyTwice(mixed, Schedule(key, 7), 0);
      assert Back(key, EncryptOf(key, x), 0) == EncryptOf(key, x);
    } else {
      BackMeets(key, x, i - 1);
      assert After(key, x, j + 1) == MixColumns(mixed);
      assert WindowAt(i - 1) == (j + 1) / 2 && (i - 1) % 2 == (j + 1) % 2;
      AddKeyTwice(MixColumns(mixed), Schedule(key, (j + 1) / 2), (j + 1) % 2);
      UnmixColumnsMix(mixed);
    }
  }

  /** Decryption undoes encryption, for every key and block. */
  lemma DecryptEncrypt(key: Key, x: Block)
    ensures DecryptOf(key, EncryptOf(key, x)) == x
  {
    hide AddKey, Schedule, Back, EncryptOf;
    BackMeets(key, x, ROUNDS);
    assert After(key, x, 0) == x;
    AddKeyTwice(x, Schedule(key, 0), 0);
  }
}
