/** 32-bit words in byte buffers, least significant byte first, as the stored ledger and the stored filter chain
    hold them. */
module LittleEndian {
  import opened FixedWidth

  type bytes = seq<u8>

  function PutU32(v: u32): (r: bytes)
    ensures |r| == 4
  {
    [v % 0x100, v / 0x100 % 0x100, v / 0x1_0000 % 0x100, v / 0x100_0000 % 0x100]
  }

  function GetU32(b: bytes, i: nat): u32
    requires i + 4 <= |b|
  {
    b[i] as int + 0x100 * (b[i + 1] as int) + 0x1_0000 * (b[i + 2] as int) + 0x100_0000 * (b[i + 3] as int)
  }

  lemma Digits(v: u32)
    ensures v == v % 0x100 + 0x100 * (v / 0x100 % 0x100) + 0x1_0000 * (v / 0x1_0000 % 0x100) +
            0x100_0000 * (v / 0x100_0000 % 0x100)
  {
  }

  lemma GetPutU32(pre: bytes, v: u32, post: bytes)
    ensures GetU32(pre + PutU32(v) + post, |pre|) == v
  {
    var b := pre + PutU32(v) + post;
    var w := PutU32(v);
    assert b[|pre|] == w[0] && b[|pre| + 1] == w[1] && b[|pre| + 2] == w[2] && b[|pre| + 3] == w[3];
    Digits(v);
  }

  lemma FourDigits(a: u8, b: u8, c: u8, d: u8)
    ensures PutU32(a as int + 0x100 * (b as int) + 0x1_0000 * (c as int) + 0x100_0000 * (d as int)) == [a, b, c, d]
  {
    var x: int, y: int, z: int, w: int := a, b, c, d;
    var v := x + 0x100 * y + 0x1_0000 * z + 0x100_0000 * w;
    assert v / 0x100 == y + 0x100 * z + 0x1_0000 * w;
    assert v / 0x1_0000 == z + 0x100 * w;
    assert v / 0x100_0000 == w;
  }

  /** Reading a word and writing it back gives the same four bytes. */
  lemma PutGetU32(b: bytes, i: nat)
    requires i + 4 <= |b|
    ensures PutU32(GetU32(b, i)) == b[i..i + 4]
  {
    FourDigits(b[i], b[i + 1], b[i + 2], b[i + 3]);
    hide PutU32;
  }

  // ---- places ---------------------------------------------------------------

  /** Four bytes hold a number, least significant first. */
  predicate Holds32(b: bytes, at: nat, v: nat) {
    at + 4 <= |b| &&
    b[at] as int + 256 * (b[at + 1] as int) + 65536 * (b[at + 2] as int) + 16777216 * (b[at + 3] as int) == v
  }

  lemma GetHolds(b: bytes, at: nat)
    requires at + 4 <= |b|
    ensures Holds32(b, at, GetU32(b, at))
  {
  }

  lemma PutHolds(pre: bytes, v: u32, post: bytes)
    ensures Holds32(pre + PutU32(v) + post, |pre|, v)
  {
    GetPutU32(pre, v, post);
    GetHolds(pre + PutU32(v) + post, |pre|);
    hide PutU32, GetU32, Holds32;
  }

  lemma HoldsOne(b: bytes, at: nat, v: nat)
    requires Holds32(b, at, v)
    ensures at + 4 <= |b| && GetU32(b, at) == v
  {
  }
}
