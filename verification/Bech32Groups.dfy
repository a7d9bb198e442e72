/** The 8-to-5-to-8 bit regrouping of Bech32 data,
    highest bit first:
    the groups on values, and the shifts that make them. */
module Bech32Groups {
  import opened FixedWidth
  import opened Arithmetic

  type u5 = x: int | 0 <= x < 32

  /** A byte or a quintet, or zero past the end. */
  function At(s: seq<u8>, i: int): u8 { if 0 <= i < |s| then s[i] else 0 }

  function FiveAt(s: seq<u5>, i: int): u5 { if 0 <= i < |s| then s[i] else 0 }

  /** Five bits of a window of two bytes, shifted down by a power of two. */
  function Two(a: u8, b: u8, w: nat): u5
    requires w > 0
  {
    (a * 256 + b) / w % 32
  }

  /** Eight bits of a window of three quintets, shifted down by a power of two. */
  function Three(x: u5, y: u5, z: u5, w: nat): u8
    requires w > 0
  {
    (x * 1024 + y * 32 + z) / w % 256
  }

  /** Five bits from bit 5k of the bytes. */
  function QuintetAt(data: seq<u8>, k: nat): (q: u5)
  {
    Two(At(data, 5 * k / 8), At(data, 5 * k / 8 + 1), Pow2(11 - 5 * k % 8))
  }

  function Quintets(data: seq<u8>): (qs: seq<u5>)
    ensures |qs| == (8 * |data| + 4) / 5
  {
    seq((8 * |data| + 4) / 5, k requires 0 <= k => QuintetAt(data, k))
  }

  /** Eight bits from bit 8i of the quintets. */
  function ByteAt(qs: seq<u5>, i: nat): (b: u8)
  {
    Three(FiveAt(qs, 8 * i / 5), FiveAt(qs, 8 * i / 5 + 1), FiveAt(qs, 8 * i / 5 + 2), Pow2(7 - 8 * i % 5))
  }

  lemma Powers()
    ensures Pow2(0) == 1 && Pow2(1) == 2 && Pow2(2) == 4 && Pow2(3) == 8 && Pow2(4) == 16 && Pow2(5) == 32
    ensures Pow2(6) == 64 && Pow2(7) == 128 && Pow2(8) == 256 && Pow2(9) == 512 && Pow2(10) == 1024 && Pow2(11) == 2048
  {
    Pow2Values();
    assert Pow2(2) == 4 && Pow2(4) == 16;
    Pow2Add(2, 1); Pow2Add(4, 1); Pow2Add(4, 2); Pow2Add(8, 1); Pow2Add(8, 2); Pow2Add(8, 3); Pow2Add(4, 4);
  }

  /** Quintet 8m + c lies at bit 5c % 8 of byte 5m + 5c / 8. */
  lemma QuintetIs(data: seq<u8>, m: nat, c: nat)
    requires c < 8
    ensures QuintetAt(data, 8 * m + c) ==
            Two(At(data, 5 * m + 5 * c / 8), At(data, 5 * m + 5 * c / 8 + 1), Pow2(11 - 5 * c % 8))
    ensures 5 * (8 * m + c) < 8 * |data| ==> FiveAt(Quintets(data), 8 * m + c) == QuintetAt(data, 8 * m + c)
  {
    assert 5 * (8 * m + c) == 8 * (5 * m) + 5 * c;
    DivUnique(5 * (8 * m + c), 8, 5 * m + 5 * c / 8, 5 * c % 8);
  }

  lemma ByteIs(qs: seq<u5>, m: nat, t: nat)
    requires t < 5
    ensures ByteAt(qs, 5 * m + t) ==
            Three(FiveAt(qs, 8 * m + 8 * t / 5), FiveAt(qs, 8 * m + 8 * t / 5 + 1), FiveAt(qs, 8 * m + 8 * t / 5 + 2),
                  Pow2(7 - 8 * t % 5))
  {
    assert 8 * (5 * m + t) == 5 * (8 * m) + 8 * t;
    DivUnique(8 * (5 * m + t), 5, 8 * m + 8 * t / 5, 8 * t % 5);
  }

  lemma AtInside(s: seq<u8>, i: nat)
    requires i < |s|
    ensures At(s, i) == s[i]
  {
  }

  // ---- the bytes of a list of quintets --------------------------------------

  lemma Regroups0(data: seq<u8>, m: nat, qs: seq<u5>)
    requires 5 * m < |data| && qs == Quintets(data)
    ensures ByteAt(qs, 5 * m) == data[5 * m]
  {
    hide QuintetAt, ByteAt, Quintets, Pow2, At, FiveAt, Two, Three;
    Powers();
    AtInside(data, 5 * m);
    ByteIs(qs, m, 0);
    QuintetIs(data, m, 0);
    QuintetIs(data, m, 1);
    Bits0(At(data, 5 * m), At(data, 5 * m + 1), FiveAt(qs, 8 * m + 2));
  }

  lemma Regroups1(data: seq<u8>, m: nat, qs: seq<u5>)
    requires 5 * m + 1 < |data| && qs == Quintets(data)
    ensures ByteAt(qs, 5 * m + 1) == data[5 * m + 1]
  {
    hide QuintetAt, ByteAt, Quintets, Pow2, At, FiveAt, Two, Three;
    Powers();
    AtInside(data, 5 * m + 1);
    ByteIs(qs, m, 1);
    QuintetIs(data, m, 1);
    QuintetIs(data, m, 2);
    QuintetIs(data, m, 3);
    Bits1(At(data, 5 * m), At(data, 5 * m + 1), At(data, 5 * m + 2));
  }

  lemma Regroups2(data: seq<u8>, m: nat, qs: seq<u5>)
    requires 5 * m + 2 < |data| && qs == Quintets(data)
    ensures ByteAt(qs, 5 * m + 2) == data[5 * m + 2]
  {
    hide QuintetAt, ByteAt, Quintets, Pow2, At, FiveAt, Two, Three;
    Powers();
    AtInside(data, 5 * m + 2);
    ByteIs(qs, m, 2);
    QuintetIs(data, m, 3);
    QuintetIs(data, m, 4);
    Bits2(At(data, 5 * m + 1), At(data, 5 * m + 2), At(data, 5 * m + 3), FiveAt(qs, 8 * m + 5));
  }

  lemma Regroups3(data: seq<u8>, m: nat, qs: seq<u5>)
    requires 5 * m + 3 < |data| && qs == Quintets(data)
    ensures ByteAt(qs, 5 * m + 3) == data[5 * m + 3]
  {
    hide QuintetAt, ByteAt, Quintets, Pow2, At, FiveAt, Two, Three;
    Powers();
    AtInside(data, 5 * m + 3);
    ByteIs(qs, m, 3);
    QuintetIs(data, m, 4);
    QuintetIs(data, m, 5);
    QuintetIs(data, m, 6);
    Bits3(At(data, 5 * m + 2), At(data, 5 * m + 3), At(data, 5 * m + 4));
  }

  lemma Regroups4(data: seq<u8>, m: nat, qs: seq<u5>)
    requires 5 * m + 4 < |data| && qs == Quintets(data)
    ensures ByteAt(qs, 5 * m + 4) == data[5 * m + 4]
  {
    hide QuintetAt, ByteAt, Quintets, Pow2, At, FiveAt, Two, Three;
    Powers();
    AtInside(data, 5 * m + 4);
    ByteIs(qs, m, 4);
    QuintetIs(data, m, 6);
    QuintetIs(data, m, 7);
    Bits4(At(data, 5 * m + 3), At(data, 5 * m + 4), At(data, 5 * m + 5), FiveAt(qs, 8 * m + 8));
  }

  /** Regrouping into fives and back gives every byte. */
  lemma Regroups(data: seq<u8>, i: nat)
    requires i < |data|
    ensures ByteAt(Quintets(data), i) == data[i]
  {
    hide QuintetAt, ByteAt, Quintets, Pow2;
    var qs, m, t := Quintets(data), i / 5, i % 5;
    if t == 0 { Regroups0(data, m, qs); }
    else if t == 1 { Regroups1(data, m, qs); }
    else if t == 2 { Regroups2(data, m, qs); }
    else if t == 3 { Regroups3(data, m, qs); }
    else { Regroups4(data, m, qs); }
  }

  /** Quintet j lies at bit r of byte i. */
  ghost predicate Placed(qs: seq<u5>, i: nat, r: nat, j: nat)
    requires r < 8
  {
    Two(ByteAt(qs, i), ByteAt(qs, i + 1), Pow2(11 - r)) == FiveAt(qs, j)
  }

  lemma Cut(x: int, y: int, n: int, r: int)
    requires n > 0 && x == n * y + r && 0 <= r < n
    ensures x % n == r && x / n == y
  {
    DivUnique(x, n, y, r);
  }

  // the five ways a byte lies across its quintets

  lemma Bits0(a: u8, n: u8, x: u5)
    ensures Three(Two(a, n, 2048), Two(a, n, 64), x, 128) == a
  {
    TopFive(a, n);
    NextFive(a, n);
    hide Two, Three;
    Bits0Sum(a, a / 8, a % 8, n / 64, x);
  }

  lemma TopFive(a: u8, n: u8)
    ensures Two(a, n, 2048) == a / 8
  {
    var al := a % 8;
    Cut(a * 256 + n, a / 8, 2048, al * 256 + n);
  }

  lemma NextFive(a: u8, n: u8)
    ensures Two(a, n, 64) == a % 8 * 4 + n / 64
  {
    var nh := n / 64;
    Cut(a * 256 + n, 4 * a + nh, 64, n % 64);
    Cut(4 * a + nh, a / 8, 32, a % 8 * 4 + nh);
  }

  lemma Bits0Sum(a: u8, ah: u5, al: nat, nh: nat, x: u5)
    requires a == 8 * ah + al && al < 8 && nh < 4
    ensures al * 4 + nh < 32 && Three(ah, al * 4 + nh, x, 128) == a
  {
    Cut(ah * 1024 + (al * 4 + nh) * 32 + x, a, 128, nh * 32 + x);
  }

  lemma Bits1(p: u8, a: u8, n: u8)
    ensures Three(Two(p, a, 64), Two(a, n, 512), Two(a, n, 16), 16) == a
  {
    NextFive(p, a);
    Cut(a * 256 + n, a / 2, 512, a % 2 * 256 + n);
    Bits1Low(a, n);
    hide Two, Three;
    Bits1Sum(p % 8, a / 64, a / 2 % 32, a % 2, n / 16, a);
  }

  lemma Bits1Low(a: u8, n: u8)
    ensures Two(a, n, 16) == a % 2 * 16 + n / 16 && a == 64 * (a / 64) + 2 * (a / 2 % 32) + a % 2
  {
    Cut(a * 256 + n, 16 * a + n / 16, 16, n % 16);
    Cut(16 * a + n / 16, a / 2, 32, a % 2 * 16 + n / 16);
    hide Two;
    Cut(a / 2, a / 64, 32, a / 2 % 32);
  }

  lemma Bits1Sum(p: nat, at: nat, am: u5, al: nat, nh: nat, a: u8)
    requires p < 8 && at < 4 && al < 2 && nh < 16 && a == 64 * at + 2 * am + al
    ensures p * 4 + at < 32 && al * 16 + nh < 32 && Three(p * 4 + at, am, al * 16 + nh, 16) == a
  {
    Cut((p * 4 + at) * 1024 + am * 32 + al * 16 + nh, 256 * p + a, 16, nh);
    Cut(256 * p + a, p, 256, a);
  }

  lemma Bits2(p: u8, a: u8, n: u8, x: u5)
    ensures Three(Two(p, a, 16), Two(a, n, 128), x, 64) == a
  {
    Cut(p * 256 + a, 16 * p + a / 16, 16, a % 16);
    Cut(16 * p + a / 16, p / 2, 32, p % 2 * 16 + a / 16);
    Cut(a * 256 + n, 2 * a + n / 128, 128, n % 128);
    Cut(2 * a + n / 128, a / 16, 32, a % 16 * 2 + n / 128);
    var q0, q1 := p % 2 * 16 + a / 16, a % 16 * 2 + n / 128;
    Cut(q0 * 1024 + q1 * 32 + x, q0 * 16 + a % 16, 64, n / 128 * 32 + x);
    Cut(q0 * 16 + a % 16, p % 2, 256, a);
  }

  lemma Bits3(p: u8, a: u8, n: u8)
    ensures Three(Two(p, a, 128), Two(a, n, 1024), Two(a, n, 32), 8) == a
  {
    Bits3High(p, a);
    Cut(a * 256 + n, a / 4, 1024, a % 4 * 256 + n);
    Bits3Low(a, n);
    hide Two, Three;
    Bits3Sum(p % 16, a / 128, a / 4 % 32, a % 4, n / 32, a);
  }

  lemma Bits3High(p: u8, a: u8)
    ensures Two(p, a, 128) == p % 16 * 2 + a / 128
  {
    Cut(p * 256 + a, 2 * p + a / 128, 128, a % 128);
    Cut(2 * p + a / 128, p / 16, 32, p % 16 * 2 + a / 128);
  }

  lemma Bits3Low(a: u8, n: u8)
    ensures Two(a, n, 32) == a % 4 * 8 + n / 32 && a == 128 * (a / 128) + 4 * (a / 4 % 32) + a % 4
  {
    Cut(a * 256 + n, 8 * a + n / 32, 32, n % 32);
    Cut(8 * a + n / 32, a / 4, 32, a % 4 * 8 + n / 32);
    hide Two;
    Cut(a / 4, a / 128, 32, a / 4 % 32);
  }

  lemma Bits3Sum(p: nat, at: nat, am: u5, al: nat, nh: nat, a: u8)
    requires p < 16 && at < 2 && al < 4 && nh < 8 && a == 128 * at + 4 * am + al
    ensures p * 2 + at < 32 && al * 8 + nh < 32 && Three(p * 2 + at, am, al * 8 + nh, 8) == a
  {
    Cut((p * 2 + at) * 1024 + am * 32 + al * 8 + nh, 256 * p + a, 8, nh);
    Cut(256 * p + a, p, 256, a);
  }

  lemma Bits4(p: u8, a: u8, n: u8, x: u5)
    ensures Three(Two(p, a, 32), Two(a, n, 256), x, 32) == a
  {
    Cut(p * 256 + a, 8 * p + a / 32, 32, a % 32);
    Cut(8 * p + a / 32, p / 4, 32, p % 4 * 8 + a / 32);
    Cut(a * 256 + n, a, 256, n);
    Cut(a, a / 32, 32, a % 32);
    var q0 := p % 4 * 8 + a / 32;
    Cut(q0 * 1024 + a % 32 * 32 + x, q0 * 32 + a % 32, 32, x);
    Cut(q0 * 32 + a % 32, p % 4, 256, a);
  }

  // the five bytes of a group, from its quintets

  lemma Byte0(x: u5, y: u5, z: u5)
    ensures Three(x, y, z, 128) == x * 8 + y / 4
  {
    Cut(x * 1024 + y * 32 + z, x * 8 + y / 4, 128, y % 4 * 32 + z);
  }

  lemma Byte1(x: u5, y: u5, z: u5)
    ensures Three(x, y, z, 16) == x % 4 * 64 + y * 2 + z / 16
  {
    Cut(x * 1024 + y * 32 + z, x * 64 + y * 2 + z / 16, 16, z % 16);
    Cut(x * 64 + y * 2 + z / 16, x / 4, 256, x % 4 * 64 + y * 2 + z / 16);
  }

  lemma Byte2(x: u5, y: u5, z: u5)
    ensures Three(x, y, z, 64) == x % 16 * 16 + y / 2
  {
    Cut(x * 1024 + y * 32 + z, x * 16 + y / 2, 64, y % 2 * 32 + z);
    Cut(x * 16 + y / 2, x / 16, 256, x % 16 * 16 + y / 2);
  }

  lemma Byte3(x: u5, y: u5, z: u5)
    ensures Three(x, y, z, 8) == x % 2 * 128 + y * 4 + z / 8
  {
    Cut(x * 1024 + y * 32 + z, x * 128 + y * 4 + z / 8, 8, z % 8);
    Cut(x * 128 + y * 4 + z / 8, x / 2, 256, x % 2 * 128 + y * 4 + z / 8);
  }

  lemma Byte4(x: u5, y: u5, z: u5)
    ensures Three(x, y, z, 32) == x % 8 * 32 + y
  {
    Cut(x * 1024 + y * 32 + z, x * 32 + y, 32, z);
    Cut(x * 32 + y, x / 8, 256, x % 8 * 32 + y);
  }

  // the eight ways a quintet lies across the bytes

  lemma Place0(q0: u5, q1: u5, a: u8, b: u8)
    requires a == q0 * 8 + q1 / 4
    ensures Two(a, b, 2048) == q0
  {
    Cut(a * 256 + b, q0, 2048, q1 / 4 * 256 + b);
  }

  lemma Place1(q0: u5, q1: u5, q2: u5, q3: u5, a: u8, b: u8)
    requires a == q0 * 8 + q1 / 4 && b == q1 % 4 * 64 + q2 * 2 + q3 / 16
    ensures Two(a, b, 64) == q1
  {
    Cut(a * 256 + b, a * 4 + q1 % 4, 64, q2 * 2 + q3 / 16);
    Cut(a * 4 + q1 % 4, q0, 32, q1);
  }

  lemma Place2(q1: u5, q2: u5, q3: u5, a: u8, b: u8)
    requires a == q1 % 4 * 64 + q2 * 2 + q3 / 16
    ensures Two(a, b, 512) == q2
  {
    Cut(a * 256 + b, q1 % 4 * 32 + q2, 512, q3 / 16 * 256 + b);
    Cut(q1 % 4 * 32 + q2, q1 % 4, 32, q2);
  }

  lemma Place3(q1: u5, q2: u5, q3: u5, q4: u5, a: u8, b: u8)
    requires a == q1 % 4 * 64 + q2 * 2 + q3 / 16 && b == q3 % 16 * 16 + q4 / 2
    ensures Two(a, b, 16) == q3
  {
    Cut(a * 256 + b, a * 16 + q3 % 16, 16, q4 / 2);
    Cut(a * 16 + q3 % 16, q1 % 4 * 32 + q2, 32, q3);
  }

  lemma Place4(q3: u5, q4: u5, q5: u5, q6: u5, a: u8, b: u8)
    requires a == q3 % 16 * 16 + q4 / 2 && b == q4 % 2 * 128 + q5 * 4 + q6 / 8
    ensures Two(a, b, 128) == q4
  {
    Cut(a * 256 + b, a * 2 + q4 % 2, 128, q5 * 4 + q6 / 8);
    Cut(a * 2 + q4 % 2, q3 % 16, 32, q4);
  }

  lemma Place5(q4: u5, q5: u5, q6: u5, a: u8, b: u8)
    requires a == q4 % 2 * 128 + q5 * 4 + q6 / 8
    ensures Two(a, b, 1024) == q5
  {
    Cut(a * 256 + b, q4 % 2 * 32 + q5, 1024, q6 / 8 * 256 + b);
    Cut(q4 % 2 * 32 + q5, q4 % 2, 32, q5);
  }

  lemma Place6(q4: u5, q5: u5, q6: u5, q7: u5, a: u8, b: u8)
    requires a == q4 % 2 * 128 + q5 * 4 + q6 / 8 && b == q6 % 8 * 32 + q7
    ensures Two(a, b, 32) == q6
  {
    Cut(a * 256 + b, a * 8 + q6 % 8, 32, q7);
    Cut(a * 8 + q6 % 8, q4 % 2 * 32 + q5, 32, q6);
  }

  lemma Place7(q6: u5, q7: u5, a: u8, b: u8)
    requires a == q6 % 8 * 32 + q7
    ensures Two(a, b, 256) == q7
  {
    Cut(a * 256 + b, a, 256, b);
    Cut(a, q6 % 8, 32, q7);
  }

  lemma Holds0(qs: seq<u5>, m: nat)
    ensures Placed(qs, 5 * m, 0, 8 * m)
  {
    hide ByteAt, FiveAt, Pow2, Two, Three;
    Powers();
    ByteIs(qs, m, 0);
    Byte0(FiveAt(qs, 8 * m), FiveAt(qs, 8 * m + 1), FiveAt(qs, 8 * m + 2));
    Place0(FiveAt(qs, 8 * m), FiveAt(qs, 8 * m + 1), ByteAt(qs, 5 * m), ByteAt(qs, 5 * m + 1));
  }

  lemma Holds1(qs: seq<u5>, m: nat)
    ensures Placed(qs, 5 * m, 5, 8 * m + 1)
  {
    hide ByteAt, FiveAt, Pow2, Two, Three;
    Powers();
    ByteIs(qs, m, 0);
    Byte0(FiveAt(qs, 8 * m), FiveAt(qs, 8 * m + 1), FiveAt(qs, 8 * m + 2));
    ByteIs(qs, m, 1);
    Byte1(FiveAt(qs, 8 * m + 1), FiveAt(qs, 8 * m + 2), FiveAt(qs, 8 * m + 3));
    Place1(FiveAt(qs, 8 * m), FiveAt(qs, 8 * m + 1), FiveAt(qs, 8 * m + 2), FiveAt(qs, 8 * m + 3), ByteAt(qs, 5 * m),
           ByteAt(qs, 5 * m + 1));
  }

  lemma Holds2(qs: seq<u5>, m: nat)
    ensures Placed(qs, 5 * m + 1, 2, 8 * m + 2)
  {
    hide ByteAt, FiveAt, Pow2, Two, Three;
    Powers();
    ByteIs(qs, m, 1);
    Byte1(FiveAt(qs, 8 * m + 1), FiveAt(qs, 8 * m + 2), FiveAt(qs, 8 * m + 3));
    Place2(FiveAt(qs, 8 * m + 1), FiveAt(qs, 8 * m + 2), FiveAt(qs, 8 * m + 3), ByteAt(qs, 5 * m + 1),
           ByteAt(qs, 5 * m + 2));
  }

  lemma Holds3(qs: seq<u5>, m: nat)
    ensures Placed(qs, 5 * m + 1, 7, 8 * m + 3)
  {
    hide ByteAt, FiveAt, Pow2, Two, Three;
    Powers();
    ByteIs(qs, m, 1);
    Byte1(FiveAt(qs, 8 * m + 1), FiveAt(qs, 8 * m + 2), FiveAt(qs, 8 * m + 3));
    ByteIs(qs, m, 2);
    Byte2(FiveAt(qs, 8 * m + 3), FiveAt(qs, 8 * m + 4), FiveAt(qs, 8 * m + 5));
    Place3(FiveAt(qs, 8 * m + 1), FiveAt(qs, 8 * m + 2), FiveAt(qs, 8 * m + 3), FiveAt(qs, 8 * m + 4),
           ByteAt(qs, 5 * m + 1), ByteAt(qs, 5 * m + 2));
  }

  lemma Holds4(qs: seq<u5>, m: nat)
    ensures Placed(qs, 5 * m + 2, 4, 8 * m + 4)
  {
    hide ByteAt, FiveAt, Pow2, Two, Three;
    Powers();
    ByteIs(qs, m, 2);
    Byte2(FiveAt(qs, 8 * m + 3), FiveAt(qs, 8 * m + 4), FiveAt(qs, 8 * m + 5));
    ByteIs(qs, m, 3);
    Byte3(FiveAt(qs, 8 * m + 4), FiveAt(qs, 8 * m + 5), FiveAt(qs, 8 * m + 6));
    Place4(FiveAt(qs, 8 * m + 3), FiveAt(qs, 8 * m + 4), FiveAt(qs, 8 * m + 5), FiveAt(qs, 8 * m + 6),
           ByteAt(qs, 5 * m + 2), ByteAt(qs, 5 * m + 3));
  }

  lemma Holds5(qs: seq<u5>, m: nat)
    ensures Placed(qs, 5 * m + 3, 1, 8 * m + 5)
  {
    hide ByteAt, FiveAt, Pow2, Two, Three;
    Powers();
    ByteIs(qs, m, 3);
    Byte3(FiveAt(qs, 8 * m + 4), FiveAt(qs, 8 * m + 5), FiveAt(qs, 8 * m + 6));
    Place5(FiveAt(qs, 8 * m + 4), FiveAt(qs, 8 * m + 5), FiveAt(qs, 8 * m + 6), ByteAt(qs, 5 * m + 3),
           ByteAt(qs, 5 * m + 4));
  }

  lemma Holds6(qs: seq<u5>, m: nat)
    ensures Placed(qs, 5 * m + 3, 6, 8 * m + 6)
  {
    hide ByteAt, FiveAt, Pow2, Two, Three;
    Powers();
    ByteIs(qs, m, 3);
    Byte3(FiveAt(qs, 8 * m + 4), FiveAt(qs, 8 * m + 5), FiveAt(qs, 8 * m + 6));
    ByteIs(qs, m, 4);
    Byte4(FiveAt(qs, 8 * m + 6), FiveAt(qs, 8 * m + 7), FiveAt(qs, 8 * m + 8));
    Place6(FiveAt(qs, 8 * m + 4), FiveAt(qs, 8 * m + 5), FiveAt(qs, 8 * m + 6), FiveAt(qs, 8 * m + 7),
           ByteAt(qs, 5 * m + 3), ByteAt(qs, 5 * m + 4));
  }

  lemma Holds7(qs: seq<u5>, m: nat)
    ensures Placed(qs, 5 * m + 4, 3, 8 * m + 7)
  {
    hide ByteAt, FiveAt, Pow2, Two, Three;
    Powers();
    ByteIs(qs, m, 4);
    Byte4(FiveAt(qs, 8 * m + 6), FiveAt(qs, 8 * m + 7), FiveAt(qs, 8 * m + 8));
    Place7(FiveAt(qs, 8 * m + 6), FiveAt(qs, 8 * m + 7), ByteAt(qs, 5 * m + 4), ByteAt(qs, 5 * m + 5));
  }

  /** Each quintet is at its place in the bytes made from the quintets. */
  lemma BytesHold(qs: seq<u5>, j: nat)
    ensures Placed(qs, 5 * j / 8, 5 * j % 8, j)
  {
    hide *;
    var m, c := j / 8, j % 8;
    GroupPlace(j, m, c);
    if c == 0 { Holds0(qs, m); } else if c == 1 { Holds1(qs, m); } else if c == 2 { Holds2(qs, m); }
    else if c == 3 { Holds3(qs, m); } else if c == 4 { Holds4(qs, m); } else if c == 5 { Holds5(qs, m); }
    else if c == 6 { Holds6(qs, m); } else { Holds7(qs, m); }
  }

  lemma GroupPlace(j: nat, m: nat, c: nat)
    requires j == 8 * m + c && c < 8
    ensures 5 * j / 8 == 5 * m + 5 * c / 8 && 5 * j % 8 == 5 * c % 8
  {
    assert 5 * j == 8 * (5 * m) + 5 * c;
    DivUnique(5 * j, 8, 5 * m + 5 * c / 8, 5 * c % 8);
  }

  // ---- what one step of each loop does --------------------------------------

  lemma PowerPair(m: nat, n: nat, sum: nat)
    requires m + n == 8 == sum || m + n == 5 == sum
    ensures Pow2(m) * Pow2(n) == Pow2(sum) && Pow2(8) == 256 && Pow2(5) == 32
  {
    Pow2Add(m, n);
    Powers();
  }

  /** The quintet that straddles byte j - 1 and byte j, as the encoder joins it. */
  lemma EmitFirst(data: seq<u8>, j: nat)
    ensures var x, a, b := 8 * j % 5, At(data, j - 1), At(data, j);
            && Or(Shl(a, 5 - x), Shr(b, 3 + x)) == Shl(a, 5 - x) + Shr(b, 3 + x)
            && (Shl(a, 5 - x) + Shr(b, 3 + x)) % 32 == QuintetAt(data, 8 * j / 5)
  {
    hide *;
    var x := 8 * j % 5;
    JoinIsSum(At(data, j - 1), At(data, j), x);
    if x == 0 { FirstAligned(data, j); } else { FirstAcross(data, j, x); }
  }

  lemma JoinIsSum(a: u8, b: u8, x: nat)
    requires x < 5
    ensures Or(Shl(a, 5 - x), Shr(b, 3 + x)) == Shl(a, 5 - x) + Shr(b, 3 + x)
    ensures Shr(a * 256 + b, 3 + x) == Shl(a, 5 - x) + Shr(b, 3 + x)
  {
    hide Pow2, Or;
    PowerPair(3 + x, 5 - x, 8);
    JoinSum(a, b, Pow2(3 + x), Pow2(5 - x));
    OrDisjoint(b / Pow2(3 + x), a, 5 - x);
  }

  lemma JoinSum(a: nat, b: nat, p: nat, q: nat)
    requires p > 0 && p * q == 256 && b < 256
    ensures 0 <= b / p < q && (a * 256 + b) / p == a * q + b / p && a * q == q * a
  {
    DivBound(b, p, q);
    MulAssociates(p, q, a);
    DivOfMultiple(b, q * a, p);
  }

  lemma FirstAligned(data: seq<u8>, j: nat)
    requires 8 * j % 5 == 0
    ensures (Shl(At(data, j - 1), 5) + Shr(At(data, j), 3)) % 32 == QuintetAt(data, 8 * j / 5)
  {
    var k := 8 * j / 5;
    var a: nat, b: nat, n: nat := At(data, j - 1), At(data, j), At(data, j + 1);
    Powers();
    hide At, Pow2;
    assert 5 * k == 8 * j;
    Cut(5 * k, j, 8, 0);
    Cut(b * 256 + n, b / 8, 2048, b % 8 * 256 + n);
    Cut(a * 32 + b / 8, a, 32, b / 8);
  }

  lemma FirstAcross(data: seq<u8>, j: nat, x: nat)
    requires x == 8 * j % 5 && x > 0
    ensures (Shl(At(data, j - 1), 5 - x) + Shr(At(data, j), 3 + x)) % 32 == QuintetAt(data, 8 * j / 5)
  {
    var k := 8 * j / 5;
    assert 5 * k == 8 * j - x;
    Cut(5 * k, j - 1, 8, 8 - x);
    JoinIsSum(At(data, j - 1), At(data, j), x);
    hide At, Pow2, Or;
  }

  /** The quintet that lies inside byte j, when there is one. */
  lemma EmitSecond(data: seq<u8>, j: nat)
    requires 8 * j % 5 >= 2
    ensures Shr(At(data, j), 8 * j % 5 - 2) % 32 == QuintetAt(data, 8 * j / 5 + 1)
  {
    var x, k := 8 * j % 5, 8 * j / 5;
    var b: nat, n: nat := At(data, j), At(data, j + 1);
    hide At, Pow2;
    assert 5 * (k + 1) == 8 * j + (5 - x);
    DivUnique(5 * (k + 1), 8, j, 5 - x);
    Powers();
    Pow2Add(8, x - 2);
    DivByProduct(b * 256 + n, 256, Pow2(x - 2));
    DivUnique(b * 256 + n, 256, b, n);
  }

  /** The top r bits of a byte, the rest cleared. */
  function Top(b: u8, r: nat): (t: u8)
    requires r <= 8
  {
    MulMonotoneInt(0, b / Pow2(8 - r), Pow2(8 - r));
    b / Pow2(8 - r) * Pow2(8 - r)
  }

  lemma TopWhole(b: u8)
    ensures Top(b, 8) == b && Top(b, 0) == 0
  {
    Powers();
  }

  lemma TopIs(b: u8, r: nat, p: nat)
    requires r <= 8 && p == Pow2(8 - r)
    ensures Top(b, r) == b / p * p
  {
  }

  /** Or-ing in what fits below the top bits adds it. */
  lemma OrTop(b: u8, r: nat, low: nat)
    requires r <= 8 && low < Pow2(8 - r)
    ensures Or(Top(b, r), low) == Top(b, r) + low
  {
    hide Pow2, Or;
    OrDisjoint(low, b / Pow2(8 - r), 8 - r);
    assert Top(b, r) == Pow2(8 - r) * (b / Pow2(8 - r));
  }

  /** A quintet inside one byte is or-ed in below the bits already there. */
  lemma FillInside(b: u8, next: u8, r: nat, c: u5)
    requires r <= 3 && Two(b, next, Pow2(11 - r)) == c
    ensures Or(Top(b, r), Shr(c * 8, r)) == Top(b, r + 5)
  {
    hide Pow2, Or, Top;
    var p := Pow2(3 - r);
    InsidePowers(r);
    EightTimes(c, Pow2(r), p);
    InsideSum(b, next, p, c);
    TopIs(b, r, p * 32);
    TopIs(b, r + 5, p);
    OrTop(b, r, c * p);
  }

  lemma InsidePowers(r: nat)
    requires r <= 3
    ensures Pow2(3 - r) * Pow2(r) == 8 && Pow2(8 - r) == Pow2(3 - r) * 32 && Pow2(11 - r) == 256 * Pow2(3 - r)
    ensures Pow2(8 - (r + 5)) == Pow2(3 - r)
  {
    Powers();
    Pow2Add(3 - r, r);
    Pow2Add(3 - r, 5);
    Pow2Add(8, 3 - r);
  }

  lemma EightTimes(q: nat, d: nat, p: nat)
    requires d > 0 && p * d == 8
    ensures q * 8 / d == q * p
  {
    MulAssociates(q, p, d);
    DivUnique(q * 8, d, q * p, 0);
  }

  lemma InsideSum(b: nat, next: nat, p: nat, q: nat)
    requires p > 0 && next < 256 && (b * 256 + next) / (256 * p) % 32 == q
    ensures 0 <= q * p < p * 32 && b / (p * 32) * (p * 32) + q * p == b / p * p
  {
    DivByProduct(b * 256 + next, 256, p);
    Cut(b * 256 + next, b, 256, next);
    DivByProduct(b, p, 32);
    var h := b / p;
    assert h == 32 * (h / 32) + q;
    InsideExpand(h / 32, q, p);
    MulMonotoneInt(q + 1, 32, p);
    SpreadSum(p, q, 1);
  }

  lemma InsideExpand(g: int, q: int, p: int)
    ensures g * (p * 32) + q * p == (32 * g + q) * p
  {
    assert g * (p * 32) == 32 * g * p;
  }

  lemma SpreadSum(p: int, x: int, y: int)
    ensures p * (x + y) == p * x + p * y
  {
  }

  /** A quintet across two bytes completes the first and starts the second. */
  lemma FillAcross(b: u8, next: u8, r: nat, c: u5)
    requires 3 < r < 8 && Two(b, next, Pow2(11 - r)) == c
    ensures Or(Top(b, r), Shr(c * 8, r)) == b
    ensures Shl(c, 11 - r) % 256 == Top(next, r - 3)
  {
    hide Pow2, Or, Top;
    AcrossPowers(r);
    var s, t, u := Pow2(r - 3), Pow2(8 - r), Pow2(11 - r);
    AcrossValue(b, next, s, t, u, c);
    EightOver(c, s);
    TopIs(b, r, t);
    TopIs(next, r - 3, u);
    DivMod(b, t);
    OrTop(b, r, b % t);
    Commute(b / t, t);
  }

  lemma Commute(x: int, y: int)
    ensures x * y == y * x
  {
  }

  lemma AcrossPowers(r: nat)
    requires 3 < r < 8
    ensures Pow2(r - 3) * Pow2(8 - r) == 32 && Pow2(11 - r) * Pow2(r - 3) == 256 && Pow2(r) == Pow2(r - 3) * 8
    ensures Pow2(8 - (r - 3)) == Pow2(11 - r)
  {
    Powers();
    Pow2Add(r - 3, 8 - r);
    Pow2Add(11 - r, r - 3);
    Pow2Add(r - 3, 3);
  }

  lemma EightOver(q: nat, s: nat)
    requires s > 0
    ensures q * 8 / (s * 8) == q / s
  {
    DivByProduct(q * 8, 8, s);
    Cut(q * 8, q, 8, 0);
  }

  lemma AcrossValue(x: nat, y: nat, s: nat, t: nat, u: nat, q: nat)
    requires s > 0 && t > 0 && u > 0 && s * t == 32 && u * s == 256 && y < 256 && (x * 256 + y) / u % 32 == q
    ensures q / s == x % t && q * u % 256 == y / u * u && 0 <= y / u * u < 256
  {
    var f, h := x % t, y / u;
    AcrossQuintet(x, y, s, t, u);
    DivBound(y, u, s);
    AcrossParts(f, h, s, u);
  }

  lemma AcrossQuintet(x: nat, y: nat, s: nat, t: nat, u: nat)
    requires s > 0 && t > 0 && u > 0 && s * t == 32 && u * s == 256 && y < 256
    ensures (x * 256 + y) / u % 32 == s * (x % t) + y / u
  {
    DivBound(y, u, s);
    DivMod(x, t);
    DivMod(y, u);
    AcrossGroup(x, y, x / t, x % t, y / u, y % u, s, t, u);
  }

  lemma DivMod(x: nat, d: nat)
    requires d > 0
    ensures x == d * (x / d) + x % d && 0 <= x % d < d && x / d >= 0
  {
  }

  lemma AcrossGroup(x: nat, y: nat, g: nat, f: nat, h: nat, e: nat, s: nat, t: nat, u: nat)
    requires x == t * g + f && y == u * h + e && s * t == 32 && u * s == 256 && f < t && h < s && e < u
    ensures (x * 256 + y) / u % 32 == s * f + h
  {
    AcrossSum(g, f, h, e, s, t, u);
    MulMonotoneInt(0, f, s);
    QuintetOf(x * 256 + y, u, 32 * g + (s * f + h), e, g, s * f + h);
  }

  lemma QuintetOf(w: int, u: int, v: int, e: int, g: int, q: int)
    requires u > 0 && w == u * v + e && 0 <= e < u && v == 32 * g + q && 0 <= q < 32
    ensures w / u % 32 == q
  {
    DivUnique(w, u, v, e);
    DivUnique(v, 32, g, q);
  }

  lemma AcrossParts(f: nat, h: nat, s: nat, u: nat)
    requires s > 0 && u > 0 && u * s == 256 && h < s
    ensures (s * f + h) / s == f && (s * f + h) * u % 256 == h * u && 0 <= h * u < 256
  {
    DivUnique(s * f + h, s, f, h);
    AcrossLow(f, h, s, u);
    DivUnique((s * f + h) * u, 256, f, u * h);
  }

  lemma AcrossSum(g: nat, f: nat, h: nat, e: nat, s: nat, t: nat, u: nat)
    requires s * t == 32 && u * s == 256 && f < t && h < s
    ensures (t * g + f) * 256 + (u * h + e) == u * (32 * g + (s * f + h)) + e
    ensures s * f + h < 32
  {
    MulAssociates(u, s, t * g + f);
    MulAssociates(s, t, g);
    SpreadSum(s, t * g, f);
    SpreadSum(u, s * (t * g + f), h);
    MulMonotoneInt(f + 1, t, s);
    SpreadSum(s, f, 1);
  }

  lemma AcrossLow(f: nat, h: nat, s: nat, u: nat)
    requires u * s == 256 && h < s
    ensures (s * f + h) * u == 256 * f + u * h && 0 <= u * h < 256
  {
    MulAssociates(u, s, f);
    SpreadSum(u, s * f, h);
    MulMonotoneInt(h + 1, s, u);
    SpreadSum(u, h, 1);
  }
}
