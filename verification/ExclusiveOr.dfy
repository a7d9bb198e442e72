/** Exclusive or on naturals:
    bit by bit,
    and the laws the checksum and cipher proofs use. */
module ExclusiveOr {
  import opened Arithmetic

  function Xor(x: nat, y: nat): nat
    decreases x + y
  {
    if x == 0 then y else if y == 0 then x else 2 * Xor(x / 2, y / 2) + (x + y) % 2
  }

  lemma {:induction false} XorHalf(x: nat, y: nat)
    ensures Xor(x, y) / 2 == Xor(x / 2, y / 2) && Xor(x, y) % 2 == (x + y) % 2
  {
  }

  lemma {:induction false} XorCommutes(x: nat, y: nat)
    ensures Xor(x, y) == Xor(y, x)
    decreases x
  {
    if x != 0 && y != 0 { XorCommutes(x / 2, y / 2); }
  }

  lemma {:induction false} XorAssociates(x: nat, y: nat, z: nat)
    ensures Xor(Xor(x, y), z) == Xor(x, Xor(y, z))
    decreases x + y + z
  {
    hide Xor;
    if x == 0 || y == 0 || z == 0 {
      XorZero(x); XorZero(y); XorZero(z); XorZero(Xor(x, y)); XorZero(Xor(y, z));
    } else {
      XorHalf(x, y);
      XorHalf(y, z);
      XorHalf(Xor(x, y), z);
      XorHalf(x, Xor(y, z));
      XorAssociates(x / 2, y / 2, z / 2);
      ThreeBits(x, y, z, Xor(x, y), Xor(y, z));
      SameBits(Xor(Xor(x, y), z), Xor(x, Xor(y, z)));
    }
  }

  lemma ThreeBits(x: nat, y: nat, z: nat, u: nat, v: nat)
    requires u % 2 == (x + y) % 2 && v % 2 == (y + z) % 2
    ensures (u + z) % 2 == (x + v) % 2
  {
  }

  lemma SameBits(x: nat, y: nat)
    requires x / 2 == y / 2 && x % 2 == y % 2
    ensures x == y
  {
  }

  lemma {:induction false} XorSelf(x: nat)
    ensures Xor(x, x) == 0
    decreases x
  {
    if x != 0 { XorSelf(x / 2); }
  }

  lemma XorZero(x: nat)
    ensures Xor(x, 0) == x && Xor(0, x) == x
  {
  }

  /** Adding the same number twice cancels. */
  lemma XorCancels(x: nat, y: nat)
    ensures Xor(Xor(x, y), y) == x && Xor(y, Xor(y, x)) == x
  {
    hide Xor;
    XorAssociates(x, y, y);
    XorAssociates(y, y, x);
    XorSelf(y);
    XorZero(x);
  }

  /** Exclusive or of two sums is the sum of the exclusive ors. */
  lemma XorPairs(a: nat, p: nat, b: nat, q: nat)
    ensures Xor(Xor(a, p), Xor(b, q)) == Xor(Xor(a, b), Xor(p, q))
  {
    hide Xor;
    XorAssociates(a, p, Xor(b, q));
    XorAssociates(p, b, q);
    XorCommutes(p, b);
    XorAssociates(b, p, q);
    XorAssociates(a, b, Xor(p, q));
  }

  lemma {:induction false} XorBound(x: nat, y: nat, n: nat)
    requires x < Pow2(n) && y < Pow2(n)
    ensures Xor(x, y) < Pow2(n)
    decreases n
  {
    if n > 0 && x != 0 && y != 0 { XorBound(x / 2, y / 2, n - 1); }
  }

  lemma Pow2Zero()
    ensures Pow2(0) == 1
  {
  }

  /** Shifting up or down, and cutting, are linear. */
  lemma {:induction false} XorShiftsUp(x: nat, y: nat, n: nat)
    ensures Xor(Pow2(n) * x, Pow2(n) * y) == Pow2(n) * Xor(x, y)
    decreases n
  {
    hide Xor, Pow2;
    Pow2Zero();
    if n > 0 {
      XorShiftsUp(x, y, n - 1);
      Pow2Step(n);
      MulAssociates(2, Pow2(n - 1), x);
      MulAssociates(2, Pow2(n - 1), y);
      MulAssociates(2, Pow2(n - 1), Xor(x, y));
      XorDouble(Pow2(n - 1) * x, Pow2(n - 1) * y);
    }
  }

  lemma XorDouble(u: nat, v: nat)
    ensures Xor(2 * u, 2 * v) == 2 * Xor(u, v)
  {
    hide Xor;
    XorHalf(2 * u, 2 * v);
    assert (2 * u) / 2 == u && (2 * v) / 2 == v;
    assert (2 * u + 2 * v) % 2 == 0 by { assert 2 * u + 2 * v == 2 * (u + v); }
  }

  lemma {:induction false} XorShiftsDown(x: nat, y: nat, n: nat)
    ensures Xor(x, y) / Pow2(n) == Xor(x / Pow2(n), y / Pow2(n))
    decreases n
  {
    hide Xor, Pow2;
    Pow2Zero();
    if n > 0 {
      XorHalf(x, y);
      XorShiftsDown(x / 2, y / 2, n - 1);
      Pow2Step(n);
      DivByProduct(x, 2, Pow2(n - 1));
      DivByProduct(y, 2, Pow2(n - 1));
      DivByProduct(Xor(x, y), 2, Pow2(n - 1));
    }
  }

  lemma {:induction false} XorCuts(x: nat, y: nat, n: nat)
    ensures Xor(x, y) % Pow2(n) == Xor(x % Pow2(n), y % Pow2(n))
    decreases n
  {
    hide Xor, Pow2;
    if n == 0 {
      Pow2Zero();
      XorZero(0);
    } else {
      var p := Pow2(n - 1);
      XorHalf(x, y);
      XorCuts(x / 2, y / 2, n - 1);
      Pow2Step(n);
      CutDouble(x, y, p);
    }
  }

  lemma CutDouble(x: nat, y: nat, p: nat)
    requires p > 0 && Xor(x, y) / 2 % p == Xor(x / 2 % p, y / 2 % p) && Xor(x, y) % 2 == (x + y) % 2
    ensures Xor(x, y) % (2 * p) == Xor(x % (2 * p), y % (2 * p))
  {
    hide Xor;
    var u, v, z := x / 2 % p, y / 2 % p, Xor(x, y);
    var xm, ym, zm := x % (2 * p), y % (2 * p), z % (2 * p);
    assert xm == 2 * u + x % 2 by { ModByDouble(x, p); }
    assert ym == 2 * v + y % 2 by { ModByDouble(y, p); }
    assert zm == 2 * Xor(u, v) + z % 2 by { ModByDouble(z, p); }
    assert z % 2 == (x % 2 + y % 2) % 2 by { Parity(x, y); }
    assert Xor(xm, ym) == 2 * Xor(u, v) + z % 2 by { XorJoin(u, x % 2, v, y % 2); }
  }

  lemma Parity(x: nat, y: nat)
    ensures (x % 2 + y % 2) % 2 == (x + y) % 2
  {
  }

  lemma ModByDouble(x: nat, p: nat)
    requires p > 0
    ensures x % (2 * p) == 2 * (x / 2 % p) + x % 2
  {
    assert x / 2 == p * (x / 2 / p) + x / 2 % p;
    var q := x / 2 / p;
    MulAssociates(2, p, q);
    DivUnique(x, 2 * p, q, 2 * (x / 2 % p) + x % 2);
  }

  lemma XorJoin(u: nat, a: nat, v: nat, b: nat)
    requires a < 2 && b < 2
    ensures Xor(2 * u + a, 2 * v + b) == 2 * Xor(u, v) + (a + b) % 2
  {
    hide Xor;
    XorHalf(2 * u + a, 2 * v + b);
    assert (2 * u + a) / 2 == u && (2 * v + b) / 2 == v;
  }

  /** Exclusive or of a number below 2^s with a multiple of 2^s is their sum. */
  lemma {:induction false} XorDisjoint(x: nat, k: nat, s: nat)
    requires x < Pow2(s)
    ensures Xor(x, Pow2(s) * k) == x + Pow2(s) * k
    decreases s
  {
    hide Xor, Pow2;
    Pow2Zero();
    if s == 0 {
      XorZero(Pow2(s) * k);
    } else {
      Pow2Step(s);
      MulAssociates(2, Pow2(s - 1), k);
      XorDisjoint(x / 2, k, s - 1);
      XorJoin(x / 2, x % 2, Pow2(s - 1) * k, 0);
    }
  }

  // ---- bit by bit -----------------------------------------------------------

  predicate Bit(x: nat, i: nat) {
    if i == 0 then x % 2 == 1 else Bit(x / 2, i - 1)
  }

  lemma {:induction false} XorBit(x: nat, y: nat, i: nat)
    ensures Bit(Xor(x, y), i) == (Bit(x, i) != Bit(y, i))
    decreases i
  {
    XorHalf(x, y);
    if i > 0 { XorBit(x / 2, y / 2, i - 1); }
  }

  lemma XorBits()
    ensures forall x: nat, y: nat, i: nat {:trigger Bit(Xor(x, y), i)} :: Bit(Xor(x, y), i) == (Bit(x, i) != Bit(y, i))
  {
    forall x: nat, y: nat, i: nat ensures Bit(Xor(x, y), i) == (Bit(x, i) != Bit(y, i)) { XorBit(x, y, i); }
  }

  /** Numbers with the same bits are equal. */
  lemma {:induction false} BitsDecide(x: nat, y: nat)
    requires forall i: nat :: Bit(x, i) == Bit(y, i)
    ensures x == y
    decreases x + y
  {
    assert Bit(x, 0) == Bit(y, 0);
    if x != 0 || y != 0 {
      forall i: nat ensures Bit(x / 2, i) == Bit(y / 2, i) { assert Bit(x, i + 1) == Bit(y, i + 1); }
      BitsDecide(x / 2, y / 2);
    }
  }
}
