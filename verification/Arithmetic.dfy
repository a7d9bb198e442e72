/** Powers, shifts and bitwise or on naturals, and the division facts that the limb loops, the digit loops and
    the bit loops rest on. */
module Arithmetic {
  function Pow(b: nat, n: nat): nat {
    if n == 0 then 1 else b * Pow(b, n - 1)
  }

  lemma {:induction false} PowPositive(b: nat, n: nat)
    requires b > 0
    ensures Pow(b, n) > 0
    decreases n
  {
    if n > 0 { PowPositive(b, n - 1); MulPositive(b, Pow(b, n - 1)); }
  }

  lemma MulPositive(x: nat, y: nat)
    requires x > 0 && y > 0
    ensures x * y > 0
  {
  }

  lemma {:induction false} PowAdd(b: nat, m: nat, n: nat)
    ensures Pow(b, m + n) == Pow(b, m) * Pow(b, n)
    decreases m
  {
    if m > 0 {
      PowAdd(b, m - 1, n);
      MulAssociates(b, Pow(b, m - 1), Pow(b, n));
    }
  }

  lemma MulAssociates(x: int, y: int, z: int)
    ensures x * (y * z) == (x * y) * z
  {
  }

  lemma {:induction false} PowGrows(b: nat, m: nat, n: nat)
    requires b > 0 && m <= n
    ensures Pow(b, m) <= Pow(b, n)
    decreases n
  {
    if m < n {
      PowGrows(b, m, n - 1);
      MulGrows(Pow(b, n - 1), b);
    }
  }

  lemma MulGrows(x: nat, b: nat)
    requires b > 0
    ensures x <= b * x
  {
  }

  lemma MulMonotone(x: nat, y: nat, z: nat)
    requires x <= y
    ensures x * z <= y * z
  {
  }

  /** Quotient and remainder are determined. */
  lemma DivUnique(x: int, d: int, q: int, r: int)
    requires d > 0 && x == d * q + r && 0 <= r < d
    ensures x / d == q && x % d == r
  {
    if x / d < q {
      assert d * (x / d + 1) <= d * q by { MulMonotoneInt(x / d + 1, q, d); }
    } else if x / d > q {
      assert d * (q + 1) <= d * (x / d) by { MulMonotoneInt(q + 1, x / d, d); }
    }
  }

  lemma MulMonotoneInt(x: int, y: int, d: int)
    requires x <= y && d >= 0
    ensures d * x <= d * y
  {
  }

  lemma DivMonotone(x: int, y: int, d: int)
    requires 0 <= x <= y && d > 0
    ensures 0 <= x / d <= y / d
  {
    if x / d > y / d {
      MulMonotoneInt(y / d + 1, x / d, d);
    }
  }

  lemma DivOfMultiple(x: int, k: int, d: int)
    requires d > 0
    ensures (x + d * k) / d == x / d + k
  {
    assert x + d * k == d * (x / d + k) + x % d;
    DivUnique(x + d * k, d, x / d + k, x % d);
  }

  lemma DivByProduct(x: nat, a: nat, b: nat)
    requires a > 0 && b > 0
    ensures a * b > 0 && x / (a * b) == x / a / b
  {
    MulPositive(a, b);
    var q, r := x / a / b, x / a % b;
    assert x == a * (x / a) + x % a;
    assert x / a == b * q + r;
    assert x == (a * b) * q + (a * r + x % a) by {
      assert a * (b * q + r) == a * (b * q) + a * r;
      MulAssociates(a, b, q);
    }
    assert a * r + x % a < a * b by { MulMonotoneInt(r, b - 1, a); assert a * (b - 1) == a * b - a; }
    DivUnique(x, a * b, q, a * r + x % a);
  }

  /** Adding y to a number whose residue leaves room for it. */
  lemma ModAdd(x: nat, y: nat, m: nat)
    requires m > 0 && x % m + y < m
    ensures (x + y) % m == x % m + y
  {
    DivUnique(x + y, m, x / m, x % m + y);
  }

  lemma ModOfMultiple(x: nat, k: nat, m: nat)
    requires m > 0
    ensures (x + m * k) % m == x % m
  {
    assert x + m * k == m * (x / m + k) + x % m;
    DivUnique(x + m * k, m, x / m + k, x % m);
  }

  lemma DivBound(x: nat, d: nat, q: nat)
    requires d > 0 && x < d * q
    ensures x / d < q
  {
    if x / d >= q { MulMonotoneInt(q, x / d, d); }
  }

  // ---- powers of two --------------------------------------------------------

  function Pow2(n: nat): (r: nat)
    ensures r > 0
  {
    PowPositive(2, n);
    Pow(2, n)
  }

  lemma Pow2Values()
    ensures Pow2(8) == 0x100 && Pow2(16) == 0x1_0000 && Pow2(24) == 0x100_0000 && Pow2(32) == 0x1_0000_0000
    ensures Pow2(23) == 0x80_0000 && Pow2(15) == 0x8000 && Pow2(0) == 1 && Pow2(1) == 2 && Pow2(7) == 0x80
  {
    assert Pow2(4) == 16;
    PowAdd(2, 4, 4); PowAdd(2, 8, 8); PowAdd(2, 16, 8); PowAdd(2, 16, 16); PowAdd(2, 8, 7); PowAdd(2, 16, 7);
    PowAdd(2, 4, 3);
    assert Pow2(3) == 8;
  }

  lemma Pow2Step(n: nat)
    requires n > 0
    ensures Pow2(n) == 2 * Pow2(n - 1)
  {
  }

  lemma Pow2Add(m: nat, n: nat)
    ensures Pow2(m + n) == Pow2(m) * Pow2(n)
  {
    PowAdd(2, m, n);
  }

  lemma Pow2Grows(m: nat, n: nat)
    requires m <= n
    ensures Pow2(m) <= Pow2(n)
  {
    PowGrows(2, m, n);
  }

  /** Shifts of a number without width. */
  function Shl(x: nat, n: nat): nat {
    MulMonotoneInt(0, x, Pow2(n));
    x * Pow2(n)
  }

  function Shr(x: nat, n: nat): nat {
    DivMonotone(0, x, Pow2(n));
    x / Pow2(n)
  }

  /** Bitwise or. */
  function Or(x: nat, y: nat): nat
    decreases x + y
  {
    if x == 0 then y else if y == 0 then x else
    2 * Or(x / 2, y / 2) + (if x % 2 == 1 || y % 2 == 1 then 1 else 0)
  }

  /** Or of a number below 2^s with a multiple of 2^s is their sum. */
  lemma {:induction false} OrDisjoint(x: nat, k: nat, s: nat)
    requires x < Pow2(s)
    ensures Or(x, Pow2(s) * k) == x + Pow2(s) * k && Or(Pow2(s) * k, x) == x + Pow2(s) * k
    decreases s
  {
    if s > 0 && x > 0 {
      var y := Pow2(s) * k;
      MulAssociates(2, Pow2(s - 1), k);
      assert y == 2 * (Pow2(s - 1) * k);
      OrDisjoint(x / 2, k, s - 1);
    }
  }

  /** Or with a single bit that is clear adds it. */
  lemma {:induction false} OrBit(x: nat, s: nat)
    requires x / Pow2(s) % 2 == 0
    ensures Or(x, Pow2(s)) == x + Pow2(s)
    decreases s
  {
    if s > 0 && x > 0 {
      DivByProduct(x, 2, Pow2(s - 1));
      OrBit(x / 2, s - 1);
    } else if x > 0 {
      assert Pow2(0) == 1;
      assert Or(x, 1) == 2 * Or(x / 2, 0) + 1;
      assert Or(x / 2, 0) == x / 2;
    }
  }
}
