/** Numbers as big-endian digit sequences in any base,
    and the carry loop that builds them. */
module Radix {
  import opened FixedWidth
  import opened Arithmetic

  ghost function Value(b: nat, s: seq<int>): int {
    if s == [] then 0 else Value(b, s[..|s| - 1]) * b + s[|s| - 1]
  }

  /** The digits of v, most significant first, with no leading zero. */
  ghost function Digits(b: nat, v: nat): seq<int>
    requires b > 1
  {
    if v == 0 then [] else (DivSmaller(v, b); Digits(b, v / b) + [v % b])
  }

  ghost predicate AreDigits(b: nat, s: seq<int>) {
    forall i :: 0 <= i < |s| ==> 0 <= s[i] < b
  }

  lemma ValueSnoc(b: nat, s: seq<int>, d: int)
    ensures Value(b, s + [d]) == Value(b, s) * b + d
  {
    assert (s + [d])[..|s|] == s;
  }

  lemma {:induction false} ValueConcat(b: nat, s: seq<int>, t: seq<int>)
    ensures Value(b, s + t) == Value(b, s) * Pow(b, |t|) + Value(b, t)
    decreases |t|
  {
    if t == [] {
      assert s + t == s;
    } else {
      var last := |t| - 1;
      ValueConcat(b, s, t[..last]);
      assert (s + t)[..|s + t| - 1] == s + t[..last];
      var v, p, w := Value(b, s), Pow(b, last), Value(b, t[..last]);
      assert (v * p + w) * b == v * (b * p) + w * b by { Distribute(v, p, w, b); }
    }
  }

  lemma Distribute(v: int, p: int, w: int, b: int)
    ensures (v * p + w) * b == v * (b * p) + w * b
  {
    MulAssociates(v, p, b);
  }

  lemma {:induction false} ValueBound(b: nat, s: seq<int>)
    requires b > 0 && AreDigits(b, s)
    ensures 0 <= Value(b, s) < Pow(b, |s|)
    decreases |s|
  {
    if s != [] {
      var last := |s| - 1;
      ValueBound(b, s[..last]);
      MulMonotone(Value(b, s[..last]) + 1, Pow(b, last), b);
      assert (Value(b, s[..last]) + 1) * b == Value(b, s[..last]) * b + b;
    }
  }

  lemma {:induction false} ValueZeros(b: nat, s: seq<int>)
    requires forall i :: 0 <= i < |s| ==> s[i] == 0
    ensures Value(b, s) == 0
    decreases |s|
  {
    if s != [] { ValueZeros(b, s[..|s| - 1]); }
  }

  /** Digits is the shortest digit sequence of its number. */
  lemma {:induction false} DigitsHold(b: nat, v: nat)
    requires b > 1
    ensures AreDigits(b, Digits(b, v)) && Value(b, Digits(b, v)) == v
    ensures Digits(b, v) == [] <==> v == 0
    ensures v > 0 ==> Digits(b, v)[0] != 0
    decreases v
  {
    if v > 0 {
      DivSmaller(v, b);
      DigitsHold(b, v / b);
      ValueSnoc(b, Digits(b, v / b), v % b);
      if v / b == 0 { DivUnique(v, b, 0, v % b); }
    }
  }

  lemma DivSmaller(v: nat, b: nat)
    requires v > 0 && b > 1
    ensures 0 <= v / b < v && v == (v / b) * b + v % b
  {
    DivBound(v, b, v);
  }

  /** A digit sequence with no leading zero is the digits of its value. */
  lemma {:induction false} DigitsUnique(b: nat, s: seq<int>)
    requires b > 1 && AreDigits(b, s) && (s != [] ==> s[0] != 0)
    ensures Value(b, s) >= 0 && Digits(b, Value(b, s)) == s
    decreases |s|
  {
    if s != [] {
      var last := |s| - 1;
      DigitsUnique(b, s[..last]);
      var v := Value(b, s[..last]);
      DivUnique(v * b + s[last], b, v, s[last]);
      if last > 0 { DigitsHold(b, v); MulPositive(v, b); }
      assert s == s[..last] + [s[last]];
    }
  }

  // ---- leading zeros --------------------------------------------------------

  function Zeros(n: nat): (r: seq<int>)
    ensures |r| == n && forall i :: 0 <= i < n ==> r[i] == 0
  {
    seq(n, _ => 0)
  }

  function LeadingZeros(s: seq<int>): (n: nat)
    ensures n <= |s| && s[..n] == Zeros(n) && (n < |s| ==> s[n] != 0)
  {
    if s == [] || s[0] != 0 then 0 else
    assert s == [0] + s[1..];
    1 + LeadingZeros(s[1..])
  }

  lemma {:induction false} LeadingZerosUnique(s: seq<int>, n: nat)
    requires n <= |s| && s[..n] == Zeros(n) && (n < |s| ==> s[n] != 0)
    ensures LeadingZeros(s) == n
  {
    var m := LeadingZeros(s);
    assert forall i :: 0 <= i < n ==> s[i] == s[..n][i];
    assert forall i :: 0 <= i < m ==> s[i] == s[..m][i];
  }

  /** Leading zeros do not change a value. */
  lemma ZerosDropped(b: nat, s: seq<int>, n: nat)
    requires n <= |s| && forall i :: 0 <= i < n ==> s[i] == 0
    ensures Value(b, s) == Value(b, s[n..])
  {
    assert s == s[..n] + s[n..];
    ValueConcat(b, s[..n], s[n..]);
    ValueZeros(b, s[..n]);
  }

  /** s in base a, rewritten in base b; leading zeros are carried over one for one. */
  ghost function Recode(a: nat, b: nat, s: seq<int>): seq<int>
    requires a > 0 && b > 1 && AreDigits(a, s)
  {
    ValueBound(a, s);
    Zeros(LeadingZeros(s)) + Digits(b, Value(a, s))
  }

  lemma RecodeHolds(a: nat, b: nat, s: seq<int>)
    requires a > 0 && b > 1 && AreDigits(a, s)
    ensures AreDigits(b, Recode(a, b, s)) && Value(b, Recode(a, b, s)) == Value(a, s)
    ensures LeadingZeros(Recode(a, b, s)) == LeadingZeros(s)
  {
    ValueBound(a, s);
    DigitsHold(b, Value(a, s));
    ZerosDropped(b, Recode(a, b, s), LeadingZeros(s));
    assert Recode(a, b, s)[LeadingZeros(s)..] == Digits(b, Value(a, s));
    LeadingZerosUnique(Recode(a, b, s), LeadingZeros(s));
  }

  /** Rewriting in another base and back gives the same digits, leading zeros included. */
  lemma RecodeInverts(a: nat, b: nat, s: seq<int>)
    requires a > 1 && b > 1 && AreDigits(a, s)
    ensures AreDigits(b, Recode(a, b, s)) && Recode(b, a, Recode(a, b, s)) == s
  {
    hide *;
    RecodeHolds(a, b, s);
    RecodeIs(b, a, Recode(a, b, s));
    DigitsAfterZeros(a, s);
    assert s == s[..LeadingZeros(s)] + s[LeadingZeros(s)..];
  }

  lemma RecodeIs(a: nat, b: nat, s: seq<int>)
    requires a > 0 && b > 1 && AreDigits(a, s)
    ensures Value(a, s) >= 0 && Recode(a, b, s) == Zeros(LeadingZeros(s)) + Digits(b, Value(a, s))
  {
    ValueBound(a, s);
  }

  lemma DigitsAfterZeros(b: nat, s: seq<int>)
    requires b > 1 && AreDigits(b, s)
    ensures Value(b, s) >= 0 && Digits(b, Value(b, s)) == s[LeadingZeros(s)..]
  {
    var z := LeadingZeros(s);
    assert forall i :: 0 <= i < z ==> s[i] == s[..z][i];
    hide Value, Digits;
    ZerosDropped(b, s, z);
    DigitsUnique(b, s[z..]);
  }

  // ---- fixed-size buffers ---------------------------------------------------

  /** buf := buf * mult + digit, carried from the last place to the first; there is room, so no carry is left. */
  method MulAdd(buf: array<u8>, base: nat, mult: nat, digit: nat)
    requires 1 < base <= 256 && 0 < mult <= 256 && digit < mult && AreDigits(base, buf[..])
    requires Value(base, buf[..]) * mult + digit < Pow(base, buf.Length)
    modifies buf
    ensures AreDigits(base, buf[..])
    ensures Value(base, buf[..]) == Value(base, old(buf[..])) * mult + digit
  {
    ghost var was := buf[..];
    var carry, j := digit, buf.Length;
    assert was[..j] == was && buf[j..] == [];
    hide Value, Pow;
    MulAddStart(base, mult, was, digit);
    while j > 0
      invariant 0 <= j <= buf.Length && 0 <= carry <= 256
      invariant buf[..j] == was[..j] && AreDigits(base, buf[..])
      invariant Carried(base, mult, digit, was, j, buf[j..], carry)
    {
      ghost var tail := buf[j..];
      var n := carry + buf[j - 1] * mult;
      MulAddStep(base, mult, digit, was, j, tail, carry);
      hide Carried;
      var low: u8, high := n % base, n / base;
      ghost var before := buf[..];
      j := j - 1;
      buf[j] := low;
      carry := high;
      assert buf[..] == before[j := low];
      assert buf[j..] == [low] + tail;
    }
    assert buf[0..] == buf[..];
    MulAddEnd(base, mult, digit, was, buf[..], carry);
  }

  /** What is left of buf * mult + digit when the places from j up are done. */
  ghost predicate Carried(base: nat, mult: nat, digit: nat, was: seq<int>, j: nat, tail: seq<int>, carry: nat) {
    && j <= |was|
    && Value(base, tail) + Pow(base, |tail|) * (carry + mult * Value(base, was[..j])) == Value(base, was) * mult + digit
  }

  lemma MulAddStart(base: nat, mult: nat, was: seq<int>, digit: nat)
    ensures Carried(base, mult, digit, was, |was|, [], digit)
  {
    assert was[..|was|] == was;
  }

  lemma MulAddStep(base: nat, mult: nat, digit: nat, was: seq<int>, j: nat, tail: seq<int>, carry: nat)
    requires 1 < base <= 256 && 0 < mult <= 256 && 0 < j <= |was| && AreDigits(base, was) && carry <= 256
    requires Carried(base, mult, digit, was, j, tail, carry)
    ensures var n := carry + was[j - 1] * mult;
            && 0 <= n && 0 <= n / base <= 256 && 0 <= n % base < base
            && Carried(base, mult, digit, was, j - 1, [n % base] + tail, n / base)
  {
    var n := carry + was[j - 1] * mult;
    assert was[..j] == was[..j - 1] + [was[j - 1]];
    ValueSnoc(base, was[..j - 1], was[j - 1]);
    ValueConcat(base, [n % base], tail);
    ValueSnoc(base, [], n % base);
    assert [] + [n % base] == [n % base];
    assert Value(base, [n % base]) == n % base;
    CarryBound(was[j - 1], mult, base, carry);
    CarryMoves(n, base, mult, Pow(base, |tail|), Value(base, was[..j - 1]), was[j - 1], carry);
    assert Pow(base, |tail| + 1) == base * Pow(base, |tail|);
  }

  lemma CarryBound(w: nat, mult: nat, base: nat, carry: nat)
    requires w < base <= 256 && 0 < mult <= 256 && carry <= 256
    ensures 0 <= carry + w * mult && (carry + w * mult) / base <= 256
  {
    MulMonotone(w, base - 1, mult);
    MulMonotoneInt(mult, 256, base - 1);
    assert carry + w * mult <= 256 + (base - 1) * 256;
    assert (base - 1) * 256 + 256 == base * 256;
    DivBound(carry + w * mult, base, 257);
  }

  lemma CarryMoves(n: nat, base: nat, mult: nat, p: nat, v: int, w: int, carry: int)
    requires base > 0 && n == carry + w * mult
    ensures n % base * p + (base * p) * (n / base + mult * v) == p * (carry + mult * (v * base + w))
  {
    var q, r := n / base, n % base;
    assert n == base * q + r;
    assert carry + mult * (v * base + w) == base * q + r + mult * (v * base) by { Spread(mult, v, base, w); }
    assert mult * (v * base) == base * (mult * v) by { MulAssociates(mult, v, base); }
    assert carry + mult * (v * base + w) == r + base * (q + mult * v) by { Spread(base, q, 1, mult * v); }
    var u := q + mult * v;
    assert p * (r + base * u) == r * p + (base * p) * u by { Spread(p, r, 1, base * u); MulAssociates(p, base, u); }
  }

  lemma Spread(a: int, x: int, y: int, z: int)
    ensures a * (x * y + z) == a * (x * y) + a * z
  {
  }

  lemma MulAddEnd(base: nat, mult: nat, digit: nat, was: seq<int>, now: seq<int>, carry: nat)
    requires base > 0 && AreDigits(base, now) && Carried(base, mult, digit, was, 0, now, carry)
    requires Value(base, was) * mult + digit < Pow(base, |now|)
    ensures Value(base, now) == Value(base, was) * mult + digit
  {
    ValueBound(base, now);
    assert was[..0] == [];
    if carry > 0 { MulMonotoneInt(1, carry, Pow(base, |now|)); }
  }
}
