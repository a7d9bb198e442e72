/** Amounts read. */
module AmountParse {
  // Amount text to satoshis, exactly, as the scanner with its 24-digit buffer
  // reads it.

  import opened Arithmetic
  import opened Options
  import opened AmountText

  const BUFFER: nat := 24

  // ---- what a numeral means, from its significant digits ---------------------

  /** The digits kept so far and the zeros held back stand for all the digits read. */
  ghost predicate Kept(d: string, zeros: nat, all: string) {
    && AllDigits(d) && Number(all) == Number(d) * Ten(zeros)
    && (d == "" ==> zeros == 0)
    && (d != "" ==> d[0] != '0' && d[|d| - 1] != '0')
  }

  lemma LastDigit(d: string)
    requires AllDigits(d) && d != "" && d[|d| - 1] != '0'
    ensures Number(d) % 10 != 0
  {
    assert d == d[..|d| - 1] + [d[|d| - 1]];
    NumberSnoc(d[..|d| - 1], d[|d| - 1]);
  }

  /** The value in satoshis is the kept digits shifted, when that shift is not to the right; otherwise there is none. */
  lemma MeansShifted(n: Numeral, x: int, zeros: nat, v: int)
    requires Significand(n) == x * Ten(zeros)
    ensures var shift := zeros + DGB_DECIMALS + Exponent(n) - |n.frac|;
            && (shift >= 0 ==> (Means(n, v) <==> v == x * Ten(shift)))
            && (shift < 0 && x % 10 != 0 ==> !Means(n, v))
  {
    var s := DGB_DECIMALS + Exponent(n) - |n.frac|;
    hide Ten, Significand, Exponent;
    assert Ten(0) == 1 by { TenZero(); }
    if s >= 0 {
      TenNonPositive(-s);
      TenAdd(zeros, s);
      MulAssociates(x, Ten(zeros), Ten(s));
    } else if zeros >= -s {
      TenNonPositive(s);
      TenAdd(zeros + s, -s);
      MulAssociates(x, Ten(zeros + s), Ten(-s));
      if v * Ten(-s) == x * Ten(zeros) {
        TenAdd(-s, 0);
        Cancel(v, x * Ten(zeros + s), Ten(-s));
      }
    } else {
      TenNonPositive(s);
      TenAdd(-s - zeros, zeros);
      MulAssociates(v, Ten(-s - zeros), Ten(zeros));
      if v * Ten(-s) == x * Ten(zeros) {
        TenAdd(zeros, 0);
        Cancel(v * Ten(-s - zeros), x, Ten(zeros));
      }
      if x % 10 != 0 { NotAMultiple(v, x, -s - zeros); }
    }
  }

  lemma TenZero()
    ensures Ten(0) == 1
  {
  }

  lemma TenNonPositive(k: int)
    requires k <= 0
    ensures Ten(k) == 1
  {
  }

  // ---- when no continuation can succeed -------------------------------------

  const EXP_LIMIT: int := 2147483648

  /** Some prefix of the digits is a number of more than 24 digits that does not end in zero. */
  ghost predicate TooLong(all: string) {
    exists k :: 0 <= k <= |all| && LongPrefix(all, k)
  }

  ghost predicate LongPrefix(all: string, k: nat)
    requires k <= |all|
  {
    Number(all[..k]) >= Pow(10, BUFFER) && Number(all[..k]) % 10 != 0
  }

  ghost predicate Hopeless(n: Numeral) {
    Number(n.expDigits) > EXP_LIMIT || TooLong(n.whole + n.frac)
  }

  ghost predicate Doomed(s: string) {
    Scan(s).None? || Hopeless(Scan(s).value)
  }

  lemma TooLongStays(all: string, c: char)
    requires TooLong(all)
    ensures TooLong(all + [c])
  {
    var k :| 0 <= k <= |all| && LongPrefix(all, k);
    assert (all + [c])[..k] == all[..k];
    assert LongPrefix(all + [c], k);
  }

  lemma HopelessStays(n: Numeral, c: char)
    requires Cut(n) && Hopeless(n) && Step(n, c).Some?
    ensures Hopeless(Step(n, c).value)
  {
    var m := Step(n, c).value;
    if m.expDigits == n.expDigits + [c] {
      NumberSnoc(n.expDigits, c);
      NumberBound(n.expDigits);
    } else {
      if m.whole + m.frac != n.whole + n.frac {
        AppendsDigit(n, c);
        if TooLong(n.whole + n.frac) { TooLongStays(n.whole + n.frac, c); }
      }
    }
  }

  lemma AppendsDigit(n: Numeral, c: char)
    requires Cut(n) && Step(n, c).Some?
    ensures var m := Step(n, c).value;
            m.whole + m.frac == n.whole + n.frac || m.whole + m.frac == (n.whole + n.frac) + [c]
  {
    if n.point { assert n.whole + (n.frac + [c]) == n.whole + n.frac + [c]; }
  }

  lemma {:induction false} DoomedStays(s: string, t: string)
    requires Doomed(s)
    ensures Doomed(s + t)
    decreases |t|
  {
    if t == "" {
      assert s + t == s;
    } else {
      var last := |t| - 1;
      DoomedStays(s, t[..last]);
      assert (s + t)[..|s + t| - 1] == s + t[..last] && (s + t)[|s + t| - 1] == t[last];
      hide Hopeless, Step;
      if Scan(s + t).Some? {
        ScanSpells(s + t[..last]);
        HopelessStays(Scan(s + t[..last]).value, t[last]);
      }
    }
  }

  /** A hopeless numeral is out of range or names no amount. */
  lemma HopelessMeansNone(n: Numeral, v: int)
    requires Cut(n) && Hopeless(n) && InScale(n) && 0 <= v <= INT64_MAX
    ensures !Means(n, v)
  {
    var all := n.whole + n.frac;
    NumberBound(n.expDigits);
    var k :| 0 <= k <= |all| && LongPrefix(all, k);
    LongMeansNone(n, v, k);
  }

  lemma LongMeansNone(n: Numeral, v: int, k: nat)
    requires Cut(n) && k <= |n.whole + n.frac| && LongPrefix(n.whole + n.frac, k) && 0 <= v <= INT64_MAX
    ensures !Means(n, v)
  {
    hide Number, Pow;
    var all := n.whole + n.frac;
    var x, w, z := Number(all[..k]), Number(all[k..]), |all| - k;
    assert all == all[..k] + all[k..];
    NumberConcat(all[..k], all[k..]);
    NumberBound(all[k..]);
    TenPow(z);
    var s := DGB_DECIMALS + Exponent(n) - |n.frac|;
    TwentyFour();
    if Means(n, v) {
      hide Means, Exponent;
      MeansDef(n, v);
      LongContradiction(x, w, z, s, v);
    }
  }

  lemma TenPow(z: nat)
    ensures Ten(z) == Pow(10, z)
  {
  }

  lemma TwentyFour()
    ensures Pow(10, BUFFER) > INT64_MAX
  {
    assert Pow(10, 4) == 10000;
    PowAdd(10, 4, 4); PowAdd(10, 8, 8); PowAdd(10, 16, 8);
  }

  lemma MeansDef(n: Numeral, v: int)
    ensures Means(n, v) <==> v * Ten(-(DGB_DECIMALS + Exponent(n) - |n.frac|)) ==
                             Number(n.whole + n.frac) * Ten(DGB_DECIMALS + Exponent(n) - |n.frac|)
  {
  }

  /** v * 10^-s == (x * 10^z + w) * 10^s has no small v when x is large and does not end in zero. */
  lemma LongContradiction(x: int, w: int, z: nat, s: int, v: int)
    requires x > INT64_MAX >= v >= 0 && x % 10 != 0 && 0 <= w < Ten(z)
    ensures v * Ten(-s) != (x * Ten(z) + w) * Ten(s)
  {
    TenAdd(z, 0);
    if s >= 0 {
      TenNonPositive(-s);
      TenAdd(s, 0);
      hide Ten;
      MulMonotoneInt(1, Ten(z), x);
      MulMonotoneInt(1, Ten(s), x * Ten(z) + w);
    } else if -s <= z {
      TenNonPositive(s);
      TenAdd(z + s, -s);
      TenAdd(-s, 0);
      TenAdd(z + s, 0);
      hide Ten;
      ShiftedTooFar(x, w, Ten(z + s), Ten(-s), v);
    } else {
      TenNonPositive(s);
      TenAdd(-s - z, z);
      NotAMultiple(v, x, -s - z);
      hide Ten;
      LeavesRemainder(x, w, Ten(z), Ten(-s - z), v);
    }
  }

  lemma ShiftedTooFar(x: int, w: int, a: nat, b: nat, v: int)
    requires a > 0 && b > 0 && w >= 0 && 0 <= v < x
    ensures v * b != x * (a * b) + w
  {
    MulAssociates(x, a, b);
    MulMonotoneInt(1, a, x);
    MulMonotone(x, x * a, b);
    MulMonotone(v + 1, x, b);
    assert (v + 1) * b == v * b + b;
  }

  lemma LeavesRemainder(x: int, w: int, t: nat, b: nat, v: int)
    requires t > 0 && 0 <= w < t && x != v * b
    ensures v * (b * t) != x * t + w
  {
    MulAssociates(v, b, t);
    QuotientsDiffer(v * b, x, w, t);
  }

  lemma QuotientsDiffer(y: int, x: int, w: int, t: int)
    requires 0 <= w < t && x != y
    ensures y * t != x * t + w
  {
    if y < x { MulMonotone2(y + 1, x, t); } else { MulMonotone2(x + 1, y, t); }
  }

  lemma MulMonotone2(x: int, y: int, t: int)
    requires x <= y && t > 0
    ensures x * t <= y * t && (x - 1) * t == x * t - t
  {
    MulMonotoneInt(x, y, t);
  }

  // ---- the scanner ----------------------------------------------------------

  /** The parser's counters and flags while it reads one numeral. */
  class Scanner {
    var negative: bool
    var sawDigit: bool
    var sawPoint: bool
    var inExponent: bool
    var expNegative: bool
    var expDigits: nat
    var signAllowed: bool
    const digits: array<char>
    var nd: nat
    var pendingZeros: nat
    var fracDigits: nat
    var exponent: int

    constructor ()
      ensures Valid(EMPTY) && fresh(digits)
    {
      negative, sawDigit, sawPoint, inExponent, expNegative := false, false, false, false, false;
      expDigits, signAllowed, nd, pendingZeros, fracDigits, exponent := 0, true, 0, 0, 0, 0;
      digits := new char[BUFFER];
      new;
      assert digits[..0] == "" && EMPTY.whole + EMPTY.frac == "";
      assert Nums("") == [] && Number("") == 0;
    }

    /** The scanner has read exactly this much of a numeral. */
    ghost predicate Valid(n: Numeral)
      reads this, digits
    {
      && Cut(n) && digits.Length == BUFFER
      && negative == (n.sign == "-") && sawDigit == (n.whole + n.frac != "") && sawPoint == n.point
      && inExponent == n.hasExp && expNegative == (n.expSign == "-") && expDigits == |n.expDigits|
      && signAllowed == (if n.hasExp then n.expSign == "" && n.expDigits == ""
                         else n.sign == "" && n.whole == "" && !n.point)
      && fracDigits == |n.frac| && exponent == Number(n.expDigits) <= EXP_LIMIT
      && nd <= BUFFER && Kept(digits[..nd], pendingZeros, n.whole + n.frac)
    }

    /** Keeps a digit that is not zero, after the zeros held back before it. */
    method KeepDigit(c: char, ghost all: string) returns (ok: bool)
      requires digits.Length == BUFFER && nd <= BUFFER && Kept(digits[..nd], pendingZeros, all)
      requires IsDigit(c) && c != '0' && AllDigits(all)
      modifies this`nd, this`pendingZeros, digits
      ensures nd <= BUFFER
      ensures ok ==> Kept(digits[..nd], pendingZeros, all + [c])
      ensures !ok ==> TooLong(all + [c])
    {
      hide Number, TooLong, Ten, Pow;
      while pendingZeros > 0
        invariant nd <= BUFFER && Flushed(digits[..nd], pendingZeros, all)
      {
        if nd >= BUFFER {
          FullBuffer(digits[..nd], pendingZeros, all, c);
          return false;
        }
        ghost var d := digits[..nd];
        digits[nd] := '0';
        nd := nd + 1;
        pendingZeros := pendingZeros - 1;
        assert digits[..nd] == d + "0";
        FlushZero(d, pendingZeros + 1, all);
      }
      if nd >= BUFFER {
        FullBuffer(digits[..nd], pendingZeros, all, c);
        return false;
      }
      ghost var d := digits[..nd];
      digits[nd] := c;
      nd := nd + 1;
      assert digits[..nd] == d + [c];
      FlushDigit(d, all, c);
      return true;
    }

    /** Reads one character; on a refusal no continuation of the text is an amount. */
    method Take(c: char, ghost n: Numeral) returns (ok: bool)
      requires Valid(n)
      modifies this, digits
      ensures ok ==> Step(n, c).Some? && Valid(Step(n, c).value)
      ensures !ok ==> Step(n, c).None? || Hopeless(Step(n, c).value)
    {
      if inExponent {
        ok := TakeExponent(c, n);
        return;
      }
      if (c == '+' || c == '-') && signAllowed {
        negative, signAllowed := c == '-', false;
        return true;
      }
      signAllowed := false;
      if '0' <= c <= '9' {
        ok := TakeDigit(c, n);
      } else if c == '.' {
        if sawPoint { return false; }
        sawPoint := true;
        ok := true;
      } else if (c == 'e' || c == 'E') && sawDigit {
        inExponent, signAllowed := true, true;
        ok := true;
      } else {
        ok := false;
      }
    }

    method TakeExponent(c: char, ghost n: Numeral) returns (ok: bool)
      requires Valid(n) && inExponent
      modifies this`expNegative, this`signAllowed, this`expDigits, this`exponent
      ensures ok ==> Step(n, c).Some? && Valid(Step(n, c).value)
      ensures !ok ==> Step(n, c).None? || Hopeless(Step(n, c).value)
    {
      hide Kept, Number, TooLong;
      if (c == '+' || c == '-') && signAllowed {
        expNegative, signAllowed := c == '-', false;
        return true;
      }
      if c < '0' || c > '9' { return false; }
      signAllowed := false;
      expDigits := expDigits + 1;
      NumberSnoc(n.expDigits, c);
      exponent := exponent * 10 + (c as int - '0' as int);
      return exponent <= EXP_LIMIT;
    }

    method TakeDigit(c: char, ghost n: Numeral) returns (ok: bool)
      requires Cut(n) && !n.hasExp && IsDigit(c) && digits.Length == BUFFER
      requires negative == (n.sign == "-") && sawPoint == n.point && !inExponent && !signAllowed
      requires expNegative == (n.expSign == "-") && expDigits == |n.expDigits|
      requires fracDigits == |n.frac| && exponent == Number(n.expDigits) <= EXP_LIMIT
      requires nd <= BUFFER && Kept(digits[..nd], pendingZeros, n.whole + n.frac)
      modifies this`sawDigit, this`fracDigits, this`pendingZeros, this`nd, digits
      ensures ok ==> Valid(Step(n, c).value)
      ensures !ok ==> Hopeless(Step(n, c).value)
    {
      hide Kept, Number, TooLong;
      ghost var m := Step(n, c).value;
      assert m.whole + m.frac == (n.whole + n.frac) + [c] by { AppendsDigit(n, c); DigitAppended(n, c); }
      sawDigit := true;
      if sawPoint { fracDigits := fracDigits + 1; }
      if c == '0' {
        KeepZero(digits[..nd], pendingZeros, n.whole + n.frac);
        if nd > 0 { pendingZeros := pendingZeros + 1; }
        ok := true;
      } else {
        AllDigitsJoin(n.whole, n.frac);
        ok := KeepDigit(c, n.whole + n.frac);
      }
    }
  }

  lemma AllDigitsJoin(s: string, t: string)
    requires AllDigits(s) && AllDigits(t)
    ensures AllDigits(s + t)
  {
  }

  lemma DigitAppended(n: Numeral, c: char)
    requires !n.hasExp && IsDigit(c)
    ensures Step(n, c).Some? && |Step(n, c).value.whole + Step(n, c).value.frac| == |n.whole + n.frac| + 1
  {
  }

  /** A zero is held back once a digit is kept, and dropped before that. */
  lemma KeepZero(d: string, zeros: nat, all: string)
    requires Kept(d, zeros, all)
    ensures Kept(d, if |d| > 0 then zeros + 1 else zeros, all + "0")
  {
    NumberSnoc(all, '0');
    TenAdd(zeros, 1);
    assert Ten(1) == 10 by { assert Pow(10, 1) == 10 * Pow(10, 0); }
    if d == "" { assert Nums("") == [] && Number("") == 0; }
    hide Number, Ten;
    MulAssociates(Number(d), Ten(zeros), 10);
  }

  /** As Kept, while zeros are being written out. */
  ghost predicate Flushed(d: string, zeros: nat, all: string) {
    AllDigits(d) && Number(all) == Number(d) * Ten(zeros) && (d == "" ==> zeros == 0) && (d != "" ==> d[0] != '0')
  }

  lemma FlushZero(d: string, zeros: nat, all: string)
    requires zeros > 0 && Flushed(d, zeros, all)
    ensures Flushed(d + "0", zeros - 1, all)
  {
    NumberSnoc(d, '0');
    TenAdd(1, zeros - 1);
    assert Ten(1) == 10 by { assert Pow(10, 1) == 10 * Pow(10, 0); }
    hide Number, Ten;
    MulAssociates(Number(d), 10, Ten(zeros - 1));
  }

  lemma FlushDigit(d: string, all: string, c: char)
    requires Flushed(d, 0, all) && IsDigit(c) && c != '0'
    ensures Kept(d + [c], 0, all + [c])
  {
    NumberSnoc(d, c);
    NumberSnoc(all, c);
    TenZero();
    hide Number, Ten;
  }

  lemma FullBuffer(d: string, zeros: nat, all: string, c: char)
    requires |d| == BUFFER && Flushed(d, zeros, all) && IsDigit(c) && c != '0'
    ensures TooLong(all + [c])
  {
    var t := all + [c];
    assert t[..|t|] == t;
    NumberSnoc(all, c);
    NumberLeads(d);
    TenAdd(zeros, 0);
    assert Pow(10, BUFFER) == 10 * Pow(10, BUFFER - 1);
    hide Number, Ten, Pow;
    LeadsOn(Number(d), Ten(zeros), c as int - '0' as int, Pow(10, BUFFER - 1));
    assert LongPrefix(t, |t|);
  }

  lemma LeadsOn(x: int, t: nat, c: nat, p: nat)
    requires x >= p && t > 0 && 0 < c < 10
    ensures x * t * 10 + c >= 10 * p && (x * t * 10 + c) % 10 != 0
  {
    MulMonotoneInt(1, t, x);
    DivUnique(x * t * 10 + c, 10, x * t, c);
  }

  // ---- the end of the text --------------------------------------------------

  /** A number above the limit stays above it, shifted or continued. */
  lemma Grows(x: int, k: nat)
    requires x >= 0
    ensures x * Ten(k) >= x
  {
    TenAdd(k, 0);
    hide Ten;
    MulMonotoneInt(1, Ten(k), x);
  }

  lemma PrefixBelow(d: string, k: nat)
    requires AllDigits(d) && k <= |d|
    ensures 0 <= Number(d[..k]) <= Number(d)
  {
    assert d == d[..k] + d[k..];
    NumberConcat(d[..k], d[k..]);
    NumberBound(d[..k]);
    NumberBound(d[k..]);
    PowPositive(10, |d| - k);
    hide Number, Pow;
    MulMonotoneInt(1, Pow(10, |d| - k), Number(d[..k]));
  }

  lemma TwentyDigits(d: string, k: nat)
    requires AllDigits(d) && d != "" && d[0] != '0' && |d| + k > 19
    ensures Number(d) * Ten(k) > INT64_MAX
  {
    NumberLeads(d);
    TenPow(k);
    PowAdd(10, |d| - 1, k);
    PowGrows(10, 19, |d| - 1 + k);
    assert Pow(10, 19) > INT64_MAX by {
      assert Pow(10, 3) == 1000; PowAdd(10, 8, 8); PowAdd(10, 16, 3); assert Pow(10, 4) == 10000; PowAdd(10, 4, 4);
    }
    hide Number, Pow, Ten;
    MulMonotone(Pow(10, |d| - 1), Number(d), Ten(k));
  }

  /** The digits kept, scaled, unless the result leaves a signed 64-bit count. */
  method Scaled(digits: array<char>, nd: nat, shift: nat) returns (r: Option<int>)
    requires nd <= digits.Length && AllDigits(digits[..nd])
    ensures var x := Number(digits[..nd]) * Ten(shift);
            if x <= INT64_MAX then r == Some(x) else r == None
  {
    ghost var d := digits[..nd];
    var v: nat := 0;
    var k := 0;
    assert Nums("") == [] && Number("") == 0 && d[..0] == "" && d[..nd] == d;
    Grows(Number(d), shift) by { NumberBound(d); }
    TenZero();
    hide Number, Ten;
    while k < nd
      invariant k <= nd && v == Number(d[..k]) <= INT64_MAX
    {
      var c := digits[k] as int - '0' as int;
      assert d[..k + 1] == d[..k] + [d[k]] && d[k] == digits[k] && IsDigit(d[k]);
      NumberSnoc(d[..k], d[k]);
      PrefixBelow(d, k + 1);
      if v > (INT64_MAX - c) / 10 { return None; }
      v := v * 10 + c;
      k := k + 1;
    }
    r := ScaledUp(v, shift);
  }

  method ScaledUp(x: nat, shift: nat) returns (r: Option<int>)
    requires x <= INT64_MAX
    ensures if x * Ten(shift) <= INT64_MAX then r == Some(x * Ten(shift)) else r == None
  {
    var v := x;
    var j := 0;
    TenZero();
    hide Ten;
    while j < shift
      invariant j <= shift && v == x * Ten(j) <= INT64_MAX
    {
      TenNext(x, j, shift);
      if v > INT64_MAX / 10 { return None; }
      v := v * 10;
      j := j + 1;
    }
    r := Some(v);
  }

  lemma TenNext(x: nat, j: nat, shift: nat)
    requires j < shift
    ensures x * Ten(j + 1) == x * Ten(j) * 10 <= x * Ten(shift)
  {
    TenAdd(j, 1);
    TenAdd(j + 1, shift - j - 1);
    TenAdd(shift - j - 1, 0);
    assert Ten(1) == 10 by { assert Pow(10, 1) == 10 * Pow(10, 0); }
    hide Ten;
    MulAssociates(x, Ten(j), 10);
    MulAssociates(x, Ten(j + 1), Ten(shift - j - 1));
    MulMonotoneInt(1, Ten(shift - j - 1), x * Ten(j + 1));
  }

  /** The amount of a numeral read to its end, if it names one. */
  method Finish(sc: Scanner, ghost n: Numeral) returns (sats: Option<int>)
    requires sc.Valid(n)
    ensures sats.Some? ==> Amounts(n, sats.value)
    ensures sats.None? ==> forall v :: !Amounts(n, v)
  {
    hide Means, Number, Ten, Significand, TooLong;
    if !sc.sawDigit { return None; }
    var exponent := sc.exponent;
    if sc.inExponent {
      if sc.expDigits == 0 { return None; }
      if sc.expNegative { exponent := -exponent; }
      if exponent > 2147483647 || exponent < -2147483648 { return None; }
    }
    ExponentRead(n, exponent, sc.exponent);
    if sc.fracDigits - exponent > 2147483647 || sc.fracDigits - exponent < -2147483648 { return None; }
    ghost var d := sc.digits[..sc.nd];
    if sc.nd == 0 {
      ZeroAmount(n);
      return Some(0);
    }
    KeptPositive(n, d, sc.pendingZeros);
    if sc.negative { return None; }
    var shift := sc.pendingZeros + exponent - sc.fracDigits + DGB_DECIMALS;
    forall v ensures (shift >= 0 ==> (Means(n, v) <==> v == Number(d) * Ten(shift))) && (shift < 0 ==> !Means(n, v)) {
      MeansShifted(n, Number(d), sc.pendingZeros, v);
    }
    if shift < 0 { return None; }
    if sc.nd + shift > 19 {
      TwentyDigits(d, shift);
      return None;
    }
    sats := Scaled(sc.digits, sc.nd, shift);
  }

  lemma ExponentRead(n: Numeral, exponent: int, magnitude: int)
    requires Cut(n) && magnitude == Number(n.expDigits)
    requires exponent == if n.hasExp && n.expSign == "-" then -magnitude else magnitude
    ensures Exponent(n) == exponent && (!n.hasExp ==> exponent == 0)
  {
    if !n.hasExp { assert Nums("") == [] && Number("") == 0; }
  }

  lemma ZeroAmount(n: Numeral)
    requires Cut(n) && Kept("", 0, n.whole + n.frac)
    ensures Significand(n) == 0 && Means(n, 0)
  {
    assert Nums("") == [] && Number("") == 0;
  }

  lemma KeptPositive(n: Numeral, d: string, zeros: nat)
    requires Kept(d, zeros, n.whole + n.frac) && d != ""
    ensures Significand(n) == Number(d) * Ten(zeros) > 0 && Number(d) % 10 != 0 && AllDigits(d) && Number(d) > 0
  {
    NumberLeads(d);
    PowPositive(10, |d| - 1);
    LastDigit(d);
    TenAdd(zeros, 0);
    hide Number, Ten, Pow;
    MulMonotoneInt(1, Ten(zeros), Number(d));
  }

  // ---- the whole text -------------------------------------------------------

  method Trim(text: string) returns (t: string)
    ensures t == TrimRight(TrimLeft(text))
  {
    hide *;
    var start, end := 0, |text|;
    assert text[0..] == text;
    while start < end && IsSpace(text[start])
      invariant start <= end && TrimLeft(text[start..]) == TrimLeft(text)
    {
      TrimFirst(text[start..]);
      assert text[start..][1..] == text[start + 1..];
      start := start + 1;
    }
    TrimFirst(text[start..]);
    assert text[start..end] == text[start..];
    while end > start && IsSpace(text[end - 1])
      invariant start <= end <= |text| && TrimRight(text[start..end]) == TrimRight(text[start..])
    {
      TrimLast(text[start..end]);
      assert text[start..end][..end - start - 1] == text[start..end - 1];
      end := end - 1;
    }
    TrimLast(text[start..end]);
    t := text[start..end];
  }

  lemma TrimFirst(s: string)
    ensures TrimLeft(s) == if s != [] && IsSpace(s[0]) then TrimLeft(s[1..]) else s
  {
  }

  lemma TrimLast(s: string)
    ensures TrimRight(s) == if s != [] && IsSpace(s[|s| - 1]) then TrimRight(s[..|s| - 1]) else s
  {
  }

  lemma CountPositive(t: string, i: nat)
    requires i < |t| && t[i] == ','
    ensures Count(t, ',') > 0
  {
    if i < |t| - 1 { CountPositive(t[..|t| - 1], i); }
  }

  lemma SeparatedPrefix(t: string, i: nat, grouping: bool)
    requires i <= |t|
    ensures exists rest :: WithoutCommas(t, grouping) == WithoutCommas(t[..i], grouping) + rest
    decreases |t| - i
  {
    if i == |t| {
      assert t[..i] == t;
      assert WithoutCommas(t, grouping) == WithoutCommas(t[..i], grouping) + "";
    } else {
      SeparatedPrefix(t, i + 1, grouping);
      var rest :| WithoutCommas(t, grouping) == WithoutCommas(t[..i + 1], grouping) + rest;
      SeparatedNext(t, i, grouping);
      var one := if t[i] != ',' then [t[i]] else if grouping then [] else ['.'];
      assert WithoutCommas(t, grouping) == WithoutCommas(t[..i], grouping) + (one + rest);
    }
  }

  lemma SeparatedNext(t: string, i: nat, grouping: bool)
    requires i < |t|
    ensures WithoutCommas(t[..i + 1], grouping) ==
            WithoutCommas(t[..i], grouping) + if t[i] != ',' then [t[i]] else if grouping then [] else ['.']
  {
    assert t[..i + 1][..i] == t[..i];
  }

  lemma DoomedText(t: string, i: nat, grouping: bool)
    requires i <= |t| && Doomed(WithoutCommas(t[..i], grouping))
    ensures Doomed(WithoutCommas(t, grouping))
  {
    hide Doomed, WithoutCommas;
    SeparatedPrefix(t, i, grouping);
    var rest :| WithoutCommas(t, grouping) == WithoutCommas(t[..i], grouping) + rest;
    DoomedStays(WithoutCommas(t[..i], grouping), rest);
  }

  lemma DoomedNamesNone(text: string, s: string)
    requires Separated(TrimRight(TrimLeft(text))) == Some(s) && Doomed(s)
    ensures forall v :: !Names(text, v)
  {
    hide Hopeless, Means, InScale, Whole;
    if Scan(s).Some? {
      ScanSpells(s);
      var n := Scan(s).value;
      forall v ensures !Amounts(n, v) {
        if Amounts(n, v) { HopelessAmount(n, v); }
      }
    }
  }

  lemma HopelessAmount(n: Numeral, v: int)
    requires Cut(n) && Hopeless(n)
    ensures !Amounts(n, v)
  {
    if Amounts(n, v) {
      HopelessMeansNone(n, v);
    }
  }

  /** One text character: a comma is skipped as grouping, or read as the point. */
  ghost predicate Reading(t: string, i: nat, grouping: bool, n: Numeral) {
    i <= |t| && Scan(WithoutCommas(t[..i], grouping)) == Some(n)
  }

  lemma ReadingNext(t: string, i: nat, grouping: bool, n: Numeral)
    requires Reading(t, i, grouping, n) && i < |t|
    ensures Cut(n)
    ensures t[i] == ',' && grouping ==> Reading(t, i + 1, grouping, n)
    ensures var c := if t[i] == ',' then '.' else t[i];
            !(t[i] == ',' && grouping) ==>
              && (Step(n, c).Some? ==> Reading(t, i + 1, grouping, Step(n, c).value))
              && (Step(n, c).None? || Hopeless(Step(n, c).value) ==> Doomed(WithoutCommas(t[..i + 1], grouping)))
  {
    hide Step, Hopeless;
    ScanSpells(WithoutCommas(t[..i], grouping));
    SeparatedNext(t, i, grouping);
    var c := if t[i] == ',' then '.' else t[i];
    var s := WithoutCommas(t[..i], grouping);
    hide WithoutCommas;
    if t[i] == ',' && grouping {
      assert s + [] == s;
    } else {
      assert (s + [c])[..|s|] == s && (s + [c])[|s|] == c;
    }
  }

  /** Reads the text's next character, if what it makes can be the start of an amount. */
  method ScanNext(sc: Scanner, t: string, i: nat, commas: nat, dots: nat, ghost n: Numeral)
    returns (ok: bool, ghost m: Numeral)
    requires i < |t| && commas == Count(t, ',') && sc.Valid(n) && Reading(t, i, dots > 0, n)
    modifies sc, sc.digits
    ensures ok ==> sc.Valid(m) && Reading(t, i + 1, dots > 0, m) && (t[i] == ',' ==> dots > 0 || commas == 1)
    ensures !ok ==> (dots == 0 && commas > 1) || Doomed(WithoutCommas(t, dots > 0))
  {
    hide *;
    var c := t[i];
    ReadingNext(t, i, dots > 0, n);
    if c == ',' && dots > 0 { return true, n; }
    if c == ',' {
      CountPositive(t, i);
      if commas == 1 { c := '.'; } else { return false, n; }
    }
    ok := sc.Take(c, n);
    if !ok {
      DoomedText(t, i + 1, dots > 0);
      return false, n;
    }
    m := Step(n, c).value;
  }

  /** Scans the trimmed text, as far as it can be the start of an amount. */
  method ScanText(t: string, commas: nat, dots: nat) returns (sc: Scanner, ok: bool, ghost n: Numeral)
    requires commas == Count(t, ',') && dots == Count(t, '.')
    ensures ok ==> !(dots == 0 && commas > 1) && sc.Valid(n) && Scan(WithoutCommas(t, dots > 0)) == Some(n)
    ensures !ok ==> (dots == 0 && commas > 1) || Doomed(WithoutCommas(t, dots > 0))
  {
    hide *;
    sc := new Scanner();
    ok, n := true, EMPTY;
    var i := 0;
    ReadingStarts(t, dots > 0);
    while i < |t|
      invariant i <= |t| && sc.Valid(n) && Reading(t, i, dots > 0, n) && fresh(sc) && fresh(sc.digits)
      invariant dots == 0 && commas > 1 ==> forall k :: 0 <= k < i ==> t[k] != ','
    {
      ok, n := ScanNext(sc, t, i, commas, dots, n);
      if !ok { return; }
      i := i + 1;
    }
    ok := true;
    if dots == 0 && commas > 1 { NoCommas(t); }
    ReadingDone(t, dots > 0, n);
  }

  lemma ReadingStarts(t: string, grouping: bool)
    ensures Reading(t, 0, grouping, EMPTY)
  {
    assert t[..0] == "";
  }

  lemma NoCommas(t: string)
    requires forall k :: 0 <= k < |t| ==> t[k] != ','
    ensures Count(t, ',') == 0
  {
  }

  lemma ReadingDone(t: string, grouping: bool, n: Numeral)
    requires Reading(t, |t|, grouping, n)
    ensures Scan(WithoutCommas(t, grouping)) == Some(n)
  {
    assert t[..|t|] == t;
  }

  /** The satoshis the text names, exactly; none only for a text that names none. */
  method ParseDGB(text: string) returns (sats: Option<int>)
    ensures sats.Some? ==> Names(text, sats.value)
    ensures sats.None? ==> forall v :: !Names(text, v)
  {
    var t := Trim(text);
    var commas, dots, i := 0, 0, 0;
    while i < |t|
      invariant i <= |t| && commas == Count(t[..i], ',') && dots == Count(t[..i], '.')
    {
      assert t[..i + 1][..i] == t[..i];
      if t[i] == ',' { commas := commas + 1; } else if t[i] == '.' { dots := dots + 1; }
      i := i + 1;
    }
    assert t[..i] == t;
    if |t| == 0 { return None; }
    hide Scan, WithoutCommas, Count, TrimLeft, TrimRight, Amounts, Doomed;
    var sc, ok, n := ScanText(t, commas, dots);
    if !ok {
      if Separated(t).Some? { DoomedNamesNone(text, WithoutCommas(t, dots > 0)); }
      return None;
    }
    sats := Finish(sc, n);
  }
}
