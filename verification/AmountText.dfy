/** Amount text: its grammar with the separator rule and the exponent limits, and the exact number of satoshis
    that a text names. */
module AmountText {
  import opened Arithmetic
  import opened Options
  import opened Radix

  const SATS_PER_DGB: nat := 1_0000_0000
  const DGB_DECIMALS: nat := 8
  const INT64_MAX: nat := 0x7fff_ffff_ffff_ffff
  const INT32_MAX: int := 0x7fff_ffff
  const INT32_MIN: int := -0x8000_0000

  predicate IsSpace(c: char) {
    c == ' ' || c == '\t' || c == '\n' || c == '\r' || c as int == 12 || c as int == 11
  }

  predicate IsDigit(c: char) { '0' <= c <= '9' }

  predicate IsSign(c: char) { c == '+' || c == '-' }

  // ---- separators -----------------------------------------------------------

  function TrimLeft(s: string): string {
    if s != [] && IsSpace(s[0]) then TrimLeft(s[1..]) else s
  }

  function TrimRight(s: string): string {
    if s != [] && IsSpace(s[|s| - 1]) then TrimRight(s[..|s| - 1]) else s
  }

  function Count(s: string, c: char): nat {
    if s == [] then 0 else Count(s[..|s| - 1], c) + if s[|s| - 1] == c then 1 else 0
  }

  /** Commas dropped as grouping, or each read as the point. */
  function WithoutCommas(s: string, grouping: bool): string {
    if s == [] then [] else
    var c := s[|s| - 1];
    WithoutCommas(s[..|s| - 1], grouping) + if c != ',' then [c] else if grouping then [] else ['.']
  }

  /** Commas around a point are grouping; a lone comma is the point; several without a point are refused. */
  function Separated(s: string): Option<string> {
    if Count(s, '.') == 0 && Count(s, ',') > 1 then None else Some(WithoutCommas(s, Count(s, '.') > 0))
  }

  // ---- the grammar ----------------------------------------------------------

  /** [sign] digits [. digits] [e [sign] digits]; a numeral may be cut short anywhere. */
  datatype Numeral = Numeral(sign: string, whole: string, point: bool, frac: string,
                             hasExp: bool, e: char, expSign: string, expDigits: string)

  const EMPTY: Numeral := Numeral("", "", false, "", false, 'e', "", "")

  predicate AllDigits(s: string) { forall i :: 0 <= i < |s| ==> IsDigit(s[i]) }

  predicate SignText(s: string) { s == "" || (|s| == 1 && IsSign(s[0])) }

  predicate Cut(n: Numeral) {
    && SignText(n.sign) && AllDigits(n.whole) && AllDigits(n.frac) && (!n.point ==> n.frac == "")
    && SignText(n.expSign) && AllDigits(n.expDigits)
    && (if n.hasExp then (n.e == 'e' || n.e == 'E') && n.whole + n.frac != ""
        else n.e == 'e' && n.expSign == "" && n.expDigits == "")
  }

  predicate Whole(n: Numeral) {
    Cut(n) && n.whole + n.frac != "" && (n.hasExp ==> n.expDigits != "")
  }

  function Spelled(n: Numeral): string {
    n.sign + n.whole + (if n.point then "." else "") + n.frac + (if n.hasExp then [n.e] else "") + n.expSign +
        n.expDigits
  }

  /** One more character, or a refusal. */
  function Step(n: Numeral, c: char): Option<Numeral> {
    if n.hasExp then
      if IsSign(c) && n.expSign == "" && n.expDigits == "" then Some(n.(expSign := [c]))
      else if IsDigit(c) then Some(n.(expDigits := n.expDigits + [c]))
      else None
    else if IsSign(c) && n.sign == "" && n.whole == "" && !n.point then Some(n.(sign := [c]))
    else if IsDigit(c) then Some(if n.point then n.(frac := n.frac + [c]) else n.(whole := n.whole + [c]))
    else if c == '.' then if n.point then None else Some(n.(point := true))
    else if (c == 'e' || c == 'E') && n.whole + n.frac != "" then Some(n.(hasExp := true, e := c))
    else None
  }

  function Scan(s: string): Option<Numeral> {
    if s == [] then Some(EMPTY) else
    match Scan(s[..|s| - 1])
    case None => None
    case Some(n) => Step(n, s[|s| - 1])
  }

  function Point(n: Numeral): string { if n.point then "." else "" }

  /** The text before the exponent, and the exponent. */
  function Mantissa(n: Numeral): string { n.sign + n.whole + Point(n) + n.frac }

  function ExponentText(n: Numeral): string { (if n.hasExp then [n.e] else "") + n.expSign + n.expDigits }

  lemma SpelledParts(n: Numeral)
    ensures Spelled(n) == Mantissa(n) + ExponentText(n)
  {
    var m, e := Mantissa(n), if n.hasExp then [n.e] else "";
    assert m + (e + n.expSign + n.expDigits) == m + e + n.expSign + n.expDigits;
  }

  lemma StepMantissa(n: Numeral, c: char)
    requires Cut(n) && !n.hasExp && Step(n, c).Some? && !Step(n, c).value.hasExp
    ensures Cut(Step(n, c).value) && Mantissa(Step(n, c).value) == Mantissa(n) + [c]
    ensures ExponentText(n) == ExponentText(Step(n, c).value) == ""
  {
    if IsDigit(c) && n.point {
      assert n.sign + n.whole + "." + (n.frac + [c]) == n.sign + n.whole + "." + n.frac + [c];
    } else if IsDigit(c) {
      assert n.sign + (n.whole + [c]) + "" + "" == n.sign + n.whole + "" + "" + [c];
    } else if c == '.' {
      assert n.sign + n.whole + "." + "" == n.sign + n.whole + "" + "" + ".";
    }
  }

  lemma StepExponent(n: Numeral, c: char)
    requires Cut(n) && Step(n, c).Some? && Step(n, c).value.hasExp
    ensures Cut(Step(n, c).value) && Mantissa(Step(n, c).value) == Mantissa(n)
    ensures ExponentText(Step(n, c).value) == ExponentText(n) + [c]
  {
    if n.hasExp && IsDigit(c) {
      assert [n.e] + n.expSign + (n.expDigits + [c]) == [n.e] + n.expSign + n.expDigits + [c];
    }
  }

  lemma StepSpells(n: Numeral, c: char)
    requires Cut(n) && Step(n, c).Some?
    ensures Cut(Step(n, c).value) && Spelled(Step(n, c).value) == Spelled(n) + [c]
  {
    hide *;
    var t := Step(n, c).value;
    SpelledParts(n);
    SpelledParts(t);
    if t.hasExp {
      StepExponent(n, c);
      assert Mantissa(n) + (ExponentText(n) + [c]) == Mantissa(n) + ExponentText(n) + [c];
    } else {
      StaysBefore(n, c);
      StepMantissa(n, c);
      assert Mantissa(n) + [c] + "" == Mantissa(n) + "" + [c];
    }
  }

  lemma StaysBefore(n: Numeral, c: char)
    requires Step(n, c).Some? && !Step(n, c).value.hasExp
    ensures !n.hasExp
  {
  }

  lemma {:induction false} ScanSpells(s: string)
    requires Scan(s).Some?
    ensures Cut(Scan(s).value) && Spelled(Scan(s).value) == s
    decreases |s|
  {
    if s != [] {
      ScanSpells(s[..|s| - 1]);
      StepSpells(Scan(s[..|s| - 1]).value, s[|s| - 1]);
    }
  }

  /** The numeral without its last character. */
  function Shorter(n: Numeral): Numeral {
    if n.expDigits != "" then n.(expDigits := n.expDigits[..|n.expDigits| - 1])
    else if n.expSign != "" then n.(expSign := "")
    else if n.hasExp then n.(hasExp := false, e := 'e')
    else if n.frac != "" then n.(frac := n.frac[..|n.frac| - 1])
    else if n.point then n.(point := false)
    else if n.whole != "" then n.(whole := n.whole[..|n.whole| - 1])
    else n.(sign := "")
  }

  /** The numeral's last character. */
  function LastChar(n: Numeral): char
    requires Spelled(n) != ""
  {
    if n.expDigits != "" then n.expDigits[|n.expDigits| - 1]
    else if n.expSign != "" then n.expSign[|n.expSign| - 1]
    else if n.hasExp then n.e
    else if n.frac != "" then n.frac[|n.frac| - 1]
    else if n.point then '.'
    else if n.whole != "" then n.whole[|n.whole| - 1]
    else n.sign[|n.sign| - 1]
  }

  lemma ShorterSteps(n: Numeral)
    requires Cut(n) && Spelled(n) != ""
    ensures Cut(Shorter(n)) && Step(Shorter(n), LastChar(n)) == Some(n)
    ensures Spelled(n) == Spelled(Shorter(n)) + [LastChar(n)]
  {
    StepBack(n);
    hide *;
    StepSpells(Shorter(n), LastChar(n));
  }

  lemma StepBack(n: Numeral)
    requires Cut(n) && Spelled(n) != ""
    ensures Cut(Shorter(n)) && Step(Shorter(n), LastChar(n)) == Some(n)
  {
    if n.expDigits != "" {
      Rebuilt(n.expDigits);
    } else if n.expSign == "" {
      MantissaBack(n);
    } else {
      Rebuilt(n.expSign);
    }
  }

  lemma MantissaBack(n: Numeral)
    requires Cut(n) && n.expDigits == n.expSign == "" && Spelled(n) != ""
    ensures Cut(Shorter(n)) && Step(Shorter(n), LastChar(n)) == Some(n)
  {
    if n.hasExp {
    } else if n.frac != "" {
      Rebuilt(n.frac);
    } else if n.point {
    } else if n.whole != "" {
      Rebuilt(n.whole);
    } else {
      Rebuilt(n.sign);
    }
  }

  lemma Rebuilt(s: string)
    requires s != ""
    ensures s[..|s| - 1] + [s[|s| - 1]] == s
  {
  }

  /** A spelling has one numeral: scanning finds it, and finds nothing else. */
  lemma {:induction false} SpelledScans(n: Numeral)
    requires Cut(n)
    ensures Scan(Spelled(n)) == Some(n)
    decreases |Spelled(n)|
  {
    if Spelled(n) != "" {
      ShorterSteps(n);
      hide Spelled, Shorter, LastChar, Step, Cut;
      var s := Spelled(n);
      assert s[..|s| - 1] == Spelled(Shorter(n));
      SpelledScans(Shorter(n));
    }
  }

  // ---- the value ------------------------------------------------------------

  function Nums(s: string): (r: seq<int>)
    ensures |r| == |s| && forall i :: 0 <= i < |s| ==> r[i] == s[i] as int - '0' as int
  {
    seq(|s|, i requires 0 <= i < |s| => s[i] as int - '0' as int)
  }

  ghost function Number(s: string): int { Value(10, Nums(s)) }

  ghost function Exponent(n: Numeral): int {
    if n.expSign == "-" then -Number(n.expDigits) else Number(n.expDigits)
  }

  ghost function Significand(n: Numeral): int { Number(n.whole + n.frac) }

  /** The exponent and the scale fit an int. */
  ghost predicate InScale(n: Numeral) {
    && INT32_MIN <= Exponent(n) <= INT32_MAX
    && INT32_MIN <= |n.frac| - Exponent(n) <= INT32_MAX
  }

  ghost function Ten(k: int): nat { if k <= 0 then 1 else Pow(10, k) }

  /** v satoshis are exactly the numeral's decimal value in coins: v = significand * 10^(exponent - decimals + 8). */
  ghost predicate Means(n: Numeral, v: int) {
    var shift := DGB_DECIMALS + Exponent(n) - |n.frac|;
    v * Ten(-shift) == Significand(n) * Ten(shift)
  }

  ghost function NumeralOf(text: string): Option<Numeral> {
    match Separated(TrimRight(TrimLeft(text)))
    case None => None
    case Some(s) => Scan(s)
  }

  /** A complete numeral in range, not negative, whose value is exactly v satoshis in a signed 64-bit count. */
  ghost predicate Amounts(n: Numeral, v: int) {
    && Whole(n) && InScale(n) && Means(n, v) && 0 <= v <= INT64_MAX
    && (n.sign == "-" ==> Significand(n) == 0)
  }

  /** The text is an amount, and names exactly v satoshis. */
  ghost predicate Names(text: string, v: int) {
    match NumeralOf(text)
    case None => false
    case Some(n) =>
      Amounts(n, v)
  }

  /** Reading is unambiguous: the text spells at most one numeral, and that one is read. */
  lemma ReadsTheGrammar(text: string, n: Numeral)
    ensures NumeralOf(text) == Some(n) <==> Cut(n) && Separated(TrimRight(TrimLeft(text))) == Some(Spelled(n))
  {
    if NumeralOf(text) == Some(n) {
      ScanSpells(Separated(TrimRight(TrimLeft(text))).value);
    }
    if Cut(n) { SpelledScans(n); }
  }

  // ---- decimal arithmetic ---------------------------------------------------

  lemma NumberSnoc(s: string, c: char)
    ensures Number(s + [c]) == Number(s) * 10 + (c as int - '0' as int)
  {
    assert Nums(s + [c]) == Nums(s) + [c as int - '0' as int];
    ValueSnoc(10, Nums(s), c as int - '0' as int);
  }

  lemma NumsConcat(s: string, t: string)
    ensures Nums(s + t) == Nums(s) + Nums(t)
  {
  }

  lemma NumberConcat(s: string, t: string)
    ensures Number(s + t) == Number(s) * Pow(10, |t|) + Number(t)
  {
    hide Value, Pow;
    NumsConcat(s, t);
    ValueConcat(10, Nums(s), Nums(t));
  }

  lemma NumberBound(s: string)
    requires AllDigits(s)
    ensures 0 <= Number(s) < Pow(10, |s|)
  {
    ValueBound(10, Nums(s));
  }

  lemma OneDigit(c: char)
    ensures Number([c]) == c as int - '0' as int
  {
    NumberSnoc("", c);
    assert "" + [c] == [c] && Number("") == 0;
  }

  lemma NumberLeads(s: string)
    requires AllDigits(s) && s != "" && s[0] != '0'
    ensures Pow(10, |s| - 1) <= Number(s)
  {
    hide Number, Pow;
    assert s == [s[0]] + s[1..];
    NumberConcat([s[0]], s[1..]);
    NumberBound(s[1..]);
    OneDigit(s[0]);
    MulMonotone(1, Number([s[0]]), Pow(10, |s| - 1));
  }

  lemma TenAdd(m: nat, k: nat)
    ensures Ten(m + k) == Ten(m) * Ten(k) && Ten(m) > 0
  {
    PowAdd(10, m, k);
    PowPositive(10, m);
  }

  lemma Cancel(x: int, y: int, z: int)
    requires z > 0 && x * z == y * z
    ensures x == y
  {
    if x < y { MulMonotoneInt(x + 1, y, z); } else if y < x { MulMonotoneInt(y + 1, x, z); }
  }

  /** A value whose last digit is not zero cannot be a multiple of a higher power of ten. */
  lemma NotAMultiple(v: int, x: int, k: nat)
    requires k > 0 && x % 10 != 0
    ensures v * Ten(k) != x
  {
    assert Ten(k) == 10 * Pow(10, k - 1);
    MulAssociates(v, 10, Pow(10, k - 1));
    var y := v * Pow(10, k - 1);
    assert v * Ten(k) == 10 * y;
  }
}
