/** Amounts written. */
module AmountFormat {
  // Satoshis as plain decimal text, and that the text is read back as the same
  // satoshis.

  import opened Arithmetic
  import opened Options
  import opened AmountText

  function DigitChar(d: nat): (c: char)
    requires d < 10
    ensures IsDigit(c) && c as int - '0' as int == d
  {
    ('0' as int + d) as char
  }

  function WholeText(w: nat): (s: string)
    ensures s != "" && AllDigits(s)
  {
    if w < 10 then [DigitChar(w)] else WholeText(w / 10) + [DigitChar(w % 10)]
  }

  /** Exactly k digits. */
  function FixedText(f: nat, k: nat): (s: string)
    ensures |s| == k && AllDigits(s)
  {
    if k == 0 then "" else FixedText(f / 10, k - 1) + [DigitChar(f % 10)]
  }

  function WithoutZeros(s: string): (t: string)
    ensures |t| <= |s| && t == s[..|t|] && (AllDigits(s) ==> AllDigits(t))
    ensures t == "" || t[|t| - 1] != '0'
  {
    if s != "" && s[|s| - 1] == '0' then WithoutZeros(s[..|s| - 1]) else s
  }

  function FracText(f: nat): string { WithoutZeros(FixedText(f, DGB_DECIMALS)) }

  function FormatOf(sats: nat): string {
    WholeText(sats / SATS_PER_DGB) + if sats % SATS_PER_DGB == 0 then "" else "." + FracText(sats % SATS_PER_DGB)
  }

  // ---- reading it back ------------------------------------------------------

  lemma {:induction false} WholeNumber(w: nat)
    ensures Number(WholeText(w)) == w
    decreases w
  {
    if w < 10 {
      OneDigit(DigitChar(w));
    } else {
      WholeNumber(w / 10);
      NumberSnoc(WholeText(w / 10), DigitChar(w % 10));
    }
  }

  lemma {:induction false} FixedNumber(f: nat, k: nat)
    requires f < Pow(10, k)
    ensures Number(FixedText(f, k)) == f
    decreases k
  {
    if k == 0 {
      assert Nums("") == [] && Number("") == 0;
    } else {
      DivBound(f, 10, Pow(10, k - 1));
      FixedNumber(f / 10, k - 1);
      NumberSnoc(FixedText(f / 10, k - 1), DigitChar(f % 10));
    }
  }

  lemma {:induction false} StrippedNumber(s: string)
    ensures Number(s) == Number(WithoutZeros(s)) * Ten(|s| - |WithoutZeros(s)|)
    decreases |s|
  {
    hide Number, Ten;
    if s != "" && s[|s| - 1] == '0' {
      var t := s[..|s| - 1];
      StrippedNumber(t);
      assert s == t + "0";
      assert WithoutZeros(s) == WithoutZeros(t);
      hide WithoutZeros;
      OneMoreZero(t, |t| - |WithoutZeros(t)|);
    } else {
      TenOfNone();
      assert WithoutZeros(s) == s;
    }
  }

  lemma TenOfNone()
    ensures Ten(0) == 1
  {
  }

  lemma OneMoreZero(t: string, k: nat)
    requires Number(t) == Number(WithoutZeros(t)) * Ten(k)
    ensures Number(t + "0") == Number(WithoutZeros(t)) * Ten(k + 1)
  {
    NumberSnoc(t, '0');
    TenAdd(k, 1);
    assert Ten(1) == 10 by { assert Pow(10, 1) == 10 * Pow(10, 0); }
    hide Number, Ten, Pow, WithoutZeros;
    MulAssociates(Number(WithoutZeros(t)), Ten(k), 10);
  }

  function FormatNumeral(sats: nat): Numeral {
    var f := sats % SATS_PER_DGB;
    EMPTY.(whole := WholeText(sats / SATS_PER_DGB), point := f != 0, frac := if f == 0 then "" else FracText(f))
  }

  lemma FormatSpells(sats: nat)
    ensures Whole(FormatNumeral(sats)) && Spelled(FormatNumeral(sats)) == FormatOf(sats)
  {
    var n := FormatNumeral(sats);
    var w, f := WholeText(sats / SATS_PER_DGB), sats % SATS_PER_DGB;
    if f == 0 {
      assert Spelled(n) == w && FormatOf(sats) == w;
    } else {
      assert Spelled(n) == "" + w + "." + FracText(f) + "" + "" + "";
      assert w + ("." + FracText(f)) == w + "." + FracText(f);
    }
  }

  lemma {:induction false} NothingToSeparate(s: string)
    requires forall i :: 0 <= i < |s| ==> s[i] != ','
    ensures WithoutCommas(s, true) == s && WithoutCommas(s, false) == s && Count(s, ',') == 0
    decreases |s|
  {
    if s != [] {
      NothingToSeparate(s[..|s| - 1]);
    }
  }

  predicate Bare(s: string) {
    && s != "" && IsDigit(s[0]) && IsDigit(s[|s| - 1])
    && forall i :: 0 <= i < |s| ==> IsDigit(s[i]) || s[i] == '.'
  }

  lemma BareIsKept(s: string)
    requires Bare(s)
    ensures TrimRight(TrimLeft(s)) == s && Separated(s) == Some(s)
  {
    NothingToTrim(s);
    NothingToSeparate(s);
    hide Count, WithoutCommas, TrimLeft, TrimRight;
  }

  lemma NothingToTrim(s: string)
    requires Bare(s)
    ensures TrimLeft(s) == s && TrimRight(s) == s
  {
    assert !IsSpace(s[0]) && !IsSpace(s[|s| - 1]);
    hide Bare, IsSpace, IsDigit;
  }

  lemma DigitsAreBare(w: string)
    requires AllDigits(w) && w != ""
    ensures Bare(w)
  {
  }

  lemma PointIsBare(w: string, f: string)
    requires AllDigits(w) && w != "" && AllDigits(f) && f != ""
    ensures Bare(w + ("." + f))
  {
    var s := w + ("." + f);
    assert s[|s| - 1] == f[|f| - 1];
  }

  lemma FormatIsBare(sats: nat)
    ensures Bare(FormatOf(sats))
  {
    var w, f := WholeText(sats / SATS_PER_DGB), sats % SATS_PER_DGB;
    FracNotEmpty(f);
    hide WholeText, FracText, Bare, AllDigits;
    if f == 0 {
      assert FormatOf(sats) == w;
      DigitsAreBare(w);
    } else {
      PointIsBare(w, FracText(f));
    }
  }

  lemma FracNotEmpty(f: nat)
    requires f < SATS_PER_DGB
    ensures f != 0 ==> FracText(f) != ""
    ensures AllDigits(FracText(f)) && |FracText(f)| <= DGB_DECIMALS
    ensures Number(FracText(f)) * Ten(DGB_DECIMALS - |FracText(f)|) == f
  {
    EightPlaces();
    FixedNumber(f, DGB_DECIMALS);
    StrippedNumber(FixedText(f, DGB_DECIMALS));
    assert Nums("") == [] && Number("") == 0;
  }

  lemma EightPlaces()
    ensures Pow(10, DGB_DECIMALS) == SATS_PER_DGB
  {
    PowAdd(10, 4, 4);
    assert Pow(10, 4) == 10000;
  }

  lemma WholeAndFraction(w: nat, x: int, k: nat)
    requires k <= DGB_DECIMALS
    ensures (w * Ten(k) + x) * Ten(DGB_DECIMALS - k) == w * SATS_PER_DGB + x * Ten(DGB_DECIMALS - k)
  {
    EightPlaces();
    TenAdd(k, DGB_DECIMALS - k);
    assert Ten(DGB_DECIMALS) == SATS_PER_DGB;
    hide Ten, Pow;
    MulAssociates(w, Ten(k), Ten(DGB_DECIMALS - k));
    Expand(w * Ten(k), x, Ten(DGB_DECIMALS - k));
  }

  lemma Expand(a: int, x: int, b: int)
    ensures (a + x) * b == a * b + x * b
  {
  }

  lemma MeansWhole(n: Numeral, v: int)
    requires Exponent(n) == 0 && |n.frac| <= DGB_DECIMALS
    requires v == Significand(n) * Ten(DGB_DECIMALS - |n.frac|)
    ensures Means(n, v)
  {
    hide Significand, Exponent;
    assert Ten(-(DGB_DECIMALS - |n.frac|)) == 1;
    hide Ten;
  }

  lemma FormatSignificand(sats: nat)
    ensures var n := FormatNumeral(sats);
            && |n.frac| <= DGB_DECIMALS && Exponent(n) == 0
            && Significand(n) == sats / SATS_PER_DGB * Ten(|n.frac|) + Number(n.frac)
            && Number(n.frac) * Ten(DGB_DECIMALS - |n.frac|) == sats % SATS_PER_DGB
  {
    var n := FormatNumeral(sats);
    var f := sats % SATS_PER_DGB;
    assert Number("") == 0 by { assert Nums("") == []; }
    FracNotEmpty(f);
    WholeNumber(sats / SATS_PER_DGB);
    NumberConcat(n.whole, n.frac);
    assert Ten(|n.frac|) == Pow(10, |n.frac|);
    hide Number, Pow, Ten, WholeText, FracText;
  }

  lemma FormatMeans(sats: nat)
    ensures Means(FormatNumeral(sats), sats)
  {
    hide Means, Exponent, Significand, Number, Ten, FormatNumeral;
    var n := FormatNumeral(sats);
    FormatSignificand(sats);
    WholeAndFraction(sats / SATS_PER_DGB, Number(n.frac), |n.frac|);
    CoinsAndRest(sats);
    MeansWhole(n, sats);
  }

  lemma CoinsAndRest(sats: nat)
    ensures sats == sats / SATS_PER_DGB * SATS_PER_DGB + sats % SATS_PER_DGB
  {
  }

  lemma FormatAmounts(sats: nat, v: int)
    requires sats <= INT64_MAX
    ensures Amounts(FormatNumeral(sats), v) <==> v == sats
  {
    FormatMeans(sats);
    FormatSpells(sats);
    FormatSignificand(sats);
    hide Means, Whole, Exponent, Significand, WholeText, FracText, Spelled, FormatOf, Number, Ten;
    if Means(FormatNumeral(sats), v) { MeansUnique(FormatNumeral(sats), v, sats); }
  }

  /** A numeral names at most one amount. */
  lemma MeansUnique(n: Numeral, v: int, w: int)
    requires Means(n, v) && Means(n, w)
    ensures v == w
  {
    var s := DGB_DECIMALS + Exponent(n) - |n.frac|;
    if -s > 0 { PowPositive(10, -s); }
    Cancel(v, w, Ten(-s));
  }

  /** Every non-negative 64-bit count of satoshis, written out, is read back as itself and as nothing else. */
  lemma FormatReads(sats: nat, v: int)
    requires sats <= INT64_MAX
    ensures Names(FormatOf(sats), v) <==> v == sats
  {
    hide *;
    FormatSpells(sats);
    FormatIsBare(sats);
    BareIsKept(FormatOf(sats));
    WholeIsCut(FormatNumeral(sats));
    ReadsTheGrammar(FormatOf(sats), FormatNumeral(sats));
    NamesDef(FormatOf(sats), FormatNumeral(sats), v);
    FormatAmounts(sats, v);
  }

  lemma WholeIsCut(n: Numeral)
    requires Whole(n)
    ensures Cut(n)
  {
  }

  lemma NamesDef(text: string, n: Numeral, v: int)
    requires NumeralOf(text) == Some(n)
    ensures Names(text, v) <==> Amounts(n, v)
  {
    hide Amounts, NumeralOf;
  }

  // ---- writing it -----------------------------------------------------------

  /** A text read from its end. */
  function Backward(s: string): (t: string)
    ensures |t| == |s|
  {
    if s == "" then "" else [s[|s| - 1]] + Backward(s[..|s| - 1])
  }

  /** Writes the terminated text when it fits; answers its length. On a refusal the buffer may hold the whole part. */
  method Format(sats: int, out: array<char>) returns (len: nat)
    modifies out
    ensures len > 0 <==> sats >= 0 && |FormatOf(sats)| + 1 <= out.Length
    ensures len > 0 ==> len == |FormatOf(sats)| && out[..len + 1] == FormatOf(sats) + "\0"
    ensures len > 0 ==> out[len + 1..] == old(out[len + 1..])
  {
    hide WholeText, FracText, Backward;
    len := 0;
    if sats < 0 { return; }
    var whole, frac := sats / SATS_PER_DGB, sats % SATS_PER_DGB;
    var tmp := Reversed(whole);
    FormatParts(sats);
    if out.Length < |tmp| + 1 { return; }
    ghost var was := out[..];
    len := WriteBackward(out, tmp);
    assert out[len..] == was[len..];
    if frac != 0 {
      var f := Fraction(frac);
      if out.Length < len + 1 + |f| + 1 { return 0; }
      ghost var at, mid := len, out[..];
      len := WriteFraction(out, len, f);
      TailsAgree(mid, was, at, len);
      assert out[len..] == mid[len..];
    }
    ghost var text := out[..];
    assert text[len..] == was[len..];
    out[len] := '\0';
    TailsAgree(text, was, len, len + 1);
    assert out[len + 1..] == text[len + 1..];
    assert out[..len + 1] == out[..len] + "\0";
  }

  /** Texts that agree from one place on agree from any later one. */
  lemma TailsAgree(s: string, t: string, i: nat, j: nat)
    requires i <= j <= |s| == |t| && s[i..] == t[i..]
    ensures s[j..] == t[j..]
  {
    assert s[j..] == s[i..][j - i..] && t[j..] == t[i..][j - i..];
  }

  lemma FormatParts(sats: nat)
    ensures var w, f := WholeText(sats / SATS_PER_DGB), sats % SATS_PER_DGB;
            FormatOf(sats) == if f == 0 then w else w + "." + FracText(f)
  {
    hide WholeText, FracText;
    var w, f := WholeText(sats / SATS_PER_DGB), sats % SATS_PER_DGB;
    assert w + "" == w;
    assert w + ("." + FracText(f)) == w + "." + FracText(f);
  }

  method WriteBackward(out: array<char>, tmp: string) returns (len: nat)
    requires |tmp| <= out.Length
    modifies out
    ensures len == |tmp| && out[..len] == Backward(tmp) && out[len..] == old(out[len..])
  {
    len := 0;
    var n := |tmp|;
    assert tmp[..n] == tmp && out[..0] + Backward(tmp) == Backward(tmp);
    while n > 0
      invariant 0 <= n <= |tmp| && len == |tmp| - n
      invariant out[..len] + Backward(tmp[..n]) == Backward(tmp) && out[len..] == old(out[len..])
    {
      n := n - 1;
      assert tmp[..n + 1][..n] == tmp[..n];
      ghost var done := out[..len];
      out[len] := tmp[n];
      len := len + 1;
      assert out[..len] == done + [tmp[n]];
      assert done + ([tmp[n]] + Backward(tmp[..n])) == done + [tmp[n]] + Backward(tmp[..n]);
    }
    assert out[..len] + "" == out[..len];
  }

  method WriteFraction(out: array<char>, at: nat, f: string) returns (len: nat)
    requires at + 1 + |f| <= out.Length
    modifies out
    ensures len == at + 1 + |f|
    ensures out[..len] == old(out[..at]) + "." + f && out[len..] == old(out[len..])
  {
    len := at;
    out[len] := '.';
    len := len + 1;
    var k := 0;
    while k < |f|
      invariant k <= |f| && len == at + 1 + k
      invariant out[..len] == old(out[..at]) + "." + f[..k] && out[len..] == old(out[len..])
    {
      out[len] := f[k];
      len := len + 1;
      k := k + 1;
      assert f[..k] == f[..k - 1] + [f[k - 1]];
    }
    assert f[..k] == f;
  }

  function Head(w: nat): string { if w == 0 then "" else WholeText(w) }

  lemma HeadNext(w: nat)
    requires w > 0
    ensures WholeText(w) == Head(w / 10) + [DigitChar(w % 10)]
  {
  }

  lemma BackwardSnoc(s: string, c: char)
    ensures Backward(s + [c]) == [c] + Backward(s)
  {
    assert (s + [c])[..|s|] == s;
  }

  /** The decimal digits, last first. */
  method Reversed(w: nat) returns (tmp: string)
    ensures Backward(tmp) == WholeText(w)
  {
    hide WholeText, DigitChar, Backward;
    var whole := w;
    tmp := [DigitChar(whole % 10)];
    whole := whole / 10;
    FirstDigit(w);
    while whole != 0
      invariant 0 <= whole && WholeText(w) == Head(whole) + Backward(tmp)
    {
      HeadNext(whole);
      BackwardSnoc(tmp, DigitChar(whole % 10));
      ghost var rest := Backward(tmp);
      ghost var c := DigitChar(whole % 10);
      assert Head(whole / 10) + [c] + rest == Head(whole / 10) + ([c] + rest);
      tmp := tmp + [DigitChar(whole % 10)];
      whole := whole / 10;
    }
    assert Head(0) + Backward(tmp) == Backward(tmp);
  }

  lemma FirstDigit(w: nat)
    ensures WholeText(w) == Head(w / 10) + Backward([DigitChar(w % 10)])
  {
    BackwardSnoc("", DigitChar(w % 10));
    assert "" + [DigitChar(w % 10)] == [DigitChar(w % 10)];
    assert [DigitChar(w % 10)] + Backward("") == [DigitChar(w % 10)];
  }

  /** Eight places, less the trailing zeros. */
  method Fraction(frac: nat) returns (f: string)
    ensures f == FracText(frac)
  {
    var places := Places(frac);
    var fd := DGB_DECIMALS;
    assert places[..fd] == places;
    hide FixedText;
    while fd > 0 && places[fd - 1] == '0'
      invariant 0 <= fd <= DGB_DECIMALS && WithoutZeros(places[..fd]) == FracText(frac)
    {
      assert places[..fd][..fd - 1] == places[..fd - 1];
      fd := fd - 1;
    }
    f := places[..fd];
  }

  method Places(frac: nat) returns (text: string)
    ensures text == FixedText(frac, DGB_DECIMALS)
  {
    var places := new char[DGB_DECIMALS];
    var rest := frac;
    var fd := DGB_DECIMALS;
    assert FixedText(frac, DGB_DECIMALS) == FixedText(rest, fd) + places[fd..];
    while fd > 0
      invariant 0 <= fd <= DGB_DECIMALS && 0 <= rest
      invariant FixedText(frac, DGB_DECIMALS) == FixedText(rest, fd) + places[fd..]
    {
      fd := fd - 1;
      ghost var tail := places[fd + 1..];
      places[fd] := DigitChar(rest % 10);
      FixedSnoc(rest, fd);
      hide FixedText;
      assert places[fd..] == [DigitChar(rest % 10)] + tail;
      assert FixedText(rest / 10, fd) + [DigitChar(rest % 10)] + tail == FixedText(rest / 10, fd) + places[fd..];
      rest := rest / 10;
    }
    assert FixedText(rest, 0) == "";
    assert places[0..] == places[..];
    text := places[..];
  }

  lemma FixedSnoc(f: nat, k: nat)
    ensures FixedText(f, k + 1) == FixedText(f / 10, k) + [DigitChar(f % 10)]
  {
  }
}
