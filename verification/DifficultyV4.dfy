/** The difficulty rule. */
module DifficultyV4 {
  // MultiShield V4: the compact target a header must carry, from its gathered
  // ancestors.

  import opened FixedWidth
  import opened Arithmetic
  import opened Limbs256
  import opened CompactTarget
  import opened Sorting

  const NUM_ALGOS: int := 5
  const MEDIAN_SPAN: nat := 11

  datatype Params = Params(averagingTargetTimespan: nat, minActualTimespan: nat, maxActualTimespan: nat,
                           localTargetAdjustment: u32, powLimitShift: nat)

  const MAIN_NET := Params(750, 690, 870, 4, 20)
  const TEST_NET := Params(750, 690, 810, 4, 20)

  /** What the rule asserts of its parameters. */
  predicate Usable(p: Params) {
    && 0 < p.averagingTargetTimespan <= U32_MAX
    && 0 < p.minActualTimespan <= p.maxActualTimespan <= U32_MAX
    && 100 + p.localTargetAdjustment <= U32_MAX
  }

  ghost function PowLimitOf(p: Params): nat {
    (Modulus() - 1) / Pow2(p.powLimitShift)
  }

  // ---- median time past -----------------------------------------------------

  function Median(times: seq<int>): int
    requires |times| == MEDIAN_SPAN
  {
    Sorted(times)[MEDIAN_SPAN / 2]
  }

  /** The insertion sort's inner loop at j: what is above j has moved up by one. */
  ghost predicate Shifted(s: seq<int>, was: seq<int>, j: nat, t: int) {
    && j <= |was| < |s| && s[..j] == was[..j] && s[j + 1..|was| + 1] == was[j..]
    && Insert(was, t) == Insert(was[..j], t) + was[j..]
  }

  lemma ShiftOne(s: seq<int>, was: seq<int>, j: nat, t: int)
    requires 0 < j && Shifted(s, was, j, t) && s[j - 1] > t
    ensures Shifted(s[j := s[j - 1]], was, j - 1, t)
  {
    var s' := s[j := s[j - 1]];
    assert s[j - 1] == was[..j][j - 1];
    assert s'[..j - 1] == was[..j][..j - 1] == was[..j - 1];
    assert s'[j..|was| + 1] == [was[j - 1]] + s[j + 1..|was| + 1] == was[j - 1..];
    InsertPast(was, j - 1, t);
  }

  lemma ShiftEnd(s: seq<int>, was: seq<int>, j: nat, t: int)
    requires Shifted(s, was, j, t) && (j > 0 ==> s[j - 1] <= t)
    ensures s[j := t][..|was| + 1] == Insert(was, t)
  {
    assert j > 0 ==> s[j - 1] == was[..j][j - 1];
    var s' := s[j := t];
    assert s'[..|was| + 1] == s[..j] + [t] + s[j + 1..|was| + 1];
    assert Insert(was[..j], t) == was[..j] + [t];
  }

  /** One step of the insertion sort: t moves down past the larger entries. */
  method InsertInto(s: array<int>, i: nat, t: int)
    requires i < s.Length
    modifies s
    ensures s[..i + 1] == Insert(old(s[..i]), t)
  {
    var j := i;
    ghost var was := s[..i];
    assert was[..i] == was;
    assert s[..][..i] == was && Shifted(s[..], was, i, t);
    hide *;
    while j > 0 && s[j - 1] > t
      invariant 0 <= j <= i && Shifted(s[..], was, j, t)
    {
      ShiftOne(s[..], was, j, t);
      ghost var next := s[..][j := s[j - 1]];
      s[j] := s[j - 1];
      assert s[..] == next;
      j := j - 1;
    }
    ShiftEnd(s[..], was, j, t);
    ghost var done := s[..][j := t];
    s[j] := t;
    assert s[..] == done && s[..i + 1] == done[..i + 1];
  }

  lemma InsertPast(was: seq<int>, j: nat, t: int)
    requires j < |was| && was[j] > t && Insert(was, t) == Insert(was[..j + 1], t) + was[j + 1..]
    ensures Insert(was, t) == Insert(was[..j], t) + was[j..]
  {
    var one, rest := was[..j + 1], was[j + 1..];
    assert one[..j] == was[..j] && one[j] == was[j];
    assert Insert(one, t) == Insert(was[..j], t) + [was[j]];
    hide Insert;
    assert [was[j]] + rest == was[j..];
  }

  method MedianTimePast(times: seq<u32>) returns (m: int)
    requires |times| == MEDIAN_SPAN
    ensures m == Median(times)
  {
    var s := new int[MEDIAN_SPAN];
    var i := 0;
    while i < MEDIAN_SPAN
      invariant 0 <= i <= MEDIAN_SPAN
      invariant s[..i] == Sorted(times[..i])
    {
      InsertInto(s, i, times[i]);
      assert times[..i + 1][..i] == times[..i];
      i := i + 1;
    }
    assert times[..MEDIAN_SPAN] == times;
    m := s[MEDIAN_SPAN / 2];
    assert m == s[..MEDIAN_SPAN][MEDIAN_SPAN / 2];
  }

  // ---- the rule on numbers --------------------------------------------------

  /** C division by four: toward zero. */
  function Quarter(x: int): int { if x >= 0 then x / 4 else -(-x / 4) }

  /** The window's timespan, damped toward the target timespan and clamped. */
  function Timespan(p: Params, span: int): (t: int)
    requires Usable(p)
    ensures p.minActualTimespan <= t <= p.maxActualTimespan
  {
    var damped := p.averagingTargetTimespan + Quarter(span - p.averagingTargetTimespan);
    Min(Max(damped, p.minActualTimespan), p.maxActualTimespan)
  }

  /** t * m / d; with room the product does not wrap. */
  ghost function Ratio(t: nat, m: nat, d: nat): nat
    requires d > 0
  {
    t * m / d
  }

  ghost function Harder(p: Params, t: nat, n: nat): nat
    decreases n
  {
    if n == 0 then t else Harder(p, Ratio(t, 100, 100 + p.localTargetAdjustment), n - 1)
  }

  ghost function Easier(p: Params, t: nat, n: nat): nat
    decreases n
  {
    if n == 0 then t else Easier(p, Ratio(t, 100 + p.localTargetAdjustment, 100), n - 1)
  }

  /** Harder for each block the algorithm is ahead of its share, easier for each it is behind. */
  ghost function Adjusted(p: Params, t: nat, distance: nat): nat {
    var ahead := NUM_ALGOS - 1 - distance;
    if ahead > 0 then Harder(p, t, ahead) else Easier(p, t, -ahead)
  }

  /** The rule in unbounded integers. */
  ghost function TargetOf(p: Params, prev: nat, span: int, distance: nat): (t: nat)
    requires Usable(p)
    ensures t <= PowLimitOf(p)
  {
    Min(Adjusted(p, Ratio(prev, Timespan(p, span), p.averagingTargetTimespan), distance), PowLimitOf(p))
  }

  // ---- the rule as eight limbs compute it -----------------------------------

  ghost function LimbRatio(t: nat, m: nat, d: nat): nat
    requires d > 0
  {
    PlaceIsPow2(8);
    t * m % Modulus() / d
  }

  ghost function LimbHarder(p: Params, t: nat, n: nat): nat
    decreases n
  {
    if n == 0 then t else LimbHarder(p, LimbRatio(t, 100, 100 + p.localTargetAdjustment), n - 1)
  }

  /** Stops at the limit as soon as a step passes it. */
  ghost function LimbEasier(p: Params, t: nat, n: nat): nat
    decreases n
  {
    if n == 0 then t else
    var u := LimbRatio(t, 100 + p.localTargetAdjustment, 100);
    if u > PowLimitOf(p) then PowLimitOf(p) else LimbEasier(p, u, n - 1)
  }

  ghost function LimbAdjusted(p: Params, t: nat, distance: nat): nat {
    var ahead := NUM_ALGOS - 1 - distance;
    if ahead > 0 then LimbHarder(p, t, ahead) else LimbEasier(p, t, -ahead)
  }

  ghost function LimbTarget(p: Params, prev: nat, span: int, distance: nat): (t: nat)
    requires Usable(p)
    ensures t <= PowLimitOf(p)
  {
    Min(LimbAdjusted(p, LimbRatio(prev, Timespan(p, span), p.averagingTargetTimespan), distance), PowLimitOf(p))
  }

  /** No product of the rule reaches 2^256. */
  ghost predicate Roomy(p: Params) {
    PowLimitOf(p) * p.maxActualTimespan * (100 + p.localTargetAdjustment) < Modulus()
  }

  lemma NetworksAreRoomy()
    ensures Usable(MAIN_NET) && Roomy(MAIN_NET) && Usable(TEST_NET) && Roomy(TEST_NET)
  {
    RoomFor(MAIN_NET, 870 * 104);
    RoomFor(TEST_NET, 810 * 104);
  }

  lemma RoomyMeans(p: Params)
    ensures Roomy(p) <==> PowLimitOf(p) * p.maxActualTimespan * (100 + p.localTargetAdjustment) < Modulus()
  {
  }

  lemma LimitIs(p: Params)
    requires p.powLimitShift == 20
    ensures PowLimitOf(p) == (Modulus() - 1) / 0x10_0000
  {
    assert Pow2(20) == 0x10_0000 by { Pow2Add(16, 4); Pow2Values(); assert Pow2(4) == 16; }
  }

  lemma TwentyBits()
    ensures Modulus() == 0x10_0000 * Pow2(236)
  {
    PlaceIsPow2(8);
    Pow2Add(20, 236);
    assert Pow2(20) == 0x10_0000 by { Pow2Add(16, 4); Pow2Values(); assert Pow2(4) == 16; }
    hide Pow2, Place;
  }

  lemma RoomFor(p: Params, most: nat)
    requires p.powLimitShift == 20 && p.maxActualTimespan * (100 + p.localTargetAdjustment) == most < 0x10_0000
    ensures Roomy(p)
  {
    var limit := PowLimitOf(p);
    LimitIs(p);
    hide *;
    assert Modulus() == 0x10_0000 * Pow2(236) by { TwentyBits(); }
    DivBound(Modulus() - 1, 0x10_0000, Pow2(236));
    RoomyMeans(p);
    MulAssociates(limit, p.maxActualTimespan, 100 + p.localTargetAdjustment);
    MulMonotoneInt(most, 0x10_0000, limit);
  }

  lemma RatioMonotone(t: nat, u: nat, m: nat, n: nat, d: nat)
    requires t <= u && m <= n && d > 0
    ensures Ratio(t, m, d) <= Ratio(u, n, d)
  {
    MulMonotone(t, u, m);
    MulMonotoneInt(m, n, u);
    DivMonotone(t * m, u * n, d);
  }

  lemma RatioAgainst(t: nat, m: nat, d: nat)
    requires d > 0
    ensures m <= d ==> Ratio(t, m, d) <= t
    ensures m >= d ==> Ratio(t, m, d) >= t
    ensures m >= 1 ==> Ratio(t, m, d) <= t * m
  {
    DivUnique(t * d, d, t, 0);
    if m <= d { RatioMonotone(t, t, m, d, d); }
    if m >= d { RatioMonotone(t, t, d, m, d); }
    MulMonotoneInt(1, d, t * m / d);
  }

  lemma LimbRatioExact(t: nat, m: nat, d: nat, bound: nat, top: nat)
    requires d > 0 && t <= bound && m <= top && bound * top < Modulus()
    ensures LimbRatio(t, m, d) == Ratio(t, m, d)
  {
    hide Place;
    PlaceIsPow2(8);
    MulMonotone(t, bound, m);
    MulMonotoneInt(m, top, bound);
    DivUnique(t * m, Modulus(), 0, t * m);
  }

  lemma {:induction false} LimbHarderExact(p: Params, t: nat, n: nat, bound: nat)
    requires t <= bound && bound * (100 + p.localTargetAdjustment) < Modulus()
    ensures LimbHarder(p, t, n) == Harder(p, t, n)
    decreases n
  {
    if n > 0 {
      var d := 100 + p.localTargetAdjustment;
      LimbRatioExact(t, 100, d, bound, d);
      RatioAgainst(t, 100, d);
      LimbHarderExact(p, Ratio(t, 100, d), n - 1, bound);
    }
  }

  lemma {:induction false} EasierGrows(p: Params, t: nat, n: nat)
    ensures Easier(p, t, n) >= t
    decreases n
  {
    if n > 0 {
      RatioAgainst(t, 100 + p.localTargetAdjustment, 100);
      EasierGrows(p, Ratio(t, 100 + p.localTargetAdjustment, 100), n - 1);
    }
  }

  /** Stopping at the limit changes nothing under the final cap. */
  lemma {:induction false} LimbEasierExact(p: Params, t: nat, n: nat, bound: nat)
    requires t <= bound && PowLimitOf(p) <= bound && bound * (100 + p.localTargetAdjustment) < Modulus()
    ensures Min(LimbEasier(p, t, n), PowLimitOf(p)) == Min(Easier(p, t, n), PowLimitOf(p))
    decreases n
  {
    hide PowLimitOf;
    if n > 0 {
      var m := 100 + p.localTargetAdjustment;
      LimbRatioExact(t, m, 100, bound, m);
      var u := Ratio(t, m, 100);
      if u > PowLimitOf(p) {
        EasierGrows(p, u, n - 1);
      } else {
        LimbEasierExact(p, u, n - 1, bound);
      }
    }
  }

  /** The first quotient is exact and leaves room for every later one. */
  lemma FirstRatioExact(p: Params, prev: nat, t: nat, d: nat)
    requires Roomy(p) && prev <= PowLimitOf(p) && 0 < t <= p.maxActualTimespan && d > 0
    ensures var bound := PowLimitOf(p) * p.maxActualTimespan;
            && LimbRatio(prev, t, d) == Ratio(prev, t, d) <= bound && PowLimitOf(p) <= bound
            && bound * (100 + p.localTargetAdjustment) < Modulus()
  {
    var limit, top := PowLimitOf(p), p.maxActualTimespan;
    assert limit * top * (100 + p.localTargetAdjustment) < Modulus();
    hide *;
    MulMonotoneInt(1, 100 + p.localTargetAdjustment, limit * top);
    LimbRatioExact(prev, t, d, limit, top);
    RatioAgainst(prev, t, d);
    MulMonotone(prev, limit, t);
    MulMonotoneInt(t, top, limit);
    MulMonotoneInt(1, top, limit);
  }

  /** With room and a previous target at most the limit, eight limbs compute the rule exactly. */
  lemma LimbTargetExact(p: Params, prev: nat, span: int, distance: nat)
    requires Usable(p) && Roomy(p) && prev <= PowLimitOf(p)
    ensures LimbTarget(p, prev, span, distance) == TargetOf(p, prev, span, distance)
  {
    var d, t, bound := p.averagingTargetTimespan, Timespan(p, span), PowLimitOf(p) * p.maxActualTimespan;
    hide PowLimitOf, Timespan, Harder, Easier, LimbHarder, LimbEasier, LimbRatio, Ratio, Roomy;
    FirstRatioExact(p, prev, t, d);
    var ahead := NUM_ALGOS - 1 - distance;
    if ahead > 0 {
      LimbHarderExact(p, Ratio(prev, t, d), ahead, bound);
    } else {
      LimbEasierExact(p, Ratio(prev, t, d), -ahead, bound);
    }
  }

  // ---- the damping ----------------------------------------------------------

  /** The window is long enough, by four seconds for each, for a timespan m seconds long: up to the averaging timespan
      a window less than four seconds shorter still does. */
  predicate Reaches(p: Params, span: int, m: int) {
    span - p.averagingTargetTimespan >=
      if m > p.averagingTargetTimespan then 4 * (m - p.averagingTargetTimespan)
      else 4 * (m - p.averagingTargetTimespan) - 3
  }

  /** The longest timespan in range that the window reaches, or the shortest there is. */
  ghost predicate Gradual(p: Params, span: int, t: int) {
    && p.minActualTimespan <= t <= p.maxActualTimespan
    && forall m :: p.minActualTimespan < m <= p.maxActualTimespan ==> (m <= t <==> Reaches(p, span, m))
  }

  /** The timespan is the one timespan the window reaches so: strictly inside the range it differs from the averaging
      timespan by a quarter of the window's own difference, toward zero, and it is the longest or the shortest exactly
      when the window is four times as far out. */
  lemma TimespanIsGradual(p: Params, span: int, t: int)
    requires Usable(p)
    ensures Gradual(p, span, t) <==> t == Timespan(p, span)
    ensures Gradual(p, span, t) && p.minActualTimespan < t < p.maxActualTimespan ==>
              var d, w := t - p.averagingTargetTimespan, span - p.averagingTargetTimespan;
              if w >= 0 then 4 * d <= w < 4 * d + 4 && d >= 0 else 4 * d - 4 < w <= 4 * d && d <= 0
    ensures Gradual(p, span, t) && p.minActualTimespan < p.averagingTargetTimespan < p.maxActualTimespan ==>
              var avg := p.averagingTargetTimespan;
              && (t == p.maxActualTimespan <==> span >= avg + 4 * (p.maxActualTimespan - avg))
              && (t == p.minActualTimespan <==> span <= avg - 4 * (avg - p.minActualTimespan))
  {
    var own := Timespan(p, span);
    forall m | p.minActualTimespan < m <= p.maxActualTimespan ensures m <= own <==> Reaches(p, span, m) {}
    if Gradual(p, span, t) {
      assert p.minActualTimespan < own ==> (own <= t <==> Reaches(p, span, own));
      assert p.minActualTimespan < t ==> (t <= own <==> Reaches(p, span, t)) && Reaches(p, span, t);
    }
  }

  /** On the main network the longest timespan takes a window of 1230 seconds or more, the shortest one of 510 or
      less. */
  lemma MainNetClamps(span: int, t: int)
    requires Gradual(MAIN_NET, span, t)
    ensures (t == 870 <==> span >= 1230) && (t == 690 <==> span <= 510)
  {
    assert Reaches(MAIN_NET, span, 870) <==> span >= 1230;
    assert Reaches(MAIN_NET, span, 691) <==> span >= 511;
  }

  /** A window of the averaging length leaves the target of an algorithm that takes its turn, in every fifth block, as
      it was, up to the limit; one block early it is made harder by 104 to 100, one block late easier by as much. */
  lemma SteadyTarget(prev: nat, span: int, distance: nat)
    requires 746 < span < 754 && 3 <= distance <= 5
    ensures TargetOf(MAIN_NET, prev, span, distance) ==
            Min(if distance == 4 then prev else if distance == 3 then prev * 100 / 104 else prev * 104 / 100,
                PowLimitOf(MAIN_NET))
  {
    hide PowLimitOf;
    assert Timespan(MAIN_NET, span) == 750;
    DivUnique(prev * 750, 750, prev, 0);
    assert Ratio(prev, 750, 750) == prev;
    OneStep(prev);
  }

  lemma OneStep(t: nat)
    ensures Harder(MAIN_NET, t, 0) == t == Easier(MAIN_NET, t, 0)
    ensures Harder(MAIN_NET, t, 1) == t * 100 / 104 && Easier(MAIN_NET, t, 1) == t * 104 / 100
  {
    assert Harder(MAIN_NET, t * 100 / 104, 0) == t * 100 / 104;
    assert Easier(MAIN_NET, t * 104 / 100, 0) == t * 104 / 100;
  }

  lemma {:induction false} HarderLast(p: Params, t: nat, n: nat)
    ensures Harder(p, t, n + 1) == Harder(p, t, n) * 100 / (100 + p.localTargetAdjustment)
    decreases n
  {
    var u := Ratio(t, 100, 100 + p.localTargetAdjustment);
    if n > 0 { HarderLast(p, u, n - 1); } else { assert Harder(p, u, 0) == u; }
    hide Ratio;
  }

  lemma {:induction false} EasierLast(p: Params, t: nat, n: nat)
    ensures Easier(p, t, n + 1) == Easier(p, t, n) * (100 + p.localTargetAdjustment) / 100
    decreases n
  {
    var u := Ratio(t, 100 + p.localTargetAdjustment, 100);
    if n > 0 { EasierLast(p, u, n - 1); } else { assert Easier(p, u, 0) == u; }
    hide Ratio;
  }

  /** Whose turn it is, in every fifth block, keeps its target; each block it comes later is one step easier than the one
      before, each block earlier one step harder than the one after. */
  lemma EachBlockIsAStep(p: Params, t: nat, distance: nat)
    ensures Adjusted(p, t, 4) == t
    ensures distance >= 4 ==>
              Adjusted(p, t, distance + 1) == Adjusted(p, t, distance) * (100 + p.localTargetAdjustment) / 100
    ensures distance < 4 ==>
              Adjusted(p, t, distance) == Adjusted(p, t, distance + 1) * 100 / (100 + p.localTargetAdjustment)
  {
    assert Harder(p, t, 0) == t && Easier(p, t, 0) == t;
    if distance >= 4 { EasierLast(p, t, distance - 4); } else { HarderLast(p, t, 3 - distance); }
    hide Harder, Easier;
  }

  // ---- monotone -------------------------------------------------------------

  lemma {:induction false} HarderMonotone(p: Params, t: nat, u: nat, n: nat)
    requires t <= u
    ensures Harder(p, t, n) <= Harder(p, u, n)
    decreases n
  {
    if n > 0 {
      var d := 100 + p.localTargetAdjustment;
      RatioMonotone(t, u, 100, 100, d);
      HarderMonotone(p, Ratio(t, 100, d), Ratio(u, 100, d), n - 1);
    }
  }

  lemma {:induction false} EasierMonotone(p: Params, t: nat, u: nat, n: nat)
    requires t <= u
    ensures Easier(p, t, n) <= Easier(p, u, n)
    decreases n
  {
    if n > 0 {
      var m := 100 + p.localTargetAdjustment;
      RatioMonotone(t, u, m, m, 100);
      EasierMonotone(p, Ratio(t, m, 100), Ratio(u, m, 100), n - 1);
    }
  }

  /** One block further behind never makes the target harder. */
  lemma DistanceStep(p: Params, t: nat, distance: nat)
    ensures Adjusted(p, t, distance) <= Adjusted(p, t, distance + 1)
  {
    var ahead := NUM_ALGOS - 1 - distance;
    var factor := 100 + p.localTargetAdjustment;
    if ahead > 0 {
      RatioAgainst(t, 100, factor);
      HarderMonotone(p, Ratio(t, 100, factor), t, ahead - 1);
    } else {
      RatioAgainst(t, factor, 100);
      EasierMonotone(p, t, Ratio(t, factor, 100), -ahead);
    }
  }

  lemma {:induction false} AdjustedMonotone(p: Params, t: nat, u: nat, distance: nat, further: nat)
    requires t <= u && distance <= further
    ensures Adjusted(p, t, distance) <= Adjusted(p, u, further)
    decreases further
  {
    if distance < further {
      AdjustedMonotone(p, t, u, distance, further - 1);
      DistanceStep(p, u, further - 1);
    } else if NUM_ALGOS - 1 - distance > 0 {
      HarderMonotone(p, t, u, NUM_ALGOS - 1 - distance);
    } else {
      EasierMonotone(p, t, u, distance - (NUM_ALGOS - 1));
    }
  }

  /** A longer window, an easier previous target or a longer wait never makes the next target harder,
      in the exact number, in its compact form and in what that form decodes to. */
  lemma TargetMonotone(p: Params, prev: nat, higher: nat, span: int, longer: int, distance: nat, further: nat)
    requires Usable(p) && prev <= higher && span <= longer && distance <= further
    ensures var t, u := TargetOf(p, prev, span, distance), TargetOf(p, higher, longer, further);
            t <= u && CompactOf(t) <= CompactOf(u) && Expand(CompactOf(t)) <= Expand(CompactOf(u))
  {
    hide PowLimitOf, Adjusted, CompactOf, Expand;
    RatioMonotone(prev, higher, Timespan(p, span), Timespan(p, longer), p.averagingTargetTimespan);
    AdjustedMonotone(p, Ratio(prev, Timespan(p, span), p.averagingTargetTimespan),
                     Ratio(higher, Timespan(p, longer), p.averagingTargetTimespan), distance, further);
    CompactMonotone(TargetOf(p, prev, span, distance), TargetOf(p, higher, longer, further));
  }

  // ---- the operations -------------------------------------------------------

  lemma {:induction false} ValOnes(a: seq<u32>)
    requires forall i :: 0 <= i < |a| ==> a[i] == U32_MAX
    ensures Val(a) == Place(|a|) - 1
    decreases |a|
  {
    if a != [] { ValOnes(a[1..]); }
  }

  method PowLimit(p: Params) returns (a: array<u32>)
    ensures fresh(a) && a.Length == 8 && Val(a[..]) == PowLimitOf(p)
  {
    a := new u32[8](_ => U32_MAX);
    ValOnes(a[..]);
    hide Val, Pow2, Place;
    ShiftRight(a, p.powLimitShift);
  }

  method Rescale(target: array<u32>, m: u32, d: u32)
    requires target.Length == 8 && d != 0
    modifies target
    ensures Val(target[..]) == LimbRatio(Val(old(target[..])), m, d)
  {
    hide Val, Place;
    MulU32(target, m);
    DivU32(target, d);
  }

  method MakeHarder(p: Params, target: array<u32>, n: nat)
    requires Usable(p) && target.Length == 8
    modifies target
    ensures Val(target[..]) == LimbHarder(p, Val(old(target[..])), n)
  {
    var i := 0;
    hide Val, LimbRatio;
    while i < n
      invariant i <= n
      invariant LimbHarder(p, Val(target[..]), n - i) == LimbHarder(p, Val(old(target[..])), n)
    {
      Rescale(target, 100, 100 + p.localTargetAdjustment);
      i := i + 1;
    }
  }

  method MakeEasier(p: Params, target: array<u32>, limit: array<u32>, n: nat)
    requires Usable(p) && target.Length == limit.Length == 8 && target != limit
    requires Val(limit[..]) == PowLimitOf(p)
    modifies target
    ensures Val(target[..]) == LimbEasier(p, Val(old(target[..])), n)
  {
    var i := 0;
    hide Val, LimbRatio, PowLimitOf;
    while i < n
      invariant i <= n
      invariant LimbEasier(p, Val(target[..]), n - i) == LimbEasier(p, Val(old(target[..])), n)
    {
      Rescale(target, 100 + p.localTargetAdjustment, 100);
      var c := Cmp(target, limit);
      if c > 0 {
        CopyLimbs(target, limit);
        return;
      }
      i := i + 1;
    }
  }

  method CopyLimbs(target: array<u32>, source: array<u32>)
    requires target.Length == source.Length == 8 && target != source
    modifies target
    ensures target[..] == source[..]
  {
    forall i | 0 <= i < 8 { target[i] := source[i]; }
  }

  method ActualTimespan(p: Params, lastTimes: seq<u32>, firstTimes: seq<u32>) returns (actual: u32)
    requires Usable(p) && |lastTimes| == |firstTimes| == MEDIAN_SPAN
    ensures actual == Timespan(p, Median(lastTimes) - Median(firstTimes)) > 0
  {
    hide Median, Sorted;
    var last := MedianTimePast(lastTimes);
    var first := MedianTimePast(firstTimes);
    var span := last - first;
    span := p.averagingTargetTimespan + Quarter(span - p.averagingTargetTimespan);
    if span < p.minActualTimespan { span := p.minActualTimespan; }
    if span > p.maxActualTimespan { span := p.maxActualTimespan; }
    actual := span;
  }

  /** For every input the compact form of what eight limbs compute, and so never above the limit; with room and
      a previous target at most the limit, the compact form of the exact rule. */
  method Target(p: Params, lastTimes: seq<u32>, firstTimes: seq<u32>, prevAlgoTarget: u32, prevAlgoDistance: u32)
    returns (compact: u32)
    requires Usable(p) && |lastTimes| == |firstTimes| == MEDIAN_SPAN
    ensures Expand(compact) <= PowLimitOf(p)
    ensures compact == CompactOf(LimbTarget(p, Expand(prevAlgoTarget) % Modulus(),
                                            Median(lastTimes) - Median(firstTimes), prevAlgoDistance))
    ensures Roomy(p) && Expand(prevAlgoTarget) <= PowLimitOf(p) ==>
              compact == CompactOf(TargetOf(p, Expand(prevAlgoTarget), Median(lastTimes) - Median(firstTimes),
                                            prevAlgoDistance))
    ensures Roomy(p) && Expand(prevAlgoTarget) <= PowLimitOf(p) ==>
              forall t: nat :: Gradual(p, Median(lastTimes) - Median(firstTimes), t) ==>
                compact == CompactOf(Min(Adjusted(p, Ratio(Expand(prevAlgoTarget), t, p.averagingTargetTimespan),
                                                  prevAlgoDistance),
                                         PowLimitOf(p)))
  {
    hide Gradual, Ratio, Adjusted, Val, PowLimitOf, Timespan, LimbAdjusted, LimbRatio, LimbTarget, TargetOf, Expand,
         CompactOf, Median, Sorted,
         Roomy, Modulus, Place, Pow2;
    ghost var span := Median(lastTimes) - Median(firstTimes);
    var actual := ActualTimespan(p, lastTimes, firstTimes);
    var target, _, _ := SetCompact(prevAlgoTarget);
    var limit := PowLimit(p);
    Rescale(target, actual, p.averagingTargetTimespan);
    Adjust(p, target, limit, prevAlgoDistance);
    var c := Cmp(target, limit);
    if c > 0 { CopyLimbs(target, limit); }
    CappedIsTarget(p, Expand(prevAlgoTarget), span, prevAlgoDistance, Val(target[..]));
    compact := GetCompact(target, false);
    forall t: nat | Gradual(p, span, t)
      ensures TargetOf(p, Expand(prevAlgoTarget), span, prevAlgoDistance) ==
              Min(Adjusted(p, Ratio(Expand(prevAlgoTarget), t, p.averagingTargetTimespan), prevAlgoDistance),
                  PowLimitOf(p))
    {
      TimespanIsGradual(p, span, t);
      TargetOfIs(p, Expand(prevAlgoTarget), span, prevAlgoDistance);
    }
  }

  lemma TargetOfIs(p: Params, prev: nat, span: int, distance: nat)
    requires Usable(p)
    ensures TargetOf(p, prev, span, distance) ==
            Min(Adjusted(p, Ratio(prev, Timespan(p, span), p.averagingTargetTimespan), distance), PowLimitOf(p))
  {
    hide Adjusted, Ratio, Timespan, PowLimitOf;
  }

  method Adjust(p: Params, target: array<u32>, limit: array<u32>, distance: u32)
    requires Usable(p) && target.Length == limit.Length == 8 && target != limit
    requires Val(limit[..]) == PowLimitOf(p)
    modifies target
    ensures Val(target[..]) == LimbAdjusted(p, Val(old(target[..])), distance)
  {
    hide Val, PowLimitOf, LimbHarder, LimbEasier;
    var adjustments := NUM_ALGOS - 1 - distance;
    if adjustments > 0 {
      MakeHarder(p, target, adjustments);
    } else if adjustments < 0 {
      MakeEasier(p, target, limit, -adjustments);
    } else {
      assert LimbEasier(p, Val(target[..]), 0) == Val(target[..]) by { NoSteps(p, Val(target[..])); }
    }
  }

  lemma NoSteps(p: Params, t: nat)
    ensures LimbEasier(p, t, 0) == t
  {
  }

  lemma CappedIsTarget(p: Params, prev: nat, span: int, distance: nat, t: nat)
    requires Usable(p)
    requires t == Min(LimbAdjusted(p, LimbRatio(prev % Modulus(), Timespan(p, span), p.averagingTargetTimespan),
             distance),
                      PowLimitOf(p))
    ensures t == LimbTarget(p, prev % Modulus(), span, distance)
    ensures Expand(CompactOf(t)) <= PowLimitOf(p) && Signed(CompactOf(t), false) == CompactOf(t)
    ensures Roomy(p) && prev <= PowLimitOf(p) ==> t == TargetOf(p, prev, span, distance)
  {
    hide LimbAdjusted, LimbRatio, Timespan, Expand, CompactOf;
    CompactRoundsDown(t);
    PlaceIsPow2(8);
    if Roomy(p) && prev <= PowLimitOf(p) {
      LimbTargetExact(p, prev, span, distance);
      LimitFits(p);
      DivUnique(prev, Modulus(), 0, prev);
    }
  }

  lemma LimitFits(p: Params)
    ensures PowLimitOf(p) < Modulus()
  {
    PlaceIsPow2(8);
    hide Place, Pow2;
    DivBound(Modulus() - 1, Pow2(p.powLimitShift), Modulus());
  }
}
