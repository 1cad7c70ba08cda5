/**
 The cross-venue combiner: per-venue micro-prices, their median, a median-absolute-deviation filter
 and the mean of the survivors.
 */
module FairValue {
  import opened Words
  import opened Arithmetic
  import opened WideMath
  import opened Permutations

  const DECIBPS: nat := 100_000
  const I64_MAX: nat := 0x7fff_ffff_ffff_ffff

  // ---- One venue ----

  datatype BookTick = BookTick(bid: u128, bidQty: u128, ask: u128, askQty: u128)
  datatype Reject = ZeroPrice | CrossedBook | ZeroDepth | Domain

  /** `(bid * askQty + ask * bidQty) / (bidQty + askQty)`: each price weighted by the other side's size. */
  function MicroPrice(t: BookTick): Result<u128, Reject> {
    if t.bid == 0 || t.ask == 0 then Err(ZeroPrice)
    else if t.bid >= t.ask then Err(CrossedBook)
    else if t.bidQty == 0 || t.askQty == 0 then Err(ZeroDepth)
    else
      var num :- OkOr(MulU128(t.bid, t.askQty).Plus(MulU128(t.ask, t.bidQty)), Domain);
      var den :- OkOr(CheckedAdd(t.bidQty, t.askQty), Domain);
      var qr :- OkOr(DivRem(num, U256(0, den)), Domain);
      OkOr(qr.0.ToU128(), Domain)
  }

  /** A weighted average of two prices, floored, lies in `[low, high)`. */
  lemma WeightedAverage(low: nat, high: nat, wLow: nat, wHigh: nat)
    requires low < high && 0 < wLow && 0 < wHigh
    ensures low <= (low * wLow + high * wHigh) / (wLow + wHigh) < high
  {
    var n, d := low * wLow + high * wHigh, wLow + wHigh;
    MulLe(low, high, wHigh);
    MulLt(low, high, wLow);
    assert low * d == low * wLow + low * wHigh;
    assert high * d == high * wLow + high * wHigh;
    FloorGalois(n, d, low);
    FloorGalois(n, d, high);
  }

  /** A live book prices inside its own spread; the arithmetic refuses exactly an overflowing total size. */
  lemma MicroPriceInsideBook(t: BookTick)
    requires 0 < t.bid < t.ask && 0 < t.bidQty && 0 < t.askQty
    ensures MicroPrice(t).Err? <==> t.bidQty + t.askQty > U128_MAX
    ensures MicroPrice(t).Ok? ==> t.bid <= MicroPrice(t).value < t.ask
    ensures MicroPrice(t).Ok? ==>
            MicroPrice(t).value == (t.bid * t.askQty + t.ask * t.bidQty) / (t.bidQty + t.askQty)
  {
    if t.bidQty + t.askQty <= U128_MAX {
      WeightedAverage(t.bid, t.ask, t.askQty, t.bidQty);
      MulBounds(t.bid, U128_MAX, t.askQty, U128_MAX - t.bidQty);
      MulBounds(t.ask, U128_MAX, t.bidQty, t.bidQty);
      assert U128_MAX * (U128_MAX - t.bidQty) + U128_MAX * t.bidQty == U128_MAX * U128_MAX;
      SmallQuotientIsOneLimb(t);
    }
  }

  lemma SmallQuotientIsOneLimb(t: BookTick)
    requires 0 < t.bid < t.ask && 0 < t.bidQty && 0 < t.askQty && t.bidQty + t.askQty <= U128_MAX
    requires 0 <= t.bid * t.askQty && 0 <= t.ask * t.bidQty && t.bid * t.askQty + t.ask * t.bidQty < POW256
    requires t.bid <= (t.bid * t.askQty + t.ask * t.bidQty) / (t.bidQty + t.askQty) < t.ask
    ensures MicroPrice(t) == Ok((t.bid * t.askQty + t.ask * t.bidQty) / (t.bidQty + t.askQty))
  {
    var num := MulU128(t.bid, t.askQty).Plus(MulU128(t.ask, t.bidQty)).value;
    var den := U256(0, t.bidQty + t.askQty);
    var quo := DivRem(num, den).value.0;
    assert quo.Value() < POW128;
  }

  /** Which books are refused before any arithmetic, in this order of precedence. */
  lemma MicroPriceRefusals(t: BookTick)
    ensures MicroPrice(t) == Err(ZeroPrice) <==> t.bid == 0 || t.ask == 0
    ensures MicroPrice(t) == Err(CrossedBook) <==> 0 < t.ask <= t.bid
    ensures MicroPrice(t) == Err(ZeroDepth) <==> 0 < t.bid < t.ask && (t.bidQty == 0 || t.askQty == 0)
    ensures MicroPrice(t) == Err(Domain) <==>
            0 < t.bid < t.ask && 0 < t.bidQty && 0 < t.askQty && t.bidQty + t.askQty > U128_MAX
  {
    hide U256.Plus, MulU128, DivRem;
    if 0 < t.bid < t.ask && 0 < t.bidQty && 0 < t.askQty { MicroPriceInsideBook(t); }
  }

  // ---- The cross-section ----

  datatype VenueQuote = VenueQuote(venue: nat, micro: u128)
  datatype Deviation = Deviation(venue: nat, micro: u128, decibps: int)
  datatype MadParams = MadParams(venuesMin: u8, kTenths: u32, floor: u32, dispersionMax: u32)
  datatype Bound = Mad | Floor | Unattributable

  datatype Reference = Reference(
    micro: nat, median: nat, used: seq<Deviation>, rejected: seq<Deviation>,
    dispersion: u32, threshold: u32, bound: Bound)

  datatype ReferenceError =
    | NoQuorum(have: u8, need: u8)
    | Dispersed(dispersion: u32, limit: u32, venues: u8)
    | QuorumLostToOutliers(survived: u8, need: u8)
    | SumOverflow
    | DividedByZero

  /** Middle of a sorted sample; even sizes average the two middles without overflow. */
  function MedianSorted(xs: seq<nat>): (r: Option<nat>)
    requires Sorted(xs)
    ensures r.None? <==> xs == []
    ensures r.Some? ==> xs[0] <= r.value <= xs[|xs| - 1]
    ensures r.Some? ==> r.value == if |xs| % 2 == 1 then xs[|xs| / 2] else (xs[|xs| / 2 - 1] + xs[|xs| / 2]) / 2
  {
    var n := |xs|;
    if n == 0 then None
    else if n % 2 == 1 then Some(xs[n / 2])
    else
      var lo, hi := xs[n / 2 - 1], xs[n / 2];
      assert xs[0] <= lo <= hi <= xs[n - 1];
      Some(lo / 2 + hi / 2 + (lo % 2 + hi % 2) / 2)
  }

  function Median(xs: seq<nat>): nat { UnwrapOr(MedianSorted(Sort(xs)), 0) }

  function Abs(x: int): nat { if x < 0 then -x else x }

  /** Distance in deci-bps of the reference; a quotient beyond 128 bits reads as the widest 32-bit value. */
  function Magnitude(x: u128, from: u128): nat
    requires from > 0
  {
    Min(UnwrapOr(MulDivFloor(AbsDiff(x, from), DECIBPS, from), U32_MAX), I64_MAX)
  }

  function DeviationOf(x: u128, from: u128): int {
    if from == 0 then 0
    else if x < from then 0 - Magnitude(x, from)
    else Magnitude(x, from)
  }

  function Deviations(quotes: seq<VenueQuote>, median: u128): seq<Deviation> {
    Map((q: VenueQuote) => Deviation(q.venue, q.micro, DeviationOf(q.micro, median)), quotes)
  }

  function Magnitudes(devs: seq<Deviation>): seq<nat> { Map((d: Deviation) => Abs(d.decibps), devs) }

  function MadOf(devs: seq<Deviation>): nat { Median(Magnitudes(devs)) }

  function Saturate32(x: nat): u32 { if x <= 0xffff_ffff then x else 0xffff_ffff }

  /** With fewer than three venues only the dispersion limit applies; otherwise `k * mad` or the floor. */
  function Threshold(venues: nat, mad: nat, p: MadParams): (r: (u32, Bound))
    ensures venues >= 3 ==> r.0 >= p.floor
  {
    if venues < 3 then (p.dispersionMax, Unattributable)
    else
      MulLe(0, mad, p.kTenths);
      var scaled := Saturate32((mad * p.kTenths) / 10);
      if scaled >= p.floor then (scaled, Mad) else (p.floor, Floor)
  }

  function Survives(threshold: u32): Deviation -> bool { (d: Deviation) => Abs(d.decibps) <= threshold }
  function Fails(threshold: u32): Deviation -> bool { (d: Deviation) => Abs(d.decibps) > threshold }

  function Micros(devs: seq<Deviation>): seq<nat> { Map((d: Deviation) => d.micro as nat, devs) }
  function Prices(quotes: seq<VenueQuote>): seq<nat> { Map((q: VenueQuote) => q.micro as nat, quotes) }

  /** Equal-weighted mean of the survivors. */
  function Mean(used: seq<Deviation>): nat
    requires used != []
  {
    FloorBounds(Sum(Micros(used)), |used|);
    Sum(Micros(used)) / |used|
  }

  function Saturate8(n: nat): u8 { if n <= 255 then n else 255 }

  /** The median of the whole section, at most the largest price in it. */
  lemma MedianWithin(quotes: seq<VenueQuote>)
    ensures Median(Prices(quotes)) <= U128_MAX
  {
    var s := Sort(Prices(quotes));
    if s != [] {
      assert s[|s| - 1] in multiset(s);
      assert s[|s| - 1] in Prices(quotes);
    }
  }

  function Combine(quotes: seq<VenueQuote>, p: MadParams): Result<Reference, ReferenceError> {
    var n := Saturate8(|quotes|);
    if n < p.venuesMin then Err(NoQuorum(n, p.venuesMin))
    else
      MedianWithin(quotes);
      var median: u128 := Median(Prices(quotes));
      if median == 0 then Err(NoQuorum(0, p.venuesMin))
      else
        var devs := Deviations(quotes, median);
        var mad := MadOf(devs);
        var dispersion := Saturate32(mad);
        if dispersion > p.dispersionMax then Err(Dispersed(dispersion, p.dispersionMax, n))
        else
          var (threshold, bound) := Threshold(|quotes|, mad, p);
          var used, rejected := Filter(Survives(threshold), devs), Filter(Fails(threshold), devs);
          if Saturate8(|used|) < p.venuesMin then Err(QuorumLostToOutliers(Saturate8(|used|), p.venuesMin))
          else if Sum(Micros(used)) > U128_MAX then Err(SumOverflow)
          else if used == [] then Err(DividedByZero)
          else Ok(Reference(Mean(used), median, used, rejected, dispersion, threshold, bound))
  }

  // ---- Robustness of the median ----

  /** If a strict majority of the sample lies in `[a, b]`, so does its median. */
  lemma MajorityHoldsMedian(xs: seq<nat>, a: nat, b: nat)
    requires 2 * Count(xs, a, b) > |xs|
    ensures a <= Median(xs) <= b
  {
    hide MedianSorted, Count, Sort;
    var s := Sort(xs);
    CountPermuted(s, xs, a, b);
    CountBounds(xs, a, b);
    var n := |s|;
    CountSplit(s, n / 2, a, b);
    if n % 2 == 0 { CountSplit(s, n / 2 - 1, a, b); }
  }

  /** At least half the sample is at or below its median. */
  lemma HalfAtOrBelowMedian(xs: seq<nat>)
    ensures 2 * Count(xs, 0, Median(xs)) >= |xs|
  {
    hide Median, Count, Sort;
    if xs != [] {
      var s, k := Sort(xs), (|xs| - 1) / 2;
      MedianPastTheMiddle(xs);
      CountPermuted(s, xs, 0, Median(xs));
      CountInside(s, k, 0, Median(xs));
    }
  }

  lemma MedianPastTheMiddle(xs: seq<nat>)
    requires xs != []
    ensures Sort(xs)[(|xs| - 1) / 2] <= Median(xs)
  {
    hide MedianSorted, Sort;
  }

  /** A median read off any sorted arrangement. */
  lemma MedianFrom(xs: seq<nat>, s: seq<nat>)
    requires Sorted(s) && Permuted(xs, s)
    ensures Median(xs) == UnwrapOr(MedianSorted(s), 0)
  {
    SortedIsUnique(Sort(xs), s);
  }

  // ---- The filter ----

  lemma {:induction false} SurvivorsCounted(devs: seq<Deviation>, threshold: u32)
    ensures |Filter(Survives(threshold), devs)| == Count(Magnitudes(devs), 0, threshold)
    ensures |Filter(Survives(threshold), devs)| + |Filter(Fails(threshold), devs)| == |devs|
  {
    hide DeviationOf;
    if devs != [] {
      SurvivorsCounted(devs[1..], threshold);
      assert Magnitudes(devs)[1..] == Magnitudes(devs[1..]);
    }
  }

  lemma {:induction false} CountWidens(xs: seq<nat>, b: nat, b': nat)
    requires b <= b'
    ensures Count(xs, 0, b) <= Count(xs, 0, b')
  {
    if xs != [] { CountWidens(xs[1..], b, b'); }
  }

  /** What the filter does to a section that clears the dispersion gate. */
  ghost predicate Cleared(quotes: seq<VenueQuote>, p: MadParams) {
    && 0 < Median(Prices(quotes)) <= U128_MAX
    && Saturate32(MadOf(Deviations(quotes, Median(Prices(quotes))))) <= p.dispersionMax
  }

  ghost function Survivors(quotes: seq<VenueQuote>, p: MadParams): seq<Deviation>
    requires Cleared(quotes, p)
  {
    var devs := Deviations(quotes, Median(Prices(quotes)));
    Filter(Survives(Threshold(|quotes|, MadOf(devs), p).0), devs)
  }

  /** Whether the parameters can never tighten the filter below the spread it was scaled from. */
  predicate KeepsHalf(p: MadParams) {
    p.kTenths >= 10 || p.floor >= p.dispersionMax || p.floor >= DECIBPS
  }

  /** Half the section lies at or below its median, and nothing there deviates by more than 100%. */
  lemma WholeMedianKeepsHalf(quotes: seq<VenueQuote>, m: u128, t: u32)
    requires 0 < m == Median(Prices(quotes)) && t >= DECIBPS
    ensures 2 * |Filter(Survives(t), Deviations(quotes, m))| >= |quotes|
  {
    hide Median, Count;
    HalfAtOrBelowMedian(Prices(quotes));
    SurvivorsCounted(Deviations(quotes, m), t);
    BelowMedianSurvives(quotes, m, t);
  }

  lemma BelowMedianIsNear(x: u128, m: u128)
    requires 0 < m && x <= m
    ensures Abs(DeviationOf(x, m)) <= DECIBPS
  {
    MulLe(m - x, m, DECIBPS);
    FloorGalois((m - x) * DECIBPS, m, DECIBPS + 1);
  }

  lemma {:induction false} BelowMedianSurvives(quotes: seq<VenueQuote>, m: u128, t: u32)
    requires 0 < m && t >= DECIBPS
    ensures Count(Prices(quotes), 0, m) <= Count(Magnitudes(Deviations(quotes, m)), 0, t)
  {
    hide DeviationOf;
    if quotes != [] {
      BelowMedianSurvives(quotes[1..], m, t);
      var prices, devs := Prices(quotes), Deviations(quotes, m);
      assert prices[1..] == Prices(quotes[1..]);
      assert devs[1..] == Deviations(quotes[1..], m);
      assert Magnitudes(devs)[1..] == Magnitudes(devs[1..]);
      if quotes[0].micro <= m { BelowMedianIsNear(quotes[0].micro, m); }
    }
  }

  lemma NoTighterKeepsHalf(quotes: seq<VenueQuote>, m: u128, t: u32)
    requires MadOf(Deviations(quotes, m)) <= t
    ensures 2 * |Filter(Survives(t), Deviations(quotes, m))| >= |quotes|
  {
    hide Median, Count;
    var mags := Magnitudes(Deviations(quotes, m));
    HalfAtOrBelowMedian(mags);
    CountWidens(mags, MadOf(Deviations(quotes, m)), t);
    SurvivorsCounted(Deviations(quotes, m), t);
  }

  lemma ThresholdIsWide(venues: nat, mad: nat, p: MadParams)
    requires venues < 3 || KeepsHalf(p)
    requires Saturate32(mad) <= p.dispersionMax
    ensures var t := Threshold(venues, mad, p).0; t >= mad || t >= DECIBPS
  {
    if venues >= 3 && p.kTenths >= 10 {
      MulLe(10, p.kTenths, mad);
      FloorMono(mad * 10, mad * p.kTenths, 10);
    }
  }

  /** At least half of a cleared section survives, for any number of venues, whenever the parameters allow it. */
  lemma HalfSurvives(quotes: seq<VenueQuote>, p: MadParams)
    requires Cleared(quotes, p) && (|quotes| < 3 || KeepsHalf(p))
    ensures 2 * |Survivors(quotes, p)| >= |quotes|
  {
    hide Median, Threshold, KeepsHalf;
    var m := Median(Prices(quotes));
    var mad := MadOf(Deviations(quotes, m));
    var t := Threshold(|quotes|, mad, p).0;
    ThresholdIsWide(|quotes|, mad, p);
    if t >= mad { NoTighterKeepsHalf(quotes, m, t); } else { WholeMedianKeepsHalf(quotes, m, t); }
  }

  // ---- Two camps ----

  /** Two venues `g` deci-bps below 100 000 and two the same distance above. */
  function Camps(g: nat): seq<VenueQuote>
    requires g <= DECIBPS
  {
    [VenueQuote(0, DECIBPS - g), VenueQuote(1, DECIBPS - g), VenueQuote(2, DECIBPS + g), VenueQuote(3, DECIBPS + g)]
  }

  lemma CampDeviations(g: nat)
    requires g <= DECIBPS
    ensures DeviationOf(DECIBPS - g, DECIBPS) == 0 - g && DeviationOf(DECIBPS + g, DECIBPS) == g
  {
    assert AbsDiff(DECIBPS - g, DECIBPS) == g && AbsDiff(DECIBPS + g, DECIBPS) == g;
    assert g * DECIBPS / DECIBPS == g;
  }

  lemma FourMedian(xs: seq<nat>, lo: nat, hi: nat)
    requires xs == [lo, lo, hi, hi] && lo <= hi
    ensures Median(xs) == (lo + hi) / 2
  {
    hide Median, Sort;
    MedianFrom(xs, xs);
  }

  lemma CampPrices(g: nat)
    requires g <= DECIBPS
    ensures Median(Prices(Camps(g))) == DECIBPS
  {
    hide Median;
    var lo: nat, hi: nat := DECIBPS - g, DECIBPS + g;
    assert Prices(Camps(g)) == [lo, lo, hi, hi];
    FourMedian([lo, lo, hi, hi], lo, hi);
  }

  /** Every venue of the two camps deviates by exactly the spread, so the median deviation is the spread too. */
  lemma CampSpread(g: nat)
    requires g <= DECIBPS
    ensures MadOf(Deviations(Camps(g), DECIBPS)) == g
    ensures forall d :: d in Deviations(Camps(g), DECIBPS) ==> Abs(d.decibps) == g
  {
    hide Median, DeviationOf;
    CampDeviations(g);
    var devs := Deviations(Camps(g), DECIBPS);
    assert forall i :: 0 <= i < 4 ==> Abs(devs[i].decibps) == g;
    assert Magnitudes(devs) == [g, g, g, g];
    FourMedian([g, g, g, g], g, g);
  }

  lemma {:induction false} NobodyWithin(devs: seq<Deviation>, t: u32)
    requires forall d :: d in devs ==> Abs(d.decibps) > t
    ensures Filter(Survives(t), devs) == []
  {
    if devs != [] {
      assert devs[0] in devs;
      NobodyWithin(devs[1..], t);
    }
  }

  lemma TightThreshold(p: MadParams)
    requires !KeepsHalf(p)
    ensures Threshold(4, p.floor + 1, p).0 == p.floor
  {
    var g := p.floor + 1;
    MulLe(p.kTenths, 9, g);
    FloorGalois(g * p.kTenths, 10, g);
  }

  /** Parameters that can tighten the filter lose the two camps one deci-bp beyond the floor: nobody survives. */
  lemma CampsAreLost(p: MadParams)
    requires !KeepsHalf(p)
    ensures Cleared(Camps(p.floor + 1), p) && Survivors(Camps(p.floor + 1), p) == []
  {
    hide Median, Threshold;
    CampPrices(p.floor + 1);
    CampSpread(p.floor + 1);
    TightThreshold(p);
    NobodyWithin(Deviations(Camps(p.floor + 1), DECIBPS), p.floor);
  }

  /** Exactly which parameters let at least half of every cleared section of three or more survive. */
  lemma HalfAlwaysSurvives(p: MadParams)
    ensures KeepsHalf(p) <==>
            forall quotes :: |quotes| >= 3 && Cleared(quotes, p) ==> 2 * |Survivors(quotes, p)| >= |quotes|
  {
    hide Cleared, Survivors, KeepsHalf;
    if KeepsHalf(p) {
      forall quotes | |quotes| >= 3 && Cleared(quotes, p) ensures 2 * |Survivors(quotes, p)| >= |quotes| {
        HalfSurvives(quotes, p);
      }
    } else {
      CampsAreLost(p);
      assert |Camps(p.floor + 1)| == 4 by { TightCamps(p); }
    }
  }

  lemma TightCamps(p: MadParams)
    requires !KeepsHalf(p)
    ensures p.floor + 1 <= DECIBPS && |Camps(p.floor + 1)| == 4
  {}

  /**
   An answer is the survivors' mean, a lost quorum, a sum beyond 128 bits, or, with nobody left and no
   quorum asked for, a division by zero.
   */
  lemma ClearedOutcome(quotes: seq<VenueQuote>, p: MadParams)
    requires Cleared(quotes, p) && p.venuesMin <= Saturate8(|quotes|)
    ensures var used := Survivors(quotes, p);
            Combine(quotes, p) ==
            if Saturate8(|used|) < p.venuesMin then Err(QuorumLostToOutliers(Saturate8(|used|), p.venuesMin))
            else if Sum(Micros(used)) > U128_MAX then Err(SumOverflow)
            else if used == [] then Err(DividedByZero)
            else
              var (threshold, bound) :=
                Threshold(|quotes|, MadOf(Deviations(quotes, Median(Prices(quotes)))), p);
              Ok(Reference(
                Mean(used), Median(Prices(quotes)), used,
                Filter(Fails(threshold), Deviations(quotes, Median(Prices(quotes)))),
                Saturate32(MadOf(Deviations(quotes, Median(Prices(quotes))))), threshold, bound))
  {
    hide Median, Prices, Deviations, Mean, Filter, Threshold, Fails, Survives;
  }

  /** A reference divides by zero only past every gate. */
  lemma DivisionMeansCleared(quotes: seq<VenueQuote>, p: MadParams)
    requires Combine(quotes, p) == Err(DividedByZero)
    ensures Cleared(quotes, p) && p.venuesMin <= Saturate8(|quotes|) && quotes != []
  {
    hide Deviations, Mean, Filter, Threshold;
    MedianWithin(quotes);
    assert |Sort(Prices(quotes))| == |quotes|;
  }

  /** Some section divides by zero exactly when no quorum is asked for and the filter can be tighter than the spread. */
  lemma MeanIsDefined(p: MadParams)
    ensures (exists quotes :: Combine(quotes, p) == Err(DividedByZero)) <==> p.venuesMin == 0 && !KeepsHalf(p)
  {
    hide Combine, Cleared, Survivors, KeepsHalf;
    if p.venuesMin == 0 && !KeepsHalf(p) {
      TightCamps(p);
      CampsAreLost(p);
      ClearedOutcome(Camps(p.floor + 1), p);
    }
    forall quotes | Combine(quotes, p) == Err(DividedByZero) ensures p.venuesMin == 0 && !KeepsHalf(p) {
      DivisionMeansCleared(quotes, p);
      ClearedOutcome(quotes, p);
      if |quotes| < 3 || KeepsHalf(p) { HalfSurvives(quotes, p); }
    }
  }

  // ---- Every number of a reference ----

  /** The threshold reaches `x` exactly when the floor does or the spread scaled by the tenths does. */
  lemma ThresholdIsExact(venues: nat, mad: nat, p: MadParams, x: u32)
    ensures venues < 3 ==> Threshold(venues, mad, p) == (p.dispersionMax, Unattributable)
    ensures venues >= 3 ==>
            && (Threshold(venues, mad, p).0 >= x <==> p.floor >= x || mad * p.kTenths >= 10 * x)
            && Threshold(venues, mad, p).1 == if mad * p.kTenths >= 10 * p.floor then Mad else Floor
  {
    MulLe(0, mad, p.kTenths);
    FloorGalois(mad * p.kTenths, 10, x);
    FloorGalois(mad * p.kTenths, 10, p.floor);
  }

  /** The signed distance from the median in deci-bps, toward zero; a quotient beyond 128 bits reads as the widest 32-bit value. */
  ghost predicate IsDeviation(x: u128, m: u128, deviation: int) {
    var n := AbsDiff(x, m) * 100_000;
    && (deviation > 0 ==> x > m) && (deviation < 0 ==> x < m)
    && if n >= POW128 * m then Abs(deviation) == U32_MAX
       else Abs(deviation) * m <= n && (Abs(deviation) < I64_MAX ==> n < (Abs(deviation) + 1) * m) && Abs(deviation) <= I64_MAX
  }

  lemma DeviationIsExact(x: u128, m: u128)
    requires 0 < m
    ensures IsDeviation(x, m, DeviationOf(x, m))
  {
    var n, d := AbsDiff(x, m) * DECIBPS, Abs(DeviationOf(x, m));
    FloorGalois(n, m, POW128);
    FloorGalois(n, m, d);
    FloorGalois(n, m, d + 1);
    if x == m { FloorGalois(0, m, 1); }
  }

  /** Whether a price is within the threshold of the median, compared exactly. */
  predicate IsNear(x: u128, m: u128, t: u32) {
    var n := AbsDiff(x, m) * 100_000;
    n < (t + 1) * m || (t == U32_MAX && n >= POW128 * m)
  }

  lemma NearMeansSurvives(x: u128, m: u128, t: u32)
    requires 0 < m
    ensures Abs(DeviationOf(x, m)) <= t <==> IsNear(x, m, t)
  {
    var n := AbsDiff(x, m) * DECIBPS;
    FloorGalois(n, m, t + 1);
    FloorGalois(n, m, POW128);
  }

  function Near(m: u128, t: u32): VenueQuote -> bool { (q: VenueQuote) => IsNear(q.micro, m, t) }
  function Far(m: u128, t: u32): VenueQuote -> bool { (q: VenueQuote) => !IsNear(q.micro, m, t) }
  function Origins(devs: seq<Deviation>): seq<VenueQuote> { Map((d: Deviation) => VenueQuote(d.venue, d.micro), devs) }

  /** The partition keeps the venues near the median and rejects the others, each in the order quoted. */
  lemma {:induction false} PartitionIsExact(quotes: seq<VenueQuote>, m: u128, t: u32)
    requires 0 < m
    ensures Origins(Filter(Survives(t), Deviations(quotes, m))) == Filter(Near(m, t), quotes)
    ensures Origins(Filter(Fails(t), Deviations(quotes, m))) == Filter(Far(m, t), quotes)
  {
    hide DeviationOf, IsNear;
    if quotes != [] {
      var devs, rest := Deviations(quotes, m), Deviations(quotes[1..], m);
      PartitionIsExact(quotes[1..], m, t);
      NearMeansSurvives(quotes[0].micro, m, t);
      assert devs == [devs[0]] + rest;
      FilterCons(Survives(t), devs[0], rest);
      FilterCons(Fails(t), devs[0], rest);
      OriginsCons(devs[0], Filter(Survives(t), rest));
      OriginsCons(devs[0], Filter(Fails(t), rest));
    }
  }

  lemma OriginsCons(d: Deviation, devs: seq<Deviation>)
    ensures Origins([d] + devs) == [VenueQuote(d.venue, d.micro)] + Origins(devs)
  {}

  /** The dispersion lies wherever a strict majority of the venues' distances lie. */
  lemma DispersionIsTypical(quotes: seq<VenueQuote>, p: MadParams, m: u128, a: nat, b: nat)
    requires Combine(quotes, p).Ok? && Combine(quotes, p).value.median == m
    requires 2 * Count(Magnitudes(Deviations(quotes, m)), a, b) > |quotes|
    ensures Min(a, U32_MAX) <= Combine(quotes, p).value.dispersion <= b
  {
    hide Combine, Median, Prices, Count, Deviations, Magnitudes, Threshold;
    CombineNumbers(quotes, p);
    MagnitudesCounted(quotes, m);
    MajorityHoldsMedian(Magnitudes(Deviations(quotes, m)), a, b);
  }

  lemma MagnitudesCounted(quotes: seq<VenueQuote>, m: u128)
    ensures |Magnitudes(Deviations(quotes, m))| == |quotes|
  {}

  lemma CombineNumbers(quotes: seq<VenueQuote>, p: MadParams)
    requires Combine(quotes, p).Ok?
    ensures var r := Combine(quotes, p).value;
            && 0 < r.median == Median(Prices(quotes)) <= U128_MAX
            && r.dispersion == Saturate32(MadOf(Deviations(quotes, r.median)))
            && (r.threshold, r.bound) == Threshold(|quotes|, MadOf(Deviations(quotes, r.median)), p)
  {
    hide Median, Prices, Deviations, Mean, Filter, Threshold, Micros, Sum, MadOf;
    MedianWithin(quotes);
  }

  /**
   An answered reference, number by number: it passed the gate; its survivors and rejects are the
   venues near and far from the median, in order, each with its exact deviation; its price is the
   floored mean of the survivors' prices; its threshold and the arm that set it scale its spread.
   */
  lemma ReferenceIsExact(quotes: seq<VenueQuote>, p: MadParams, x: u32)
    requires Combine(quotes, p).Ok?
    ensures var r := Combine(quotes, p).value;
            && r.dispersion <= p.dispersionMax && p.venuesMin <= |quotes|
            && r.micro * |r.used| <= Sum(Prices(Origins(r.used))) < (r.micro + 1) * |r.used|
            && 0 < r.median <= U128_MAX
            && Origins(r.used) == Filter(Near(r.median, r.threshold), quotes)
            && Origins(r.rejected) == Filter(Far(r.median, r.threshold), quotes)
            && (forall d :: d in r.used || d in r.rejected ==> IsDeviation(d.micro, r.median, d.decibps))
            && (|quotes| < 3 ==> r.threshold == p.dispersionMax && r.bound == Unattributable)
            && (|quotes| >= 3 ==>
                  var mad := Median(Magnitudes(Deviations(quotes, r.median)));
                  && (r.threshold >= x <==> p.floor >= x || mad * p.kTenths >= 10 * x)
                  && r.bound == if mad * p.kTenths >= 10 * p.floor then Mad else Floor)
  {
    hide Combine, Filter, Median, Prices, Deviations, DeviationOf, IsNear, IsDeviation, Threshold, Sum, Near, Far, Origins, Mean;
    CombineParts(quotes, p);
    CombineNumbers(quotes, p);
    CombineGates(quotes, p);
    var r := Combine(quotes, p).value;
    var devs := Deviations(quotes, r.median);
    PartitionIsExact(quotes, r.median, r.threshold);
    ThresholdIsExact(|quotes|, MadOf(devs), p, x);
    OriginsKeepPrices(r.used);
    MeanIsFloored(r.used);
    FilterMembers(Survives(r.threshold), devs);
    FilterMembers(Fails(r.threshold), devs);
    forall d | d in r.used || d in r.rejected ensures IsDeviation(d.micro, r.median, d.decibps) {
      DeviationsAreOfMedian(quotes, r.median, d);
      DeviationIsExact(d.micro, r.median);
    }
  }

  lemma OriginsKeepPrices(devs: seq<Deviation>)
    ensures Prices(Origins(devs)) == Micros(devs)
  {}

  /** Which gate an answered reference passed, and which one each refusal names. */
  lemma CombineGates(quotes: seq<VenueQuote>, p: MadParams)
    ensures match Combine(quotes, p)
            case Err(NoQuorum(have, need)) =>
              need == p.venuesMin && (if Saturate8(|quotes|) < need then have == Saturate8(|quotes|)
                                      else have == 0 && Median(Prices(quotes)) == 0)
            case Err(Dispersed(dispersion, limit, venues)) =>
              && p.venuesMin <= venues == Saturate8(|quotes|) && 0 < Median(Prices(quotes)) <= U128_MAX
              && dispersion == Saturate32(MadOf(Deviations(quotes, Median(Prices(quotes))))) > limit == p.dispersionMax
            case Err(QuorumLostToOutliers(survived, need)) =>
              Cleared(quotes, p) && survived == Saturate8(|Survivors(quotes, p)|) < need == p.venuesMin <= Saturate8(|quotes|)
            case Err(SumOverflow) => Cleared(quotes, p) && Sum(Micros(Survivors(quotes, p))) > U128_MAX
            case Err(DividedByZero) => Cleared(quotes, p) && p.venuesMin == 0 && Survivors(quotes, p) == []
            case Ok(r) =>
              && Cleared(quotes, p) && r.used == Survivors(quotes, p) != [] && p.venuesMin <= |r.used|
              && p.venuesMin <= |quotes| && r.dispersion <= p.dispersionMax
  {
    hide Median, Prices, Deviations, Mean, Filter, Threshold, Micros, Sum, MadOf;
    MedianWithin(quotes);
  }

  // ---- The sum of the survivors ----

  lemma {:induction false} MicrosWithin(devs: seq<Deviation>, x: nat)
    requires forall d :: d in devs ==> d.micro <= x
    ensures Sum(Micros(devs)) <= |devs| * x
  {
    if devs != [] {
      MicrosWithin(devs[1..], x);
      assert Micros(devs)[1..] == Micros(devs[1..]);
      assert |devs| * x == |devs[1..]| * x + x;
    }
  }

  /** The 128-bit sum overflows exactly past every gate with survivors too large to add. */
  lemma SumOverflowIsExact(quotes: seq<VenueQuote>, p: MadParams)
    ensures Combine(quotes, p) == Err(SumOverflow) <==>
            && p.venuesMin <= Saturate8(|quotes|) && Cleared(quotes, p)
            && p.venuesMin <= Saturate8(|Survivors(quotes, p)|)
            && Sum(Micros(Survivors(quotes, p))) > U128_MAX
  {
    hide Deviations, Mean, Filter, Threshold, Micros, Sum;
    MedianWithin(quotes);
  }

  lemma SurvivorsAreQuoted(quotes: seq<VenueQuote>, p: MadParams, d: Deviation)
    requires Cleared(quotes, p) && d in Survivors(quotes, p)
    ensures exists q :: q in quotes && q.micro == d.micro
  {
    hide Median, MadOf, Threshold;
    var m := Median(Prices(quotes));
    FilterMembers(Survives(Threshold(|quotes|, MadOf(Deviations(quotes, m)), p).0), Deviations(quotes, m));
    DeviationsAreOfMedian(quotes, m, d);
  }

  lemma SurvivorsAreFewer(quotes: seq<VenueQuote>, p: MadParams)
    requires Cleared(quotes, p)
    ensures |Survivors(quotes, p)| <= |quotes|
  {}

  /** It cannot while the number of venues times the highest price fits. */
  lemma SmallSectionsAdd(quotes: seq<VenueQuote>, p: MadParams, highest: nat)
    requires (forall q :: q in quotes ==> q.micro <= highest) && |quotes| * highest <= U128_MAX
    ensures Combine(quotes, p) != Err(SumOverflow)
  {
    hide Combine, Survivors, Cleared;
    SumOverflowIsExact(quotes, p);
    if Cleared(quotes, p) {
      var used := Survivors(quotes, p);
      forall d | d in used ensures d.micro <= highest { SurvivorsAreQuoted(quotes, p, d); }
      MicrosWithin(used, highest);
      SurvivorsAreFewer(quotes, p);
      MulLe(|used|, |quotes|, highest);
    }
  }

  /** `n` venues all at price `x`. */
  function Unanimous(n: nat, x: u128): (quotes: seq<VenueQuote>)
    ensures |quotes| == n && forall q :: q in quotes ==> q.micro == x
  {
    if n == 0 then [] else [VenueQuote(n, x)] + Unanimous(n - 1, x)
  }

  lemma {:induction false} FlatSum(xs: seq<nat>, x: nat)
    requires forall i :: 0 <= i < |xs| ==> xs[i] == x
    ensures Sum(xs) == |xs| * x
  {
    if xs != [] {
      FlatSum(xs[1..], x);
      assert |xs| * x == |xs[1..]| * x + x;
    }
  }

  lemma FlatMedian(xs: seq<nat>, x: nat)
    requires xs != [] && forall i :: 0 <= i < |xs| ==> xs[i] == x
    ensures Median(xs) == x
  {
    hide Median, Sort;
    MedianFrom(xs, xs);
  }

  lemma {:induction false} AllSurvive(devs: seq<Deviation>, t: u32)
    requires forall d :: d in devs ==> Abs(d.decibps) <= t
    ensures Filter(Survives(t), devs) == devs
  {
    if devs != [] {
      assert devs[0] in devs;
      AllSurvive(devs[1..], t);
    }
  }

  lemma NoDeviation(x: u128)
    requires 0 < x
    ensures DeviationOf(x, x) == 0
  {
    assert 0 / x == 0 by { FloorGalois(0, x, 0); FloorGalois(0, x, 1); }
  }

  lemma UnanimousSurvives(n: nat, x: u128, p: MadParams)
    requires 0 < n && 0 < x
    ensures Cleared(Unanimous(n, x), p)
    ensures var used := Survivors(Unanimous(n, x), p); |used| == n && Sum(Micros(used)) == n * x
  {
    hide Median, DeviationOf, Threshold, Unanimous;
    var quotes := Unanimous(n, x);
    FlatMedian(Prices(quotes), x);
    NoDeviation(x);
    var devs := Deviations(quotes, x);
    FlatMedian(Magnitudes(devs), 0);
    AllSurvive(devs, Threshold(n, 0, p).0);
    FlatSum(Micros(devs), x);
  }

  /** And that bound is tight: venues in full agreement overflow exactly when their number times the price does. */
  lemma UnanimousOverflow(n: nat, x: u128, p: MadParams)
    requires 0 < n && 0 < x && p.venuesMin <= Saturate8(n)
    ensures Combine(Unanimous(n, x), p) == Err(SumOverflow) <==> n * x > U128_MAX
  {
    hide Combine, Survivors, Cleared, Unanimous;
    SumOverflowIsExact(Unanimous(n, x), p);
    UnanimousSurvives(n, x, p);
  }

  /** Two venues at 2^127 are enough, whatever the filter's parameters, unless more are asked for. */
  lemma TwoVenuesOverflow(p: MadParams)
    requires p.venuesMin <= 2
    ensures Combine(Unanimous(2, POW127), p) == Err(SumOverflow)
  {
    hide Combine, Unanimous;
    UnanimousOverflow(2, POW127, p);
  }

  // ---- Two venues ----

  lemma MedianOfOrderedPair(x: nat, y: nat)
    requires x <= y
    ensures Median([x, y]) == (x + y) / 2
  {
    hide Median, Sort;
    MedianFrom([x, y], [x, y]);
  }

  lemma MedianOfPair(x: nat, y: nat)
    ensures Median([x, y]) == (x + y) / 2
  {
    hide Median;
    if x <= y {
      MedianOfOrderedPair(x, y);
    } else {
      MedianOfOrderedPair(y, x);
      assert [x, y] == [x] + [y] && [y, x] == [y] + [x];
      MedianForgetsOrder([x, y], [y, x]);
    }
  }

  lemma MedianOfTwo(a: VenueQuote, b: VenueQuote)
    ensures Median(Prices([a, b])) == (a.micro + b.micro) / 2
  {
    hide Median;
    var x: nat, y: nat := a.micro, b.micro;
    assert Prices([a, b]) == [x, y];
    MedianOfPair(x, y);
  }

  /** Around their own midpoint no price is further than one whole median and a unit, and the higher is the further. */
  lemma PairMagnitudes(lo: u128, hi: u128, m: u128, limit: u32)
    requires lo <= hi && 0 < m == (lo + hi) / 2
    ensures Abs(DeviationOf(lo, m)) <= Abs(DeviationOf(hi, m))
    ensures Abs(DeviationOf(hi, m)) <= limit <==> (hi - m) * DECIBPS < (limit + 1) * m
  {
    var d, e := m - lo, hi - m;
    assert d <= e <= m + 1;
    FloorMono(d * DECIBPS, e * DECIBPS, m);
    MulLe(e, m + 1, DECIBPS);
    FloorGalois(e * DECIBPS, m, 2 * DECIBPS + 1);
    FloorGalois(e * DECIBPS, m, limit + 1);
  }

  /** Both survive unless the further one is beyond the limit; the nearer one always survives the cleared gate. */
  lemma PairSurvivors(a: VenueQuote, b: VenueQuote, p: MadParams)
    requires Cleared([a, b], p)
    ensures var m := (a.micro + b.micro) / 2;
            |Survivors([a, b], p)| ==
            if Abs(DeviationOf(a.micro, m)) <= p.dispersionMax && Abs(DeviationOf(b.micro, m)) <= p.dispersionMax
            then 2 else 1
  {
    hide Median, DeviationOf;
    var m := (a.micro + b.micro) / 2;
    MedianOfTwo(a, b);
    var devs := Deviations([a, b], m);
    var g: nat, h: nat := Abs(DeviationOf(a.micro, m)), Abs(DeviationOf(b.micro, m));
    assert Magnitudes(devs) == [g, h];
    assert Magnitudes(devs)[1..] == [h];
    MedianOfPair(g, h);
    SurvivorsCounted(devs, p.dispersionMax);
    PairWithin(a, b, p);
  }

  lemma PairWithin(a: VenueQuote, b: VenueQuote, p: MadParams)
    requires 0 < (a.micro + b.micro) / 2
    ensures var m := (a.micro + b.micro) / 2;
            Abs(DeviationOf(a.micro, m)) <= 2 * DECIBPS && Abs(DeviationOf(b.micro, m)) <= 2 * DECIBPS
  {
    var lo, hi, m := Min(a.micro, b.micro), Max(a.micro, b.micro), (a.micro + b.micro) / 2;
    MulLe(hi - m, m + 1, DECIBPS);
    PairMagnitudes(lo, hi, m, 2 * DECIBPS);
  }

  /**
   Two venues past the dispersion gate stand or fall together exactly when the higher price is within
   the limit of the rounded-down midpoint; otherwise the lower one alone survives.
   */
  lemma TwoVenuesStandTogether(a: VenueQuote, b: VenueQuote, p: MadParams)
    requires Cleared([a, b], p)
    ensures var m := (a.micro + b.micro) / 2;
            |Survivors([a, b], p)| ==
            if (Max(a.micro, b.micro) - m) * DECIBPS < (p.dispersionMax + 1) * m then 2 else 1
  {
    hide Survivors, DeviationOf, Median;
    MedianOfTwo(a, b);
    PairSurvivors(a, b, p);
    PairMagnitudes(Min(a.micro, b.micro), Max(a.micro, b.micro), (a.micro + b.micro) / 2, p.dispersionMax);
  }

  /** An odd distance breaks it at the limit: one venue is kept and the other rejected. */
  lemma TwoVenuesCanPart()
    ensures var p := MadParams(1, 40, 20, 250);
            var r := Combine([VenueQuote(0, 99_750), VenueQuote(1, 100_251)], p);
            r.Ok? && |r.value.used| == 1 && |r.value.rejected| == 1 && r.value.micro == 99_750
  {
    hide Combine, Median, DeviationOf;
    var a, b, p := VenueQuote(0, 99_750), VenueQuote(1, 100_251), MadParams(1, 40, 20, 250);
    MedianOfTwo(a, b);
    var d0, d1 := Deviation(0, 99_750, -250), Deviation(1, 100_251, 251);
    OddPairDeviations();
    assert Deviations([a, b], 100_000) == [d0, d1];
    assert Magnitudes([d0, d1]) == [250, 251];
    MedianOfPair(250, 251);
    OneOfTwoSurvives(d0, d1, 250);
    assert Micros([d0]) == [99_750] && Sum([99_750]) == 99_750;
    ClearedOutcome([a, b], p);
  }

  lemma OddPairDeviations()
    ensures DeviationOf(99_750, 100_000) == -250 && DeviationOf(100_251, 100_000) == 251
  {}

  lemma OneOfTwoSurvives(d0: Deviation, d1: Deviation, t: u32)
    requires Abs(d0.decibps) <= t < Abs(d1.decibps)
    ensures Filter(Survives(t), [d0, d1]) == [d0] && Filter(Fails(t), [d0, d1]) == [d1]
  {
    assert [d0, d1][1..] == [d1] && [d1][1..] == [];
  }

  // ---- The reference ----

  lemma {:induction false} SumBounds(xs: seq<nat>, lo: nat, hi: nat)
    requires forall i :: 0 <= i < |xs| ==> lo <= xs[i] <= hi
    ensures lo * |xs| <= Sum(xs) <= hi * |xs|
  {
    if xs != [] {
      var n: nat := |xs| - 1;
      SumBounds(xs[1..], lo, hi);
      assert lo * (n + 1) == lo * n + lo && hi * (n + 1) == hi * n + hi;
    }
  }

  /** The mean lies inside any interval that holds every survivor. */
  lemma MeanInside(used: seq<Deviation>, lo: nat, hi: nat)
    requires used != [] && forall d :: d in used ==> lo <= d.micro <= hi
    ensures lo <= Mean(used) <= hi
  {
    var xs := Micros(used);
    forall i | 0 <= i < |xs| ensures lo <= xs[i] <= hi { assert used[i] in used; }
    SumBounds(xs, lo, hi);
    FloorGalois(Sum(xs), |used|, lo);
    FloorGalois(Sum(xs), |used|, hi + 1);
    assert (hi + 1) * |used| == hi * |used| + |used|;
  }

  /** The reference is the floor of the exact mean. */
  lemma MeanIsFloored(used: seq<Deviation>)
    requires used != []
    ensures Mean(used) * |used| <= Sum(Micros(used)) < (Mean(used) + 1) * |used|
  {
    FloorBounds(Sum(Micros(used)), |used|);
  }

  /**
   A deviation within the threshold is a distance strictly under one more deci-bp of the median: always
   below the widest threshold, and there as long as the quotient itself fits 128 bits.
   */
  lemma WithinThreshold(x: u128, median: u128, t: u32)
    requires 0 < median && Abs(DeviationOf(x, median)) <= t
    requires t < U32_MAX || AbsDiff(x, median) * DECIBPS < POW128 * median
    ensures AbsDiff(x, median) * DECIBPS < (t + 1) * median
  {
    FloorGalois(AbsDiff(x, median) * DECIBPS, median, t + 1);
    FloorGalois(AbsDiff(x, median) * DECIBPS, median, POW128);
  }

  /** No venue's deviation quotient leaves 128 bits. */
  ghost predicate QuotientsFit(quotes: seq<VenueQuote>, median: nat) {
    forall q :: q in quotes ==> AbsDiff(q.micro, median) * DECIBPS < POW128 * median
  }

  /** The distance bound is an interval around the median. */
  lemma NearInterval(median: nat, t: nat, lo: nat, x: nat, hi: nat)
    requires lo <= x <= hi
    requires AbsDiff(lo, median) * DECIBPS < (t + 1) * median && AbsDiff(hi, median) * DECIBPS < (t + 1) * median
    ensures AbsDiff(x, median) * DECIBPS < (t + 1) * median
  {
    if x < median { MulLe(AbsDiff(x, median), AbsDiff(lo, median), DECIBPS); }
    else { MulLe(AbsDiff(x, median), AbsDiff(hi, median), DECIBPS); }
  }

  lemma {:induction false} LeastAndGreatest(used: seq<Deviation>) returns (lo: Deviation, hi: Deviation)
    requires used != []
    ensures lo in used && hi in used && forall d :: d in used ==> lo.micro <= d.micro <= hi.micro
  {
    lo, hi := used[0], used[0];
    if |used| > 1 {
      var l, h := LeastAndGreatest(used[1..]);
      if l.micro < lo.micro { lo := l; }
      if h.micro > hi.micro { hi := h; }
      assert forall d :: d in used ==> d == used[0] || d in used[1..];
    }
  }

  /**
   Every survivor is within the threshold of the median, the reference lies between the least and the
   greatest survivor, and strictly within one more deci-bp than the threshold of the median; nobody
   is lost, and everyone rejected is beyond the threshold. The sum behind the reference fits 128 bits.
   */
  lemma ReferenceIsRobust(quotes: seq<VenueQuote>, p: MadParams)
    requires Combine(quotes, p).Ok?
    ensures var r := Combine(quotes, p).value;
            && |r.used| + |r.rejected| == |quotes| && |r.used| >= p.venuesMin
            && Sum(Micros(r.used)) <= U128_MAX
            && r.micro * |r.used| <= Sum(Micros(r.used)) < (r.micro + 1) * |r.used|
            && r.median == Median(Prices(quotes)) > 0
            && (forall d :: d in r.used ==> Abs(d.decibps) <= r.threshold)
            && (forall d :: d in r.rejected ==> Abs(d.decibps) > r.threshold)
            && (exists lo, hi :: lo in r.used && hi in r.used && lo.micro <= r.micro <= hi.micro)
            && (r.threshold < U32_MAX || QuotientsFit(quotes, r.median) ==> AbsDiff(r.micro, r.median) * DECIBPS < (r.threshold + 1) * r.median)
  {
    hide Combine, Filter, Median, Prices, Deviations, Mean, DeviationOf, AbsDiff;
    CombineParts(quotes, p);
    var r := Combine(quotes, p).value;
    SurvivorsCounted(Deviations(quotes, r.median), r.threshold);
    FilterMembers(Survives(r.threshold), Deviations(quotes, r.median));
    FilterMembers(Fails(r.threshold), Deviations(quotes, r.median));
    assert forall d :: d in r.used ==> Survives(r.threshold)(d);
    assert forall d :: d in r.rejected ==> Fails(r.threshold)(d);
    var lo, hi := LeastAndGreatest(r.used);
    MeanInside(r.used, lo.micro, hi.micro);
    MeanIsFloored(r.used);
    if r.threshold < U32_MAX || QuotientsFit(quotes, r.median) {
      SurvivorNear(quotes, r.median, r.threshold, lo);
      SurvivorNear(quotes, r.median, r.threshold, hi);
      NearInterval(r.median, r.threshold, lo.micro, r.micro, hi.micro);
    }
  }

  lemma SurvivorNear(quotes: seq<VenueQuote>, median: u128, t: u32, d: Deviation)
    requires 0 < median && (t < U32_MAX || QuotientsFit(quotes, median)) && d in Filter(Survives(t), Deviations(quotes, median))
    ensures AbsDiff(d.micro, median) * DECIBPS < (t + 1) * median
  {
    hide DeviationOf, AbsDiff, Deviations;
    FilterMembers(Survives(t), Deviations(quotes, median));
    assert Survives(t)(d);
    DeviationsAreOfMedian(quotes, median, d);
    WithinThreshold(d.micro, median, t);
  }

  /** The parts of a combined reference. */
  lemma CombineParts(quotes: seq<VenueQuote>, p: MadParams)
    requires Combine(quotes, p).Ok?
    ensures var r := Combine(quotes, p).value;
            && 0 < r.median == Median(Prices(quotes)) <= U128_MAX
            && r.used == Filter(Survives(r.threshold), Deviations(quotes, r.median))
            && r.rejected == Filter(Fails(r.threshold), Deviations(quotes, r.median))
            && r.used != [] && r.micro == Mean(r.used) && |r.used| >= p.venuesMin
            && Sum(Micros(r.used)) <= U128_MAX
            && |Deviations(quotes, r.median)| == |quotes|
  {
    MedianWithin(quotes);
  }

  lemma DeviationsAreOfMedian(quotes: seq<VenueQuote>, median: u128, d: Deviation)
    requires d in Deviations(quotes, median)
    ensures d.decibps == DeviationOf(d.micro, median)
    ensures exists q :: q in quotes && q.micro == d.micro
  {
    var devs := Deviations(quotes, median);
    var i :| 0 <= i < |devs| && devs[i] == d;
    assert quotes[i] in quotes;
  }

  // ---- Venue order ----

  lemma MedianForgetsOrder(xs: seq<nat>, ys: seq<nat>)
    requires Permuted(xs, ys)
    ensures Median(xs) == Median(ys)
  {
    SortForgetsOrder(xs, ys);
  }

  /** The two results differ at most in the order of the venues they list. */
  ghost predicate SameReference(a: Result<Reference, ReferenceError>, b: Result<Reference, ReferenceError>) {
    match (a, b)
    case (Err(e), Err(f)) => e == f
    case (Ok(r), Ok(s)) =>
      && r.micro == s.micro && r.median == s.median && r.dispersion == s.dispersion
      && r.threshold == s.threshold && r.bound == s.bound
      && Permuted(r.used, s.used) && Permuted(r.rejected, s.rejected)
    case _ => false
  }

  /** The reference, or the refusal, does not depend on the order the venues are listed in. */
  lemma CombineForgetsOrder(quotes: seq<VenueQuote>, quotes': seq<VenueQuote>, p: MadParams)
    requires Permuted(quotes, quotes')
    ensures SameReference(Combine(quotes, p), Combine(quotes', p))
  {
    hide Median, Prices, Deviations, Mean, Filter, Threshold, MadOf;
    SameLength(quotes, quotes');
    MedianWithin(quotes);
    MedianWithin(quotes');
    PricesForgetOrder(quotes, quotes');
    var m := Median(Prices(quotes));
    if m > 0 {
      DeviationsForgetOrder(quotes, quotes', m);
      var devs, devs' := Deviations(quotes, m), Deviations(quotes', m);
      MadForgetsOrder(devs, devs');
      var t := Threshold(|quotes|, MadOf(devs), p).0;
      FilterPermuted(Survives(t), devs, devs');
      FilterPermuted(Fails(t), devs, devs');
      MeanForgetsOrder(Filter(Survives(t), devs), Filter(Survives(t), devs'));
    }
  }

  lemma PricesForgetOrder(quotes: seq<VenueQuote>, quotes': seq<VenueQuote>)
    requires Permuted(quotes, quotes')
    ensures Median(Prices(quotes)) == Median(Prices(quotes'))
  {
    MapPermuted((q: VenueQuote) => q.micro as nat, quotes, quotes');
    MedianForgetsOrder(Prices(quotes), Prices(quotes'));
  }

  lemma MadForgetsOrder(devs: seq<Deviation>, devs': seq<Deviation>)
    requires Permuted(devs, devs')
    ensures MadOf(devs) == MadOf(devs')
  {
    MapPermuted((d: Deviation) => Abs(d.decibps), devs, devs');
    MedianForgetsOrder(Magnitudes(devs), Magnitudes(devs'));
  }

  lemma DeviationsForgetOrder(quotes: seq<VenueQuote>, quotes': seq<VenueQuote>, m: u128)
    requires Permuted(quotes, quotes')
    ensures Permuted(Deviations(quotes, m), Deviations(quotes', m))
  {
    MapPermuted((q: VenueQuote) => Deviation(q.venue, q.micro, DeviationOf(q.micro, m)), quotes, quotes');
  }

  lemma MeanForgetsOrder(used: seq<Deviation>, used': seq<Deviation>)
    requires Permuted(used, used')
    ensures |used| == |used'| && Sum(Micros(used)) == Sum(Micros(used'))
    ensures used != [] ==> Mean(used) == Mean(used')
  {
    SameLength(used, used');
    MapPermuted((d: Deviation) => d.micro as nat, used, used');
    SumPermuted(Micros(used), Micros(used'));
  }
}
