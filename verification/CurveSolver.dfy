/**
 The quote functions as the engine runs them: numerators in 256-bit limbs, and the two inverted
 directions by endpoint seeds, three rounds of two-sided refinement and bisection. Each method is
 proved equal to its specification in `CurveSpec`.
 */
module CurveSolver {
  import opened Words
  import opened Errors
  import opened Arithmetic
  import opened WideMath
  import opened CurveSpec

  // ---- The domain the callers promise ----

  ghost predicate LegDomain(near: nat, far: nat, capacity: nat, used: nat, scale: nat) {
    && near <= PRICE_MAX && far <= PRICE_MAX
    && 0 < capacity <= AMOUNT_MAX && used <= capacity
    && 1 <= scale < POW127
  }

  /** Arbitrary 128-bit prices over an amount and a scale in their domains. */
  ghost predicate BidWords(leg: BidLeg) {
    && leg.minBid < POW128 && leg.maxBid < POW128
    && 0 < leg.capacity <= AMOUNT_MAX && leg.used <= leg.capacity
    && 1 <= leg.scale < POW127
  }

  /** And the gross of the whole room fits its words, as it does throughout the price domain. */
  ghost predicate BidDomain(leg: BidLeg) {
    BidWords(leg) && (leg.minBid <= leg.maxBid ==> BidRefusal(leg, leg.Room()) == None)
  }

  lemma PriceDomainFits(leg: BidLeg)
    requires LegDomain(leg.minBid, leg.maxBid, leg.capacity, leg.used, leg.scale)
    ensures BidDomain(leg)
  {
    if leg.minBid <= leg.maxBid {
      var q := leg.Room();
      MulBounds(2 * leg.maxBid, 2 * PRICE_MAX, leg.capacity, AMOUNT_MAX);
      MulLe(0, leg.Span(), 2 * leg.used + q);
      BidFactorFloor(leg, q);
      MulBounds(leg.Factor(q), 2 * PRICE_MAX * AMOUNT_MAX, q, AMOUNT_MAX);
    }
  }

  ghost predicate AskDomain(leg: AskLeg) {
    LegDomain(leg.minAsk, leg.maxAsk, leg.capacity, leg.used, leg.scale)
  }

  function CheckedDouble(a: u128): Option<u128> {
    if 2 * a < POW128 then Some(2 * a) else None
  }

  /** `2u + q`. */
  function TwicePlus(u: u128, q: u128): Option<u128> {
    match CheckedDouble(u) case None => None case Some(d) => CheckedAdd(d, q)
  }

  /** `2*C*S`. */
  function LimbDenominator(c: u128, scale: u128): Option<U256> {
    match CheckedDouble(c) case None => None case Some(d) => Some(MulU128(d, scale))
  }

  // ---- The two numerators over limbs ----

  /** Short of the last product, no intermediate of a bid quote leaves 256 bits. */
  lemma BidIntermediatesFit(leg: BidLeg, q: nat)
    requires BidWords(leg) && leg.minBid <= leg.maxBid && q <= leg.Room()
    ensures 0 <= leg.Factor(q) && 0 <= leg.Numerator(q)
    ensures 0 < leg.Denominator() < POW256
  {
    BidFactorFloor(leg, q);
    MulLe(0, leg.Factor(q), q);
    MulBounds(2 * leg.capacity, 2 * AMOUNT_MAX, leg.scale, POW127);
    DenominatorPositive(leg.capacity, leg.scale);
  }

  /** What fits for the whole room fits for every size in it. */
  lemma SmallerSizesFit(leg: BidLeg, q: nat)
    requires BidDomain(leg) && leg.minBid <= leg.maxBid && q <= leg.Room()
    ensures BidRefusal(leg, q) == None
  {
    BidNumeratorMono(leg, q, leg.Room());
  }

  lemma AskIntermediatesFit(leg: AskLeg, q: nat)
    requires AskDomain(leg) && leg.minAsk <= leg.maxAsk && q <= leg.Room()
    ensures 0 <= 2 * leg.minAsk * leg.capacity < POW256
    ensures 0 <= leg.Factor(q) < POW256 && 0 <= leg.Numerator(q) < POW256 - 1
    ensures 0 < leg.Denominator() < POW256
  {
    var a, w := 2 * leg.minAsk, leg.Span();
    MulBounds(a, 2 * PRICE_MAX, leg.capacity, AMOUNT_MAX);
    MulBounds(w, PRICE_MAX, 2 * leg.used + q, 2 * AMOUNT_MAX);
    MulBounds(leg.Factor(q), 4 * PRICE_MAX * AMOUNT_MAX, q, AMOUNT_MAX);
    MulBounds(2 * leg.capacity, 2 * AMOUNT_MAX, leg.scale, POW127);
    DenominatorPositive(leg.capacity, leg.scale);
  }

  /** The subtraction behind the bid factor. */
  lemma BidFactorParts(leg: BidLeg, q: nat)
    requires BidWords(leg) && leg.minBid <= leg.maxBid && q <= leg.Room()
    ensures 0 <= leg.Span() * (2 * leg.used + q) < POW256
    ensures (2 * leg.maxBid) * leg.capacity - leg.Span() * (2 * leg.used + q) == leg.Factor(q)
    ensures leg.Factor(q) * q == leg.Numerator(q) && (2 * leg.capacity) * leg.scale == leg.Denominator()
  {
    MulBounds(leg.Span(), U128_MAX, 2 * leg.used + q, 2 * AMOUNT_MAX);
  }

  lemma AskFactorParts(leg: AskLeg, q: nat)
    requires AskDomain(leg) && leg.minAsk <= leg.maxAsk && q <= leg.Room()
    ensures 0 <= leg.Span() * (2 * leg.used + q) < POW256
    ensures (2 * leg.minAsk) * leg.capacity + leg.Span() * (2 * leg.used + q) == leg.Factor(q)
    ensures leg.Factor(q) * q == leg.Numerator(q) && (2 * leg.capacity) * leg.scale == leg.Denominator()
  {
    MulBounds(leg.Span(), PRICE_MAX, 2 * leg.used + q, 2 * AMOUNT_MAX);
  }

  /** `q * (2*maxBid*C - W*(2u + q))` over limbs. */
  method BidNumerator(q: u128, leg: BidLeg) returns (r: Result<U256, CurveError>)
    requires BidWords(leg) && q <= leg.Room()
    ensures leg.maxBid < leg.minBid ==> r == Err(ArithmeticPanic)
    ensures leg.minBid <= leg.maxBid ==>
            match BidRefusal(leg, q)
            case Some(e) => r == Err(e)
            case None => r.Ok? && r.value.Value() == leg.Numerator(q)
  {
    hide BidLeg.Factor, BidLeg.Numerator, BidLeg.Denominator;
    var span := CheckedSub(leg.maxBid, leg.minBid);
    if span.None? { return Err(ArithmeticPanic); }
    BidIntermediatesFit(leg, q);
    BidFactorParts(leg, q);
    var doubled := CheckedDouble(leg.maxBid);
    if doubled.None? { return Err(DomainOverflow); }
    var gross := MulU128(doubled.value, leg.capacity);
    var numer := TwicePlus(leg.used, q);
    if numer.None? { return Err(DomainOverflow); }
    var impact := MulU128(span.value, numer.value);
    var factor := gross.Minus(impact);
    if factor.None? { return Err(ArithmeticPanic); }
    var num := factor.value.Times(q);
    if num.None? { return Err(ArithmeticPanic); }
    return Ok(num.value);
  }

  method BidGross(q: u128, leg: BidLeg) returns (r: Result<U256, CurveError>)
    requires BidWords(leg) && q <= leg.Room()
    ensures leg.maxBid < leg.minBid ==> r == Err(ArithmeticPanic)
    ensures leg.minBid <= leg.maxBid ==>
            match BidRefusal(leg, q)
            case Some(e) => r == Err(e)
            case None => r.Ok? && r.value.Value() == leg.Gross(q)
  {
    hide BidLeg.Factor, BidLeg.Numerator;
    var num :- BidNumerator(q, leg);
    BidIntermediatesFit(leg, q);
    BidFactorParts(leg, q);
    var den := LimbDenominator(leg.capacity, leg.scale);
    if den.None? { return Err(DomainOverflow); }
    var qr := DivRemLoop(num, den.value);
    if qr.None? { return Err(ArithmeticPanic); }
    return Ok(qr.value.0);
  }

  /** `q * (2*minAsk*C + W*(2u + q))` over limbs. */
  method AskNumerator(q: u128, leg: AskLeg) returns (r: Result<U256, CurveError>)
    requires AskDomain(leg) && q <= leg.Room()
    ensures leg.maxAsk < leg.minAsk ==> r == Err(ArithmeticPanic)
    ensures leg.minAsk <= leg.maxAsk ==> r.Ok? && r.value.Value() == leg.Numerator(q)
  {
    hide AskLeg.Factor, AskLeg.Numerator, AskLeg.Denominator;
    var span := CheckedSub(leg.maxAsk, leg.minAsk);
    if span.None? { return Err(ArithmeticPanic); }
    AskIntermediatesFit(leg, q);
    AskFactorParts(leg, q);
    var doubled := CheckedDouble(leg.minAsk);
    if doubled.None? { return Err(DomainOverflow); }
    var base := MulU128(doubled.value, leg.capacity);
    var numer := TwicePlus(leg.used, q);
    if numer.None? { return Err(DomainOverflow); }
    var impact := MulU128(span.value, numer.value);
    var factor := base.Plus(impact);
    if factor.None? { return Err(DomainOverflow); }
    var num := factor.value.Times(q);
    if num.None? { return Err(ArithmeticPanic); }
    return Ok(num.value);
  }

  method AskCost(q: u128, leg: AskLeg) returns (r: Result<U256, CurveError>)
    requires AskDomain(leg) && q <= leg.Room()
    ensures leg.maxAsk < leg.minAsk ==> r == Err(ArithmeticPanic)
    ensures leg.minAsk <= leg.maxAsk ==> r.Ok? && r.value.Value() == leg.Cost(q)
  {
    hide AskLeg.Factor, AskLeg.Numerator;
    var num :- AskNumerator(q, leg);
    AskIntermediatesFit(leg, q);
    AskFactorParts(leg, q);
    var den := LimbDenominator(leg.capacity, leg.scale);
    if den.None? { return Err(DomainOverflow); }
    QuotientNoLarger(num.Value(), den.value.Value());
    var qr := DivRemLoop(num, den.value);
    if qr.None? { return Err(ArithmeticPanic); }
    if qr.value.1.IsZero() { return Ok(qr.value.0); }
    var up := qr.value.0.Plus(U256(0, 1));
    if up.None? { return Err(ArithmeticPanic); }
    return Ok(up.value);
  }

  method SeedCeil(a: u128, b: u128, d: u128) returns (r: u128)
    requires d != 0
    ensures a * b >= 0 && r == Min(CeilDiv(a * b, d), U128_MAX)
  {
    MulLe(0, a, b);
    var q := DivCeilU256(MulU128(a, b), U256(0, d));
    return match q case None => U128_MAX case Some(v) => v;
  }

  method SeedFloor(a: u128, b: u128, d: u128) returns (r: u128)
    requires d != 0
    ensures r == Min((a * b) / d, U128_MAX)
  {
    var q := DivFloorU256(MulU128(a, b), U256(0, d));
    return match q case None => U128_MAX case Some(v) => v;
  }

  // ---- Bid side, exact output ----

  /** `hi` delivers the target and nothing below `lo` does. */
  ghost predicate BidBracket(leg: BidLeg, y: nat, lo: nat, hi: nat) {
    leg.Live() && 1 <= lo <= hi <= leg.Room() && Delivers(leg, hi, y) && !Delivers(leg, lo - 1, y)
  }

  /** An average factor of at most `2c * p` scales a bound on `q * p` up to the numerator. */
  lemma PricedAtMost(q: nat, f: int, c2: int, p: int, v: int, s: int, den: int)
    requires 0 < c2 && f <= c2 * p && den == c2 * s
    ensures q * p <= v * s ==> q * f <= v * den
    ensures q * p < v * s ==> q * f < v * den
  {
    MulLe(f, c2 * p, q);
    assert (c2 * p) * q == (q * p) * c2;
    assert v * den == (v * s) * c2 by { assert v * (c2 * s) == (v * s) * c2; }
    if q * p < v * s { MulLt(q * p, v * s, c2); }
  }

  lemma PricedAtLeast(q: nat, f: int, c2: int, p: int, v: int, s: int, den: int)
    requires 0 < c2 && f >= c2 * p && den == c2 * s
    ensures q * p >= v * s ==> q * f >= v * den
    ensures q * p > v * s ==> q * f > v * den
  {
    MulLe(c2 * p, f, q);
    assert (c2 * p) * q == (q * p) * c2;
    assert v * den == (v * s) * c2 by { assert v * (c2 * s) == (v * s) * c2; }
    if q * p > v * s { MulLt(v * s, q * p, c2); }
    if q * p == v * s { assert q * p * c2 == v * s * c2; }
  }

  /** Priced at most `p` throughout, a size worth less than `y` at `p` cannot deliver `y`. */
  lemma TooSmallAtPrice(leg: BidLeg, y: nat, q: nat, p: nat)
    requires leg.Live() && q <= leg.Room()
    requires leg.Factor(q) <= 2 * leg.capacity * p && q * p < y * leg.scale
    ensures !Delivers(leg, q, y)
  {
    hide BidLeg.Factor;
    GrossReaches(leg, q, y);
    PricedAtMost(q, leg.Factor(q), 2 * leg.capacity, p, y, leg.scale, leg.Denominator());
  }

  /** Priced at least `p` throughout, a size worth `y` at `p` delivers `y`. */
  lemma EnoughAtPrice(leg: BidLeg, y: nat, q: nat, p: nat)
    requires leg.Live() && q <= leg.Room()
    requires leg.Factor(q) >= 2 * leg.capacity * p && q * p >= y * leg.scale
    ensures Delivers(leg, q, y)
  {
    hide BidLeg.Factor;
    GrossReaches(leg, q, y);
    PricedAtLeast(q, leg.Factor(q), 2 * leg.capacity, p, y, leg.scale, leg.Denominator());
  }

  /** A floored drift is at most the drift anywhere later; a ceiled one at least anywhere earlier. */
  lemma FlooredDrift(w: nat, at: nat, later: nat, d: nat)
    requires 0 < d && at <= later && 0 <= w * at
    ensures ((w * at) / d) * d <= w * later
  {
    FloorBounds(w * at, d);
    MulLe(at, later, w);
  }

  lemma CeiledDrift(w: nat, at: nat, earlier: nat, d: nat)
    requires 0 < d && earlier <= at && 0 <= w * at
    ensures w * earlier <= CeilDiv(w * at, d) * d
  {
    CeilBounds(w * at, d);
    MulLe(earlier, at, w);
  }

  /** The price at the start of an interval, drift floored, is never below the interval's average. */
  lemma BidPriceAbove(leg: BidLeg, at: nat, q: nat, drift: nat)
    requires leg.Live() && at <= q && leg.Span() * (2 * leg.used + at) >= 0
    requires drift == (leg.Span() * (2 * leg.used + at)) / (2 * leg.capacity)
    ensures leg.Factor(q) <= 2 * leg.capacity * (leg.maxBid - drift)
  {
    FlooredDrift(leg.Span(), 2 * leg.used + at, 2 * leg.used + q, 2 * leg.capacity);
    assert 2 * leg.capacity * (leg.maxBid - drift) == 2 * leg.maxBid * leg.capacity - drift * (2 * leg.capacity);
  }

  /** The price at the end of an interval, drift ceiled, is never above the interval's average. */
  lemma BidPriceBelow(leg: BidLeg, at: nat, q: nat, drift: nat)
    requires leg.Live() && q <= at <= leg.Room() && leg.Span() * (2 * leg.used + at) >= 0
    requires drift == CeilDiv(leg.Span() * (2 * leg.used + at), 2 * leg.capacity)
    ensures leg.Factor(q) >= 2 * leg.capacity * (leg.maxBid - drift)
  {
    CeiledDrift(leg.Span(), 2 * leg.used + at, 2 * leg.used + q, 2 * leg.capacity);
    assert 2 * leg.capacity * (leg.maxBid - drift) == 2 * leg.maxBid * leg.capacity - drift * (2 * leg.capacity);
  }

  /** A ceiled seed at a price the sale never exceeds is a valid new `lo`. */
  lemma RaiseBidLow(leg: BidLeg, y: nat, lo: nat, hi: nat, p: nat, seed: nat)
    requires BidBracket(leg, y, lo, hi) && 0 < p && lo < seed <= hi
    requires seed <= CeilDiv(y * leg.scale, p) && leg.Factor(seed - 1) <= 2 * leg.capacity * p
    ensures BidBracket(leg, y, seed, hi)
  {
    hide BidLeg.Factor, Delivers;
    CeilGalois(y * leg.scale, p, seed - 1);
    TooSmallAtPrice(leg, y, seed - 1, p);
  }

  /** A ceiled seed at a price the sale never undercuts is a valid new `hi`. */
  lemma LowerBidHigh(leg: BidLeg, y: nat, lo: nat, hi: nat, p: nat, seed: nat)
    requires BidBracket(leg, y, lo, hi) && 0 < p && lo <= seed <= hi
    requires seed >= CeilDiv(y * leg.scale, p) && leg.Factor(seed) >= 2 * leg.capacity * p
    ensures BidBracket(leg, y, lo, seed)
  {
    hide BidLeg.Factor, Delivers;
    CeilGalois(y * leg.scale, p, seed);
    EnoughAtPrice(leg, y, seed, p);
  }

  /** One probe of the bisection. */
  lemma ProbeBid(leg: BidLeg, y: nat, lo: nat, hi: nat, mid: nat)
    requires BidBracket(leg, y, lo, hi) && lo <= mid < hi
    ensures if leg.Gross(mid) >= y then BidBracket(leg, y, lo, mid) else BidBracket(leg, y, mid + 1, hi)
  {}

  method SeedBidBracket(leg: BidLeg, amountOut: u128, lo0: nat, hi0: nat) returns (lo: nat, hi: nat)
    requires BidDomain(leg) && BidBracket(leg, amountOut, lo0, hi0)
    ensures BidBracket(leg, amountOut, lo, hi) && lo0 <= lo && hi <= hi0
  {
    hide Delivers;
    lo, hi := lo0, hi0;
    if leg.maxBid != 0 {
      var seed := SeedCeil(amountOut, leg.scale, leg.maxBid);
      if seed > lo && seed <= hi {
        MulLe(0, leg.Span(), 2 * leg.used + (seed - 1));
        RaiseBidLow(leg, amountOut, lo, hi, leg.maxBid, seed);
        lo := seed;
      }
    }
    if leg.minBid != 0 {
      var seed := SeedCeil(amountOut, leg.scale, leg.minBid);
      if seed >= lo && seed < hi {
        BidFactorFloor(leg, seed);
        LowerBidHigh(leg, amountOut, lo, hi, leg.minBid, seed);
        hi := seed;
      }
    }
    assert lo <= hi;
    assert hi <= hi0;
    assert lo >= lo0;
  }

  /** What the round needs of the two drifts: they exist, stay within the span, and bound the price. */
  lemma BidDrifts(leg: BidLeg, at: nat)
    requires BidDomain(leg) && leg.Live() && at <= leg.Room()
    ensures 0 <= leg.Span() * (2 * leg.used + at)
    ensures 0 <= (leg.Span() * (2 * leg.used + at)) / (2 * leg.capacity) <= leg.Span()
    ensures CeilDiv(leg.Span() * (2 * leg.used + at), 2 * leg.capacity) <= leg.Span()
  {
    DriftWithinSpan(leg.Span(), 2 * leg.used + at, 2 * leg.capacity);
  }

  method RefineBidBracket(leg: BidLeg, amountOut: u128, lo0: nat, hi0: nat)
    returns (r: Result<(nat, nat), CurveError>)
    requires BidDomain(leg) && BidBracket(leg, amountOut, lo0, hi0)
    ensures r.Ok? && BidBracket(leg, amountOut, r.value.0, r.value.1) && lo0 <= r.value.0 && r.value.1 <= hi0
  {
    hide Delivers;
    var lo: nat, hi: nat := lo0, hi0;
    for i := 0 to 3
      invariant BidBracket(leg, amountOut, lo, hi) && lo0 <= lo && hi <= hi0
    {
      if lo >= hi { break; }
      var up := RefineBidLow(leg, amountOut, lo, hi);
      if up.None? { return Err(DomainOverflow); }
      lo := up.value;
      var down := RefineBidHigh(leg, amountOut, lo, hi);
      if down.None? { return Err(DomainOverflow); }
      hi := down.value;
      assert lo <= hi;
    }
    assert lo >= lo0;
    assert hi <= hi0;
    return Ok((lo, hi));
  }

  /** First half of a round: the price at `lo`, drift floored, lifts `lo`. */
  method RefineBidLow(leg: BidLeg, amountOut: u128, lo: nat, hi: nat) returns (r: Option<nat>)
    requires BidDomain(leg) && BidBracket(leg, amountOut, lo, hi)
    ensures r.Some? && lo <= r.value && BidBracket(leg, amountOut, r.value, hi)
  {
    BidDrifts(leg, lo);
    var drift := MulDivFloor(leg.maxBid - leg.minBid, 2 * leg.used + lo, 2 * leg.capacity);
    if drift.None? { return None; }
    var p := CheckedSub(leg.maxBid, drift.value);
    if p.None? { return None; }
    if p.value != 0 {
      var seed := SeedCeil(amountOut, leg.scale, p.value);
      seed := if seed <= hi then seed else hi;
      if seed > lo {
        BidPriceAbove(leg, lo, seed - 1, drift.value);
        RaiseBidLow(leg, amountOut, lo, hi, p.value, seed);
        return Some(seed);
      }
    }
    return Some(lo);
  }

  /** Second half: the price at `hi`, drift ceiled, lowers `hi` when the seed stays in the bracket. */
  method RefineBidHigh(leg: BidLeg, amountOut: u128, lo: nat, hi: nat) returns (r: Option<nat>)
    requires BidDomain(leg) && BidBracket(leg, amountOut, lo, hi)
    ensures r.Some? && r.value <= hi && BidBracket(leg, amountOut, lo, r.value)
  {
    BidDrifts(leg, hi);
    var drift := MulDivCeil(leg.maxBid - leg.minBid, 2 * leg.used + hi, 2 * leg.capacity);
    if drift.None? { return None; }
    var p := CheckedSub(leg.maxBid, drift.value);
    if p.None? { return None; }
    if p.value != 0 {
      var seed := SeedCeil(amountOut, leg.scale, p.value);
      if seed < hi && seed >= lo {
        BidPriceBelow(leg, hi, seed, drift.value);
        LowerBidHigh(leg, amountOut, lo, hi, p.value, seed);
        return Some(seed);
      }
    }
    return Some(hi);
  }

  lemma DriftWithinSpan(span: nat, numer: nat, den: nat)
    requires numer <= den && 0 < den
    ensures 0 <= span * numer && 0 <= (span * numer) / den <= span && CeilDiv(span * numer, den) <= span
  {
    MulLe(0, span, numer);
    MulLe(numer, den, span);
    CeilGalois(span * numer, den, span);
    CeilFloorGap(span * numer, den);
    FloorBounds(span * numer, den);
  }

  lemma Pow2Amounts(k: nat)
    requires k == 96
    ensures Pow2(k) == AMOUNT_MAX + 1
  {
    var b32 := 32;
    Pow2Half(b32);
    Pow2Add(b32, b32);
    Pow2Add(b32 + b32, b32);
  }

  /** Each probe leaves less than half the bracket, so a bracket under `2^left` takes at most `left` probes. */
  lemma HalfTheBracket(lo: nat, hi: nat, left: nat)
    requires lo < hi && hi - lo < Pow2(left)
    ensures left > 0
    ensures (hi - lo) / 2 < Pow2(left - 1) && hi - lo - (hi - lo) / 2 - 1 < Pow2(left - 1)
  {}

  /** Least-true bisection, in at most 96 steps. */
  method BisectLeastBid(leg: BidLeg, target: U256, lo0: nat, hi0: nat)
    returns (r: Result<nat, CurveError>, ghost steps: nat)
    requires BidDomain(leg) && BidBracket(leg, target.Value(), lo0, hi0)
    ensures r.Ok? && BidBracket(leg, target.Value(), r.value, r.value) && lo0 <= r.value <= hi0
    ensures steps <= 96
  {
    hide Delivers, BidLeg.Gross, BidRefusal, Pow2;
    var lo: nat, hi: nat := lo0, hi0;
    assert lo <= hi;
    steps := 0;
    Pow2Amounts(96);
    while lo < hi
      invariant BidBracket(leg, target.Value(), lo, hi) && lo0 <= lo && hi <= hi0
      invariant steps <= 96 && hi - lo < Pow2(96 - steps)
      decreases hi - lo
    {
      HalfTheBracket(lo, hi, 96 - steps);
      var mid := lo + (hi - lo) / 2;
      SmallerSizesFit(leg, mid);
      var gross := BidGross(mid, leg);
      ProbeBid(leg, target.Value(), lo, hi, mid);
      match gross
      case Err(e) => return Err(e), steps;
      case Ok(g) =>
        BelowIsLess(g, target);
        if !g.Below(target) {
          hi := mid;
        } else {
          lo := mid + 1;
        }
        steps := steps + 1;
    }
    assert lo == hi;
    return Ok(hi), steps;
  }

  /** A one-point bracket is the reference answer. */
  lemma BidBracketPins(leg: BidLeg, y: nat, q: nat)
    requires 0 < y && BidBracket(leg, y, q, q) && Delivers(leg, leg.Room(), y)
    ensures LeastBidSize(leg, y, 1) == q
  {
    var r := LeastBidSize(leg, y, 1);
    if r < q { GrossMono(leg, r, q - 1); }
  }

  method ComputeAmountInBid(amountOut: u128, minBid: u128, maxBid: u128, capacity: u128, used: u128, exp: nat)
    returns (r: Result<u128, CurveError>)
    requires capacity <= AMOUNT_MAX && used <= AMOUNT_MAX
    ensures r == AmountInBidAnyPrice(amountOut, minBid, maxBid, capacity, used, exp)
    ensures minBid <= PRICE_MAX && maxBid <= PRICE_MAX ==> r == AmountInBid(amountOut, minBid, maxBid, capacity, used, exp)
  {
    var scale :- OkOr(Pow10(exp), DomainOverflow);
    ScaleBound(exp);
    if amountOut == 0 { return Ok(0); }
    if capacity == 0 { return Err(ZeroCapacity); }
    if used >= capacity { return Err(AmountExceedsCapacity); }
    var leg := BidLeg(minBid, maxBid, capacity, used, scale);
    if minBid <= PRICE_MAX && maxBid <= PRICE_MAX { PriceDomainFits(leg); }
    var target := U256(0, amountOut);
    var room := capacity - used;
    var full :- BidGross(room, leg);
    BelowIsLess(full, target);
    if full.Below(target) { return Err(AmountExceedsCapacity); }
    GrossReaches(leg, 0, amountOut);
    DenominatorPositive(leg.capacity, leg.scale);
    MulLe(1, amountOut, leg.Denominator());
    var lo, hi := SeedBidBracket(leg, amountOut, 1, room);
    var refined := RefineBidBracket(leg, amountOut, lo, hi);
    match refined
    case Err(e) => return Err(e);
    case Ok(bracket) =>
      ghost var steps;
      r, steps := BisectLeastBid(leg, target, bracket.0, bracket.1);
      BidBracketPins(leg, amountOut, r.value);
  }

  method ComputeAmountOutBid(amountIn: u128, minBid: u128, maxBid: u128, capacity: u128, used: u128, exp: nat)
    returns (r: Result<u128, CurveError>)
    requires minBid <= PRICE_MAX && maxBid <= PRICE_MAX && capacity <= AMOUNT_MAX && used <= AMOUNT_MAX
    ensures r == AmountOutBid(amountIn, minBid, maxBid, capacity, used, exp)
  {
    var scale :- OkOr(Pow10(exp), DomainOverflow);
    ScaleBound(exp);
    if amountIn == 0 { return Ok(0); }
    if capacity == 0 { return Err(ZeroCapacity); }
    var consumed :- OkOr(CheckedAdd(used, amountIn), AmountExceedsCapacity);
    if consumed > capacity { return Err(AmountExceedsCapacity); }
    ghost var leg := BidLeg(minBid, maxBid, capacity, used, scale);
    PriceDomainFits(leg);
    if minBid <= maxBid { SmallerSizesFit(leg, amountIn); }
    var gross :- BidGross(amountIn, BidLeg(minBid, maxBid, capacity, used, scale));
    return OkOr(gross.ToU128(), AmountOutOfDomain);
  }

  // ---- Ask side, exact input ----

  /** `lo` is affordable and `hi + 1` is not. */
  ghost predicate AskBracket(leg: AskLeg, x: nat, lo: nat, hi: nat) {
    leg.Live() && lo <= hi < leg.Room() && Affordable(leg, lo, x) && !Affordable(leg, hi + 1, x)
  }

  /** Priced at most `p` throughout, whatever `x` buys at `p` is affordable. */
  lemma AffordableAtPrice(leg: AskLeg, x: nat, q: nat, p: nat)
    requires leg.Live() && q <= leg.Room()
    requires leg.Factor(q) <= 2 * leg.capacity * p && q * p <= x * leg.scale
    ensures Affordable(leg, q, x)
  {
    hide AskLeg.Factor;
    CostWithin(leg, q, x);
    PricedAtMost(q, leg.Factor(q), 2 * leg.capacity, p, x, leg.scale, leg.Denominator());
  }

  /** Priced at least `p` throughout, more than `x` buys at `p` is not affordable. */
  lemma UnaffordableAtPrice(leg: AskLeg, x: nat, q: nat, p: nat)
    requires leg.Live() && q <= leg.Room()
    requires leg.Factor(q) >= 2 * leg.capacity * p && q * p > x * leg.scale
    ensures !Affordable(leg, q, x)
  {
    hide AskLeg.Factor;
    CostWithin(leg, q, x);
    PricedAtLeast(q, leg.Factor(q), 2 * leg.capacity, p, x, leg.scale, leg.Denominator());
  }

  lemma AskPriceBelow(leg: AskLeg, at: nat, q: nat, drift: nat)
    requires leg.Live() && at <= q && leg.Span() * (2 * leg.used + at) >= 0
    requires drift == (leg.Span() * (2 * leg.used + at)) / (2 * leg.capacity)
    ensures leg.Factor(q) >= 2 * leg.capacity * (leg.minAsk + drift)
  {
    FlooredDrift(leg.Span(), 2 * leg.used + at, 2 * leg.used + q, 2 * leg.capacity);
    assert 2 * leg.capacity * (leg.minAsk + drift) == 2 * leg.minAsk * leg.capacity + drift * (2 * leg.capacity);
  }

  lemma AskPriceAbove(leg: AskLeg, at: nat, q: nat, drift: nat)
    requires leg.Live() && q <= at && leg.Span() * (2 * leg.used + at) >= 0
    requires drift == CeilDiv(leg.Span() * (2 * leg.used + at), 2 * leg.capacity)
    ensures leg.Factor(q) <= 2 * leg.capacity * (leg.minAsk + drift)
  {
    CeiledDrift(leg.Span(), 2 * leg.used + at, 2 * leg.used + q, 2 * leg.capacity);
    assert 2 * leg.capacity * (leg.minAsk + drift) == 2 * leg.minAsk * leg.capacity + drift * (2 * leg.capacity);
  }

  /** The whole epoch is never priced above `maxAsk` nor below `minAsk`. */
  lemma AskPriceRange(leg: AskLeg, q: nat)
    requires leg.Live() && q <= leg.Room()
    ensures 2 * leg.capacity * leg.minAsk <= leg.Factor(q) <= 2 * leg.capacity * leg.maxAsk
  {
    MulLe(0, leg.Span(), 2 * leg.used + q);
    MulLe(2 * leg.used + q, 2 * leg.capacity, leg.Span());
    assert leg.Span() * (2 * leg.capacity) == 2 * leg.capacity * leg.maxAsk - 2 * leg.minAsk * leg.capacity;
    assert 2 * leg.capacity * leg.minAsk == 2 * leg.minAsk * leg.capacity;
  }

  lemma AffordableMono(leg: AskLeg, x: nat, q: nat, r: nat)
    requires q <= r && Affordable(leg, r, x)
    ensures Affordable(leg, q, x)
  {
    CostMono(leg, q, r);
  }

  /** A floored seed at a price the purchase never exceeds is a valid new `lo`. */
  lemma RaiseAskLow(leg: AskLeg, x: nat, lo: nat, hi: nat, p: nat, seed: nat)
    requires AskBracket(leg, x, lo, hi) && 0 < p && seed <= hi
    requires seed <= (x * leg.scale) / p && leg.Factor(seed) <= 2 * leg.capacity * p
    ensures AskBracket(leg, x, seed, hi)
  {
    hide AskLeg.Factor, Affordable;
    FloorGalois(x * leg.scale, p, seed);
    AffordableAtPrice(leg, x, seed, p);
  }

  /**
   A floored seed at a price the purchase never undercuts is a valid new `hi`, and never falls
   below an affordable `lo` whose own average is at least that price.
   */
  lemma LowerAskHigh(leg: AskLeg, x: nat, lo: nat, hi: nat, p: nat, seed: nat)
    requires AskBracket(leg, x, lo, hi) && 0 < p && seed <= hi
    requires seed >= (x * leg.scale) / p
    requires leg.Factor(lo) >= 2 * leg.capacity * p && leg.Factor(seed + 1) >= 2 * leg.capacity * p
    ensures AskBracket(leg, x, lo, seed)
  {
    hide AskLeg.Factor, Affordable;
    FloorGalois(x * leg.scale, p, seed + 1);
    UnaffordableAtPrice(leg, x, seed + 1, p);
    HighSeedReachesLow(leg, x, lo, hi, p, seed);
  }

  lemma ProbeAsk(leg: AskLeg, x: nat, lo: nat, hi: nat, mid: nat)
    requires AskBracket(leg, x, lo, hi) && lo < mid <= hi
    ensures if leg.Cost(mid) <= x then AskBracket(leg, x, mid, hi) else AskBracket(leg, x, lo, mid - 1)
  {}

  method SeedAskBracket(leg: AskLeg, amountIn: u128, lo0: nat, hi0: nat) returns (lo: nat, hi: nat)
    requires AskDomain(leg) && AskBracket(leg, amountIn, lo0, hi0) && leg.maxAsk != 0
    ensures AskBracket(leg, amountIn, lo, hi) && lo0 <= lo && hi <= hi0
  {
    hide Affordable;
    lo, hi := lo0, hi0;
    var low := SeedFloor(amountIn, leg.scale, leg.maxAsk);
    low := if low <= hi then low else hi;
    if low > lo {
      AskPriceRange(leg, low);
      RaiseAskLow(leg, amountIn, lo, hi, leg.maxAsk, low);
      lo := low;
    }
    if leg.minAsk != 0 {
      var seed := SeedFloor(amountIn, leg.scale, leg.minAsk);
      if seed < hi && seed >= lo {
        AskPriceRange(leg, seed + 1);
        AskPriceRange(leg, lo);
        LowerAskHigh(leg, amountIn, lo, hi, leg.minAsk, seed);
        hi := seed;
      }
    }
    assert lo <= hi;
    assert lo >= lo0;
    assert hi <= hi0;
  }

  /**
   Three rounds of refinement. The update of `hi` carries no guard against `lo`; the bracket
   nevertheless never inverts, because an affordable `lo` is at most what the budget buys at the
   price standing at `lo`.
   */
  method RefineAskBracket(leg: AskLeg, amountIn: u128, lo0: nat, hi0: nat)
    returns (r: Result<(nat, nat), CurveError>)
    requires AskDomain(leg) && AskBracket(leg, amountIn, lo0, hi0)
    ensures r.Ok? && AskBracket(leg, amountIn, r.value.0, r.value.1) && lo0 <= r.value.0 && r.value.1 <= hi0
  {
    hide Affordable;
    var lo: nat, hi: nat := lo0, hi0;
    for i := 0 to 3
      invariant AskBracket(leg, amountIn, lo, hi) && lo0 <= lo && hi <= hi0
    {
      if lo >= hi { break; }
      var down := RefineAskHigh(leg, amountIn, lo, hi);
      if down.None? { return Err(DomainOverflow); }
      hi := down.value;
      var up := RefineAskLow(leg, amountIn, lo, hi);
      if up.None? { return Err(DomainOverflow); }
      lo := up.value;
    }
    assert lo >= lo0;
    assert hi <= hi0;
    return Ok((lo, hi));
  }

  lemma AskDrifts(leg: AskLeg, at: nat)
    requires AskDomain(leg) && leg.Live() && at <= leg.Room()
    ensures 0 <= leg.Span() * (2 * leg.used + at)
    ensures 0 <= (leg.Span() * (2 * leg.used + at)) / (2 * leg.capacity) <= leg.Span()
    ensures CeilDiv(leg.Span() * (2 * leg.used + at), 2 * leg.capacity) <= leg.Span()
  {
    DriftWithinSpan(leg.Span(), 2 * leg.used + at, 2 * leg.capacity);
  }

  /** First half of a round: the price at `lo`, drift floored, lowers `hi`, unguarded. */
  method RefineAskHigh(leg: AskLeg, amountIn: u128, lo: nat, hi: nat) returns (r: Option<nat>)
    requires AskDomain(leg) && AskBracket(leg, amountIn, lo, hi)
    ensures r.Some? && r.value <= hi && AskBracket(leg, amountIn, lo, r.value)
  {
    AskDrifts(leg, lo);
    var drift := MulDivFloor(leg.maxAsk - leg.minAsk, 2 * leg.used + lo, 2 * leg.capacity);
    if drift.None? { return None; }
    var p := CheckedAdd(leg.minAsk, drift.value);
    if p.None? { return None; }
    if p.value != 0 {
      var seed := SeedFloor(amountIn, leg.scale, p.value);
      if seed < hi {
        AskPriceBelow(leg, lo, lo, drift.value);
        HighSeedReachesLow(leg, amountIn, lo, hi, p.value, seed);
        AskPriceBelow(leg, lo, seed + 1, drift.value);
        LowerAskHigh(leg, amountIn, lo, hi, p.value, seed);
        return Some(seed);
      }
    }
    return Some(hi);
  }

  lemma HighSeedReachesLow(leg: AskLeg, x: nat, lo: nat, hi: nat, p: nat, seed: nat)
    requires AskBracket(leg, x, lo, hi) && 0 < p
    requires leg.Factor(lo) >= 2 * leg.capacity * p && seed >= (x * leg.scale) / p
    ensures lo <= seed
  {
    hide AskLeg.Factor, Affordable;
    FloorGalois(x * leg.scale, p, lo);
    if lo * p > x * leg.scale { UnaffordableAtPrice(leg, x, lo, p); }
  }

  /** Second half: the price at `hi`, drift ceiled, lifts `lo`. */
  method RefineAskLow(leg: AskLeg, amountIn: u128, lo: nat, hi: nat) returns (r: Option<nat>)
    requires AskDomain(leg) && AskBracket(leg, amountIn, lo, hi)
    ensures r.Some? && lo <= r.value && AskBracket(leg, amountIn, r.value, hi)
  {
    AskDrifts(leg, hi);
    var drift := MulDivCeil(leg.maxAsk - leg.minAsk, 2 * leg.used + hi, 2 * leg.capacity);
    if drift.None? { return None; }
    var p := CheckedAdd(leg.minAsk, drift.value);
    if p.None? { return None; }
    if p.value != 0 {
      var seed := SeedFloor(amountIn, leg.scale, p.value);
      seed := if seed <= hi then seed else hi;
      if seed > lo {
        AskPriceAbove(leg, hi, seed, drift.value);
        RaiseAskLow(leg, amountIn, lo, hi, p.value, seed);
        return Some(seed);
      }
    }
    return Some(lo);
  }

  /** Greatest-true bisection, in at most 96 steps. */
  method BisectGreatestAsk(leg: AskLeg, budget: U256, lo0: nat, hi0: nat)
    returns (r: Result<nat, CurveError>, ghost steps: nat)
    requires AskDomain(leg) && AskBracket(leg, budget.Value(), lo0, hi0)
    ensures r.Ok? && AskBracket(leg, budget.Value(), r.value, r.value) && lo0 <= r.value <= hi0
    ensures steps <= 96
  {
    hide Affordable, AskLeg.Cost;
    var lo: nat, hi: nat := lo0, hi0;
    steps := 0;
    Pow2Amounts(96);
    while lo < hi
      invariant AskBracket(leg, budget.Value(), lo, hi) && lo0 <= lo && hi <= hi0
      invariant steps <= 96 && hi - lo < Pow2(96 - steps)
      decreases hi - lo
    {
      var mid := lo + (hi - lo + 1) / 2;
      assert mid > lo;
      var probed := AskCost(mid, leg);
      ProbeAsk(leg, budget.Value(), lo, hi, mid);
      match probed
      case Err(e) => return Err(e), steps;
      case Ok(cost) =>
        BelowIsLess(budget, cost);
        if !budget.Below(cost) {
          lo := mid;
        } else {
          hi := mid - 1;
        }
        steps := steps + 1;
    }
    return Ok(lo), steps;
  }

  lemma AskBracketPins(leg: AskLeg, x: nat, q: nat)
    requires AskBracket(leg, x, q, q)
    ensures GreatestAskSize(leg, x, leg.Room()) == q
  {
    var r := GreatestAskSize(leg, x, leg.Room());
    if q < r { AffordableMono(leg, x, q + 1, r); }
  }

  method ComputeAmountOutAsk(amountIn: u128, minAsk: u128, maxAsk: u128, capacity: u128, used: u128, exp: nat)
    returns (r: Result<u128, CurveError>)
    requires minAsk <= PRICE_MAX && maxAsk <= PRICE_MAX && capacity <= AMOUNT_MAX && used <= AMOUNT_MAX
    ensures r == AmountOutAsk(amountIn, minAsk, maxAsk, capacity, used, exp)
  {
    var scale :- OkOr(Pow10(exp), DomainOverflow);
    ScaleBound(exp);
    if amountIn == 0 { return Ok(0); }
    if capacity == 0 { return Err(ZeroCapacity); }
    if used >= capacity { return Err(AmountExceedsCapacity); }
    if maxAsk == 0 { return Err(ZeroPrice); }
    var leg := AskLeg(minAsk, maxAsk, capacity, used, scale);
    var room := capacity - used;
    var budget := U256(0, amountIn);
    var full :- AskCost(room, leg);
    BelowIsLess(full, budget);
    if full.Below(budget) { return Err(AmountExceedsCapacity); }
    if budget == full { return Ok(room); }
    assert budget.Value() != full.Value() by {
      if budget.Value() == full.Value() { ValueInjective(budget, full); }
    }
    CostOfNothing(leg);
    var lo, hi := SeedAskBracket(leg, amountIn, 0, room - 1);
    var refined := RefineAskBracket(leg, amountIn, lo, hi);
    match refined
    case Err(e) => return Err(e);
    case Ok(bracket) =>
      ghost var steps;
      r, steps := BisectGreatestAsk(leg, budget, bracket.0, bracket.1);
      assert r.value < room;
      AskBracketPins(leg, amountIn, r.value);
  }

  method ComputeAmountInAsk(amountOut: u128, minAsk: u128, maxAsk: u128, capacity: u128, used: u128, exp: nat)
    returns (r: Result<u128, CurveError>)
    requires minAsk <= PRICE_MAX && maxAsk <= PRICE_MAX && capacity <= AMOUNT_MAX && used <= AMOUNT_MAX
    ensures r == AmountInAsk(amountOut, minAsk, maxAsk, capacity, used, exp)
  {
    var scale :- OkOr(Pow10(exp), DomainOverflow);
    ScaleBound(exp);
    if amountOut == 0 { return Ok(0); }
    if capacity == 0 { return Err(ZeroCapacity); }
    var consumed :- OkOr(CheckedAdd(used, amountOut), AmountExceedsCapacity);
    if consumed > capacity { return Err(AmountExceedsCapacity); }
    if maxAsk == 0 { return Err(ZeroPrice); }
    var cost :- AskCost(amountOut, AskLeg(minAsk, maxAsk, capacity, used, scale));
    return OkOr(cost.ToU128(), AmountOutOfDomain);
  }
}
