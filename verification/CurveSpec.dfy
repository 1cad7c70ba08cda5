/**
 The linear-impact curve over exact integers: what each quote function answers, with one rounding
 per quote and no machine word in sight. `CurveSolver` refines these over 256-bit limbs.
 */
module CurveSpec {
  import opened Words
  import opened Errors
  import opened Arithmetic

  const PRICE_MAX: nat := 0xff_ffff_ffff_ffff
  const AMOUNT_MAX: nat := 0xffff_ffff_ffff_ffff_ffff_ffff
  const PRICE_SCALE_EXP_MAX: nat := 38

  datatype Ladder = Ladder(minBid: nat, maxBid: nat, minAsk: nat, maxAsk: nat)

  // ---- Scales ----

  function TenTo(k: nat): (p: nat)
    ensures p >= 1
  {
    if k == 0 then 1 else 10 * TenTo(k - 1)
  }

  function Pow10(exp: nat): Option<nat> {
    if exp <= PRICE_SCALE_EXP_MAX then Some(TenTo(exp)) else None
  }

  lemma {:induction false} TenToAdd(i: nat, j: nat)
    ensures TenTo(i + j) == TenTo(i) * TenTo(j)
  {
    if i > 0 { TenToAdd(i - 1, j); }
  }

  lemma {:induction false} TenToMono(i: nat, j: nat)
    requires i <= j
    ensures TenTo(i) <= TenTo(j)
  {
    TenToAdd(j - i, i);
    MulLe(1, TenTo(j - i), TenTo(i));
  }

  /** Every scale the engine accepts stays under 2^127. */
  lemma {:induction false} ScaleBound(exp: nat)
    requires exp <= PRICE_SCALE_EXP_MAX
    ensures 1 <= TenTo(exp) < POW127
  {
    TenToWidest(PRICE_SCALE_EXP_MAX);
    TenToMono(exp, PRICE_SCALE_EXP_MAX);
  }

  lemma {:induction false} TenToSixteen(k: nat)
    requires k == 16
    ensures TenTo(k) == 1_0000_0000_0000_0000
  {
    var t2, t4, t8 := 2, 4, 8;
    TenToAdd(1, 1);
    assert TenTo(t2) == 100;
    TenToAdd(t2, t2);
    assert TenTo(t4) == 1_0000;
    TenToAdd(t4, t4);
    assert TenTo(t8) == 1_0000_0000;
    TenToAdd(t8, t8);
  }

  lemma {:induction false} TenToWidest(k: nat)
    requires k == 38
    ensures TenTo(k) == 1_0000000000_0000000000_0000000000_00000000
  {
    var t6, t16 := 6, 16;
    TenToSixteen(t16);
    TenToAdd(t16, t16);
    TenToAdd(t16 + t16, t6);
    assert TenTo(t6) == 100_0000;
  }

  // ---- The bid leg: the pool buys base and pays quote ----

  datatype BidLeg = BidLeg(minBid: nat, maxBid: nat, capacity: nat, used: nat, scale: nat) {
    predicate Live() {
      minBid <= maxBid && 0 < capacity && used <= capacity && 0 < scale
    }

    function Room(): int { capacity - used }
    function Span(): int { maxBid - minBid }

    /** Twice the capacity times the interval's average price. */
    function Factor(q: int): int { 2 * maxBid * capacity - Span() * (2 * used + q) }
    function Numerator(q: int): int { q * Factor(q) }
    function Denominator(): int { 2 * capacity * scale }

    function Gross(q: nat): (g: nat)
      requires Live() && q <= Room()
    {
      BidNumeratorMono(this, 0, q);
      DenominatorPositive(capacity, scale);
      FloorBounds(Numerator(q), Denominator());
      Numerator(q) / Denominator()
    }
  }

  // ---- The ask leg: the pool sells base and collects quote ----

  datatype AskLeg = AskLeg(minAsk: nat, maxAsk: nat, capacity: nat, used: nat, scale: nat) {
    predicate Live() {
      minAsk <= maxAsk && 0 < capacity && used <= capacity && 0 < scale
    }

    function Room(): int { capacity - used }
    function Span(): int { maxAsk - minAsk }
    function Factor(q: int): int { 2 * minAsk * capacity + Span() * (2 * used + q) }
    function Numerator(q: int): int { q * Factor(q) }
    function Denominator(): int { 2 * capacity * scale }

    function Cost(q: nat): nat
      requires Live() && q <= Room()
    {
      AskNumeratorMono(this, 0, q);
      DenominatorPositive(capacity, scale);
      CeilDiv(Numerator(q), Denominator())
    }
  }

  lemma DenominatorPositive(c: nat, s: nat)
    requires 0 < c && 0 < s
    ensures 0 < 2 * c * s
  {
    MulLe(1, s, 2 * c);
  }

  // ---- Monotonicity ----

  /** Difference of two points of a parabola through the origin. */
  lemma Parabola(x: int, w: int, q: int, r: int)
    ensures r * (x - w * r) - q * (x - w * q) == (r - q) * (x - w * (q + r))
  {
    Distribute(r, x, w * r);
    Distribute(q, x, w * q);
    Distribute(r - q, x, w * (q + r));
    assert (r - q) * (w * (q + r)) == r * (w * r) - q * (w * q) by { Squares(w, q, r); }
    assert (r - q) * x == r * x - q * x;
  }

  lemma Distribute(a: int, b: int, c: int)
    ensures a * (b - c) == a * b - a * c
  {}

  lemma Squares(w: int, q: int, r: int)
    ensures (r - q) * (w * (q + r)) == r * (w * r) - q * (w * q)
  {
    var wq, wr := w * q, w * r;
    assert w * (q + r) == wq + wr;
    assert (r - q) * (wq + wr) == r * wq + r * wr - q * wq - q * wr;
    assert r * wq == q * wr;
  }

  /** The factor falls by the width for every unit. */
  lemma FactorIsLinear(leg: BidLeg, z: int)
    ensures leg.Factor(z) == (2 * leg.maxBid * leg.capacity - leg.Span() * (2 * leg.used)) - leg.Span() * z
  {}

  /** Between `q` and `r` the payout integral grows by the width times the average factor. */
  lemma BidNumeratorStep(leg: BidLeg, q: int, r: int)
    ensures leg.Numerator(r) - leg.Numerator(q) == (r - q) * leg.Factor(q + r)
  {
    hide BidLeg.Factor;
    var x := 2 * leg.maxBid * leg.capacity - leg.Span() * (2 * leg.used);
    FactorIsLinear(leg, q);
    FactorIsLinear(leg, r);
    FactorIsLinear(leg, q + r);
    Parabola(x, leg.Span(), q, r);
  }

  lemma AskNumeratorStep(leg: AskLeg, q: int, r: int)
    ensures leg.Numerator(r) - leg.Numerator(q) == (r - q) * leg.Factor(q + r)
  {
    var mirrored := BidLeg(leg.maxAsk, leg.minAsk, leg.capacity, leg.used, leg.scale);
    assert forall x :: leg.Factor(x) == mirrored.Factor(x) by {
      forall x ensures leg.Factor(x) == mirrored.Factor(x) {
        assert leg.Span() * (2 * leg.used + x) == -(mirrored.Span() * (2 * leg.used + x)) by {
          assert mirrored.Span() == -leg.Span();
        }
      }
    }
    BidNumeratorStep(mirrored, q, r);
  }

  /** The vertex is out of reach: inside the capacity the price never falls below `minBid`. */
  lemma BidFactorFloor(leg: BidLeg, x: int)
    requires leg.Live() && 2 * leg.used + x <= 2 * leg.capacity
    ensures leg.Factor(x) >= 2 * leg.capacity * leg.minBid >= 0
  {
    MulLe(2 * leg.used + x, 2 * leg.capacity, leg.Span());
    assert leg.Span() * (2 * leg.used + x) <= leg.Span() * (2 * leg.capacity);
    assert 2 * leg.maxBid * leg.capacity - leg.Span() * (2 * leg.capacity) == 2 * leg.capacity * leg.minBid;
    MulLe(0, leg.minBid, 2 * leg.capacity);
  }

  lemma BidNumeratorMono(leg: BidLeg, q: nat, r: nat)
    requires leg.Live() && q <= r <= leg.Room()
    ensures 0 <= leg.Numerator(q) <= leg.Numerator(r)
  {
    BidNumeratorStep(leg, q, r);
    BidNumeratorStep(leg, 0, q);
    BidFactorFloor(leg, q + r);
    BidFactorFloor(leg, q);
    MulLe(0, leg.Factor(q + r), r - q);
    MulLe(0, leg.Factor(q), q);
  }

  lemma AskNumeratorMono(leg: AskLeg, q: nat, r: nat)
    requires leg.Live() && q <= r
    ensures 0 <= leg.Numerator(q) <= leg.Numerator(r)
  {
    AskNumeratorStep(leg, q, r);
    MulLe(0, leg.Span(), 2 * leg.used + q + r);
    MulLe(0, leg.Span(), 2 * leg.used + q);
    MulLe(0, leg.minAsk, 2 * leg.capacity);
    assert 2 * leg.minAsk * leg.capacity == leg.minAsk * (2 * leg.capacity);
    MulLe(0, leg.Factor(q + r), r - q);
    MulLe(0, leg.Factor(q), q);
  }

  /** A larger sale never grosses less, all the way to the end of the epoch. */
  lemma GrossMono(leg: BidLeg, q: nat, r: nat)
    requires leg.Live() && q <= r <= leg.Room()
    ensures leg.Gross(q) <= leg.Gross(r)
  {
    BidNumeratorMono(leg, q, r);
    DenominatorPositive(leg.capacity, leg.scale);
    FloorMono(leg.Numerator(q), leg.Numerator(r), leg.Denominator());
  }

  lemma CostMono(leg: AskLeg, q: nat, r: nat)
    requires leg.Live() && q <= r <= leg.Room()
    ensures leg.Cost(q) <= leg.Cost(r)
  {
    AskNumeratorMono(leg, 0, q);
    AskNumeratorMono(leg, q, r);
    DenominatorPositive(leg.capacity, leg.scale);
    CeilMono(leg.Numerator(q), leg.Numerator(r), leg.Denominator());
  }

  /** The integer comparison against a target is the rational one. */
  lemma GrossReaches(leg: BidLeg, q: nat, y: int)
    requires leg.Live() && q <= leg.Room()
    ensures leg.Gross(q) >= y <==> leg.Numerator(q) >= y * leg.Denominator()
  {
    DenominatorPositive(leg.capacity, leg.scale);
    FloorGalois(leg.Numerator(q), leg.Denominator(), y);
  }

  lemma CostWithin(leg: AskLeg, q: nat, x: int)
    requires leg.Live() && q <= leg.Room()
    ensures leg.Cost(q) <= x <==> leg.Numerator(q) <= x * leg.Denominator()
  {
    AskNumeratorMono(leg, 0, q);
    DenominatorPositive(leg.capacity, leg.scale);
    CeilGalois(leg.Numerator(q), leg.Denominator(), x);
  }

  lemma CostOfNothing(leg: AskLeg)
    requires leg.Live()
    ensures leg.Cost(0) == 0
  {
    CostWithin(leg, 0, 0);
  }

  // ---- The reference answers of the two inverted directions: a linear scan ----

  predicate Delivers(leg: BidLeg, q: nat, y: nat) {
    leg.Live() && q <= leg.Room() && leg.Gross(q) >= y
  }

  predicate Affordable(leg: AskLeg, q: nat, x: nat) {
    leg.Live() && q <= leg.Room() && leg.Cost(q) <= x
  }

  /** The first size at or after `q` that delivers `y`. */
  function LeastBidSize(leg: BidLeg, y: nat, q: nat): (r: nat)
    requires leg.Live() && q <= leg.Room() && leg.Gross(leg.Room()) >= y
    ensures q <= r <= leg.Room() && Delivers(leg, r, y)
    ensures forall k :: q <= k < r ==> !Delivers(leg, k, y)
    decreases leg.Room() - q
  {
    if leg.Gross(q) >= y then q else LeastBidSize(leg, y, q + 1)
  }

  /** The last size at or before `q` that `x` pays for. */
  function GreatestAskSize(leg: AskLeg, x: nat, q: nat): (r: nat)
    requires leg.Live() && q <= leg.Room()
    ensures r <= q && Affordable(leg, r, x)
    ensures forall k :: r < k <= q ==> !Affordable(leg, k, x)
  {
    if leg.Cost(q) <= x then q
    else CostOfNothing(leg); GreatestAskSize(leg, x, q - 1)
  }

  // ---- The four quote functions ----

  function AmountOutBid(amountIn: nat, minBid: nat, maxBid: nat, capacity: nat, used: nat, exp: nat)
    : Result<nat, CurveError>
  {
    match Pow10(exp)
    case None => Err(DomainOverflow)
    case Some(scale) =>
      if amountIn == 0 then Ok(0)
      else if capacity == 0 then Err(ZeroCapacity)
      else if used + amountIn > capacity then Err(AmountExceedsCapacity)
      else if maxBid < minBid then Err(ArithmeticPanic)
      else Settle(BidLeg(minBid, maxBid, capacity, used, scale).Gross(amountIn))
  }

  function AmountInBid(amountOut: nat, minBid: nat, maxBid: nat, capacity: nat, used: nat, exp: nat)
    : Result<nat, CurveError>
  {
    match Pow10(exp)
    case None => Err(DomainOverflow)
    case Some(scale) =>
      if amountOut == 0 then Ok(0)
      else if capacity == 0 then Err(ZeroCapacity)
      else if used >= capacity then Err(AmountExceedsCapacity)
      else if maxBid < minBid then Err(ArithmeticPanic)
      else
        var leg := BidLeg(minBid, maxBid, capacity, used, scale);
        if leg.Gross(leg.Room()) < amountOut then Err(AmountExceedsCapacity)
        else Ok(LeastBidSize(leg, amountOut, 1))
  }

  /** Why the gross of a size cannot be computed at arbitrary 128-bit prices, if it cannot. */
  function BidRefusal(leg: BidLeg, q: nat): Option<CurveError> {
    if 2 * leg.maxBid >= POW128 then Some(DomainOverflow)
    else if leg.Numerator(q) >= POW256 then Some(ArithmeticPanic)
    else None
  }

  /** `AmountInBid` as a caller outside the price domain meets it: the gross of the whole room comes first. */
  function AmountInBidAnyPrice(amountOut: nat, minBid: nat, maxBid: nat, capacity: nat, used: nat, exp: nat)
    : Result<nat, CurveError>
  {
    var ideal := AmountInBid(amountOut, minBid, maxBid, capacity, used, exp);
    if exp > PRICE_SCALE_EXP_MAX || amountOut == 0 || used >= capacity || maxBid < minBid then ideal
    else
      match BidRefusal(BidLeg(minBid, maxBid, capacity, used, TenTo(exp)), capacity - used)
      case Some(e) => Err(e)
      case None => ideal
  }

  function AmountInAsk(amountOut: nat, minAsk: nat, maxAsk: nat, capacity: nat, used: nat, exp: nat)
    : Result<nat, CurveError>
  {
    match Pow10(exp)
    case None => Err(DomainOverflow)
    case Some(scale) =>
      if amountOut == 0 then Ok(0)
      else if capacity == 0 then Err(ZeroCapacity)
      else if used + amountOut > capacity then Err(AmountExceedsCapacity)
      else if maxAsk == 0 then Err(ZeroPrice)
      else if maxAsk < minAsk then Err(ArithmeticPanic)
      else Settle(AskLeg(minAsk, maxAsk, capacity, used, scale).Cost(amountOut))
  }

  function AmountOutAsk(amountIn: nat, minAsk: nat, maxAsk: nat, capacity: nat, used: nat, exp: nat)
    : Result<nat, CurveError>
  {
    match Pow10(exp)
    case None => Err(DomainOverflow)
    case Some(scale) =>
      if amountIn == 0 then Ok(0)
      else if capacity == 0 then Err(ZeroCapacity)
      else if used >= capacity then Err(AmountExceedsCapacity)
      else if maxAsk == 0 then Err(ZeroPrice)
      else if maxAsk < minAsk then Err(ArithmeticPanic)
      else
        var leg := AskLeg(minAsk, maxAsk, capacity, used, scale);
        if leg.Cost(leg.Room()) < amountIn then Err(AmountExceedsCapacity)
        else Ok(GreatestAskSize(leg, amountIn, leg.Room()))
  }

  /** The shared 128-bit ceiling on every quote amount. */
  function Settle(quote: nat): Result<nat, CurveError> {
    if quote <= U128_MAX then Ok(quote) else Err(AmountOutOfDomain)
  }

  // ---- Average prices and the validator ----

  /** `maxBid - ceil(W * (2*used + q) / (2*C))`. */
  function AvgBidPrice(minBid: nat, maxBid: nat, capacity: nat, used: nat, q: nat): Result<nat, CurveError> {
    if capacity == 0 then Err(ZeroCapacity)
    else if maxBid < minBid then Err(ArithmeticPanic)
    else
      MulLe(0, maxBid - minBid, 2 * used + q);
      var discount := CeilDiv((maxBid - minBid) * (2 * used + q), 2 * capacity);
      if discount > maxBid then Err(ArithmeticPanic) else Ok(maxBid - discount)
  }

  /** `minAsk + ceil(W * (2*used + q) / (2*C))`. */
  function AvgAskPrice(minAsk: nat, maxAsk: nat, capacity: nat, used: nat, q: nat): Result<nat, CurveError> {
    if capacity == 0 then Err(ZeroCapacity)
    else if maxAsk < minAsk then Err(ArithmeticPanic)
    else
      MulLe(0, maxAsk - minAsk, 2 * used + q);
      Ok(minAsk + CeilDiv((maxAsk - minAsk) * (2 * used + q), 2 * capacity))
  }

  function ValidateLadder(l: Ladder, minPrice: nat): (r: Result<(), CurveError>)
    ensures r.Ok? <==> minPrice <= l.minBid <= l.maxBid <= l.minAsk <= l.maxAsk && l.minBid < l.maxAsk
    ensures r == Err(BidBelowMinPrice) <==> l.minBid < minPrice
  {
    if l.minBid < minPrice then Err(BidBelowMinPrice)
    else if l.maxAsk < l.minAsk then Err(CrossedBook)
    else if l.minAsk < l.maxBid then Err(CrossedBook)
    else if l.maxBid < l.minBid then Err(CrossedBook)
    else if l.maxAsk <= l.minBid then Err(CrossedBook)
    else Ok(())
  }
}
