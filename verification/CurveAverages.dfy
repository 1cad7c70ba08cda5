/** Reported prices: interval averages, and the executable tops that move as an epoch is consumed. */
module CurveAverages {
  import opened Words
  import opened Errors
  import opened Arithmetic
  import opened CurveSpec
  import opened CurveSolver

  /** What an empty ask side reports. */
  const NO_ASK: nat := U128_MAX

  /** The bid a vanishingly small sale gets right now, drift rounded up. */
  function ExecutableTopBid(minBid: nat, maxBid: nat, capacity: nat, used: nat): Result<nat, CurveError> {
    if capacity == 0 then Ok(0)
    else if used >= capacity then Ok(minBid)
    else if maxBid < minBid then Err(ArithmeticPanic)
    else
      DriftWithin(maxBid - minBid, used, capacity);
      Ok(maxBid - CeilDiv((maxBid - minBid) * used, capacity))
  }

  /** The ask a vanishingly small purchase pays right now, drift rounded up. */
  function ExecutableTopAsk(minAsk: nat, maxAsk: nat, capacity: nat, used: nat): Result<nat, CurveError> {
    if capacity == 0 then Ok(NO_ASK)
    else if used >= capacity then Ok(maxAsk)
    else if maxAsk < minAsk then Err(ArithmeticPanic)
    else
      DriftWithin(maxAsk - minAsk, used, capacity);
      Ok(minAsk + CeilDiv((maxAsk - minAsk) * used, capacity))
  }

  /** The drift never walks past the far price, and reaches it exactly at capacity. */
  lemma DriftWithin(span: nat, used: nat, capacity: nat)
    requires 0 < capacity && used <= capacity
    ensures 0 <= span * used && CeilDiv(span * used, capacity) <= span
    ensures used == capacity ==> CeilDiv(span * used, capacity) == span
  {
    MulLe(0, span, used);
    MulLe(used, capacity, span);
    CeilGalois(span * used, capacity, span);
    CeilGalois(span * used, capacity, span - 1);
    assert (span - 1) * capacity == span * capacity - capacity;
  }

  /** Doubling both terms of a fraction keeps its ceiling. */
  lemma CeilTwice(n: nat, d: nat)
    requires 0 < d
    ensures CeilDiv(2 * n, 2 * d) == CeilDiv(n, d)
  {
    var x, y := CeilDiv(n, d), CeilDiv(2 * n, 2 * d);
    CeilGalois(n, d, y);
    CeilGalois(2 * n, 2 * d, y);
    CeilGalois(n, d, x);
    CeilGalois(2 * n, 2 * d, x);
  }

  lemma CeilDoubled(span: nat, used: nat, capacity: nat)
    requires 0 < capacity
    ensures 0 <= span * used && CeilDiv(span * (2 * used), 2 * capacity) == CeilDiv(span * used, capacity)
  {
    hide CeilDiv;
    MulLe(0, span, used);
    assert span * (2 * used) == 2 * (span * used);
    CeilTwice(span * used, capacity);
  }

  /** Discounts grow along the epoch: the drift at the start, the average over the interval, the drift at its end. */
  lemma DriftsInOrder(span: nat, used: nat, q: nat, capacity: nat)
    requires 0 < capacity
    ensures 0 <= span * used && 0 <= span * (used + q) && 0 <= span * (2 * used + q)
    ensures CeilDiv(span * used, capacity) <= CeilDiv(span * (2 * used + q), 2 * capacity)
         <= CeilDiv(span * (used + q), capacity)
  {
    MulLe(2 * used, 2 * used + q, span);
    MulLe(2 * used + q, 2 * (used + q), span);
    MulLe(0, span, 2 * used);
    CeilDoubled(span, used, capacity);
    CeilDoubled(span, used + q, capacity);
    CeilMono(span * (2 * used), span * (2 * used + q), 2 * capacity);
    CeilMono(span * (2 * used + q), span * (2 * (used + q)), 2 * capacity);
  }

  /** Taking a ceiled discount off a price floors what is left, and adding a ceiled premium ceils it. */
  lemma CeiledDiscount(price: int, n: int, d: int, c2: int)
    requires n <= d * c2 < n + c2
    ensures (price - d) * c2 <= price * c2 - n < (price - d + 1) * c2
    ensures (price + d - 1) * c2 < price * c2 + n <= (price + d) * c2
  {
    var product := d * c2;
    assert (price - d) * c2 == price * c2 - product && (price + d) * c2 == price * c2 + product;
    assert (price - d + 1) * c2 == (price - d) * c2 + c2 && (price + d - 1) * c2 == (price + d) * c2 - c2;
  }

  lemma FactorIs(leg: BidLeg, q: nat)
    ensures leg.Factor(q) == leg.maxBid * (2 * leg.capacity) - leg.Span() * (2 * leg.used + q)
  {}

  /** Inside an epoch the bid average exists and is the floor of the exact one, which the curve's factor is. */
  lemma BidAverageIsFloor(leg: BidLeg, q: nat)
    requires leg.Live() && q <= leg.Room()
    ensures var r := AvgBidPrice(leg.minBid, leg.maxBid, leg.capacity, leg.used, q);
            r.Ok? && r.value * (2 * leg.capacity) <= leg.Factor(q) < (r.value + 1) * (2 * leg.capacity)
  {
    hide CeilDiv, BidLeg.Factor;
    var w, c2 := leg.Span(), 2 * leg.capacity;
    DriftsInOrder(w, leg.used, q, leg.capacity);
    DriftWithin(w, leg.used + q, leg.capacity);
    var n := w * (2 * leg.used + q);
    CeilBounds(n, c2);
    CeiledDiscount(leg.maxBid, n, CeilDiv(n, c2), c2);
    FactorIs(leg, q);
  }

  /** And the ask average is the ceiling of the exact one. */
  lemma AskAverageIsCeil(leg: AskLeg, q: nat)
    requires leg.Live() && q <= leg.Room()
    ensures var r := AvgAskPrice(leg.minAsk, leg.maxAsk, leg.capacity, leg.used, q);
            r.Ok? && (r.value - 1) * (2 * leg.capacity) < leg.Factor(q) <= r.value * (2 * leg.capacity)
  {
    hide CeilDiv;
    var w, c2 := leg.Span(), 2 * leg.capacity;
    DriftsInOrder(w, leg.used, q, leg.capacity);
    var n := w * (2 * leg.used + q);
    CeilBounds(n, c2);
    CeiledDiscount(leg.minAsk, n, CeilDiv(n, c2), c2);
    assert leg.Factor(q) == leg.minAsk * c2 + n;
  }

  /** The average over an interval lies between the tops at its two ends, and a top is the average over nothing. */
  lemma BidTopsBracketAverage(minBid: nat, maxBid: nat, capacity: nat, used: nat, q: nat)
    requires minBid <= maxBid && used + q <= capacity && used < capacity
    ensures var before, average, after :=
              ExecutableTopBid(minBid, maxBid, capacity, used),
              AvgBidPrice(minBid, maxBid, capacity, used, q),
              ExecutableTopBid(minBid, maxBid, capacity, used + q);
            && before.Ok? && average.Ok? && after.Ok?
            && minBid <= after.value <= average.value <= before.value <= maxBid
            && (q == 0 ==> average == before)
  {
    hide CeilDiv;
    DriftsInOrder(maxBid - minBid, used, q, capacity);
    DriftWithin(maxBid - minBid, used + q, capacity);
  }

  lemma AskTopsBracketAverage(minAsk: nat, maxAsk: nat, capacity: nat, used: nat, q: nat)
    requires minAsk <= maxAsk && used + q <= capacity && used < capacity
    ensures var before, average, after :=
              ExecutableTopAsk(minAsk, maxAsk, capacity, used),
              AvgAskPrice(minAsk, maxAsk, capacity, used, q),
              ExecutableTopAsk(minAsk, maxAsk, capacity, used + q);
            && before.Ok? && average.Ok? && after.Ok?
            && minAsk <= before.value <= average.value <= after.value <= maxAsk
            && (q == 0 ==> average == before)
  {
    hide CeilDiv;
    DriftsInOrder(maxAsk - minAsk, used, q, capacity);
    DriftWithin(maxAsk - minAsk, used + q, capacity);
  }

  /** The edges of an epoch: an empty side has no bid and an unreachable ask; a consumed one stands at its far price. */
  lemma TopsAtTheEdges(near: nat, far: nat, capacity: nat, used: nat)
    ensures capacity == 0 ==>
            ExecutableTopBid(near, far, capacity, used) == Ok(0) && ExecutableTopAsk(near, far, capacity, used) == Ok(U128_MAX)
    ensures 0 < capacity <= used ==>
            ExecutableTopBid(near, far, capacity, used) == Ok(near) && ExecutableTopAsk(near, far, capacity, used) == Ok(far)
    ensures used < capacity && near <= far ==>
            ExecutableTopBid(near, far, capacity, 0) == Ok(far) && ExecutableTopAsk(near, far, capacity, 0) == Ok(near)
    ensures ExecutableTopBid(near, far, capacity, used).Err? <==> used < capacity && far < near
    ensures ExecutableTopAsk(near, far, capacity, used).Err? <==> used < capacity && far < near
  {
    if 0 < capacity { CeilGalois(0, capacity, 0); }
  }

  /** A sale executes at its reported average or better, by less than one price unit. */
  lemma SaleBeatsReportedAverage(leg: BidLeg, q: nat, average: nat)
    requires leg.Live() && q <= leg.Room()
    requires AvgBidPrice(leg.minBid, leg.maxBid, leg.capacity, leg.used, q) == Ok(average)
    ensures (q * average) / leg.scale <= leg.Gross(q) <= (q * (average + 1)) / leg.scale
  {
    hide AvgBidPrice, BidLeg.Factor, BidLeg.Gross;
    BidAverageIsFloor(leg, q);
    assert average * (2 * leg.capacity) == 2 * leg.capacity * average;
    assert (average + 1) * (2 * leg.capacity) == 2 * leg.capacity * (average + 1);
    SaleAtLeast(leg, q, average);
    SaleAtMost(leg, q, average + 1);
  }

  lemma SaleAtLeast(leg: BidLeg, q: nat, p: nat)
    requires leg.Live() && q <= leg.Room() && leg.Factor(q) >= 2 * leg.capacity * p
    ensures 0 <= q * p && (q * p) / leg.scale <= leg.Gross(q)
  {
    hide BidLeg.Factor, BidLeg.Gross;
    MulLe(0, p, q);
    FloorBounds(q * p, leg.scale);
    EnoughAtPrice(leg, (q * p) / leg.scale, q, p);
  }

  lemma SaleAtMost(leg: BidLeg, q: nat, p: nat)
    requires leg.Live() && q <= leg.Room() && leg.Factor(q) <= 2 * leg.capacity * p
    ensures 0 <= q * p && leg.Gross(q) <= (q * p) / leg.scale
  {
    hide BidLeg.Factor, BidLeg.Gross;
    MulLe(0, p, q);
    FloorBounds(q * p, leg.scale);
    TooSmallAtPrice(leg, (q * p) / leg.scale + 1, q, p);
  }

  /** A purchase costs at most its reported average, rounded up. */
  lemma PurchaseWithinReportedAverage(leg: AskLeg, q: nat, average: nat)
    requires leg.Live() && q <= leg.Room()
    requires AvgAskPrice(leg.minAsk, leg.maxAsk, leg.capacity, leg.used, q) == Ok(average)
    ensures 0 <= q * average && leg.Cost(q) <= CeilDiv(q * average, leg.scale)
  {
    hide AvgAskPrice, AskLeg.Factor, AskLeg.Cost;
    AskAverageIsCeil(leg, q);
    MulLe(0, average, q);
    CeilBounds(q * average, leg.scale);
    AffordableAtPrice(leg, CeilDiv(q * average, leg.scale), q, average);
  }
}
