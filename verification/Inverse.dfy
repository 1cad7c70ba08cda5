/**
 The inverse solver: from a target average price over a capture size to the widest ladder that
 realises it inside the price bounds, rounded so a taker never does better than the target.
 */
module Inverse {
  import opened Words
  import opened Errors
  import opened Arithmetic
  import opened WideMath
  import opened CurveSpec
  import CurveAverages

  datatype WidthBinding = Requested | Boundary | Endpoint | Saturated

  datatype SolveInput = SolveInput(
    target: u128, capture: u128, capacity: u128, requestedWidth: u128, minPrice: u128, maxPrice: u128)

  datatype Solution = Solution(
    low: nat, high: nat, width: nat, effectiveCapture: nat, impact: nat, binding: WidthBinding)

  datatype TwoSided = TwoSided(ladder: Ladder, bid: Solution, ask: Solution, askRepaired: bool)

  // ---- The widest safe width ----

  function SaturatingInc(a: u128): u128 { if a < U128_MAX then a + 1 else a }

  predicate WidthDomain(capture: u128, twiceCapacity: u128) {
    2 <= twiceCapacity && twiceCapacity % 2 == 0 && 2 * capture <= twiceCapacity
  }

  /** Largest width whose floored impact fits the near headroom. */
  function BoundaryWidth(capture: u128, twiceCapacity: u128, headroom: u128): u128
    requires WidthDomain(capture, twiceCapacity)
  {
    if capture == 0 then PRICE_MAX
    else
      match MulDivRem(twiceCapacity, SaturatingInc(headroom), capture)
      case None => PRICE_MAX
      case Some((q, rem)) =>
        if rem == 0 then
          assert q >= 1 by { BoundaryQuotientPositive(capture, twiceCapacity, SaturatingInc(headroom), q); }
          q - 1
        else q
  }

  lemma BoundaryQuotientPositive(capture: nat, twiceCapacity: nat, h: nat, q: nat)
    requires 0 < twiceCapacity && 0 < h && twiceCapacity * h == q * capture
    ensures q >= 1
  {
    MulLe(1, h, twiceCapacity);
  }

  /** Largest width whose ceiled span fits the far headroom. */
  function EndpointWidth(capture: u128, twiceCapacity: u128, headroom: u128): u128
    requires WidthDomain(capture, twiceCapacity)
  {
    match MulDivFloor(headroom, twiceCapacity, twiceCapacity - capture)
    case None => PRICE_MAX
    case Some(w) => w
  }

  /** The smallest candidate below the start; ties keep the earlier cause. */
  function Narrowest(candidates: seq<(u128, WidthBinding)>, start: (u128, WidthBinding)): (u128, WidthBinding) {
    if candidates == [] then start
    else
      var rest := Narrowest(candidates[..|candidates| - 1], start);
      var last := candidates[|candidates| - 1];
      if last.0 < rest.0 then last else rest
  }

  function Candidates(capture: u128, twiceCapacity: u128, headroomImpact: u128, headroomSpan: u128, requested: u128)
    : seq<(u128, WidthBinding)>
    requires WidthDomain(capture, twiceCapacity)
  {
    [(requested, Requested),
     (BoundaryWidth(capture, twiceCapacity, headroomImpact), Boundary),
     (EndpointWidth(capture, twiceCapacity, headroomSpan), Endpoint)]
  }

  function WidestWidth(capture: u128, twiceCapacity: u128, headroomImpact: u128, headroomSpan: u128, requested: u128)
    : (u128, WidthBinding)
    requires WidthDomain(capture, twiceCapacity)
  {
    Narrowest(Candidates(capture, twiceCapacity, headroomImpact, headroomSpan, requested), (PRICE_MAX, Saturated))
  }

  method ComputeWidestWidth(
    capture: u128, twiceCapacity: u128, headroomImpact: u128, headroomSpan: u128, requested: u128)
    returns (width: u128, binding: WidthBinding)
    requires WidthDomain(capture, twiceCapacity)
    ensures (width, binding) == WidestWidth(capture, twiceCapacity, headroomImpact, headroomSpan, requested)
  {
    var boundary: u128 := PRICE_MAX;
    if capture != 0 {
      var qr := MulDivRemLoop(twiceCapacity, SaturatingInc(headroomImpact), capture);
      match qr
      case None =>
      case Some((q, rem)) =>
        if rem == 0 {
          BoundaryQuotientPositive(capture, twiceCapacity, SaturatingInc(headroomImpact), q);
          boundary := q - 1;
        } else {
          boundary := q;
        }
    }
    var endpoint := EndpointWidth(capture, twiceCapacity, headroomSpan);
    var candidates := [(requested, Requested), (boundary, Boundary), (endpoint, Endpoint)];
    width, binding := PRICE_MAX, Saturated;
    for i := 0 to |candidates|
      invariant (width, binding) == Narrowest(candidates[..i], (PRICE_MAX, Saturated))
    {
      assert candidates[..i + 1][..i] == candidates[..i];
      if candidates[i].0 < width {
        width, binding := candidates[i].0, candidates[i].1;
      }
    }
    assert candidates[..|candidates|] == candidates;
  }

  /** `floor(x / d) <= h` is `x < d * (h + 1)`; when the right side is `q*k + r`, so is `w <= q` or `w < q`. */
  lemma ImpactBound(w: nat, k: nat, d: nat, h: nat, q: nat, r: nat)
    requires 0 < k && 0 < d && d * (h + 1) == q * k + r && r < k
    ensures 0 <= w * k && ((w * k) / d <= h <==> w <= if r == 0 then q - 1 else q)
  {
    MulLe(0, w, k);
    FloorGalois(w * k, d, h + 1);
    assert (h + 1) * d == d * (h + 1);
    if w <= q - 1 { MulLe(w, q - 1, k); assert (q - 1) * k == q * k - k; } else { MulLe(q, w, k); }
    if w > q { MulLe(q + 1, w, k); assert (q + 1) * k == q * k + k; }
  }

  /** An impact never exceeds the width. */
  lemma ImpactWithinWidth(w: nat, k: nat, d: nat)
    requires 0 < d && k <= d
    ensures 0 <= w * k && 0 <= (w * k) / d <= w
  {
    MulLe(0, w, k);
    MulLe(k, d, w);
    FloorBounds(w * k, d);
    FloorGalois(w * k, d, w + 1);
    assert (w + 1) * d == w * d + d;
  }

  /** A quotient beyond 128 bits bounds nothing. */
  lemma OversizedBoundary(k: nat, d: nat, h: nat, w: nat)
    requires 0 < k && 0 < d && (d * (h + 1)) / k > U128_MAX && w <= PRICE_MAX
    ensures 0 <= w * k && (w * k) / d <= h
  {
    MulLe(0, w, k);
    FloorGalois(w * k, d, h + 1);
    FloorGalois(d * (h + 1), k, w + 1);
    assert (w + 1) * k == w * k + k;
    assert (h + 1) * d == d * (h + 1);
  }

  /** Doubling the largest word already overflows the quotient. */
  lemma SaturatedBoundary(k: nat, d: nat)
    requires 0 < k && 2 * k <= d
    ensures (d * U128_MAX) / k > U128_MAX
  {
    MulLe(2 * k, d, U128_MAX);
    assert (2 * U128_MAX) * k == (2 * k) * U128_MAX;
    FloorGalois(d * U128_MAX, k, 2 * U128_MAX);
  }

  lemma BoundaryShape(capture: u128, twiceCapacity: u128, headroom: u128, n: nat)
    requires WidthDomain(capture, twiceCapacity) && 0 < capture && n == twiceCapacity * SaturatingInc(headroom)
    ensures BoundaryWidth(capture, twiceCapacity, headroom) == BoundaryOf(n, capture)
  {
    DivMod(n, capture);
    FloorBounds(n, capture);
  }

  ghost function BoundaryOf(n: nat, k: nat): int
    requires 0 < k
  {
    if n / k > U128_MAX then PRICE_MAX else if n % k == 0 then n / k - 1 else n / k
  }

  lemma BoundaryNumbers(w: nat, k: nat, d: nat, h: nat, n: nat)
    requires 0 < k && 2 * k <= d && h <= U128_MAX && w <= PRICE_MAX
    requires n == d * if h < U128_MAX then h + 1 else h
    ensures 0 <= w * k && ((w * k) / d <= h <==> w <= BoundaryOf(n, k))
  {
    if h == U128_MAX {
      ImpactWithinWidth(w, k, d);
      SaturatedBoundary(k, d);
    } else if n / k > U128_MAX {
      OversizedBoundary(k, d, h, w);
    } else {
      DivMod(n, k);
      FloorBounds(n, k);
      ImpactBound(w, k, d, h, n / k, n % k);
    }
  }

  /** A floored impact fits the headroom exactly up to the boundary width. */
  lemma BoundaryExact(w: nat, capture: u128, twiceCapacity: u128, headroom: u128)
    requires WidthDomain(capture, twiceCapacity) && w <= PRICE_MAX
    ensures (w * capture) / twiceCapacity <= headroom <==> w <= BoundaryWidth(capture, twiceCapacity, headroom)
  {
    if capture == 0 {
      ImpactWithinWidth(w, capture, twiceCapacity);
    } else {
      hide BoundaryWidth, BoundaryOf;
      var n := twiceCapacity * SaturatingInc(headroom);
      MulLe(0, twiceCapacity, SaturatingInc(headroom));
      BoundaryShape(capture, twiceCapacity, headroom, n);
      BoundaryNumbers(w, capture, twiceCapacity, headroom, n);
    }
  }

  /** A ceiled span fits the headroom exactly up to the endpoint width. */
  lemma EndpointExact(w: nat, capture: u128, twiceCapacity: u128, headroom: u128)
    requires WidthDomain(capture, twiceCapacity) && w <= PRICE_MAX
    ensures 0 <= w * (twiceCapacity - capture)
    ensures CeilDiv(w * (twiceCapacity - capture), twiceCapacity) <= headroom
       <==> w <= EndpointWidth(capture, twiceCapacity, headroom)
  {
    var n := twiceCapacity - capture;
    MulLe(0, w, n);
    CeilGalois(w * n, twiceCapacity, headroom);
    FloorGalois(headroom * twiceCapacity, n, w);
  }

  /** Safe and maximal: a width within the request fits both headrooms exactly up to the answer. */
  lemma WidestWidthExact(w: nat, capture: u128, twiceCapacity: u128, hi: u128, he: u128, requested: u128)
    requires WidthDomain(capture, twiceCapacity)
    ensures var widest := WidestWidth(capture, twiceCapacity, hi, he, requested).0;
            widest <= requested && widest <= PRICE_MAX
    ensures 0 <= w * (twiceCapacity - capture)
    ensures w <= requested && w <= PRICE_MAX ==>
            (((w * capture) / twiceCapacity <= hi && CeilDiv(w * (twiceCapacity - capture), twiceCapacity) <= he)
             <==> w <= WidestWidth(capture, twiceCapacity, hi, he, requested).0)
  {
    var c := Candidates(capture, twiceCapacity, hi, he, requested);
    FirstOfThree(c[0], c[1], c[2], (PRICE_MAX, Saturated));
    MulLe(0, w, twiceCapacity - capture);
    if w <= PRICE_MAX {
      BoundaryExact(w, capture, twiceCapacity, hi);
      EndpointExact(w, capture, twiceCapacity, he);
    }
  }

  /**
   Which constraint bound the width, ties going to the earlier: the request itself, the near room (one
   wider would not fit it), the far room (one wider fits the near but not the far), or only the ceiling.
   */
  lemma BindingIsExact(capture: u128, twiceCapacity: u128, hi: u128, he: u128, requested: u128)
    requires WidthDomain(capture, twiceCapacity)
    ensures var (w, binding) := WidestWidth(capture, twiceCapacity, hi, he, requested);
            && 0 <= (w + 1) * capture && 0 <= (w + 1) * (twiceCapacity - capture)
            && (binding == Requested <==> w == requested && requested < PRICE_MAX)
            && (binding == Saturated <==> w == PRICE_MAX)
            && (binding == Boundary ==> w < requested && ((w + 1) * capture) / twiceCapacity > hi)
            && (binding == Endpoint ==>
                  w < requested && ((w + 1) * capture) / twiceCapacity <= hi
                  && CeilDiv((w + 1) * (twiceCapacity - capture), twiceCapacity) > he)
  {
    hide BoundaryWidth, EndpointWidth;
    var (w, binding) := WidestWidth(capture, twiceCapacity, hi, he, requested);
    var near, far := BoundaryWidth(capture, twiceCapacity, hi), EndpointWidth(capture, twiceCapacity, he);
    FirstOfThree((requested, Requested), (near, Boundary), (far, Endpoint), (PRICE_MAX, Saturated));
    MulLe(0, capture, w + 1);
    MulLe(0, w + 1, twiceCapacity - capture);
    if w < PRICE_MAX {
      BoundaryExact(w + 1, capture, twiceCapacity, hi);
      EndpointExact(w + 1, capture, twiceCapacity, he);
    }
  }

  /** The first of the least of three candidates and a start. */
  lemma FirstOfThree(a: (u128, WidthBinding), b: (u128, WidthBinding), c: (u128, WidthBinding), s: (u128, WidthBinding))
    ensures var r := Narrowest([a, b, c], s);
            r == if a.0 < s.0 && a.0 <= b.0 && a.0 <= c.0 then a
                 else if b.0 < s.0 && b.0 < a.0 && b.0 <= c.0 then b
                 else if c.0 < s.0 && c.0 < a.0 && c.0 < b.0 then c
                 else s
  {
    assert [a, b, c][..2] == [a, b];
    assert [a, b][..1] == [a];
    assert [a][..0] == [];
    assert Narrowest([], s) == s;
    assert Narrowest([a], s) == if a.0 < s.0 then a else s;
    assert Narrowest([a, b], s) == if b.0 < Narrowest([a], s).0 then b else Narrowest([a], s);
  }

  // ---- One side ----

  function CheckInput(i: SolveInput): (r: Result<u128, LadderError>)
    ensures r.Ok? <==> 0 < i.capacity <= AMOUNT_MAX && i.capture <= AMOUNT_MAX
                       && i.minPrice <= i.target <= i.maxPrice <= PRICE_MAX
    ensures r.Ok? ==> r.value == Min(i.capture, i.capacity)
    ensures r == Err(NoCapacity) <==> i.capacity == 0
    ensures r == Err(AmountOutOfRange) <==> 0 < i.capacity && Max(i.capacity, i.capture) > AMOUNT_MAX
    ensures r == Err(PriceOutOfRange) <==>
            0 < i.capacity && Max(i.capacity, i.capture) <= AMOUNT_MAX && Max(i.target, Max(i.maxPrice, i.minPrice)) > PRICE_MAX
    ensures r == Err(TargetBelowFloor) ==> i.target < i.minPrice <= i.maxPrice
    ensures r == Err(TargetAboveCeiling) ==> i.minPrice <= i.maxPrice < i.target
    ensures r == Err(InfeasibleBounds) ==> i.minPrice > i.maxPrice
    ensures r.Err? ==> r.error in {NoCapacity, AmountOutOfRange, PriceOutOfRange, TargetBelowFloor, TargetAboveCeiling, InfeasibleBounds}
    ensures forall e :: r != Err(Rejected(e))
  {
    if i.capacity == 0 then Err(NoCapacity)
    else if i.capacity > AMOUNT_MAX then Err(AmountOutOfRange)
    else if i.capture > AMOUNT_MAX then Err(AmountOutOfRange)
    else if i.target > PRICE_MAX then Err(PriceOutOfRange)
    else if i.maxPrice > PRICE_MAX then Err(PriceOutOfRange)
    else if i.minPrice > PRICE_MAX then Err(PriceOutOfRange)
    else if i.minPrice > i.maxPrice then Err(InfeasibleBounds)
    else if i.target < i.minPrice then Err(TargetBelowFloor)
    else if i.target > i.maxPrice then Err(TargetAboveCeiling)
    else Ok(if i.capture <= i.capacity then i.capture else i.capacity)
  }

  /** What is left of a width after its floored impact is its ceiled span. */
  lemma SpanIsCeiled(w: nat, capture: nat, twiceCapacity: nat)
    requires 0 < twiceCapacity && capture <= twiceCapacity
    ensures 0 <= w * capture && 0 <= w * (twiceCapacity - capture)
    ensures 0 <= (w * capture) / twiceCapacity <= w
    ensures w - (w * capture) / twiceCapacity == CeilDiv(w * (twiceCapacity - capture), twiceCapacity)
  {
    var k, d := w * capture, twiceCapacity;
    MulLe(0, w, capture);
    MulLe(0, w, d - capture);
    assert w * (d - capture) == w * d - k;
    FloorBounds(k, d);
    FloorGalois(k, d, w + 1);
    var f := k / d;
    assert (w - f) * d == w * d - f * d;
    CeilGalois(w * (d - capture), d, w - f);
    assert (w - f - 1) * d == w * d - (f + 1) * d;
    CeilGalois(w * (d - capture), d, w - f - 1);
  }

  /** The chosen width with its impact; neither endpoint leaves its headroom. */
  function WidthAndImpact(k: u128, c2: u128, nearRoom: u128, farRoom: u128, requested: u128)
    : (r: Result<(u128, WidthBinding, u128), LadderError>)
    requires WidthDomain(k, c2)
    ensures r.Ok? && r.value.0 == WidestWidth(k, c2, nearRoom, farRoom, requested).0
    ensures r.value.2 == (r.value.0 * k) / c2
    ensures r.value.2 <= nearRoom && r.value.0 - r.value.2 <= farRoom && r.value.2 <= r.value.0
  {
    var (width, binding) := WidestWidth(k, c2, nearRoom, farRoom, requested);
    WidestWidthExact(width, k, c2, nearRoom, farRoom, requested);
    SpanIsCeiled(width, k, c2);
    match MulDivFloor(width, k, c2)
    case None => Err(PriceOutOfRange)
    case Some(impact) => Ok((width, binding, impact))
  }

  function SolveBid(i: SolveInput): Result<Solution, LadderError> {
    var k :- CheckInput(i);
    var w :- WidthAndImpact(k, i.capacity * 2, i.maxPrice - i.target, i.target - i.minPrice, i.requestedWidth);
    var high: u128 := i.target + w.2;
    var low: u128 := high - w.0;
    Ok(Solution(low, high, w.0, k, w.2, w.1))
  }

  function SolveAsk(i: SolveInput): Result<Solution, LadderError> {
    var k :- CheckInput(i);
    var w :- WidthAndImpact(k, i.capacity * 2, i.target - i.minPrice, i.maxPrice - i.target, i.requestedWidth);
    var low: u128 := i.target - w.2;
    var high: u128 := low + w.0;
    Ok(Solution(low, high, w.0, k, w.2, w.1))
  }

  /** The widths both rooms allow, the far one charged what is left after the floored impact. */
  lemma RoomsAllow(w: nat, k: u128, c2: u128, nearRoom: u128, farRoom: u128, requested: u128)
    requires WidthDomain(k, c2) && w <= requested && w <= PRICE_MAX
    ensures 0 <= w * k
    ensures (w * k) / c2 <= nearRoom && w - (w * k) / c2 <= farRoom
       <==> w <= WidestWidth(k, c2, nearRoom, farRoom, requested).0
  {
    hide WidestWidth;
    MulLe(0, k, w);
    SpanIsCeiled(w, k, c2);
    WidestWidthExact(w, k, c2, nearRoom, farRoom, requested);
  }

  /** Bid ladders stay inside the bounds; only the input checks refuse; no wider width would fit. */
  lemma SolveBidWithinBounds(i: SolveInput)
    ensures SolveBid(i).Ok? <==> CheckInput(i).Ok?
    ensures SolveBid(i).Err? ==> SolveBid(i).error == CheckInput(i).error
    ensures SolveBid(i).Ok? ==>
            var s := SolveBid(i).value;
            && i.minPrice <= s.low <= i.target <= s.high <= i.maxPrice && s.width == s.high - s.low
            && (forall w: nat :: w <= i.requestedWidth && w <= PRICE_MAX ==>
                  var high := i.target + (w * s.effectiveCapture) / (2 * i.capacity);
                  (high <= i.maxPrice && i.minPrice <= high - w <==> w <= s.width))
  {
    hide WidestWidth, WidthAndImpact;
    if CheckInput(i).Ok? {
      var nearRoom: u128, farRoom: u128 := i.maxPrice - i.target, i.target - i.minPrice;
      var k, c2 := CheckInput(i).value, 2 * i.capacity;
      forall w: nat | w <= i.requestedWidth && w <= PRICE_MAX
        ensures var high := i.target + (w * k) / c2;
                high <= i.maxPrice && i.minPrice <= high - w <==> w <= SolveBid(i).value.width
      {
        RoomsAllow(w, k, c2, nearRoom, farRoom, i.requestedWidth);
      }
    }
  }

  lemma SolveAskWithinBounds(i: SolveInput)
    ensures SolveAsk(i).Ok? <==> CheckInput(i).Ok?
    ensures SolveAsk(i).Err? ==> SolveAsk(i).error == CheckInput(i).error
    ensures SolveAsk(i).Ok? ==>
            var s := SolveAsk(i).value;
            && i.minPrice <= s.low <= i.target <= s.high <= i.maxPrice && s.width == s.high - s.low
            && (forall w: nat :: w <= i.requestedWidth && w <= PRICE_MAX ==>
                  var low := i.target - (w * s.effectiveCapture) / (2 * i.capacity);
                  (i.minPrice <= low && low + w <= i.maxPrice <==> w <= s.width))
  {
    hide WidestWidth, WidthAndImpact;
    if CheckInput(i).Ok? {
      var nearRoom: u128, farRoom: u128 := i.target - i.minPrice, i.maxPrice - i.target;
      var k, c2 := CheckInput(i).value, 2 * i.capacity;
      forall w: nat | w <= i.requestedWidth && w <= PRICE_MAX
        ensures var low := i.target - (w * k) / c2;
                i.minPrice <= low && low + w <= i.maxPrice <==> w <= SolveAsk(i).value.width
      {
        RoomsAllow(w, k, c2, nearRoom, farRoom, i.requestedWidth);
      }
    }
  }

  lemma SolvedWithinRequest(i: SolveInput)
    ensures SolveBid(i).Ok? ==> SolveBid(i).value.width <= i.requestedWidth
    ensures SolveAsk(i).Ok? ==> SolveAsk(i).value.width <= i.requestedWidth
  {
    hide WidestWidth, WidthAndImpact;
    if CheckInput(i).Ok? {
      WidestWidthExact(0, CheckInput(i).value, 2 * i.capacity, i.maxPrice - i.target, i.target - i.minPrice, i.requestedWidth);
      WidestWidthExact(0, CheckInput(i).value, 2 * i.capacity, i.target - i.minPrice, i.maxPrice - i.target, i.requestedWidth);
    }
  }

  /** What the reported binding of a solved bid means for its prices. */
  lemma SolvedBidBinding(i: SolveInput)
    requires SolveBid(i).Ok?
    ensures var s := SolveBid(i).value;
            && 0 < i.capacity && 0 <= (s.width + 1) * s.effectiveCapture
            && var high := i.target + ((s.width + 1) * s.effectiveCapture) / (2 * i.capacity);
            && (s.binding == Requested <==> s.width == i.requestedWidth && i.requestedWidth < PRICE_MAX)
            && (s.binding == Saturated <==> s.width == PRICE_MAX)
            && (s.binding == Boundary ==> s.width < i.requestedWidth && high > i.maxPrice)
            && (s.binding == Endpoint ==> s.width < i.requestedWidth && high <= i.maxPrice && high - (s.width + 1) < i.minPrice)
  {
    hide WidestWidth, CeilDiv;
    var k, c2 := CheckInput(i).value, 2 * i.capacity;
    BindingIsExact(k, c2, i.maxPrice - i.target, i.target - i.minPrice, i.requestedWidth);
    SpanIsCeiled(SolveBid(i).value.width + 1, k, c2);
  }

  lemma SolvedAskBinding(i: SolveInput)
    requires SolveAsk(i).Ok?
    ensures var s := SolveAsk(i).value;
            && 0 < i.capacity && 0 <= (s.width + 1) * s.effectiveCapture
            && var low := i.target - ((s.width + 1) * s.effectiveCapture) / (2 * i.capacity);
            && (s.binding == Requested <==> s.width == i.requestedWidth && i.requestedWidth < PRICE_MAX)
            && (s.binding == Saturated <==> s.width == PRICE_MAX)
            && (s.binding == Boundary ==> s.width < i.requestedWidth && low < i.minPrice)
            && (s.binding == Endpoint ==> s.width < i.requestedWidth && low >= i.minPrice && low + (s.width + 1) > i.maxPrice)
  {
    hide WidestWidth, CeilDiv;
    var k, c2 := CheckInput(i).value, 2 * i.capacity;
    BindingIsExact(k, c2, i.target - i.minPrice, i.maxPrice - i.target, i.requestedWidth);
    SpanIsCeiled(SolveAsk(i).value.width + 1, k, c2);
  }

  // ---- Agreement with the forward curve ----

  /** A solved bid, as numbers. */
  lemma SolvedBidShape(i: SolveInput)
    requires SolveBid(i).Ok?
    ensures var s := SolveBid(i).value;
            && 0 < i.capacity <= AMOUNT_MAX && s.effectiveCapture == Min(i.capture, i.capacity)
            && i.minPrice <= s.low <= i.target <= s.high <= i.maxPrice <= PRICE_MAX && s.width == s.high - s.low
            && 0 <= s.width * s.effectiveCapture
            && s.impact == (s.width * s.effectiveCapture) / (2 * i.capacity) && s.high == i.target + s.impact
  {
    SolveBidWithinBounds(i);
    MulLe(0, SolveBid(i).value.width, SolveBid(i).value.effectiveCapture);
  }

  lemma SolvedAskShape(i: SolveInput)
    requires SolveAsk(i).Ok?
    ensures var s := SolveAsk(i).value;
            && 0 < i.capacity <= AMOUNT_MAX && s.effectiveCapture == Min(i.capture, i.capacity)
            && i.minPrice <= s.low <= i.target <= s.high <= i.maxPrice <= PRICE_MAX && s.width == s.high - s.low
            && 0 <= s.width * s.effectiveCapture
            && s.impact == (s.width * s.effectiveCapture) / (2 * i.capacity) && s.low == i.target - s.impact
  {
    SolveAskWithinBounds(i);
    MulLe(0, SolveAsk(i).value.width, SolveAsk(i).value.effectiveCapture);
  }

  /** Baking in the floor of an impact leaves only its fraction. */
  lemma FlooredImpact(t: int, impact: int, wk: nat, d: nat)
    requires 0 < d && impact == wk / d
    ensures (t - 1) * d < (t + impact) * d - wk <= t * d
    ensures t * d <= (t - impact) * d + wk < (t + 1) * d
    ensures (t + impact) * d - wk == t * d <==> wk % d == 0
    ensures (t - impact) * d + wk == t * d <==> wk % d == 0
  {
    DivMod(wk, d);
    assert (t + impact) * d == t * d + impact * d;
    assert (t - impact) * d == t * d - impact * d;
    assert (t - 1) * d == t * d - d && (t + 1) * d == t * d + d;
  }

  /** The reported averages of a fresh epoch, as numbers. */
  lemma FreshAverages(low: nat, high: nat, capacity: nat, k: nat)
    requires low <= high && 0 < capacity && k <= capacity
    ensures 0 <= (high - low) * k
    ensures AvgBidPrice(low, high, capacity, 0, k) == Ok(high - CeilDiv((high - low) * k, 2 * capacity))
    ensures AvgAskPrice(low, high, capacity, 0, k) == Ok(low + CeilDiv((high - low) * k, 2 * capacity))
  {
    MulLe(0, high - low, k);
    MulLe(k, 2 * capacity, high - low);
    CeilGalois((high - low) * k, 2 * capacity, high - low);
  }

  /**
   The exact average over the capture lies in `(target - 1, target]`, on the target exactly when
   the doubled capacity divides `width * capture`; the reported floor is `target` or one less.
   */
  lemma SolvedBidAverage(i: SolveInput)
    requires SolveBid(i).Ok?
    ensures var s, c2 := SolveBid(i).value, 2 * i.capacity;
            && (i.target - 1) * c2 < s.high * c2 - s.width * s.effectiveCapture <= i.target * c2
            && (s.high * c2 - s.width * s.effectiveCapture == i.target * c2
                <==> (s.width * s.effectiveCapture) % c2 == 0)
    ensures var s := SolveBid(i).value;
            var avg := AvgBidPrice(s.low, s.high, i.capacity, 0, s.effectiveCapture);
            && avg.Ok? && i.target - 1 <= avg.value <= i.target
            && (avg.value == i.target <==> (s.width * s.effectiveCapture) % (2 * i.capacity) == 0)
  {
    hide SolveBid;
    SolvedBidShape(i);
    var s := SolveBid(i).value;
    hide AvgBidPrice;
    FlooredImpact(i.target, s.impact, s.width * s.effectiveCapture, 2 * i.capacity);
    CeilFloorGap(s.width * s.effectiveCapture, 2 * i.capacity);
    FreshAverages(s.low, s.high, i.capacity, s.effectiveCapture);
  }

  lemma SolvedAskAverage(i: SolveInput)
    requires SolveAsk(i).Ok?
    ensures var s, c2 := SolveAsk(i).value, 2 * i.capacity;
            && i.target * c2 <= s.low * c2 + s.width * s.effectiveCapture < (i.target + 1) * c2
            && (s.low * c2 + s.width * s.effectiveCapture == i.target * c2
                <==> (s.width * s.effectiveCapture) % c2 == 0)
    ensures var s := SolveAsk(i).value;
            var avg := AvgAskPrice(s.low, s.high, i.capacity, 0, s.effectiveCapture);
            && avg.Ok? && i.target <= avg.value <= i.target + 1
            && (avg.value == i.target <==> (s.width * s.effectiveCapture) % (2 * i.capacity) == 0)
  {
    hide SolveAsk;
    SolvedAskShape(i);
    var s := SolveAsk(i).value;
    hide AvgAskPrice;
    FlooredImpact(i.target, s.impact, s.width * s.effectiveCapture, 2 * i.capacity);
    CeilFloorGap(s.width * s.effectiveCapture, 2 * i.capacity);
    FreshAverages(s.low, s.high, i.capacity, s.effectiveCapture);
  }

  /** From the capture on, the pool never pays more than the target price per unit. */
  lemma SolvedBidNeverOverpays(i: SolveInput, q: nat, exp: nat)
    requires SolveBid(i).Ok? && SolveBid(i).value.effectiveCapture <= q <= i.capacity
    ensures var s := SolveBid(i).value;
            var out := AmountOutBid(q, s.low, s.high, i.capacity, 0, exp);
            out.Ok? ==> out.value <= (q * i.target) / TenTo(exp)
  {
    hide SolveBid;
    SolvedBidShape(i);
    SolvedBidAverage(i);
    var s := SolveBid(i).value;
    MulLe(0, i.target, q);
    FloorBounds(q * i.target, TenTo(exp));
    var leg := BidLeg(s.low, s.high, i.capacity, 0, TenTo(exp));
    BidFactorAtCapture(leg, s.effectiveCapture, q, i.target);
    assert i.target * (2 * i.capacity) == 2 * i.capacity * i.target;
    CurveAverages.SaleAtMost(leg, q, i.target);
  }

  lemma BidFactorAtCapture(leg: BidLeg, k: nat, q: nat, t: nat)
    requires leg.Live() && leg.used == 0 && k <= q
    requires leg.maxBid * (2 * leg.capacity) - (leg.maxBid - leg.minBid) * k <= t * (2 * leg.capacity)
    ensures leg.Factor(q) <= t * (2 * leg.capacity)
  {
    MulLe(k, q, leg.Span());
  }

  lemma AskFactorAtCapture(leg: AskLeg, k: nat, q: nat, t: nat)
    requires leg.Live() && leg.used == 0 && k <= q
    requires leg.minAsk * (2 * leg.capacity) + (leg.maxAsk - leg.minAsk) * k >= t * (2 * leg.capacity)
    ensures leg.Factor(q) >= t * (2 * leg.capacity)
  {
    MulLe(k, q, leg.Span());
  }

  /** An average of at least `t` over a purchase bounds what it costs. */
  lemma PerUnitAsk(leg: AskLeg, q: nat, t: nat)
    requires leg.Live() && q <= leg.Room() && leg.Factor(q) >= t * (2 * leg.capacity)
    ensures 0 <= q * t && leg.Cost(q) >= CeilDiv(q * t, leg.scale)
  {
    hide AskLeg.Factor;
    var k, c2 := leg.Cost(q), 2 * leg.capacity;
    CostWithin(leg, q, k);
    MulLe(0, t, q);
    MulLe(t * c2, leg.Factor(q), q);
    assert (t * c2) * q == (q * t) * c2;
    assert k * leg.Denominator() == (k * leg.scale) * c2 by { assert k * (c2 * leg.scale) == (k * leg.scale) * c2; }
    MulLeCancel(q * t, k * leg.scale, c2);
    CeilGalois(q * t, leg.scale, k);
  }

  /** An answered purchase pays the curve's cost. */
  lemma PaidIsCost(q: nat, low: nat, high: nat, capacity: nat, exp: nat)
    ensures var paid := AmountInAsk(q, low, high, capacity, 0, exp);
            paid.Ok? && 0 < q ==>
              low <= high && q <= capacity && paid.value == AskLeg(low, high, capacity, 0, TenTo(exp)).Cost(q)
  {
    hide AskLeg.Cost;
  }

  /** From the capture on, the pool never sells for less than the target price per unit. */
  lemma SolvedAskNeverUndersells(i: SolveInput, q: nat, exp: nat)
    requires SolveAsk(i).Ok? && SolveAsk(i).value.effectiveCapture <= q <= i.capacity
    ensures 0 <= q * i.target
    ensures var s := SolveAsk(i).value;
            var paid := AmountInAsk(q, s.low, s.high, i.capacity, 0, exp);
            paid.Ok? ==> paid.value >= CeilDiv(q * i.target, TenTo(exp))
  {
    hide SolveAsk, AmountInAsk, AskLeg.Factor, AskLeg.Cost;
    SolvedAskShape(i);
    SolvedAskAverage(i);
    var s := SolveAsk(i).value;
    MulLe(0, i.target, q);
    var leg := AskLeg(s.low, s.high, i.capacity, 0, TenTo(exp));
    AskFactorAtCapture(leg, s.effectiveCapture, q, i.target);
    PerUnitAsk(leg, q, i.target);
    PaidIsCost(q, s.low, s.high, i.capacity, exp);
    if q == 0 { CeilGalois(0, TenTo(exp), 0); }
  }

  // ---- Both sides ----

  /** The ask lifted to clear the bid, and one unit above the worst bid. */
  function RepairedAsk(bid: Solution, ask: Solution): (nat, nat) {
    var minAsk := Max(ask.low, bid.high);
    (minAsk, Max(Max(ask.high, minAsk), bid.low + 1))
  }

  function SolveTwoSided(bid: SolveInput, ask: SolveInput): Result<TwoSided, LadderError> {
    var b :- SolveBid(bid);
    var a :- SolveAsk(ask);
    var (minAsk, maxAsk) := RepairedAsk(b, a);
    if minAsk > PRICE_MAX || maxAsk > PRICE_MAX then Err(InfeasibleBounds)
    else
      var ladder := Ladder(b.low, b.high, minAsk, maxAsk);
      match ValidateLadder(ladder, bid.minPrice)
      case Err(e) => Err(Rejected(e))
      case Ok(_) => Ok(TwoSided(ladder, b, a, minAsk != a.low || maxAsk != a.high))
  }

  /** The row as assembled, repairing in place. */
  method AssembleTwoSided(bid: SolveInput, ask: SolveInput) returns (r: Result<TwoSided, LadderError>)
    ensures r == SolveTwoSided(bid, ask)
  {
    var b :- SolveBid(bid);
    var a :- SolveAsk(ask);
    SolveBidWithinBounds(bid);
    SolveAskWithinBounds(ask);
    var minAsk, maxAsk := a.low, a.high;
    if minAsk < b.high {
      minAsk := b.high;
    }
    if maxAsk < minAsk {
      maxAsk := minAsk;
    }
    if maxAsk <= b.low {
      maxAsk := b.low + 1;
    }
    if minAsk > PRICE_MAX { return Err(InfeasibleBounds); }
    if maxAsk > PRICE_MAX { return Err(InfeasibleBounds); }
    var ladder := Ladder(b.low, b.high, minAsk, maxAsk);
    match ValidateLadder(ladder, bid.minPrice)
    case Err(e) => return Err(Rejected(e));
    case Ok(_) => return Ok(TwoSided(ladder, b, a, minAsk != a.low || maxAsk != a.high));
  }

  /**
   Every assembled row passes the validator with the bid verbatim and the ask only raised; the
   repair itself refuses exactly when the worst bid already sits on the price ceiling.
   */
  lemma TwoSidedNeverRejected(bid: SolveInput, ask: SolveInput)
    ensures forall e :: SolveTwoSided(bid, ask) != Err(Rejected(e))
    ensures SolveBid(bid).Ok? && SolveAsk(ask).Ok? ==>
            && (SolveTwoSided(bid, ask).Err? <==> SolveBid(bid).value.low == PRICE_MAX)
            && (SolveTwoSided(bid, ask).Err? ==> SolveTwoSided(bid, ask).error == InfeasibleBounds)
    ensures SolveTwoSided(bid, ask).Ok? ==>
            var t := SolveTwoSided(bid, ask).value;
            && SolveBid(bid) == Ok(t.bid) && SolveAsk(ask) == Ok(t.ask)
            && ValidateLadder(t.ladder, bid.minPrice) == Ok(()) && t.ladder.maxAsk <= PRICE_MAX
            && t.ladder.minBid == t.bid.low && t.ladder.maxBid == t.bid.high
            && t.ladder.minAsk >= t.ask.low && t.ladder.maxAsk >= t.ask.high
            && (!t.askRepaired ==> t.ladder.minAsk == t.ask.low && t.ladder.maxAsk == t.ask.high)
  {
    SolveBidWithinBounds(bid);
    SolveAskWithinBounds(ask);
  }

  /** The repair is the least one: any valid row with the solved bid and no lower an ask is at or above it, and it is flagged exactly when it moved. */
  lemma RepairIsLeast(bid: SolveInput, ask: SolveInput, minAsk: nat, maxAsk: nat)
    requires SolveTwoSided(bid, ask).Ok?
    ensures var t := SolveTwoSided(bid, ask).value;
            && (t.askRepaired <==> (t.ladder.minAsk, t.ladder.maxAsk) != (t.ask.low, t.ask.high))
            && (t.ask.low <= minAsk && t.ask.high <= maxAsk
                && ValidateLadder(Ladder(t.bid.low, t.bid.high, minAsk, maxAsk), bid.minPrice).Ok?
                ==> t.ladder.minAsk <= minAsk && t.ladder.maxAsk <= maxAsk)
  {
    hide SolveBid, SolveAsk;
  }

  /** Raising either end of the ask cannot lower its average. */
  lemma RaisedAverage(lo: nat, hi: nat, lo': nat, hi': nat, k: nat, d: nat, t: nat)
    requires lo <= lo' && hi <= hi' && lo <= hi && lo' <= hi' && 0 < d && k <= d
    requires lo * d + (hi - lo) * k >= t * d
    ensures lo' * d + (hi' - lo') * k >= t * d
    ensures 0 <= (hi' - lo') * k && lo' + CeilDiv((hi' - lo') * k, d) >= t
  {
    MulLe(lo, lo', d - k);
    MulLe(hi, hi', k);
    assert lo' * d + (hi' - lo') * k == lo' * (d - k) + hi' * k;
    assert lo * d + (hi - lo) * k == lo * (d - k) + hi * k;
    MulLe(0, hi' - lo', k);
    CeilBounds((hi' - lo') * k, d);
    var premium := CeilDiv((hi' - lo') * k, d);
    assert (lo' + premium) * d == lo' * d + premium * d;
    MulLeCancel(t, lo' + premium, d);
  }

  /** Repaired or not, the ask averages at least its target over the capture. */
  lemma RepairKeepsAskTarget(bid: SolveInput, ask: SolveInput)
    requires SolveTwoSided(bid, ask).Ok?
    ensures var t, c2 := SolveTwoSided(bid, ask).value, 2 * ask.capacity;
            && t.ladder.minAsk * c2 + (t.ladder.maxAsk - t.ladder.minAsk) * t.ask.effectiveCapture >= ask.target * c2
            && AvgAskPrice(t.ladder.minAsk, t.ladder.maxAsk, ask.capacity, 0, t.ask.effectiveCapture).Ok?
            && AvgAskPrice(t.ladder.minAsk, t.ladder.maxAsk, ask.capacity, 0, t.ask.effectiveCapture).value >= ask.target
  {
    hide SolveTwoSided, SolveAsk, SolveBid;
    TwoSidedNeverRejected(bid, ask);
    SolvedAskShape(ask);
    SolvedAskAverage(ask);
    var t := SolveTwoSided(bid, ask).value;
    RaisedAverage(t.ask.low, t.ask.high, t.ladder.minAsk, t.ladder.maxAsk, t.ask.effectiveCapture, 2 * ask.capacity, ask.target);
  }
}
