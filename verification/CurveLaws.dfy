/**
 Laws of the four quote functions: the two directions of a side are adjoint, the only refusals are
 the chain's own, splitting a trade never helps the taker, and no run of trades is a money pump.
 */
module CurveLaws {
  import opened Words
  import opened Errors
  import opened Arithmetic
  import opened CurveSpec
  import opened Permutations

  // ---- The inverted directions are exact ----

  /** Exact-in ask: the greatest affordable size, refused exactly beyond the epoch's whole cost. */
  lemma AskAnswerIsGreatest(x: nat, minAsk: nat, maxAsk: nat, capacity: nat, used: nat, exp: nat)
    requires exp <= PRICE_SCALE_EXP_MAX && 0 < x && minAsk <= maxAsk && 0 < maxAsk && used < capacity
    ensures var leg := AskLeg(minAsk, maxAsk, capacity, used, TenTo(exp));
            var r := AmountOutAsk(x, minAsk, maxAsk, capacity, used, exp);
            && (r == Err(AmountExceedsCapacity) <==> x > leg.Cost(leg.Room()))
            && (r.Err? ==> r == Err(AmountExceedsCapacity))
            && (r.Ok? ==> r.value <= leg.Room())
            && (r.Ok? ==> forall q: nat :: q <= leg.Room() ==> (leg.Cost(q) <= x <==> q <= r.value))
  {
    var leg := AskLeg(minAsk, maxAsk, capacity, used, TenTo(exp));
    var r := AmountOutAsk(x, minAsk, maxAsk, capacity, used, exp);
    if r.Ok? {
      forall q: nat | q <= leg.Room() ensures leg.Cost(q) <= x <==> q <= r.value {
        assert Affordable(leg, r.value, x);
        if q <= r.value { CostMono(leg, q, r.value); } else { assert !Affordable(leg, q, x); }
      }
    }
  }

  /** Exact-out bid: the least delivering size, refused exactly beyond the epoch's whole gross. */
  lemma BidAnswerIsLeast(y: nat, minBid: nat, maxBid: nat, capacity: nat, used: nat, exp: nat)
    requires exp <= PRICE_SCALE_EXP_MAX && 0 < y && minBid <= maxBid && used < capacity
    ensures var leg := BidLeg(minBid, maxBid, capacity, used, TenTo(exp));
            var r := AmountInBid(y, minBid, maxBid, capacity, used, exp);
            && (r == Err(AmountExceedsCapacity) <==> leg.Gross(leg.Room()) < y)
            && (r.Err? ==> r == Err(AmountExceedsCapacity))
            && (r.Ok? ==> 1 <= r.value <= leg.Room())
            && (r.Ok? ==> forall q: nat :: q <= leg.Room() ==> (leg.Gross(q) >= y <==> q >= r.value))
  {
    var leg := BidLeg(minBid, maxBid, capacity, used, TenTo(exp));
    var r := AmountInBid(y, minBid, maxBid, capacity, used, exp);
    if r.Ok? {
      forall q: nat | q <= leg.Room() ensures leg.Gross(q) >= y <==> q >= r.value {
        if q >= r.value {
          GrossMono(leg, r.value, q);
        } else if q == 0 {
          GrossOfNothing(leg);
        } else {
          assert !Delivers(leg, q, y);
        }
      }
    }
  }

  lemma GrossOfNothing(leg: BidLeg)
    requires leg.Live()
    ensures leg.Gross(0) == 0
  {
    GrossReaches(leg, 0, 1);
    DenominatorPositive(leg.capacity, leg.scale);
  }

  /** A positive size against a priced ask costs something. */
  lemma CostOfSomething(leg: AskLeg, q: nat)
    requires leg.Live() && 0 < q <= leg.Room() && 0 < leg.maxAsk
    ensures leg.Cost(q) >= 1
  {
    CostWithin(leg, q, 0);
    MulLe(0, leg.minAsk, 2 * leg.capacity);
    assert 2 * leg.minAsk * leg.capacity == leg.minAsk * (2 * leg.capacity);
    if leg.minAsk == 0 {
      MulLe(1, leg.Span(), 2 * leg.used + q);
    } else {
      MulLe(1, leg.minAsk, 2 * leg.capacity);
      MulLe(0, leg.Span(), 2 * leg.used + q);
    }
    MulLe(1, leg.Factor(q), q);
  }

  /** `amount_in_ask(q) <= X` exactly when `q <= amount_out_ask(X)`. */
  lemma AskAdjoint(q: nat, x: nat, minAsk: nat, maxAsk: nat, capacity: nat, used: nat, exp: nat)
    requires AmountInAsk(q, minAsk, maxAsk, capacity, used, exp).Ok?
    requires AmountOutAsk(x, minAsk, maxAsk, capacity, used, exp).Ok?
    ensures AmountInAsk(q, minAsk, maxAsk, capacity, used, exp).value <= x
       <==> q <= AmountOutAsk(x, minAsk, maxAsk, capacity, used, exp).value
  {
    if q > 0 {
      var leg := AskLeg(minAsk, maxAsk, capacity, used, TenTo(exp));
      CostOfSomething(leg, q);
      if x > 0 { AskAnswerIsGreatest(x, minAsk, maxAsk, capacity, used, exp); }
    }
  }

  /** `amount_out_bid(q) >= Y` exactly when `q >= amount_in_bid(Y)`. */
  lemma BidAdjoint(q: nat, y: nat, minBid: nat, maxBid: nat, capacity: nat, used: nat, exp: nat)
    requires AmountOutBid(q, minBid, maxBid, capacity, used, exp).Ok?
    requires AmountInBid(y, minBid, maxBid, capacity, used, exp).Ok?
    ensures AmountOutBid(q, minBid, maxBid, capacity, used, exp).value >= y
       <==> q >= AmountInBid(y, minBid, maxBid, capacity, used, exp).value
  {
    if y > 0 { BidAnswerIsLeast(y, minBid, maxBid, capacity, used, exp); }
  }

  // ---- Domain edges ----

  /** Not one of the two errors that only the port raises. */
  ghost predicate SharedRefusal(r: Result<nat, CurveError>) {
    r != Err(ArithmeticPanic) && r != Err(DomainOverflow)
  }

  /**
   Non-inverted ladders at an accepted scale never reach the two errors the chain does not raise,
   and past the capacity and price checks the 128-bit refusal is exactly an oversized quotient.
   */
  lemma OnlyChainRefusals(a: nat, near: nat, far: nat, capacity: nat, used: nat, exp: nat)
    requires exp <= PRICE_SCALE_EXP_MAX && near <= far
    ensures SharedRefusal(AmountOutBid(a, near, far, capacity, used, exp))
    ensures SharedRefusal(AmountInBid(a, near, far, capacity, used, exp))
    ensures SharedRefusal(AmountInAsk(a, near, far, capacity, used, exp))
    ensures SharedRefusal(AmountOutAsk(a, near, far, capacity, used, exp))
    ensures AmountInBid(a, near, far, capacity, used, exp) != Err(AmountOutOfDomain)
    ensures AmountOutAsk(a, near, far, capacity, used, exp) != Err(AmountOutOfDomain)
    ensures 0 < a && used + a <= capacity ==>
            var leg := BidLeg(near, far, capacity, used, TenTo(exp));
            (AmountOutBid(a, near, far, capacity, used, exp) == Err(AmountOutOfDomain)
             <==> leg.Numerator(a) >= POW128 * leg.Denominator())
    ensures 0 < a && used + a <= capacity && 0 < far ==>
            var leg := AskLeg(near, far, capacity, used, TenTo(exp));
            (AmountInAsk(a, near, far, capacity, used, exp) == Err(AmountOutOfDomain)
             <==> leg.Numerator(a) > U128_MAX * leg.Denominator())
  {
    if 0 < a && used + a <= capacity {
      GrossReaches(BidLeg(near, far, capacity, used, TenTo(exp)), a, POW128);
      CostWithin(AskLeg(near, far, capacity, used, TenTo(exp)), a, U128_MAX);
    }
  }

  /** What every direction checks before it prices anything, in order: scale, a zero amount, an empty epoch, room. */
  ghost predicate Gated(r: Result<nat, CurveError>, a: nat, capacity: nat, roomy: bool, exp: nat) {
    && (r == Err(DomainOverflow) <==> exp > PRICE_SCALE_EXP_MAX)
    && (exp <= PRICE_SCALE_EXP_MAX && a == 0 ==> r == Ok(0))
    && (r == Err(ZeroCapacity) <==> exp <= PRICE_SCALE_EXP_MAX && 0 < a && capacity == 0)
    && (exp <= PRICE_SCALE_EXP_MAX && 0 < a && 0 < capacity && !roomy ==> r == Err(AmountExceedsCapacity))
  }

  /** Every refusal of the two forward directions, exactly. */
  lemma ForwardRefusals(a: nat, near: nat, far: nat, capacity: nat, used: nat, exp: nat)
    ensures var bid, ask := AmountOutBid(a, near, far, capacity, used, exp), AmountInAsk(a, near, far, capacity, used, exp);
            var open := exp <= PRICE_SCALE_EXP_MAX && 0 < a && 0 < capacity && used + a <= capacity;
            && Gated(bid, a, capacity, used + a <= capacity, exp) && Gated(ask, a, capacity, used + a <= capacity, exp)
            && (bid == Err(AmountExceedsCapacity) ==> !open) && (ask == Err(AmountExceedsCapacity) ==> !open)
            && (bid == Err(ArithmeticPanic) <==> open && far < near)
            && (ask == Err(ZeroPrice) <==> open && far == 0)
            && (ask == Err(ArithmeticPanic) <==> open && 0 < far < near)
  {}

  /** And of the two inverted ones, up to the depth they compare against. */
  lemma InverseRefusals(a: nat, near: nat, far: nat, capacity: nat, used: nat, exp: nat)
    ensures var bid, ask := AmountInBid(a, near, far, capacity, used, exp), AmountOutAsk(a, near, far, capacity, used, exp);
            var open := exp <= PRICE_SCALE_EXP_MAX && 0 < a && 0 < capacity && used < capacity;
            && Gated(bid, a, capacity, used < capacity, exp) && Gated(ask, a, capacity, used < capacity, exp)
            && (bid == Err(ArithmeticPanic) <==> open && far < near)
            && (ask == Err(ZeroPrice) <==> open && far == 0)
            && (ask == Err(ArithmeticPanic) <==> open && 0 < far < near)
  {
    hide LeastBidSize, GreatestAskSize;
  }

  // ---- Splitting ----

  /** Sell the pieces one after another, usage advancing by each. */
  function SellPieces(pieces: seq<nat>, minBid: nat, maxBid: nat, capacity: nat, used: nat, exp: nat)
    : Result<nat, CurveError>
  {
    if pieces == [] then Ok(0)
    else
      var got :- AmountOutBid(pieces[0], minBid, maxBid, capacity, used, exp);
      var rest :- SellPieces(pieces[1..], minBid, maxBid, capacity, used + pieces[0], exp);
      Ok(got + rest)
  }

  function BuyPieces(pieces: seq<nat>, minAsk: nat, maxAsk: nat, capacity: nat, used: nat, exp: nat)
    : Result<nat, CurveError>
  {
    if pieces == [] then Ok(0)
    else
      var paid :- AmountInAsk(pieces[0], minAsk, maxAsk, capacity, used, exp);
      var rest :- BuyPieces(pieces[1..], minAsk, maxAsk, capacity, used + pieces[0], exp);
      Ok(paid + rest)
  }

  /** Spend the budgets one after another; the answer is the total base bought. */
  function SpendPieces(budgets: seq<nat>, minAsk: nat, maxAsk: nat, capacity: nat, used: nat, exp: nat)
    : Result<nat, CurveError>
  {
    if budgets == [] then Ok(0)
    else
      var got :- AmountOutAsk(budgets[0], minAsk, maxAsk, capacity, used, exp);
      var rest :- SpendPieces(budgets[1..], minAsk, maxAsk, capacity, used + got, exp);
      Ok(got + rest)
  }

  /** The bid integral is additive: selling `a + b` grosses, unrounded, what `a` then `b` gross. */
  lemma BidAdditive(leg: BidLeg, a: nat, b: nat)
    ensures leg.Numerator(a + b) == leg.Numerator(a) + leg.(used := leg.used + a).Numerator(b)
  {
    BidNumeratorStep(leg, a, a + b);
    assert leg.Factor(a + (a + b)) == leg.(used := leg.used + a).Factor(b);
  }

  lemma AskAdditive(leg: AskLeg, a: nat, b: nat)
    ensures leg.Numerator(a + b) == leg.Numerator(a) + leg.(used := leg.used + a).Numerator(b)
  {
    AskNumeratorStep(leg, a, a + b);
    assert leg.Factor(a + (a + b)) == leg.(used := leg.used + a).Factor(b);
  }

  lemma FloorSplit(m: nat, n: nat, d: nat)
    requires 0 < d
    ensures 0 <= m / d && 0 <= n / d && m / d + n / d <= (m + n) / d <= m / d + n / d + 1
  {
    FloorBounds(m, d);
    FloorBounds(n, d);
    assert (m / d + n / d) * d == (m / d) * d + (n / d) * d;
    FloorGalois(m + n, d, m / d + n / d);
    assert (m / d + n / d + 2) * d == (m / d + 1) * d + (n / d + 1) * d;
    FloorGalois(m + n, d, m / d + n / d + 2);
  }

  lemma CeilSplit(m: nat, n: nat, d: nat)
    requires 0 < d
    ensures CeilDiv(m + n, d) <= CeilDiv(m, d) + CeilDiv(n, d) <= CeilDiv(m + n, d) + 1
  {
    CeilBounds(m, d);
    CeilBounds(n, d);
    var a, b := CeilDiv(m, d), CeilDiv(n, d);
    assert (a + b) * d == a * d + b * d;
    CeilGalois(m + n, d, a + b);
    assert (a + b - 2) * d == a * d + b * d - 2 * d;
    CeilGalois(m + n, d, a + b - 2);
  }

  /** Two consecutive sales lose the taker at most one unit against one sale. */
  lemma GrossSplit(leg: BidLeg, a: nat, b: nat)
    requires leg.Live() && a + b <= leg.Room()
    ensures var later := leg.(used := leg.used + a);
            leg.Gross(a) + later.Gross(b) <= leg.Gross(a + b) <= leg.Gross(a) + later.Gross(b) + 1
  {
    var later := leg.(used := leg.used + a);
    BidAdditive(leg, a, b);
    BidNumeratorMono(leg, 0, a);
    BidNumeratorMono(later, 0, b);
    DenominatorPositive(leg.capacity, leg.scale);
    FloorSplit(leg.Numerator(a), later.Numerator(b), leg.Denominator());
  }

  lemma CostSplit(leg: AskLeg, a: nat, b: nat)
    requires leg.Live() && a + b <= leg.Room()
    ensures var later := leg.(used := leg.used + a);
            leg.Cost(a + b) <= leg.Cost(a) + later.Cost(b) <= leg.Cost(a + b) + 1
  {
    var later := leg.(used := leg.used + a);
    AskAdditive(leg, a, b);
    AskNumeratorMono(leg, 0, a);
    AskNumeratorMono(later, 0, b);
    DenominatorPositive(leg.capacity, leg.scale);
    CeilSplit(leg.Numerator(a), later.Numerator(b), leg.Denominator());
  }

  /** Selling in `n` pieces succeeds when the whole does and loses between 0 and `n - 1` units. */
  lemma {:induction false} SellSplitLaw(pieces: seq<nat>, minBid: nat, maxBid: nat, capacity: nat, used: nat, exp: nat)
    requires pieces != [] && minBid <= maxBid && used <= capacity
    requires AmountOutBid(Sum(pieces), minBid, maxBid, capacity, used, exp).Ok?
    ensures var split := SellPieces(pieces, minBid, maxBid, capacity, used, exp);
            var whole := AmountOutBid(Sum(pieces), minBid, maxBid, capacity, used, exp).value;
            split.Ok? && whole - (|pieces| - 1) <= split.value <= whole
  {
    var first, rest := pieces[0], pieces[1..];
    assert Sum(pieces) == first + Sum(rest);
    if rest == [] {
      assert SellPieces(rest, minBid, maxBid, capacity, used + first, exp) == Ok(0);
    } else {
      if capacity > 0 {
        var leg := BidLeg(minBid, maxBid, capacity, used, TenTo(exp));
        GrossSplit(leg, first, Sum(rest));
        GrossOfNothing(leg);
        GrossOfNothing(leg.(used := used + first));
      }
      SellSplitLaw(rest, minBid, maxBid, capacity, used + first, exp);
    }
  }

  /** Buying in `n` pieces succeeds when the whole does and costs between 0 and `n - 1` units more. */
  lemma {:induction false} BuySplitLaw(pieces: seq<nat>, minAsk: nat, maxAsk: nat, capacity: nat, used: nat, exp: nat)
    requires pieces != [] && minAsk <= maxAsk && used <= capacity
    requires AmountInAsk(Sum(pieces), minAsk, maxAsk, capacity, used, exp).Ok?
    ensures var split := BuyPieces(pieces, minAsk, maxAsk, capacity, used, exp);
            var whole := AmountInAsk(Sum(pieces), minAsk, maxAsk, capacity, used, exp).value;
            split.Ok? && whole <= split.value <= whole + (|pieces| - 1)
  {
    var first, rest := pieces[0], pieces[1..];
    assert Sum(pieces) == first + Sum(rest);
    if rest == [] {
      assert BuyPieces(rest, minAsk, maxAsk, capacity, used + first, exp) == Ok(0);
    } else {
      if capacity > 0 {
        var leg := AskLeg(minAsk, maxAsk, capacity, used, TenTo(exp));
        CostSplit(leg, first, Sum(rest));
        CostMono(leg, first, first + Sum(rest));
        CostOfNothing(leg);
        CostOfNothing(leg.(used := used + first));
        LaterCostWithinWhole(leg, first, Sum(rest));
      }
      BuySplitLaw(rest, minAsk, maxAsk, capacity, used + first, exp);
    }
  }

  lemma LaterCostWithinWhole(leg: AskLeg, a: nat, b: nat)
    requires leg.Live() && a + b <= leg.Room()
    ensures leg.(used := leg.used + a).Cost(b) <= leg.Cost(a + b)
  {
    var later := leg.(used := leg.used + a);
    AskAdditive(leg, a, b);
    AskNumeratorMono(leg, 0, a);
    AskNumeratorMono(later, 0, b);
    DenominatorPositive(leg.capacity, leg.scale);
    CeilMono(later.Numerator(b), leg.Numerator(a + b), leg.Denominator());
  }

  /** What consecutive budgets buy would have cost, in one trade, no more than their sum. */
  lemma {:induction false} SpentCoversCost(budgets: seq<nat>, minAsk: nat, maxAsk: nat, capacity: nat, used: nat, exp: nat)
    requires minAsk <= maxAsk && 0 < capacity && used <= capacity && exp <= PRICE_SCALE_EXP_MAX
    requires SpendPieces(budgets, minAsk, maxAsk, capacity, used, exp).Ok?
    ensures var leg := AskLeg(minAsk, maxAsk, capacity, used, TenTo(exp));
            var bought := SpendPieces(budgets, minAsk, maxAsk, capacity, used, exp).value;
            bought <= leg.Room() && leg.Cost(bought) <= Sum(budgets)
  {
    var leg := AskLeg(minAsk, maxAsk, capacity, used, TenTo(exp));
    CostOfNothing(leg);
    if budgets != [] {
      var got := AmountOutAsk(budgets[0], minAsk, maxAsk, capacity, used, exp).value;
      assert got <= leg.Room() && leg.Cost(got) <= budgets[0] by {
        if budgets[0] > 0 { AskAnswerIsGreatest(budgets[0], minAsk, maxAsk, capacity, used, exp); }
      }
      SpentCoversCost(budgets[1..], minAsk, maxAsk, capacity, used + got, exp);
      var more := SpendPieces(budgets[1..], minAsk, maxAsk, capacity, used + got, exp).value;
      CostSplit(leg, got, more);
    }
  }

  /** A budget the epoch can absorb at once it can absorb in pieces. */
  lemma {:induction false} SpendSucceeds(budgets: seq<nat>, minAsk: nat, maxAsk: nat, capacity: nat, used: nat, exp: nat)
    requires minAsk <= maxAsk
    requires AmountOutAsk(Sum(budgets), minAsk, maxAsk, capacity, used, exp).Ok?
    ensures SpendPieces(budgets, minAsk, maxAsk, capacity, used, exp).Ok?
  {
    if budgets != [] {
      hide AmountOutAsk;
      RestIsAbsorbed(budgets[0], Sum(budgets[1..]), minAsk, maxAsk, capacity, used, exp);
      var got := AmountOutAsk(budgets[0], minAsk, maxAsk, capacity, used, exp).value;
      SpendSucceeds(budgets[1..], minAsk, maxAsk, capacity, used + got, exp);
    }
  }

  /** After the first piece, the rest of the epoch costs at least the rest of the budget. */
  lemma RestIsAbsorbed(first: nat, rest: nat, minAsk: nat, maxAsk: nat, capacity: nat, used: nat, exp: nat)
    requires minAsk <= maxAsk && AmountOutAsk(first + rest, minAsk, maxAsk, capacity, used, exp).Ok?
    ensures var r := AmountOutAsk(first, minAsk, maxAsk, capacity, used, exp);
            r.Ok? && AmountOutAsk(rest, minAsk, maxAsk, capacity, used + r.value, exp).Ok?
  {
    if first > 0 {
      var leg := AskLeg(minAsk, maxAsk, capacity, used, TenTo(exp));
      AskAnswerIsGreatest(first + rest, minAsk, maxAsk, capacity, used, exp);
      AskAnswerIsGreatest(first, minAsk, maxAsk, capacity, used, exp);
      var got := AmountOutAsk(first, minAsk, maxAsk, capacity, used, exp).value;
      if rest > 0 {
        var later := leg.(used := used + got);
        CostSplit(leg, got, leg.Room() - got);
        CostOfNothing(later);
        AskAnswerIsGreatest(rest, minAsk, maxAsk, capacity, used + got, exp);
      }
    }
  }

  /** Spending a budget in pieces succeeds whenever spending it at once does, and never buys more. */
  lemma SpendSplitLaw(budgets: seq<nat>, minAsk: nat, maxAsk: nat, capacity: nat, used: nat, exp: nat)
    requires minAsk <= maxAsk
    requires AmountOutAsk(Sum(budgets), minAsk, maxAsk, capacity, used, exp).Ok?
    ensures var split := SpendPieces(budgets, minAsk, maxAsk, capacity, used, exp);
            split.Ok? && split.value <= AmountOutAsk(Sum(budgets), minAsk, maxAsk, capacity, used, exp).value
  {
    SpendSucceeds(budgets, minAsk, maxAsk, capacity, used, exp);
    if Sum(budgets) == 0 {
      SpendNothing(budgets, minAsk, maxAsk, capacity, used, exp);
    } else {
      SpentCoversCost(budgets, minAsk, maxAsk, capacity, used, exp);
      AskAnswerIsGreatest(Sum(budgets), minAsk, maxAsk, capacity, used, exp);
    }
  }

  lemma {:induction false} SpendNothing(budgets: seq<nat>, minAsk: nat, maxAsk: nat, capacity: nat, used: nat, exp: nat)
    requires Sum(budgets) == 0 && SpendPieces(budgets, minAsk, maxAsk, capacity, used, exp).Ok?
    ensures SpendPieces(budgets, minAsk, maxAsk, capacity, used, exp).value == 0
  {
    if budgets != [] { SpendNothing(budgets[1..], minAsk, maxAsk, capacity, used, exp); }
  }

  /** Sell for the targets one after another; the answer is the total base sold. */
  function SellForPieces(targets: seq<nat>, minBid: nat, maxBid: nat, capacity: nat, used: nat, exp: nat)
    : Result<nat, CurveError>
  {
    if targets == [] then Ok(0)
    else
      var sold :- AmountInBid(targets[0], minBid, maxBid, capacity, used, exp);
      var rest :- SellForPieces(targets[1..], minBid, maxBid, capacity, used + sold, exp);
      Ok(sold + rest)
  }

  /** What consecutive targets sell would gross, in one trade, at least their sum. */
  lemma {:induction false} SoldReachesTargets(targets: seq<nat>, minBid: nat, maxBid: nat, capacity: nat, used: nat, exp: nat)
    requires minBid <= maxBid && 0 < capacity && used <= capacity && exp <= PRICE_SCALE_EXP_MAX
    requires SellForPieces(targets, minBid, maxBid, capacity, used, exp).Ok?
    ensures var leg := BidLeg(minBid, maxBid, capacity, used, TenTo(exp));
            var sold := SellForPieces(targets, minBid, maxBid, capacity, used, exp).value;
            sold <= leg.Room() && leg.Gross(sold) >= Sum(targets)
  {
    var leg := BidLeg(minBid, maxBid, capacity, used, TenTo(exp));
    GrossOfNothing(leg);
    if targets != [] {
      var sold := AmountInBid(targets[0], minBid, maxBid, capacity, used, exp).value;
      assert sold <= leg.Room() && leg.Gross(sold) >= targets[0] by {
        if targets[0] > 0 { BidAnswerIsLeast(targets[0], minBid, maxBid, capacity, used, exp); }
      }
      SoldReachesTargets(targets[1..], minBid, maxBid, capacity, used + sold, exp);
      var more := SellForPieces(targets[1..], minBid, maxBid, capacity, used + sold, exp).value;
      GrossSplit(leg, sold, more);
    }
  }

  /** When each of the consecutive targets is met, so is their sum at once, for no more base. */
  lemma SellForSplitLaw(targets: seq<nat>, minBid: nat, maxBid: nat, capacity: nat, used: nat, exp: nat)
    requires minBid <= maxBid && targets != []
    requires SellForPieces(targets, minBid, maxBid, capacity, used, exp).Ok?
    ensures var whole := AmountInBid(Sum(targets), minBid, maxBid, capacity, used, exp);
            whole.Ok? && whole.value <= SellForPieces(targets, minBid, maxBid, capacity, used, exp).value
  {
    assert exp <= PRICE_SCALE_EXP_MAX;
    if Sum(targets) > 0 {
      hide AmountInBid;
      EpochIsOpen(targets, minBid, maxBid, capacity, used, exp);
      SoldReachesTargets(targets, minBid, maxBid, capacity, used, exp);
      var leg := BidLeg(minBid, maxBid, capacity, used, TenTo(exp));
      var sold := SellForPieces(targets, minBid, maxBid, capacity, used, exp).value;
      GrossMono(leg, sold, leg.Room());
      BidAnswerIsLeast(Sum(targets), minBid, maxBid, capacity, used, exp);
    }
  }

  lemma {:induction false} EpochIsOpen(targets: seq<nat>, minBid: nat, maxBid: nat, capacity: nat, used: nat, exp: nat)
    requires Sum(targets) > 0 && SellForPieces(targets, minBid, maxBid, capacity, used, exp).Ok?
    ensures used < capacity
  {
    if targets[0] == 0 { EpochIsOpen(targets[1..], minBid, maxBid, capacity, used, exp); }
  }

  // ---- Runs of trades ----

  /** Each exact-in and exact-out trade a taker can make, either side. */
  datatype Trade =
    | SellBase(base: nat)
    | SellForQuote(quote: nat)
    | BuyBase(base: nat)
    | SpendQuote(quote: nat)

  /** One epoch: a ladder, the two capacities, the scale. */
  datatype Epoch = Epoch(ladder: Ladder, bidCapacity: nat, askCapacity: nat, exp: nat)

  /** Usage of both sides, and the taker's balances. */
  datatype Position = Position(bidUsed: nat, askUsed: nat, base: int, quote: int)

  function Sold(p: Position, base: nat, quote: nat): Position {
    Position(p.bidUsed + base, p.askUsed, p.base - base, p.quote + quote)
  }

  function Bought(p: Position, base: nat, quote: nat): Position {
    Position(p.bidUsed, p.askUsed + base, p.base + base, p.quote - quote)
  }

  /** One trade; a refused trade changes nothing. */
  function TradeStep(e: Epoch, p: Position, t: Trade): Position {
    var l := e.ladder;
    match t
    case SellBase(b) =>
      (match AmountOutBid(b, l.minBid, l.maxBid, e.bidCapacity, p.bidUsed, e.exp)
       case Ok(got) => Sold(p, b, got)
       case Err(_) => p)
    case SellForQuote(y) =>
      (match AmountInBid(y, l.minBid, l.maxBid, e.bidCapacity, p.bidUsed, e.exp)
       case Ok(b) => Sold(p, b, y)
       case Err(_) => p)
    case BuyBase(b) =>
      (match AmountInAsk(b, l.minAsk, l.maxAsk, e.askCapacity, p.askUsed, e.exp)
       case Ok(paid) => Bought(p, b, paid)
       case Err(_) => p)
    case SpendQuote(x) =>
      (match AmountOutAsk(x, l.minAsk, l.maxAsk, e.askCapacity, p.askUsed, e.exp)
       case Ok(b) => Bought(p, b, x)
       case Err(_) => p)
  }

  function Run(e: Epoch, p: Position, ts: seq<Trade>): Position
    decreases |ts|
  {
    if ts == [] then p else Run(e, TradeStep(e, p, ts[0]), ts[1..])
  }

  /** No sale grosses more than `maxBid` per unit. */
  lemma GrossAtMostBest(leg: BidLeg, q: nat)
    requires leg.Live() && q <= leg.Room()
    ensures leg.Gross(q) * leg.scale <= q * leg.maxBid
  {
    var g, c2 := leg.Gross(q), 2 * leg.capacity;
    GrossReaches(leg, q, g);
    MulLe(0, leg.Span(), 2 * leg.used + q);
    MulLe(leg.Factor(q), leg.maxBid * c2, q);
    assert leg.Factor(q) * q == leg.Numerator(q);
    assert (leg.maxBid * c2) * q == (q * leg.maxBid) * c2;
    assert g * leg.Denominator() == (g * leg.scale) * c2 by { assert g * (c2 * leg.scale) == (g * leg.scale) * c2; }
    MulLeCancel(g * leg.scale, q * leg.maxBid, c2);
  }

  lemma SaleAtMostBest(q: nat, minBid: nat, maxBid: nat, capacity: nat, used: nat, exp: nat)
    requires minBid <= maxBid && AmountOutBid(q, minBid, maxBid, capacity, used, exp).Ok?
    ensures AmountOutBid(q, minBid, maxBid, capacity, used, exp).value * TenTo(exp) <= q * maxBid
  {
    if q > 0 { GrossAtMostBest(BidLeg(minBid, maxBid, capacity, used, TenTo(exp)), q); }
  }

  /** No purchase costs less than `minAsk` per unit. */
  lemma CostAtLeastBest(leg: AskLeg, q: nat)
    requires leg.Live() && q <= leg.Room()
    ensures leg.Cost(q) * leg.scale >= q * leg.minAsk
  {
    var k, c2 := leg.Cost(q), 2 * leg.capacity;
    CostWithin(leg, q, k);
    MulLe(0, leg.Span(), 2 * leg.used + q);
    MulLe(leg.minAsk * c2, leg.Factor(q), q);
    assert leg.Factor(q) * q == leg.Numerator(q);
    assert (leg.minAsk * c2) * q == (q * leg.minAsk) * c2;
    assert k * leg.Denominator() == (k * leg.scale) * c2 by { assert k * (c2 * leg.scale) == (k * leg.scale) * c2; }
    MulLeCancel(q * leg.minAsk, k * leg.scale, c2);
  }

  /** Quote gained, base moved and usage stay tied together, whatever the taker does. */
  ghost predicate Bounded(e: Epoch, p: Position, p': Position) {
    && p.bidUsed <= p'.bidUsed && p.askUsed <= p'.askUsed
    && p'.base - p.base == (p'.askUsed - p.askUsed) - (p'.bidUsed - p.bidUsed)
    && (p'.quote - p.quote) * TenTo(e.exp)
       <= (p'.bidUsed - p.bidUsed) * e.ladder.maxBid - (p'.askUsed - p.askUsed) * e.ladder.minAsk
  }

  lemma BoundedSale(e: Epoch, p: Position, base: nat, quote: nat)
    requires quote * TenTo(e.exp) <= base * e.ladder.maxBid
    ensures Bounded(e, p, Sold(p, base, quote))
  {}

  lemma BoundedPurchase(e: Epoch, p: Position, base: nat, quote: nat)
    requires base * e.ladder.minAsk <= quote * TenTo(e.exp)
    ensures Bounded(e, p, Bought(p, base, quote))
  {
    NegatedProduct(quote, TenTo(e.exp));
  }

  lemma NegatedProduct(a: int, b: int)
    ensures (-a) * b == -(a * b)
  {}

  /** At the prices a live bid leg answers, a sale grosses at most `maxBid` per unit sold. */
  lemma SaleAnswers(e: Epoch, used: nat, a: nat)
    requires e.ladder.minBid <= e.ladder.maxBid
    ensures var r := AmountOutBid(a, e.ladder.minBid, e.ladder.maxBid, e.bidCapacity, used, e.exp);
            r.Ok? ==> r.value * TenTo(e.exp) <= a * e.ladder.maxBid
    ensures var r := AmountInBid(a, e.ladder.minBid, e.ladder.maxBid, e.bidCapacity, used, e.exp);
            r.Ok? ==> a * TenTo(e.exp) <= r.value * e.ladder.maxBid
  {
    var l, s := e.ladder, TenTo(e.exp);
    var leg := BidLeg(l.minBid, l.maxBid, e.bidCapacity, used, s);
    if AmountOutBid(a, l.minBid, l.maxBid, e.bidCapacity, used, e.exp).Ok? {
      SaleAtMostBest(a, l.minBid, l.maxBid, e.bidCapacity, used, e.exp);
    }
    var r := AmountInBid(a, l.minBid, l.maxBid, e.bidCapacity, used, e.exp);
    if r.Ok? && a > 0 {
      GrossAtMostBest(leg, r.value);
      MulLe(a, leg.Gross(r.value), s);
    }
  }

  lemma PurchaseAnswers(e: Epoch, used: nat, a: nat)
    requires e.ladder.minAsk <= e.ladder.maxAsk
    ensures var r := AmountInAsk(a, e.ladder.minAsk, e.ladder.maxAsk, e.askCapacity, used, e.exp);
            r.Ok? ==> a * e.ladder.minAsk <= r.value * TenTo(e.exp)
    ensures var r := AmountOutAsk(a, e.ladder.minAsk, e.ladder.maxAsk, e.askCapacity, used, e.exp);
            r.Ok? ==> r.value * e.ladder.minAsk <= a * TenTo(e.exp)
  {
    var l, s := e.ladder, TenTo(e.exp);
    var leg := AskLeg(l.minAsk, l.maxAsk, e.askCapacity, used, s);
    if AmountInAsk(a, l.minAsk, l.maxAsk, e.askCapacity, used, e.exp).Ok? && a > 0 {
      CostAtLeastBest(leg, a);
    }
    var r := AmountOutAsk(a, l.minAsk, l.maxAsk, e.askCapacity, used, e.exp);
    if r.Ok? && a > 0 {
      CostAtLeastBest(leg, r.value);
      MulLe(leg.Cost(r.value), a, s);
    }
  }

  lemma BoundedStep(e: Epoch, p: Position, t: Trade)
    requires ValidateLadder(e.ladder, 0).Ok?
    ensures Bounded(e, p, TradeStep(e, p, t))
  {
    hide AmountOutBid, AmountInBid, AmountInAsk, AmountOutAsk, Bounded;
    var l := e.ladder;
    BoundedSale(e, p, 0, 0);
    assert Sold(p, 0, 0) == p;
    match t
    case SellBase(b) =>
      SaleAnswers(e, p.bidUsed, b);
      var r := AmountOutBid(b, l.minBid, l.maxBid, e.bidCapacity, p.bidUsed, e.exp);
      if r.Ok? { BoundedSale(e, p, b, r.value); }
    case SellForQuote(y) =>
      SaleAnswers(e, p.bidUsed, y);
      var r := AmountInBid(y, l.minBid, l.maxBid, e.bidCapacity, p.bidUsed, e.exp);
      if r.Ok? { BoundedSale(e, p, r.value, y); }
    case BuyBase(b) =>
      PurchaseAnswers(e, p.askUsed, b);
      var r := AmountInAsk(b, l.minAsk, l.maxAsk, e.askCapacity, p.askUsed, e.exp);
      if r.Ok? { BoundedPurchase(e, p, b, r.value); }
    case SpendQuote(x) =>
      PurchaseAnswers(e, p.askUsed, x);
      var r := AmountOutAsk(x, l.minAsk, l.maxAsk, e.askCapacity, p.askUsed, e.exp);
      if r.Ok? { BoundedPurchase(e, p, r.value, x); }
  }

  lemma BoundedTrans(e: Epoch, p: Position, q: Position, r: Position)
    requires Bounded(e, p, q) && Bounded(e, q, r)
    ensures Bounded(e, p, r)
  {
    var s, hi, lo := TenTo(e.exp), e.ladder.maxBid, e.ladder.minAsk;
    assert (r.quote - p.quote) * s == (r.quote - q.quote) * s + (q.quote - p.quote) * s;
    assert (r.bidUsed - p.bidUsed) * hi == (r.bidUsed - q.bidUsed) * hi + (q.bidUsed - p.bidUsed) * hi;
    assert (r.askUsed - p.askUsed) * lo == (r.askUsed - q.askUsed) * lo + (q.askUsed - p.askUsed) * lo;
  }

  lemma {:induction false} RunBounded(e: Epoch, p: Position, ts: seq<Trade>)
    requires ValidateLadder(e.ladder, 0).Ok?
    ensures Bounded(e, p, Run(e, p, ts))
    decreases |ts|
  {
    hide TradeStep, Bounded;
    if ts == [] {
      BoundedSale(e, p, 0, 0);
      assert Sold(p, 0, 0) == p;
    } else {
      var q := TradeStep(e, p, ts[0]);
      BoundedStep(e, p, ts[0]);
      RunBounded(e, q, ts[1..]);
      BoundedTrans(e, p, q, Run(e, q, ts[1..]));
    }
  }

  /** A taker who ends a run with no less base than it started with ends with no more quote. */
  lemma NoMoneyPump(e: Epoch, minPrice: nat, p: Position, ts: seq<Trade>)
    requires ValidateLadder(e.ladder, minPrice).Ok?
    ensures Run(e, p, ts).base >= p.base ==> Run(e, p, ts).quote <= p.quote
  {
    hide TradeStep, Run;
    RunBounded(e, p, ts);
    var r := Run(e, p, ts);
    if r.base >= p.base {
      MulLe(r.bidUsed - p.bidUsed, r.askUsed - p.askUsed, e.ladder.minAsk);
      MulLe(e.ladder.maxBid, e.ladder.minAsk, r.bidUsed - p.bidUsed);
      if r.quote > p.quote { MulLe(1, r.quote - p.quote, TenTo(e.exp)); }
    }
  }
}
