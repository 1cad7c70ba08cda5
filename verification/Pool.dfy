/** The gates around the curve: status, exhaustion, and the split between capacity and what the staleness ramp leaves. */
module Pool {
  import opened Words
  import opened Errors
  import opened CurveSpec
  import opened CurveLaws

  datatype Unquotable = Paused | NeverQuoted | ClockAhead | Stale

  function Refusal(paused: bool, updatedAt: nat, now: nat, staleSecsMax: nat): (r: Option<Unquotable>)
    ensures r.None? <==> !paused && 0 < updatedAt <= now <= updatedAt + staleSecsMax
    ensures r == Some(Paused) <==> paused
    ensures r == Some(NeverQuoted) <==> !paused && updatedAt == 0
    ensures r == Some(ClockAhead) <==> !paused && now < updatedAt
    ensures r == Some(Stale) <==> !paused && 0 < updatedAt && updatedAt + staleSecsMax < now
  {
    if paused then Some(Paused)
    else if updatedAt == 0 then Some(NeverQuoted)
    else if updatedAt > now then Some(ClockAhead)
    else if now - updatedAt > staleSecsMax then Some(Stale)
    else None
  }

  /** Largest input the side can still take; the decayed ask asks for one unit more and steps back. */
  function AmountInMax(l: Ladder, side: Side, capacity: nat, available: nat, used: nat, exp: nat)
    : Result<nat, CurveError>
    requires used < available <= capacity
  {
    var room := available - used;
    if side == Bid then Ok(room)
    else if available == capacity then AmountInAsk(room, l.minAsk, l.maxAsk, capacity, used, exp)
    else
      var cost :- AmountInAsk(room + 1, l.minAsk, l.maxAsk, capacity, used, exp);
      Ok(if cost >= 1 then cost - 1 else 0)
  }

  function AmountOut(amountIn: nat, l: Ladder, side: Side, capacity: nat, available: nat, used: nat, exp: nat)
    : Result<nat, CurveError>
    requires available <= capacity
  {
    if amountIn == 0 then Ok(0)
    else if available == 0 then Ok(0)
    else if used >= available then Ok(0)
    else
      var most :- AmountInMax(l, side, capacity, available, used, exp);
      if amountIn > most then Ok(0)
      else if side == Bid then AmountOutBid(amountIn, l.minBid, l.maxBid, capacity, used, exp)
      else AmountOutAsk(amountIn, l.minAsk, l.maxAsk, capacity, used, exp)
  }

  /** What one side's query needs: its own leg in order, and the sizes its gate can ask for inside 128 bits. */
  ghost predicate Quotable(l: Ladder, side: Side, capacity: nat, available: nat, used: nat, exp: nat)
    requires available <= capacity
  {
    used < available ==>
      exp <= PRICE_SCALE_EXP_MAX &&
      if side == Bid then
        l.minBid <= l.maxBid && BidLeg(l.minBid, l.maxBid, capacity, used, TenTo(exp)).Gross(available - used) <= U128_MAX
      else
        l.minAsk <= l.maxAsk && 0 < l.maxAsk
        && AskLeg(l.minAsk, l.maxAsk, capacity, used, TenTo(exp)).Cost(Min(available - used + 1, capacity - used)) <= U128_MAX
  }

  /** What the curve answers for a size within the gate's reach. */
  lemma CurveSells(l: Ladder, capacity: nat, available: nat, used: nat, exp: nat, q: nat)
    requires available <= capacity && Quotable(l, Ask, capacity, available, used, exp)
    requires used < available && 0 < q <= Min(available - used + 1, capacity - used)
    ensures var cost := AskLeg(l.minAsk, l.maxAsk, capacity, used, TenTo(exp)).Cost(q);
            cost >= 1 && AmountInAsk(q, l.minAsk, l.maxAsk, capacity, used, exp) == Ok(cost)
  {
    var ask := AskLeg(l.minAsk, l.maxAsk, capacity, used, TenTo(exp));
    CostMono(ask, q, Min(available - used + 1, capacity - used));
    CostOfSomething(ask, q);
  }

  lemma CurveBuys(l: Ladder, capacity: nat, available: nat, used: nat, exp: nat, q: nat)
    requires available <= capacity && Quotable(l, Bid, capacity, available, used, exp)
    requires used < available && 0 < q <= available - used
    ensures AmountOutBid(q, l.minBid, l.maxBid, capacity, used, exp).Ok?
  {
    GrossMono(BidLeg(l.minBid, l.maxBid, capacity, used, TenTo(exp)), q, available - used);
  }

  /** The gate on an ask input, decayed or not: exactly the inputs whose purchase fits the room. */
  lemma AskGate(x: nat, l: Ladder, capacity: nat, available: nat, used: nat, exp: nat)
    requires available <= capacity && Quotable(l, Ask, capacity, available, used, exp) && 0 < x && used < available
    ensures AmountInMax(l, Ask, capacity, available, used, exp).Ok?
    ensures var bought := AmountOutAsk(x, l.minAsk, l.maxAsk, capacity, used, exp);
            x <= AmountInMax(l, Ask, capacity, available, used, exp).value
            <==> bought.Ok? && used + bought.value <= available
  {
    hide AmountInAsk, AmountOutAsk, AskLeg.Cost, BidLeg.Gross;
    var leg := AskLeg(l.minAsk, l.maxAsk, capacity, used, TenTo(exp));
    var room := available - used;
    var bought := AmountOutAsk(x, l.minAsk, l.maxAsk, capacity, used, exp);
    AskAnswerIsGreatest(x, l.minAsk, l.maxAsk, capacity, used, exp);
    if available == capacity {
      CurveSells(l, capacity, available, used, exp, room);
      assert bought.Ok? <==> x <= leg.Cost(room);
    } else {
      CurveSells(l, capacity, available, used, exp, room + 1);
      CostMono(leg, room + 1, leg.Room());
      assert AmountInMax(l, Ask, capacity, available, used, exp).value == leg.Cost(room + 1) - 1;
      assert bought.Ok? ==> (leg.Cost(room + 1) <= x <==> room + 1 <= bought.value);
    }
  }

  /** A bid query, for any inputs at all: the curve's own answer exactly when the size fits what is available. */
  lemma BidRamp(x: nat, l: Ladder, capacity: nat, available: nat, used: nat, exp: nat)
    requires available <= capacity && 0 < x
    ensures AmountOut(x, l, Bid, capacity, available, used, exp)
         == if used + x <= available then AmountOutBid(x, l.minBid, l.maxBid, capacity, used, exp) else Ok(0)
  {
    hide AmountOutBid;
  }

  /** An ask query: the curve's own answer exactly when the base it buys fits what is available. */
  lemma AskRamp(x: nat, l: Ladder, capacity: nat, available: nat, used: nat, exp: nat)
    requires available <= capacity && 0 < x && Quotable(l, Ask, capacity, available, used, exp)
    ensures var bought := AmountOutAsk(x, l.minAsk, l.maxAsk, capacity, used, exp);
            AmountOut(x, l, Ask, capacity, available, used, exp)
            == if used < available && bought.Ok? && used + bought.value <= available then bought else Ok(0)
  {
    hide AmountOutAsk, AmountInMax, Quotable;
    if used < available { AskGate(x, l, capacity, available, used, exp); }
  }

  /** What the full epoch needs is all any part of it needs. */
  lemma QuotableShrinks(l: Ladder, side: Side, capacity: nat, available: nat, used: nat, exp: nat)
    requires available <= capacity && Quotable(l, side, capacity, capacity, used, exp)
    ensures Quotable(l, side, capacity, available, used, exp)
  {
    if used < available {
      if side == Bid {
        GrossMono(BidLeg(l.minBid, l.maxBid, capacity, used, TenTo(exp)), available - used, capacity - used);
      } else {
        CostMono(AskLeg(l.minAsk, l.maxAsk, capacity, used, TenTo(exp)), Min(available - used + 1, capacity - used), capacity - used);
      }
    }
  }

  /** The ramp never errs on what is available, and never carries usage past it. */
  lemma RampStaysWithin(x: nat, l: Ladder, side: Side, capacity: nat, available: nat, used: nat, exp: nat)
    requires available <= capacity && Quotable(l, side, capacity, available, used, exp)
    ensures var r := AmountOut(x, l, side, capacity, available, used, exp);
            r.Ok? && (r.value == 0 || used + (if side == Bid then x else r.value) <= available)
  {
    hide AmountOutAsk, AmountOutBid, Quotable;
    if 0 < x {
      if side == Ask {
        AskRamp(x, l, capacity, available, used, exp);
      } else {
        BidRamp(x, l, capacity, available, used, exp);
        if used + x <= available { CurveBuys(l, capacity, available, used, exp, x); }
      }
    }
  }

  /**
   The ramp only removes depth: for every `available` the answer is zero or the full epoch's own, and
   it is the full epoch's own whenever what that moves fits what is available.
   */
  lemma RampRefinesFullEpoch(x: nat, l: Ladder, side: Side, capacity: nat, available: nat, used: nat, exp: nat)
    requires available <= capacity && Quotable(l, side, capacity, capacity, used, exp)
    ensures var full := AmountOut(x, l, side, capacity, capacity, used, exp);
            full.Ok? && AmountOut(x, l, side, capacity, available, used, exp)
            == if used + (if side == Bid then x else full.value) <= available then full else Ok(0)
  {
    hide AmountOutAsk, AmountOutBid, Quotable;
    QuotableShrinks(l, side, capacity, available, used, exp);
    RampStaysWithin(x, l, side, capacity, capacity, used, exp);
    if 0 < x {
      if side == Ask {
        AskRamp(x, l, capacity, available, used, exp);
        AskRamp(x, l, capacity, capacity, used, exp);
        AskAnswerWithinRoom(x, l, capacity, used, exp);
      } else {
        BidRamp(x, l, capacity, available, used, exp);
        BidRamp(x, l, capacity, capacity, used, exp);
      }
    }
  }

  lemma AskAnswerWithinRoom(x: nat, l: Ladder, capacity: nat, used: nat, exp: nat)
    requires Quotable(l, Ask, capacity, capacity, used, exp) && 0 < x
    ensures var bought := AmountOutAsk(x, l.minAsk, l.maxAsk, capacity, used, exp);
            used < capacity && bought.Ok? ==> used + bought.value <= capacity
  {
    if used < capacity { AskAnswerIsGreatest(x, l.minAsk, l.maxAsk, capacity, used, exp); }
  }
}
