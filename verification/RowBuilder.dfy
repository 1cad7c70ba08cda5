/**
 The updater's pipeline from a fair value to a packed row, and the capacity plan that sizes an
 epoch to what the pool's inventory can settle.
 */
module RowBuilder {
  import opened Words
  import opened Errors
  import opened Arithmetic
  import opened WideMath
  import opened CurveSpec
  import opened Permutations
  import CurveLaws
  import opened Inverse
  import B = LadderBuilder
  import Pack

  datatype BuildError =
    | BadPrice
    | Solver(why: LadderError)
    | Invalid(reason: CurveError)
    | RealisedBidAboveTarget
    | RealisedAskBelowTarget
    | CapturePricesToZero
    | Packing(fault: PackError)
    | NoCapacityOn(side: Side)

  datatype RowInputs = RowInputs(
    pairId: u16, fair: u128, halfSpreadE2: u32, widthE2: u32, skewBps: i16,
    capture: u128, bidCapacity: u128, askCapacity: u128, minPrice: u128, exp: nat)

  datatype Targets = Targets(mid: u128, bid: u128, ask: u128, bidWidth: u128, askWidth: u128)

  datatype QuoteRow = QuoteRow(
    targets: Targets, solved: TwoSided, word: Pack.QuoteWord,
    realisedBid: nat, realisedAsk: nat, bidCaptureCost: nat, askCaptureCost: nat)

  /** The skewed mid, the two targets rounded away from the taker, and the requested widths. */
  function RowTargets(i: RowInputs): Result<Targets, BuildError> {
    var mid :- MapErr(B.SkewedMid(B.Builder(i.fair, 0, 0, i.skewBps, 0, true)), e => Solver(e));
    var hs := Min(i.halfSpreadE2, B.BPS_E2_MAX);
    var bid :- OkOr(MulDivFloor(mid, B.BPS_E2 - hs, B.BPS_E2), BadPrice);
    var ask :- OkOr(MulDivCeil(mid, B.BPS_E2 + hs, B.BPS_E2), BadPrice);
    if ask > PRICE_MAX then Err(BadPrice)
    else if bid == 0 then Err(BadPrice)
    else
      var bidWidth :- OkOr(MulDivFloor(bid, i.widthE2, B.BPS_E2), BadPrice);
      var askWidth :- OkOr(MulDivFloor(ask, i.widthE2, B.BPS_E2), BadPrice);
      Ok(Targets(mid, bid, ask, bidWidth, askWidth))
  }

  /** The bid may not rise above the mid. */
  function BidInput(i: RowInputs, t: Targets): SolveInput {
    SolveInput(t.bid, i.capture, i.bidCapacity, t.bidWidth, i.minPrice, t.mid)
  }

  /** The ask may not fall below the mid. */
  function AskInput(i: RowInputs, t: Targets): SolveInput {
    SolveInput(t.ask, i.capture, i.askCapacity, t.askWidth, if i.minPrice >= t.mid then i.minPrice else t.mid, PRICE_MAX)
  }

  function Build(i: RowInputs): Result<QuoteRow, BuildError> {
    if i.bidCapacity == 0 then Err(NoCapacityOn(Bid))
    else if i.askCapacity == 0 then Err(NoCapacityOn(Ask))
    else if i.fair == 0 || i.fair > PRICE_MAX then Err(BadPrice)
    else
      var t :- RowTargets(i);
      var solved :- MapErr(SolveTwoSided(BidInput(i, t), AskInput(i, t)), e => Solver(e));
      CheckRow(i, t, solved)
  }

  /** Steps 6 to 9: validate, round trip, fill, encode. */
  function CheckRow(i: RowInputs, t: Targets, solved: TwoSided): Result<QuoteRow, BuildError> {
    var l := solved.ladder;
    var _ :- MapErr(ValidateLadder(l, i.minPrice), e => Invalid(e));
    var cap, askCap := Min(i.capture, i.bidCapacity), Min(i.capture, i.askCapacity);
    var realisedBid :- MapErr(AvgBidPrice(l.minBid, l.maxBid, i.bidCapacity, 0, cap), e => Invalid(e));
    var realisedAsk :- MapErr(AvgAskPrice(l.minAsk, l.maxAsk, i.askCapacity, 0, askCap), e => Invalid(e));
    if realisedBid > t.bid then Err(RealisedBidAboveTarget)
    else if realisedAsk < t.ask then Err(RealisedAskBelowTarget)
    else
      var bidCost :- MapErr(AmountOutBid(cap, l.minBid, l.maxBid, i.bidCapacity, 0, i.exp), e => Invalid(e));
      var askCost :- MapErr(AmountInAsk(askCap, l.minAsk, l.maxAsk, i.askCapacity, 0, i.exp), e => Invalid(e));
      if bidCost == 0 || askCost == 0 then Err(CapturePricesToZero)
      else
        var word := Pack.QuoteWord(i.pairId, l);
        var bytes :- MapErr(Pack.PackBytes(word), e => Packing(e));
        if |bytes| == 32 && Pack.UnpackBytes(bytes) == Ok(word) then
          Ok(QuoteRow(t, solved, word, realisedBid, realisedAsk, bidCost, askCost))
        else Err(Packing(NonCanonical))
  }

  /** Scaling by less, or more, than one and rounding away from the mid. */
  lemma SpreadFactors(mid: nat, hs: nat)
    requires 1 <= mid && hs <= B.BPS_E2_MAX
    ensures 0 <= mid * (B.BPS_E2 - hs) && 0 <= mid * (B.BPS_E2 + hs)
    ensures 0 <= (mid * (B.BPS_E2 - hs)) / B.BPS_E2 <= mid <= CeilDiv(mid * (B.BPS_E2 + hs), B.BPS_E2)
    ensures hs == 0 ==> (mid * (B.BPS_E2 - hs)) / B.BPS_E2 == mid == CeilDiv(mid * (B.BPS_E2 + hs), B.BPS_E2)
    ensures hs > 0 ==> (mid * (B.BPS_E2 - hs)) / B.BPS_E2 < mid < CeilDiv(mid * (B.BPS_E2 + hs), B.BPS_E2)
  {
    var d := B.BPS_E2;
    B.FactorDirection(mid, d - hs, d);
    B.FactorDirection(mid, d + hs, d);
    FloorBounds(mid * (d - hs), d);
    if hs > 0 {
      MulLt(d - hs, d, mid);
      MulLt(d, d + hs, mid);
      FloorGalois(mid * (d - hs), d, mid);
      CeilGalois(mid * (d + hs), d, mid);
    }
  }

  /**
   Both targets are the mid scaled by the clamped half-spread and rounded away from the taker, each
   width the floor of its target's share, and refusal means an ask above the ceiling or a bid of nothing.
   */
  lemma TargetsAreExact(i: RowInputs, mid: u128, hs: u128, low: int, high: int)
    requires B.SkewedMid(B.Builder(i.fair, 0, 0, i.skewBps, 0, true)) == Ok(mid) && hs == Min(i.halfSpreadE2, B.BPS_E2_MAX)
    requires low == mid * (B.BPS_E2 - hs) && high == mid * (B.BPS_E2 + hs)
    ensures RowTargets(i).Err? <==> high > PRICE_MAX * B.BPS_E2 || low < B.BPS_E2
    ensures RowTargets(i).Ok? ==>
            var t := RowTargets(i).value;
            && t.mid == mid
            && t.bid * B.BPS_E2 <= low < (t.bid + 1) * B.BPS_E2
            && (t.ask - 1) * B.BPS_E2 < high <= t.ask * B.BPS_E2
            && IsWidth(t.bidWidth, t.bid, i.widthE2) && IsWidth(t.askWidth, t.ask, i.widthE2)
  {
    hide MulDivFloor, MulDivCeil, B.SkewedMid, RowTargets, IsWidth;
    B.Rounded(mid, B.BPS_E2 - hs, B.BPS_E2);
    B.Rounded(mid, B.BPS_E2 + hs, B.BPS_E2);
    var bid, ask := MulDivFloor(mid, B.BPS_E2 - hs, B.BPS_E2).value, MulDivCeil(mid, B.BPS_E2 + hs, B.BPS_E2).value;
    TargetRange(low, high, bid, ask);
    MulLe(B.BPS_E2 - hs, B.BPS_E2, mid);
    MulLe(mid, PRICE_MAX, B.BPS_E2);
    WidthFits(bid, i.widthE2);
    if ask <= PRICE_MAX { WidthFits(ask, i.widthE2); }
    TargetsFrom(i, mid, hs, bid, ask);
  }

  /** The floored share of a price, in parts per million. */
  predicate IsWidth(width: nat, price: nat, share: nat) {
    width * B.BPS_E2 <= price * share < (width + 1) * B.BPS_E2
  }

  /** Where the two quotients land, from their exact bounds. */
  lemma TargetRange(low: nat, high: nat, bid: nat, ask: nat)
    requires bid * B.BPS_E2 <= low < (bid + 1) * B.BPS_E2 && (ask - 1) * B.BPS_E2 < high <= ask * B.BPS_E2
    ensures bid == 0 <==> low < B.BPS_E2
    ensures ask > PRICE_MAX <==> high > PRICE_MAX * B.BPS_E2
    ensures low <= PRICE_MAX * B.BPS_E2 ==> bid <= PRICE_MAX
  {}

  lemma TargetsFrom(i: RowInputs, mid: u128, hs: u128, bid: u128, ask: u128)
    requires B.SkewedMid(B.Builder(i.fair, 0, 0, i.skewBps, 0, true)) == Ok(mid) && hs == Min(i.halfSpreadE2, B.BPS_E2_MAX)
    requires MulDivFloor(mid, B.BPS_E2 - hs, B.BPS_E2) == Some(bid) && MulDivCeil(mid, B.BPS_E2 + hs, B.BPS_E2) == Some(ask)
    requires MulDivFloor(bid, i.widthE2, B.BPS_E2).Some?
    requires ask <= PRICE_MAX ==> MulDivFloor(ask, i.widthE2, B.BPS_E2).Some?
    ensures RowTargets(i) ==
            if ask > PRICE_MAX || bid == 0 then Err(BadPrice)
            else Ok(Targets(mid, bid, ask, MulDivFloor(bid, i.widthE2, B.BPS_E2).value, MulDivFloor(ask, i.widthE2, B.BPS_E2).value))
  {
    hide MulDivFloor, MulDivCeil, B.SkewedMid;
  }

  lemma WidthFits(price: u128, width: u32)
    requires price <= 2 * PRICE_MAX
    ensures MulDivFloor(price, width, B.BPS_E2).Some?
    ensures IsWidth(MulDivFloor(price, width, B.BPS_E2).value, price, width)
  {
    MulBounds(price, 2 * PRICE_MAX, width, U32_MAX);
    FloorBounds(price * width, B.BPS_E2);
    FloorGalois(price * width, B.BPS_E2, POW128);
  }

  /** Any positive half-spread separates both targets from the mid by at least one price unit. */
  lemma TargetsBracketMid(i: RowInputs)
    requires 0 < i.fair <= PRICE_MAX
    ensures RowTargets(i).Err? ==> RowTargets(i).error == BadPrice
    ensures RowTargets(i).Ok? ==>
            var t := RowTargets(i).value;
            && B.SkewedMid(B.Builder(i.fair, 0, 0, i.skewBps, 0, true)) == Ok(t.mid)
            && 1 <= t.bid <= t.mid <= t.ask <= PRICE_MAX
            && (i.halfSpreadE2 == 0 ==> t.bid == t.mid == t.ask)
            && (i.halfSpreadE2 > 0 ==> t.bid < t.mid < t.ask)
  {
    hide B.SkewedMid;
    SpreadFactors(B.SkewedMid(B.Builder(i.fair, 0, 0, i.skewBps, 0, true)).value, Min(i.halfSpreadE2, B.BPS_E2_MAX));
  }

  /** Both solves meet at the mid, so only a wholly flat book needs the ask lifted, by one unit. */
  lemma SidesMeetAtMid(i: RowInputs, t: Targets)
    requires 0 < i.fair <= PRICE_MAX && RowTargets(i) == Ok(t)
    requires SolveTwoSided(BidInput(i, t), AskInput(i, t)).Ok?
    ensures var s := SolveTwoSided(BidInput(i, t), AskInput(i, t)).value;
            && s.ladder.maxBid <= t.mid <= s.ladder.minAsk && s.ladder.minAsk == s.ask.low
            && (s.askRepaired <==> i.halfSpreadE2 == 0 && s.bid.width == 0 && s.ask.width == 0)
            && (s.askRepaired ==> s.ladder.maxAsk == t.ask + 1 && s.ask.low == t.ask)
            && (!s.askRepaired ==> s.ladder.maxAsk == s.ask.high)
            && (i.halfSpreadE2 == 0 ==> s.ladder.maxBid == t.mid)
  {
    hide SolveBid, SolveAsk, RowTargets;
    TargetsBracketMid(i);
    var bidIn, askIn := BidInput(i, t), AskInput(i, t);
    TwoSidedNeverRejected(bidIn, askIn);
    SolvedBidShape(bidIn);
    SolvedAskShape(askIn);
    var s := SolveTwoSided(bidIn, askIn).value;
    ImpactHalf(s.bid.width, s.bid.effectiveCapture, i.bidCapacity);
    ImpactHalf(s.ask.width, s.ask.effectiveCapture, i.askCapacity);
  }

  /** A capture within the capacity bakes in at most half the width. */
  lemma ImpactHalf(w: nat, k: nat, c: nat)
    requires 0 < c && k <= c
    ensures 0 <= w * k && 0 <= 2 * ((w * k) / (2 * c)) <= w
  {
    MulLe(0, w, k);
    MulLe(k, c, w);
    var f := (w * k) / (2 * c);
    FloorBounds(w * k, 2 * c);
    assert f * (2 * c) == (2 * f) * c;
    MulLeCancel(2 * f, w, c);
  }

  /** The realised averages of the assembled row. */
  lemma RealisedPrices(i: RowInputs, t: Targets)
    requires 0 < i.fair <= PRICE_MAX && RowTargets(i) == Ok(t)
    requires SolveTwoSided(BidInput(i, t), AskInput(i, t)).Ok?
    ensures var l := SolveTwoSided(BidInput(i, t), AskInput(i, t)).value.ladder;
            var bid := AvgBidPrice(l.minBid, l.maxBid, i.bidCapacity, 0, Min(i.capture, i.bidCapacity));
            var ask := AvgAskPrice(l.minAsk, l.maxAsk, i.askCapacity, 0, Min(i.capture, i.askCapacity));
            bid.Ok? && ask.Ok? && t.bid - 1 <= bid.value <= t.bid && t.ask <= ask.value <= t.ask + 1
  {
    hide SolveBid, SolveAsk, RowTargets, AvgBidPrice, AvgAskPrice, SolveTwoSided;
    var bidIn, askIn := BidInput(i, t), AskInput(i, t);
    TwoSidedNeverRejected(bidIn, askIn);
    SidesMeetAtMid(i, t);
    SolvedBidShape(bidIn);
    SolvedAskShape(askIn);
    SolvedBidAverage(bidIn);
    SolvedAskAverage(askIn);
    var s := SolveTwoSided(bidIn, askIn).value;
    if s.askRepaired {
      FlatAskAverage(t.ask, i.askCapacity, s.ask.effectiveCapture);
    }
  }

  /** An ask one unit wide averages, reported, one of its two ends. */
  lemma FlatAskAverage(p: nat, c: nat, k: nat)
    requires 0 < c && k <= c
    ensures AvgAskPrice(p, p + 1, c, 0, k).Ok? && p <= AvgAskPrice(p, p + 1, c, 0, k).value <= p + 1
  {
    FreshAverages(p, p + 1, c, k);
    CeilGalois(k, 2 * c, 1);
  }

  /** The capture, filled at once from a fresh epoch, is worth nothing on one side. */
  predicate PricesToZero(i: RowInputs, l: Ladder) {
    var bought := AmountOutBid(Min(i.capture, i.bidCapacity), l.minBid, l.maxBid, i.bidCapacity, 0, i.exp);
    var sold := AmountInAsk(Min(i.capture, i.askCapacity), l.minAsk, l.maxAsk, i.askCapacity, 0, i.exp);
    bought.Ok? && sold.Ok? && (bought.value == 0 || sold.value == 0)
  }

  /**
   What a row carries: the word names the pair and the four prices that were solved, the realised
   prices are that ladder's averages over the capture and the costs its forward quotes, both positive.
   */
  predicate RowPublishes(i: RowInputs, row: QuoteRow) {
    var l := row.solved.ladder;
    && row.word.pairId == i.pairId
    && row.word.ladder.minBid == l.minBid && row.word.ladder.maxBid == l.maxBid
    && row.word.ladder.minAsk == l.minAsk && row.word.ladder.maxAsk == l.maxAsk
    && AvgBidPrice(l.minBid, l.maxBid, i.bidCapacity, 0, Min(i.capture, i.bidCapacity)) == Ok(row.realisedBid)
    && AvgAskPrice(l.minAsk, l.maxAsk, i.askCapacity, 0, Min(i.capture, i.askCapacity)) == Ok(row.realisedAsk)
    && AmountOutBid(Min(i.capture, i.bidCapacity), l.minBid, l.maxBid, i.bidCapacity, 0, i.exp) == Ok(row.bidCaptureCost)
    && AmountInAsk(Min(i.capture, i.askCapacity), l.minAsk, l.maxAsk, i.askCapacity, 0, i.exp) == Ok(row.askCaptureCost)
    && row.bidCaptureCost > 0 && row.askCaptureCost > 0
  }

  /**
   What a build can and cannot say. The solver never hands back a rejected row, the validator and
   both target comparisons never fire and neither does the encoder; what the fill check refuses is
   an out-of-domain quote or scale. Every row brackets its mid and realises both targets within one
   price unit on the pool's side.
   */
  lemma BuildLaw(i: RowInputs)
    ensures match Build(i)
            case Err(NoCapacityOn(side)) => if side == Bid then i.bidCapacity == 0 else 0 < i.bidCapacity && i.askCapacity == 0
            case Err(BadPrice) => i.fair == 0 || i.fair > PRICE_MAX || RowTargets(i).Err?
            case Err(Solver(why)) =>
              !why.Rejected? && RowTargets(i).Ok?
              && SolveTwoSided(BidInput(i, RowTargets(i).value), AskInput(i, RowTargets(i).value)) == Err(why)
            case Err(Invalid(reason)) => reason == AmountOutOfDomain || reason == DomainOverflow
            case Err(RealisedBidAboveTarget) => false
            case Err(RealisedAskBelowTarget) => false
            case Err(CapturePricesToZero) =>
              RowTargets(i).Ok? &&
              (match SolveTwoSided(BidInput(i, RowTargets(i).value), AskInput(i, RowTargets(i).value))
               case Ok(solved) => PricesToZero(i, solved.ladder)
               case Err(_) => false)
            case Err(Packing(_)) => false
            case Ok(row) =>
              && var l, t := row.solved.ladder, row.targets;
              && RowTargets(i) == Ok(t) && ValidateLadder(l, i.minPrice) == Ok(()) && l.maxAsk <= PRICE_MAX
              && l.maxBid <= t.mid <= l.minAsk
              && t.bid - 1 <= row.realisedBid <= t.bid && t.ask <= row.realisedAsk <= t.ask + 1
              && (row.solved.askRepaired <==> i.halfSpreadE2 == 0 && row.solved.bid.width == 0 && row.solved.ask.width == 0)
              && RowPublishes(i, row)
  {
    hide RowTargets, SolveTwoSided, AvgBidPrice, AvgAskPrice, AmountOutBid, AmountInAsk;
    if 0 < i.bidCapacity && 0 < i.askCapacity && 0 < i.fair <= PRICE_MAX {
      TargetsBracketMid(i);
      if RowTargets(i).Ok? {
        var t := RowTargets(i).value;
        TwoSidedNeverRejected(BidInput(i, t), AskInput(i, t));
        var solved := SolveTwoSided(BidInput(i, t), AskInput(i, t));
        if solved.Ok? {
          RealisedPrices(i, t);
          SidesMeetAtMid(i, t);
          CheckedRow(i, t, solved.value);
        }
      }
    }
  }

  /** The checks on a row that is valid and realises its targets: only the fill check can refuse. */
  lemma CheckedRow(i: RowInputs, t: Targets, solved: TwoSided)
    requires ValidateLadder(solved.ladder, i.minPrice) == Ok(()) && solved.ladder.maxAsk <= PRICE_MAX
    requires 0 < i.bidCapacity && 0 < i.askCapacity
    requires var l := solved.ladder;
             var bid := AvgBidPrice(l.minBid, l.maxBid, i.bidCapacity, 0, Min(i.capture, i.bidCapacity));
             var ask := AvgAskPrice(l.minAsk, l.maxAsk, i.askCapacity, 0, Min(i.capture, i.askCapacity));
             bid.Ok? && ask.Ok? && bid.value <= t.bid && ask.value >= t.ask
    ensures match CheckRow(i, t, solved)
            case Err(Invalid(reason)) => reason == AmountOutOfDomain || reason == DomainOverflow
            case Err(e) => e == CapturePricesToZero && PricesToZero(i, solved.ladder)
            case Ok(row) => row.targets == t && row.solved == solved && RowPublishes(i, row)
  {
    hide AvgBidPrice, AvgAskPrice, AmountOutBid, AmountInAsk;
    var l := solved.ladder;
    FillRefusals(Min(i.capture, i.bidCapacity), l.minBid, l.maxBid, i.bidCapacity, i.exp);
    FillRefusals(Min(i.capture, i.askCapacity), l.minAsk, l.maxAsk, i.askCapacity, i.exp);
    Pack.PackUnpack(Pack.QuoteWord(i.pairId, l));
  }

  lemma FillRefusals(q: nat, near: nat, far: nat, capacity: nat, exp: nat)
    requires near <= far && 0 < capacity && q <= capacity
    ensures var r := AmountOutBid(q, near, far, capacity, 0, exp);
            r.Err? ==> r.error == AmountOutOfDomain || r.error == DomainOverflow
    ensures 0 < far ==>
            var r := AmountInAsk(q, near, far, capacity, 0, exp);
            r.Err? ==> r.error == AmountOutOfDomain || r.error == DomainOverflow
  {}

  /** Around a bid target, a width that keeps the best bid at or under `ceiling` and the worst at or above `floor`. */
  predicate BidWidthFits(w: nat, target: nat, k: nat, capacity: nat, floor: nat, ceiling: nat)
    requires 0 < capacity
  {
    var high := target + (w * k) / (2 * capacity);
    high <= ceiling && floor <= high - w
  }

  /** Around an ask target, a width that keeps the best ask at or above `floor` and the worst at or under `ceiling`. */
  predicate AskWidthFits(w: nat, target: nat, k: nat, capacity: nat, floor: nat, ceiling: nat)
    requires 0 < capacity
  {
    var low := target - (w * k) / (2 * capacity);
    floor <= low && low + w <= ceiling
  }

  lemma BidSideIsWidest(i: RowInputs, t: Targets, w: nat)
    requires SolveBid(BidInput(i, t)).Ok? && w <= t.bidWidth && w <= PRICE_MAX
    ensures var s := SolveBid(BidInput(i, t)).value;
            0 < i.bidCapacity && s.effectiveCapture == Min(i.capture, i.bidCapacity)
            && (BidWidthFits(w, t.bid, s.effectiveCapture, i.bidCapacity, i.minPrice, t.mid) <==> w <= s.width)
  {
    hide SolveBid;
    SolveBidWithinBounds(BidInput(i, t));
    SolvedBidShape(BidInput(i, t));
  }

  lemma AskSideIsWidest(i: RowInputs, t: Targets, w: nat)
    requires SolveAsk(AskInput(i, t)).Ok? && w <= t.askWidth && w <= PRICE_MAX
    ensures var s := SolveAsk(AskInput(i, t)).value;
            0 < i.askCapacity && s.effectiveCapture == Min(i.capture, i.askCapacity)
            && (AskWidthFits(w, t.ask, s.effectiveCapture, i.askCapacity, Max(i.minPrice, t.mid), PRICE_MAX) <==> w <= s.width)
  {
    hide SolveAsk;
    SolveAskWithinBounds(AskInput(i, t));
    SolvedAskShape(AskInput(i, t));
  }

  /**
   Each side of a row is the widest its request allows: a wider one would lift the best bid over the
   mid or the worst below the floor, or push the best ask under both or the worst over the ceiling.
   */
  lemma RowIsWidest(i: RowInputs, w: nat)
    requires Build(i).Ok?
    ensures 0 < i.bidCapacity && 0 < i.askCapacity
    ensures var row := Build(i).value;
            w <= row.targets.bidWidth && w <= PRICE_MAX ==>
            (BidWidthFits(w, row.targets.bid, Min(i.capture, i.bidCapacity), i.bidCapacity, i.minPrice, row.targets.mid)
             <==> w <= row.solved.bid.width)
    ensures var row := Build(i).value;
            w <= row.targets.askWidth && w <= PRICE_MAX ==>
            (AskWidthFits(w, row.targets.ask, Min(i.capture, i.askCapacity), i.askCapacity,
                          Max(i.minPrice, row.targets.mid), PRICE_MAX)
             <==> w <= row.solved.ask.width)
  {
    OpenOnBothSides(i);
    hide RowTargets, SolveTwoSided, SolveBid, SolveAsk, BidWidthFits, AskWidthFits, BidInput, AskInput, Build, RowPublishes;
    BuildLaw(i);
    var t := RowTargets(i).value;
    BuildKeepsSolution(i, t);
    TwoSidedNeverRejected(BidInput(i, t), AskInput(i, t));
    if w <= t.bidWidth && w <= PRICE_MAX { BidSideIsWidest(i, t, w); }
    if w <= t.askWidth && w <= PRICE_MAX { AskSideIsWidest(i, t, w); }
  }

  lemma OpenOnBothSides(i: RowInputs)
    requires Build(i).Ok?
    ensures 0 < i.bidCapacity && 0 < i.askCapacity
  {
    hide RowTargets, SolveTwoSided, CheckRow;
  }

  /** And within the request: a row's widths never exceed the requested shares of its targets. */
  lemma RowWithinRequest(i: RowInputs)
    requires Build(i).Ok?
    ensures var row := Build(i).value;
            row.solved.bid.width <= row.targets.bidWidth && row.solved.ask.width <= row.targets.askWidth
  {
    hide RowTargets, SolveTwoSided, SolveBid, SolveAsk, Build, RowPublishes;
    BuildLaw(i);
    var t := RowTargets(i).value;
    BuildKeepsSolution(i, t);
    TwoSidedNeverRejected(BidInput(i, t), AskInput(i, t));
    SolvedWithinRequest(BidInput(i, t));
    SolvedWithinRequest(AskInput(i, t));
  }

  // ---- Capacity ----

  datatype CapacityInputs = CapacityInputs(
    configuredBid: nat, configuredAsk: nat, baseBalance: nat, quoteBalance: nat,
    minBaseReserve: nat, minQuoteReserve: nat, fair: nat, exp: nat)

  datatype CapacityPlan = CapacityPlan(bid: nat, ask: nat, bidCut: bool, askCut: bool)

  function SaturatingSub(a: nat, b: nat): nat { if b <= a then a - b else 0 }

  /** The budget: what the quote balance holds above its reserve. */
  function QuoteAvailable(i: CapacityInputs): (y: nat)
    ensures y > 0 ==> y + i.minQuoteReserve == i.quoteBalance
    ensures y == 0 <==> i.quoteBalance <= i.minQuoteReserve
  {
    SaturatingSub(i.quoteBalance, i.minQuoteReserve)
  }

  function PlanCapacity(i: CapacityInputs): CapacityPlan {
    var baseAvailable := Min(SaturatingSub(i.baseBalance, i.minBaseReserve), AMOUNT_MAX);
    var ask := Min(i.configuredAsk, baseAvailable);
    var bid :=
      if i.fair == 0 then 0
      else
        var least := match AmountInBidAnyPrice(QuoteAvailable(i), i.fair, i.fair, AMOUNT_MAX, 0, i.exp)
                     case Ok(q) => q
                     case Err(_) => AMOUNT_MAX;
        Min(Min(i.configuredBid, SaturatingSub(least, 1)), AMOUNT_MAX);
    CapacityPlan(bid, ask, bid < i.configuredBid, ask < i.configuredAsk)
  }

  /** The highest fair value whose flat ladder over the widest epoch still grosses inside 256 bits. */
  const FAIR_MAX: nat := 0x8000_0000_0000_0000

  lemma FlatRefusal(fair: nat, s: nat)
    ensures BidRefusal(BidLeg(fair, fair, AMOUNT_MAX, 0, s), AMOUNT_MAX).None? <==> fair <= FAIR_MAX
  {
    var leg := BidLeg(fair, fair, AMOUNT_MAX, 0, s);
    assert leg.Span() == 0 && leg.Factor(AMOUNT_MAX) == 2 * fair * AMOUNT_MAX;
  }

  /** Up to that fair value the budget query is the curve's own; above it every positive budget is refused. */
  lemma BudgetQuery(y: nat, fair: nat, exp: nat)
    requires exp <= PRICE_SCALE_EXP_MAX
    ensures fair <= FAIR_MAX ==>
            AmountInBidAnyPrice(y, fair, fair, AMOUNT_MAX, 0, exp) == AmountInBid(y, fair, fair, AMOUNT_MAX, 0, exp)
    ensures fair > FAIR_MAX && y > 0 ==> AmountInBidAnyPrice(y, fair, fair, AMOUNT_MAX, 0, exp).Err?
    ensures y == 0 ==> AmountInBidAnyPrice(y, fair, fair, AMOUNT_MAX, 0, exp) == Ok(0)
  {
    hide BidRefusal;
    FlatRefusal(fair, TenTo(exp));
  }

  /** A flat ladder grosses the floor of size times price. */
  lemma FlatGross(p: nat, c: nat, s: nat, q: nat)
    requires 0 < c && 0 < s && q <= c
    ensures 0 <= q * p && BidLeg(p, p, c, 0, s).Gross(q) == (q * p) / s
  {
    var leg := BidLeg(p, p, c, 0, s);
    var g := leg.Gross(q);
    CurveLaws.GrossAtMostBest(leg, q);
    MulLe(0, p, q);
    FloorGalois(q * p, s, g);
    var f := (q * p) / s;
    FloorBounds(q * p, s);
    GrossReaches(leg, q, f);
    MulLe(f * s, q * p, 2 * c);
    assert f * leg.Denominator() == (f * s) * (2 * c) by { assert f * (2 * c * s) == (f * s) * (2 * c); }
    assert leg.Numerator(q) == (q * p) * (2 * c) by {
      assert leg.Span() == 0;
      assert leg.Factor(q) == 2 * p * c;
      assert q * (2 * p * c) == (q * p) * (2 * c);
    }
  }

  /**
   Bought at fair throughout, a planned bid costs strictly less than the budget. Above `FAIR_MAX` the
   budget query overflows, and any positive budget plans the configured bid whatever it costs.
   */
  lemma PlannedBidWithinBudget(i: CapacityInputs)
    requires i.exp <= PRICE_SCALE_EXP_MAX
    ensures var plan := PlanCapacity(i).bid;
            && 0 <= plan * i.fair && plan <= i.configuredBid && plan <= AMOUNT_MAX
            && (0 < plan && i.fair <= FAIR_MAX ==> plan * i.fair < QuoteAvailable(i) * TenTo(i.exp))
            && (i.fair > FAIR_MAX ==>
                  plan == if QuoteAvailable(i) == 0 then 0 else Min(i.configuredBid, AMOUNT_MAX - 1))
  {
    hide AmountInBidAnyPrice, AmountInBid;
    var plan, y, s := PlanCapacity(i).bid, QuoteAvailable(i), TenTo(i.exp);
    MulLe(0, i.fair, plan);
    BudgetQuery(y, i.fair, i.exp);
    if 0 < plan && i.fair <= FAIR_MAX {
      FlatGross(i.fair, AMOUNT_MAX, s, plan);
      CurveLaws.BidAnswerIsLeast(y, i.fair, i.fair, AMOUNT_MAX, 0, i.exp);
      GrossMono(BidLeg(i.fair, i.fair, AMOUNT_MAX, 0, s), plan, AMOUNT_MAX);
      FloorGalois(plan * i.fair, s, y);
    }
  }

  lemma AddScaled(a: nat, b: nat, s: nat, m: nat, n: nat, p: nat)
    requires a * s <= m * p && b * s <= n * p
    ensures (a + b) * s <= (m + n) * p
  {}

  /** Every run of fills grosses at most `maxBid` per unit of base. */
  lemma {:induction false} SalesWithinBest(pieces: seq<nat>, minBid: nat, maxBid: nat, capacity: nat, used: nat, exp: nat)
    requires minBid <= maxBid && CurveLaws.SellPieces(pieces, minBid, maxBid, capacity, used, exp).Ok?
    ensures CurveLaws.SellPieces(pieces, minBid, maxBid, capacity, used, exp).value * TenTo(exp)
         <= Sum(pieces) * maxBid
  {
    if pieces != [] {
      hide AmountOutBid;
      var q, s: nat := pieces[0], TenTo(exp);
      CurveLaws.SaleAtMostBest(q, minBid, maxBid, capacity, used, exp);
      SalesWithinBest(pieces[1..], minBid, maxBid, capacity, used + q, exp);
      var got := AmountOutBid(q, minBid, maxBid, capacity, used, exp).value;
      var rest := CurveLaws.SellPieces(pieces[1..], minBid, maxBid, capacity, used + q, exp).value;
      AddScaled(got, rest, s, q, Sum(pieces[1..]), maxBid);
    }
  }

  /**
   Affordable: against any ladder whose best bid is at or below a fair value within `FAIR_MAX`, fills
   totalling at most the planned bid never pay out more than the balance above its reserve.
   */
  lemma PlanIsAffordable(i: CapacityInputs, pieces: seq<nat>, minBid: nat, maxBid: nat, capacity: nat, used: nat)
    requires minBid <= maxBid <= i.fair <= FAIR_MAX && Sum(pieces) <= PlanCapacity(i).bid
    requires CurveLaws.SellPieces(pieces, minBid, maxBid, capacity, used, i.exp).Ok?
    ensures CurveLaws.SellPieces(pieces, minBid, maxBid, capacity, used, i.exp).value <= QuoteAvailable(i)
  {
    var paid, n, s := CurveLaws.SellPieces(pieces, minBid, maxBid, capacity, used, i.exp).value, Sum(pieces), TenTo(i.exp);
    if pieces != [] {
      hide CurveLaws.SellPieces, PlanCapacity;
      SalesWithinBest(pieces, minBid, maxBid, capacity, used, i.exp);
      ScaleAccepted(pieces, minBid, maxBid, capacity, used, i.exp);
      PlannedBidWithinBudget(i);
      MulLe(maxBid, i.fair, n);
      MulLe(n, PlanCapacity(i).bid, i.fair);
      if PlanCapacity(i).bid == 0 { assert n == 0 && n * maxBid == 0; }
      MulLe(0, QuoteAvailable(i), s);
      MulLeCancel(paid, QuoteAvailable(i), s);
    }
  }

  lemma ScaleAccepted(pieces: seq<nat>, minBid: nat, maxBid: nat, capacity: nat, used: nat, exp: nat)
    requires pieces != [] && CurveLaws.SellPieces(pieces, minBid, maxBid, capacity, used, exp).Ok?
    ensures exp <= PRICE_SCALE_EXP_MAX
  {}

  /** Four units planned on a budget of `y` quote units, everything else open. */
  function FourOn(y: nat, fair: nat): CapacityInputs { CapacityInputs(4, 0, 0, y, 0, 0, fair, 0) }

  /** The epoch deep enough that four units at scale one gross more than `4 * p + 1` for any `p` below the best bid. */
  function DeepFor(minBid: nat, maxBid: nat): nat
    requires minBid <= maxBid
  {
    4 * (maxBid - minBid) + 4
  }

  lemma DeepEpochPays(minBid: nat, maxBid: nat, p: nat)
    requires p < maxBid && minBid <= maxBid
    ensures var paid := AmountOutBid(4, minBid, maxBid, DeepFor(minBid, maxBid), 0, 0);
            && (maxBid <= PRICE_MAX ==> paid.Ok?) && (paid.Ok? ==> paid.value > 4 * p + 1)
  {
    var w := maxBid - minBid;
    var leg := BidLeg(minBid, maxBid, 4 * w + 4, 0, 1);
    GrossReaches(leg, 4, 4 * p + 2);
    CurveLaws.GrossAtMostBest(leg, 4);
    OverspendNumbers(maxBid, w, p);
  }

  /**
   The price condition is needed: above fair, at scale one, a configured four units are planned in
   full on a budget that four units at fair just exceed by one, and selling them overspends it.
   */
  lemma PlanOverspendsAboveFair(minBid: nat, maxBid: nat, fair: nat)
    requires 0 < fair < maxBid && minBid <= maxBid
    ensures var i := FourOn(4 * fair + 1, fair);
            var paid := AmountOutBid(4, minBid, maxBid, DeepFor(minBid, maxBid), 0, 0);
            && PlanCapacity(i).bid == 4
            && (maxBid <= PRICE_MAX ==> paid.Ok?) && (paid.Ok? ==> paid.value > QuoteAvailable(i))
  {
    hide AmountOutBid, AmountInBid, AmountInBidAnyPrice, DeepFor;
    DeepEpochPays(minBid, maxBid, fair);
    var y := 4 * fair + 1;
    BudgetQuery(y, fair, 0);
    if fair <= FAIR_MAX { FlatCostOfFour(fair); }
  }

  /** At scale one, four units at fair do not reach one more than four times fair. */
  lemma FlatCostOfFour(fair: nat)
    ensures var r := AmountInBid(4 * fair + 1, fair, fair, AMOUNT_MAX, 0, 0); r.Ok? ==> r.value > 4
  {
    hide AmountInBid;
    var y := 4 * fair + 1;
    FlatGross(fair, AMOUNT_MAX, 1, 4);
    assert TenTo(0) == 1;
    CurveLaws.BidAnswerIsLeast(y, fair, fair, AMOUNT_MAX, 0, 0);
  }

  /**
   And so is the bound on fair: above `FAIR_MAX` a budget of one unit plans the same four units, and
   any best bid but zero overspends it.
   */
  lemma PlanOverspendsAboveFairMax(minBid: nat, maxBid: nat, fair: nat)
    requires FAIR_MAX < fair && 0 < maxBid && minBid <= maxBid
    ensures var i := FourOn(1, fair);
            var paid := AmountOutBid(4, minBid, maxBid, DeepFor(minBid, maxBid), 0, 0);
            && PlanCapacity(i).bid == 4
            && (maxBid <= PRICE_MAX ==> paid.Ok?) && (paid.Ok? ==> paid.value > QuoteAvailable(i))
  {
    hide AmountOutBid, AmountInBid, AmountInBidAnyPrice, DeepFor;
    DeepEpochPays(minBid, maxBid, 0);
    BudgetQuery(1, fair, 0);
  }

  /** One input: fair just above the bound, a budget of one, a flat ladder at price one; four units are planned and cost four. */
  lemma PlanOverspendsAtOne()
    ensures var i := FourOn(1, FAIR_MAX + 1);
            PlanCapacity(i).bid == 4 && AmountOutBid(4, 1, 1, 4, 0, 0) == Ok(4) && QuoteAvailable(i) == 1
  {
    PlanOverspendsAboveFairMax(1, 1, FAIR_MAX + 1);
    FlatGross(1, 4, 1, 4);
    assert TenTo(0) == 1;
  }

  lemma OverspendNumbers(m: nat, w: nat, fair: nat)
    requires fair < m
    ensures var c := 4 * w + 4;
            4 * (2 * m * c - w * (2 * 0 + 4)) >= (4 * fair + 2) * (2 * c * 1)
  {
    var c := 4 * w + 4;
    MulLe(fair + 1, m, c);
    assert 4 * (2 * m * c - w * 4) == 8 * (m * c) - 16 * w;
    assert (4 * fair + 2) * (2 * c * 1) == 8 * (fair * c) + 4 * c;
    assert (fair + 1) * c == fair * c + c;
  }

  /** Whatever the balances and limits, selling into the planned bid never overspends the budget. */
  ghost predicate AlwaysAffordable(minBid: nat, maxBid: nat, fair: u128) {
    forall i: CapacityInputs, pieces, capacity: nat, used: nat ::
      i.fair == fair && Sum(pieces) <= PlanCapacity(i).bid
      && CurveLaws.SellPieces(pieces, minBid, maxBid, capacity, used, i.exp).Ok?
      ==> CurveLaws.SellPieces(pieces, minBid, maxBid, capacity, used, i.exp).value <= QuoteAvailable(i)
  }

  /** Which fair values and best bids the plan is safe for: checkable before the plan is made. */
  predicate SafeToPlan(maxBid: nat, fair: u128) {
    fair == 0 || maxBid == 0 || maxBid <= fair <= FAIR_MAX
  }

  /** Exactly those. */
  lemma AffordableUpToFair(minBid: nat, maxBid: nat, fair: u128)
    requires minBid <= maxBid <= PRICE_MAX
    ensures AlwaysAffordable(minBid, maxBid, fair) <==> SafeToPlan(maxBid, fair)
  {
    hide PlanCapacity, CurveLaws.SellPieces, Sum, AmountOutBid;
    if SafeToPlan(maxBid, fair) {
      forall i: CapacityInputs, pieces, capacity: nat, used: nat
        | i.fair == fair && Sum(pieces) <= PlanCapacity(i).bid
          && CurveLaws.SellPieces(pieces, minBid, maxBid, capacity, used, i.exp).Ok?
        ensures CurveLaws.SellPieces(pieces, minBid, maxBid, capacity, used, i.exp).value <= QuoteAvailable(i)
      {
        if fair == 0 || maxBid == 0 {
          NothingPlanned(i);
          NothingSold(pieces, minBid, maxBid, capacity, used, i.exp);
        } else {
          PlanIsAffordable(i, pieces, minBid, maxBid, capacity, used);
        }
      }
    } else {
      var i := FourOn(if fair <= FAIR_MAX then 4 * fair + 1 else 1, fair);
      if fair <= FAIR_MAX { PlanOverspendsAboveFair(minBid, maxBid, fair); }
      else { PlanOverspendsAboveFairMax(minBid, maxBid, fair); }
      var capacity := DeepFor(minBid, maxBid);
      OnePiece(4, minBid, maxBid, capacity, 0, 0);
      assert CurveLaws.SellPieces([4], minBid, maxBid, capacity, 0, i.exp).value > QuoteAvailable(i);
    }
  }

  lemma OnePiece(q: nat, minBid: nat, maxBid: nat, capacity: nat, used: nat, exp: nat)
    ensures Sum([q]) == q
    ensures CurveLaws.SellPieces([q], minBid, maxBid, capacity, used, exp)
         == AmountOutBid(q, minBid, maxBid, capacity, used, exp)
  {
    hide AmountOutBid;
    assert [q][1..] == [];
  }

  lemma NothingPlanned(i: CapacityInputs)
    ensures i.fair == 0 ==> PlanCapacity(i).bid == 0
  {}

  lemma NothingSold(pieces: seq<nat>, minBid: nat, maxBid: nat, capacity: nat, used: nat, exp: nat)
    requires minBid <= maxBid && (Sum(pieces) == 0 || maxBid == 0)
    requires CurveLaws.SellPieces(pieces, minBid, maxBid, capacity, used, exp).Ok?
    ensures CurveLaws.SellPieces(pieces, minBid, maxBid, capacity, used, exp).value == 0
  {
    hide CurveLaws.SellPieces, Sum;
    var paid := CurveLaws.SellPieces(pieces, minBid, maxBid, capacity, used, exp).value;
    SalesWithinBest(pieces, minBid, maxBid, capacity, used, exp);
    assert Sum(pieces) * maxBid == 0;
    if paid > 0 { MulLe(1, TenTo(exp), paid); }
  }

  /** Near-maximal: cut by the budget below the ceiling, one more unit at fair reaches the whole budget. */
  lemma PlanIsNearMaximal(i: CapacityInputs)
    requires 0 < i.fair && PlanCapacity(i).bidCut && PlanCapacity(i).bid + 1 < AMOUNT_MAX
    ensures ((PlanCapacity(i).bid + 1) * i.fair) / TenTo(i.exp) >= QuoteAvailable(i)
  {
    hide AmountInBidAnyPrice, AmountInBid;
    var plan, y, s := PlanCapacity(i).bid, QuoteAvailable(i), TenTo(i.exp);
    ScaleRefused(y, i.fair, i.exp);
    if i.exp <= PRICE_SCALE_EXP_MAX {
      BudgetQuery(y, i.fair, i.exp);
      FlatGross(i.fair, AMOUNT_MAX, s, plan + 1);
      if y == 0 {
        FloorBounds((plan + 1) * i.fair, s);
      } else {
        CurveLaws.BidAnswerIsLeast(y, i.fair, i.fair, AMOUNT_MAX, 0, i.exp);
      }
    }
  }

  lemma ScaleRefused(y: nat, fair: nat, exp: nat)
    ensures exp > PRICE_SCALE_EXP_MAX ==> AmountInBidAnyPrice(y, fair, fair, AMOUNT_MAX, 0, exp).Err?
  {}

  /** The planned ask is the greatest amount within the configured one, the balance above its reserve and the domain. */
  lemma PlannedAskIsGreatest(i: CapacityInputs, n: nat)
    ensures n <= PlanCapacity(i).ask <==>
            n <= i.configuredAsk && n <= AMOUNT_MAX && (n == 0 || n + i.minBaseReserve <= i.baseBalance)
    ensures PlanCapacity(i).askCut <==> PlanCapacity(i).ask < i.configuredAsk
    ensures !PlanCapacity(i).askCut <==> PlanCapacity(i).ask == i.configuredAsk
  {}

  /** The planned bid is the greatest configured amount whose cost at fair, floored, falls short of the budget. */
  lemma PlannedBidIsGreatest(i: CapacityInputs, n: nat)
    requires i.exp <= PRICE_SCALE_EXP_MAX && 0 < i.fair <= FAIR_MAX
    ensures n <= PlanCapacity(i).bid <==>
            n == 0 || (n <= i.configuredBid && n < AMOUNT_MAX && (n * i.fair) / TenTo(i.exp) < QuoteAvailable(i))
  {
    hide AmountInBidAnyPrice, AmountInBid;
    var y, s := QuoteAvailable(i), TenTo(i.exp);
    BudgetQuery(y, i.fair, i.exp);
    if y > 0 { CurveLaws.BidAnswerIsLeast(y, i.fair, i.fair, AMOUNT_MAX, 0, i.exp); }
    if 0 < n < AMOUNT_MAX {
      FlatGross(i.fair, AMOUNT_MAX, s, n);
      FloorBounds(n * i.fair, s);
      GrossMono(BidLeg(i.fair, i.fair, AMOUNT_MAX, 0, s), n, AMOUNT_MAX);
    }
  }

  /** The flags say exactly which side was cut, and an uncut side is the configured one. */
  lemma PlanFlags(i: CapacityInputs)
    ensures var plan := PlanCapacity(i);
            && plan.bid <= i.configuredBid && plan.ask <= i.configuredAsk
            && (plan.bidCut <==> plan.bid != i.configuredBid) && (plan.askCut <==> plan.ask != i.configuredAsk)
            && (i.fair == 0 ==> plan.bid == 0)
  {
    hide AmountInBidAnyPrice;
  }

  /** Whether the skewed mid stays at or below fair: skewed down, or up by less than one unit, or clamped. */
  predicate MidWithinFair(fair: u128, skew: i16) {
    skew >= 0 || fair * (0 - Max(skew, 0 - B.BPS_MAX)) < B.BPS || fair == PRICE_MAX
  }

  /**
   The price condition and the rows: the best bid lies between its target and the mid, so it is at
   most fair whenever the mid is; a spreadless book bids the mid itself, so exactly then.
   */
  lemma BestBidAgainstFair(i: RowInputs)
    requires Build(i).Ok?
    ensures var row := Build(i).value;
            var best := row.solved.ladder.maxBid;
            && row.targets.bid <= best <= row.targets.mid
            && (row.targets.mid <= i.fair <==> MidWithinFair(i.fair, i.skewBps))
            && (MidWithinFair(i.fair, i.skewBps) ==> best <= i.fair)
            && (i.halfSpreadE2 == 0 ==> (best <= i.fair <==> MidWithinFair(i.fair, i.skewBps)))
  {
    hide RowTargets, SolveTwoSided, SolveBid, CheckRow, B.SkewedMid, MidWithinFair;
    BuildLaw(i);
    TargetsBracketMid(i);
    var t := RowTargets(i).value;
    SidesMeetAtMid(i, t);
    BuildKeepsSolution(i, t);
    TwoSidedNeverRejected(BidInput(i, t), AskInput(i, t));
    SolveBidWithinBounds(BidInput(i, t));
    SkewAgainstFair(i.fair, i.skewBps);
  }

  lemma BuildKeepsSolution(i: RowInputs, t: Targets)
    requires Build(i).Ok? && RowTargets(i) == Ok(t)
    ensures SolveTwoSided(BidInput(i, t), AskInput(i, t)) == Ok(Build(i).value.solved)
  {
    hide RowTargets, SolveTwoSided, AvgBidPrice, AvgAskPrice, AmountOutBid, AmountInAsk;
  }

  lemma SkewAgainstFair(fair: u128, skew: i16)
    requires 0 < fair <= PRICE_MAX
    ensures B.SkewedMid(B.Builder(fair, 0, 0, skew, 0, true)).value <= fair <==> MidWithinFair(fair, skew)
  {
    if skew < 0 {
      var k := 0 - Max(skew, 0 - B.BPS_MAX);
      B.Rounded(fair, B.BPS + k, B.BPS);
      assert fair * (B.BPS + k) == fair * B.BPS + fair * k;
      FloorGalois(fair * (B.BPS + k), B.BPS, fair + 1);
    }
  }
}
