/** Strategy knobs to four prices: skew, project, clamp into a chain. Whatever goes in, the row is valid. */
module LadderBuilder {
  import opened Words
  import opened Errors
  import opened Arithmetic
  import opened WideMath
  import opened CurveSpec

  const BPS: nat := 10_000
  const BPS_E2: nat := 1_000_000
  const BPS_MAX: nat := 9_999
  const BPS_E2_MAX: nat := 999_999

  datatype Builder = Builder(
    referenceMid: u128, halfSpreadE2: u32, widthE2: u32, skewBps: i16, minPrice: u128, roundAskUp: bool)

  function Clamp(x: int, lo: int, hi: int): (r: int)
    requires lo <= hi
    ensures lo <= r <= hi
    ensures lo <= x <= hi ==> r == x
  {
    if x < lo then lo else if x > hi then hi else x
  }

  /** A factor at or above one never moves a price down, one at or below never up. */
  lemma FactorDirection(a: nat, b: nat, d: nat)
    requires 0 < d
    ensures 0 <= a * b
    ensures b >= d ==> (a * b) / d >= a && CeilDiv(a * b, d) >= a
    ensures b <= d ==> (a * b) / d <= a && CeilDiv(a * b, d) <= a
  {
    MulLe(0, a, b);
    FloorGalois(a * b, d, a);
    FloorGalois(a * b, d, a + 1);
    assert (a + 1) * d == a * d + d;
    CeilGalois(a * b, d, a - 1);
    CeilGalois(a * b, d, a);
    assert (a - 1) * d == a * d - d;
    if b >= d { MulLe(d, b, a); } else { MulLe(b, d, a); }
    if b == d { assert a * b == a * d; }
  }

  lemma ScaledFits(a: nat, b: nat, d: nat)
    requires a <= PRICE_MAX && b <= 2 * d && 0 < d
    ensures 0 <= a * b && 0 <= (a * b) / d <= 2 * PRICE_MAX && CeilDiv(a * b, d) <= 2 * PRICE_MAX
  {
    MulLe(0, a, b);
    MulLe(b, 2 * d, a);
    MulLe(a, PRICE_MAX, 2 * d);
    assert a * (2 * d) == (2 * a) * d;
    CeilGalois(a * b, d, 2 * a);
    CeilFloorGap(a * b, d);
    FloorBounds(a * b, d);
  }

  /** The skewed mid: floored, clamped to at least one; positive skew only lowers, negative only raises. */
  function SkewedMid(b: Builder): (r: Result<u128, LadderError>)
    ensures r.Ok? <==> b.referenceMid <= PRICE_MAX
    ensures r.Err? ==> r.error == PriceOutOfRange
    ensures r.Ok? ==> 1 <= r.value <= PRICE_MAX
    ensures r.Ok? && b.skewBps >= 0 ==> r.value <= Max(b.referenceMid, 1)
    ensures r.Ok? && b.skewBps <= 0 ==> r.value >= b.referenceMid
  {
    if b.referenceMid > PRICE_MAX then Err(PriceOutOfRange)
    else
      var widest: int := BPS_MAX;
      var skew := Clamp(b.skewBps, -widest, widest);
      var factor: u128 := BPS - skew;
      assert BPS - BPS_MAX <= factor <= BPS + BPS_MAX;
      FactorDirection(b.referenceMid, factor, BPS);
      ScaledFits(b.referenceMid, factor, BPS);
      var m := UnwrapOr(MulDivFloor(b.referenceMid, factor, BPS), PRICE_MAX);
      Ok(Clamp(m, 1, PRICE_MAX))
  }

  /** `ceil(a*b/d)` or the floor, saturated at the price ceiling. */
  function Round(up: bool, a: u128, b: u128, d: u128): (r: u128)
    requires d != 0
    ensures r <= PRICE_MAX
    ensures b >= d ==> r >= Min(a, PRICE_MAX)
  {
    FactorDirection(a, b, d);
    Min(UnwrapOr(if up then MulDivCeil(a, b, d) else MulDivFloor(a, b, d), PRICE_MAX), PRICE_MAX)
  }

  /** The four unclamped prices, already in order. */
  function Project(b: Builder, m: u128, hs: u128, w: u128): (l: Ladder)
    requires 1 <= m <= PRICE_MAX && hs <= BPS_E2_MAX && w <= BPS_E2_MAX
    ensures l.minBid <= l.maxBid <= m <= l.minAsk <= l.maxAsk <= PRICE_MAX
  {
    FactorDirection(m, BPS_E2 - hs, BPS_E2);
    var maxBid: u128 := UnwrapOr(MulDivFloor(m, BPS_E2 - hs, BPS_E2), 0);
    FactorDirection(maxBid, BPS_E2 - w, BPS_E2);
    var minBid: u128 := UnwrapOr(MulDivFloor(maxBid, BPS_E2 - w, BPS_E2), 0);
    var minAsk := Round(b.roundAskUp, m, BPS_E2 + hs, BPS_E2);
    var maxAsk := Round(b.roundAskUp, minAsk, BPS_E2 + w, BPS_E2);
    Ladder(minBid, maxBid, minAsk, maxAsk)
  }

  /** The monotone bottom-up sweep; every clamp has `lo <= hi`. */
  function ClampChain(raw: Ladder, minPrice: nat): (l: Ladder)
    requires minPrice < PRICE_MAX
    ensures ValidateLadder(l, minPrice) == Ok(()) && l.maxAsk <= PRICE_MAX
    ensures ValidateLadder(raw, minPrice) == Ok(()) && raw.minAsk < PRICE_MAX && raw.maxAsk <= PRICE_MAX ==> l == raw
  {
    var hiBody := PRICE_MAX - 1;
    var minBid := Clamp(raw.minBid, minPrice, hiBody);
    var maxBid := Clamp(raw.maxBid, minBid, hiBody);
    var minAsk := Clamp(raw.minAsk, maxBid, hiBody);
    var maxAsk := Clamp(raw.maxAsk, Max(minAsk, minBid + 1), PRICE_MAX);
    Ladder(minBid, maxBid, minAsk, maxAsk)
  }

  function Build(b: Builder): Result<Ladder, LadderError> {
    if b.minPrice >= PRICE_MAX then Err(InfeasibleBounds)
    else
      var m :- SkewedMid(b);
      var hs := Min(b.halfSpreadE2, BPS_E2_MAX);
      var w := Min(b.widthE2, BPS_E2_MAX);
      var ladder := ClampChain(Project(b, m, hs, w), b.minPrice);
      match ValidateLadder(ladder, b.minPrice)
      case Err(e) => Err(Rejected(e))
      case Ok(_) => Ok(ladder)
  }

  /**
   For any knob values the builder refuses exactly an out-of-range reference or a floor with no room
   above it, and otherwise returns a row the validator accepts and the quote word can hold.
   */
  lemma BuildTotal(b: Builder)
    ensures Build(b).Ok? <==> b.minPrice < PRICE_MAX && b.referenceMid <= PRICE_MAX
    ensures Build(b).Err? ==> Build(b).error in {InfeasibleBounds, PriceOutOfRange}
    ensures Build(b).Ok? ==>
            ValidateLadder(Build(b).value, b.minPrice) == Ok(()) && Build(b).value.maxAsk <= PRICE_MAX
  {}

  /** A quotient floored or ceiled to a price, as a bound on the exact product. */
  lemma Rounded(a: u128, b: u128, d: u128)
    requires 0 < d && a <= PRICE_MAX && b <= 2 * d && 2 * d <= U128_MAX
    ensures 0 <= a * b
    ensures MulDivFloor(a, b, d).Some? && MulDivCeil(a, b, d).Some?
    ensures var f := MulDivFloor(a, b, d).value; f * d <= a * b < (f + 1) * d
    ensures var c := MulDivCeil(a, b, d).value; (c - 1) * d < a * b <= c * d
  {
    ScaledFits(a, b, d);
    FloorBounds(a * b, d);
    CeilBounds(a * b, d);
    assert (CeilDiv(a * b, d) - 1) * d == CeilDiv(a * b, d) * d - d;
  }

  /** The mid is the floor of the reference scaled by the clamped skew, unless that leaves the price domain. */
  lemma SkewIsExact(b: Builder)
    requires b.referenceMid <= PRICE_MAX
    ensures var m, factor := SkewedMid(b).value, BPS - Clamp(b.skewBps, 0 - BPS_MAX, BPS_MAX);
            && (1 < m < PRICE_MAX ==> m * BPS <= b.referenceMid * factor < (m + 1) * BPS)
            && (m == 1 ==> b.referenceMid * factor < 2 * BPS)
            && (m == PRICE_MAX ==> PRICE_MAX * BPS <= b.referenceMid * factor)
  {
    Rounded(b.referenceMid, BPS - Clamp(b.skewBps, 0 - BPS_MAX, BPS_MAX), BPS);
    var f := MulDivFloor(b.referenceMid, BPS - Clamp(b.skewBps, 0 - BPS_MAX, BPS_MAX), BPS).value;
    MulLe(PRICE_MAX, Max(f, PRICE_MAX), BPS);
    assert f == 0 ==> (f + 1) * BPS == BPS;
  }

  /** `n / d` rounded up or down, held at the price ceiling exactly when the rounded quotient exceeds it. */
  ghost predicate RoundedTo(r: int, n: int, d: nat, up: bool) {
    if up then (if n > PRICE_MAX * d then r == PRICE_MAX else (r - 1) * d < n <= r * d)
    else (if n >= (PRICE_MAX + 1) * d then r == PRICE_MAX else r * d <= n < (r + 1) * d)
  }

  lemma RoundIsExact(up: bool, a: u128, b: u128, d: u128)
    requires 0 < d && a <= PRICE_MAX && b <= 2 * d && 2 * d <= U128_MAX
    ensures 0 <= a * b && RoundedTo(Round(up, a, b, d), a * b, d, up)
  {
    hide MulDivFloor, MulDivCeil;
    Rounded(a, b, d);
    FloorGalois(a * b, d, PRICE_MAX + 1);
    CeilGalois(a * b, d, PRICE_MAX);
    FloorBounds(a * b, d);
    CeilBounds(a * b, d);
  }

  /**
   Rounding outward: each bid price is the floor, and each ask price the ceiling or, when asked, the
   floor, of the price above or below it scaled by the configured spread or width.
   */
  lemma ProjectionRoundsOutward(b: Builder, m: u128, hs: u128, w: u128)
    requires 1 <= m <= PRICE_MAX && hs <= BPS_E2_MAX && w <= BPS_E2_MAX
    ensures var l := Project(b, m, hs, w);
            && l.maxBid * BPS_E2 <= m * (BPS_E2 - hs) < (l.maxBid + 1) * BPS_E2
            && l.minBid * BPS_E2 <= l.maxBid * (BPS_E2 - w) < (l.minBid + 1) * BPS_E2
            && RoundedTo(l.minAsk, m * (BPS_E2 + hs), BPS_E2, b.roundAskUp)
            && RoundedTo(l.maxAsk, l.minAsk * (BPS_E2 + w), BPS_E2, b.roundAskUp)
  {
    hide MulDivFloor, MulDivCeil, Round, RoundedTo;
    var l := Project(b, m, hs, w);
    Rounded(m, BPS_E2 - hs, BPS_E2);
    Rounded(l.maxBid as u128, BPS_E2 - w, BPS_E2);
    RoundIsExact(b.roundAskUp, m, BPS_E2 + hs, BPS_E2);
    RoundIsExact(b.roundAskUp, l.minAsk as u128, BPS_E2 + w, BPS_E2);
  }

  /**
   On prices already in order the bottom-up sweep moves each price by itself: to the floor from below,
   under the ceiling from above, the worst ask alone keeping one unit above the worst bid.
   */
  lemma ClampsIndependently(raw: Ladder, minPrice: nat)
    requires minPrice < PRICE_MAX && raw.minBid <= raw.maxBid <= raw.minAsk <= raw.maxAsk
    ensures var l, top := ClampChain(raw, minPrice), PRICE_MAX - 1;
            && l.minBid == Max(minPrice, Min(raw.minBid, top)) && l.maxBid == Max(minPrice, Min(raw.maxBid, top))
            && l.minAsk == Max(minPrice, Min(raw.minAsk, top))
            && l.maxAsk == Max(Max(minPrice, Min(raw.maxAsk, PRICE_MAX)), l.minBid + 1)
  {}

  /** The row is the clamped projection of the skewed mid by the half-spread and the width, each held under one. */
  lemma BuildClampsProjection(b: Builder)
    requires Build(b).Ok?
    ensures var raw := Project(b, SkewedMid(b).value, Min(b.halfSpreadE2, BPS_E2_MAX), Min(b.widthE2, BPS_E2_MAX));
            b.referenceMid <= PRICE_MAX && b.minPrice < PRICE_MAX && Build(b) == Ok(ClampChain(raw, b.minPrice))
  {
    hide Project, SkewedMid, ClampChain;
  }

  /** A projection that already fits the floor and the ceiling is the row. */
  lemma BuildKeepsProjection(b: Builder)
    requires Build(b).Ok?
    ensures var raw := Project(b, SkewedMid(b).value, Min(b.halfSpreadE2, BPS_E2_MAX), Min(b.widthE2, BPS_E2_MAX));
            b.minPrice <= raw.minBid < raw.maxAsk && raw.minAsk < PRICE_MAX ==> Build(b) == Ok(raw)
  {
    hide Project, SkewedMid, ClampChain;
  }

  /** When the floor and the ceiling do not bind, the book brackets the skewed mid. */
  lemma BuildBracketsMid(b: Builder)
    requires Build(b).Ok? && b.minPrice <= SkewedMid(b).value < PRICE_MAX
    ensures var l, m := Build(b).value, SkewedMid(b).value;
            l.maxBid <= m <= l.minAsk
  {}
}
