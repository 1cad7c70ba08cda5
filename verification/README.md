# Dubu pricing engine: a verified model

Dubu is an on-chain market maker with an off-chain quoting engine. This project models the engine's
exact arithmetic and its stateful services in Dafny and proves what they promise.

| module | models |
|---|---|
| `WideMath` | 128-bit words, the two-limb `U256`, and the two restoring long-division loops |
| `CurveSpec` | the pricing curve over naturals, with a linear scan as reference answer of the two inverted directions |
| `CurveSolver` | the same quotes as the code computes them: limbs, endpoint seeds, three refinement rounds, bisection |
| `CurveLaws`, `CurveAverages` | adjointness, refusals, splitting, runs of trades; reported averages and tops |
| `Inverse` | from a target average to the widest safe ladder, and the two-sided reconciliation |
| `LadderBuilder`, `Pack`, `Pool` | the knob-driven builder, the packed quote word, the staleness ramp |
| `RowBuilder` | the updater's pipeline from fair value to row, and the capacity plan |
| `Jump` | the jump detector and its book: a class proved against a step function, and whole-run safety of the step function |
| `FairValue` | micro-price, median, deviation filter and mean across venues |
| `Markout` | the settlement ledger: a class proved against a step function, and conservation over whole runs |
| `Words`, `Errors`, `Arithmetic`, `Permutations` | shared vocabulary: result types, floor and ceiling as Galois connections, sorting and order-independence |

Loops and in-place updates of the program are methods; each is proved equal to a specification
function, and the laws are lemmas about those functions. The price domain is uint56, amounts are
uint96, scales are at most 10^38, and quote amounts are 128-bit, as in the program.

## Where the code and its comments disagree

The model follows the code.

- `curve.rs:729-731` calls an empty ask bracket reachable. It is not: the lower end is affordable at
  a price the new upper end is computed from (`CurveSolver.HighSeedReachesLow`).
- `ladder.rs:373-375` in the updater says the best bid is at or below fair. A book skewed up bids
  above it. `RowBuilder.AffordableUpToFair` gives the exact condition under which the plan is safe.
- The same plan asks the curve for a budget at a fair value the curve's price domain does not bound.
  Above 2^63 the 256-bit numerator overflows, the error falls back to the widest epoch, and the plan
  ignores the budget (`RowBuilder.PlanOverspendsAtOne`). Release builds have no debug assertions to stop it.
- `fair_value.rs:507-509` says the survivors' sum is nowhere near 128 bits. Nothing bounds it: two
  venues at 2^127 make the checked addition panic. `FairValue.SumOverflowIsExact` says exactly when,
  and `FairValue.SmallSectionsAdd` gives a bound that rules it out.
- `fair_value.rs:458-460` says two venues are rejected together or not at all. Rounding breaks this;
  `FairValue.TwoVenuesStandTogether` is the exact condition and `FairValue.TwoVenuesCanPart` an instance.
- `fair_value.rs:483-484` says a majority is never rejected. `FairValue.HalfAlwaysSurvives` gives
  exactly the parameters for which that holds, and `FairValue.MeanIsDefined` exactly when an empty
  survivor set reaches the division.

## Model

| member | source | states |
|---|---|---|
| WideMath.WideningMul | engine/crates/dubu-core/src/math.rs:81-96 | The two limbs are the exact 256-bit product of any two words |
| WideMath.U256.Plus | engine/crates/dubu-core/src/math.rs:243-253 | The exact sum; refuses exactly when it reaches 2^256 |
| WideMath.U256.Minus | engine/crates/dubu-core/src/math.rs:258-268 | The exact difference; refuses exactly when it would be negative |
| WideMath.U256.Times | engine/crates/dubu-core/src/math.rs:295-305 | The exact product by a word; refuses exactly when it reaches 2^256 |
| WideMath.DivStepDivides | engine/crates/dubu-core/src/math.rs:334-347 | One restoring step (captured carry, shift, wrapping subtract) extends an exact division by one bit of the dividend |
| WideMath.LongDivide128 | engine/crates/dubu-core/src/math.rs:126-156 | The 128-step loop on a split dividend is Euclidean division |
| WideMath.MulDivRemLoop | engine/crates/dubu-core/src/math.rs:126-156 | Quotient and remainder of the full product; nothing exactly for a zero divisor or a quotient beyond 128 bits |
| WideMath.MulDivCeil | engine/crates/dubu-core/src/math.rs:177-184 | The rounded-up quotient, refused exactly when the divisor is zero or the rounded quotient does not fit |
| WideMath.LongDivide256 | engine/crates/dubu-core/src/math.rs:318-353 | The 256-step loop on two-limb operands is Euclidean division |
| WideMath.DivRemLoop | engine/crates/dubu-core/src/math.rs:318-353 | The whole routine with its early exits is Euclidean division, refused exactly for a zero divisor |
| WideMath.DivFloorU256 | engine/crates/dubu-core/src/math.rs:363-365 | The floored quotient when it fits a word |
| WideMath.DivCeilU256 | engine/crates/dubu-core/src/math.rs:370-378 | The ceiled quotient when it fits a word |
| CurveSpec.BidNumeratorStep | engine/crates/dubu-core/src/curve.rs:342-393 | The bid parabola grows from one size to another by their distance times the average factor between them |
| CurveSpec.BidFactorFloor | engine/crates/dubu-core/src/curve.rs:342-393 | Inside the capacity the factor stays at or above the worst bid, so the vertex is out of reach |
| CurveSpec.GrossMono | engine/crates/dubu-core/src/curve.rs:164-202 | Gross quote never falls as the size grows within the epoch |
| CurveSpec.CostMono | engine/crates/dubu-core/src/curve.rs:205-237 | Ask cost never falls as the size grows within the epoch |
| CurveSpec.LeastBidSize | engine/crates/dubu-core/src/curve.rs:331-393 | Reference answer: the first size of a linear scan that delivers the amount |
| CurveSpec.GreatestAskSize | engine/crates/dubu-core/src/curve.rs:597-672 | Reference answer: the last size of a linear scan the budget pays for |
| CurveSpec.ValidateLadder | engine/crates/dubu-core/src/curve.rs:905-941 | Accepts exactly the ordered, not entirely flat chain above the floor; the floor error has precedence |
| CurveSolver.BidGross | engine/crates/dubu-core/src/curve.rs:164-202 | Over any 128-bit prices, the two-limb evaluation is the exact rational floor, or refuses exactly when the doubled best bid or the numerator leaves its word; inverted ladders panic |
| CurveSolver.PriceDomainFits | engine/crates/dubu-core/src/curve.rs:38-52 | Inside the uint56/uint96 domain the gross of the whole room never leaves its words |
| CurveSolver.AskCost | engine/crates/dubu-core/src/curve.rs:205-237 | The two-limb evaluation equals the exact rational ceiling over the domain, and never fails there |
| CurveSolver.SeedBidBracket | engine/crates/dubu-core/src/curve.rs:426-448 | Both endpoint seeds keep the bracket: the upper end delivers, nothing below the lower end does |
| CurveSolver.RefineBidBracket | engine/crates/dubu-core/src/curve.rs:455-508 | Up to three two-sided rounds keep the bracket and only narrow it |
| CurveSolver.BisectLeastBid | engine/crates/dubu-core/src/curve.rs:513-535 | Bisection returns the least delivering size of the bracket in at most 96 steps, with no failing evaluation |
| CurveSolver.ComputeAmountInBid | engine/crates/dubu-core/src/curve.rs:342-393 | At any 128-bit prices, seeds, refinement and bisection return what the linear scan returns, with the errors of an oversized feasibility gross; inside the price domain there are none |
| CurveSolver.ComputeAmountOutBid | engine/crates/dubu-core/src/curve.rs:284-329 | The forward bid over limbs equals the exact quotient with its 128-bit refusal |
| CurveSolver.SeedAskBracket | engine/crates/dubu-core/src/curve.rs:704-721 | Both endpoint seeds keep the bracket: the lower end is affordable, nothing above the upper end is |
| CurveSolver.HighSeedReachesLow | engine/crates/dubu-core/src/curve.rs:729-784 | The unguarded upper update never passes below the lower end, so an empty bracket is unreachable |
| CurveSolver.RefineAskBracket | engine/crates/dubu-core/src/curve.rs:732-784 | Up to three rounds keep the bracket and its order without the missing guard |
| CurveSolver.BisectGreatestAsk | engine/crates/dubu-core/src/curve.rs:789-807 | Bisection returns the greatest affordable size of the bracket in at most 96 steps |
| CurveSolver.ComputeAmountOutAsk | engine/crates/dubu-core/src/curve.rs:612-672 | Seeds, refinement and bisection together return what the linear scan returns, errors included, over the whole domain |
| CurveSolver.ComputeAmountInAsk | engine/crates/dubu-core/src/curve.rs:548-595 | The forward ask over limbs equals the exact ceiling with its price and 128-bit refusals |
| CurveLaws.AskAnswerIsGreatest | engine/crates/dubu-core/src/curve.rs:612-672 | The exact-in ask affords a size exactly when it is at most the answer, and refuses exactly beyond the cost of the whole room |
| CurveLaws.BidAnswerIsLeast | engine/crates/dubu-core/src/curve.rs:342-393 | The exact-out bid delivers exactly from the answer on, and refuses exactly above the gross of the whole room |
| CurveLaws.AskAdjoint | engine/crates/dubu-core/src/curve.rs:548-672 | amount_in_ask(q) <= x exactly when q <= amount_out_ask(x) |
| CurveLaws.BidAdjoint | engine/crates/dubu-core/src/curve.rs:284-393 | amount_out_bid(q) >= y exactly when q >= amount_in_bid(y) |
| CurveLaws.OnlyChainRefusals | engine/crates/dubu-core/src/curve.rs:38-52 | No path raises the two errors only the port has; the 128-bit refusal is exactly an exact quotient beyond 2^128 - 1 |
| CurveLaws.ForwardRefusals | engine/crates/dubu-core/src/curve.rs:284-329 | Every refusal of the two forward directions exactly, in the order the code checks |
| CurveLaws.InverseRefusals | engine/crates/dubu-core/src/curve.rs:612-650 | Every refusal of the two inverted directions before they compare against their depth |
| CurveLaws.SellSplitLaw | engine/crates/dubu-core/src/curve.rs:164-237 | Selling in n consecutive pieces succeeds whenever the whole does and yields between whole - (n - 1) and whole |
| CurveLaws.BuySplitLaw | engine/crates/dubu-core/src/curve.rs:205-237 | Buying in n consecutive pieces costs between whole and whole + (n - 1) |
| CurveLaws.SpendSplitLaw | engine/crates/dubu-core/src/curve.rs:612-672 | Spending a budget in consecutive pieces succeeds whenever spending it at once does, and never buys more base |
| CurveLaws.SellForSplitLaw | engine/crates/dubu-core/src/curve.rs:342-393 | When consecutive quote targets are each met, their sum is met at once for no more base |
| CurveLaws.RunBounded | engine/crates/dubu-core/src/curve.rs:284-329 | Over any run of buys and sells the taker's quote is bounded by base sold at the best bid less base bought at the best ask |
| CurveLaws.NoMoneyPump | engine/crates/dubu-core/src/curve.rs:548-672 | After any run against a validated ladder, ending with no less base than at the start means ending with no more quote |
| CurveAverages.BidAverageIsFloor | engine/crates/dubu-core/src/curve.rs:824-853 | The reported bid average is the floor of the exact rational average, and exists throughout an epoch |
| CurveAverages.AskAverageIsCeil | engine/crates/dubu-core/src/curve.rs:863-891 | The reported ask average is the ceiling of the exact rational average |
| CurveAverages.BidTopsBracketAverage | engine/crates/dubu-core/src/curve.rs:955-983 | The top walks down with usage, stays within the ladder, brackets every interval average and is the average over nothing |
| CurveAverages.AskTopsBracketAverage | engine/crates/dubu-core/src/curve.rs:993-1020 | The same, upward, on the ask side |
| CurveAverages.TopsAtTheEdges | engine/crates/dubu-core/src/curve.rs:955-1020 | An empty side has no bid and an unreachable ask, a consumed one stands at its far price, a fresh one at its near price |
| CurveAverages.SaleBeatsReportedAverage | engine/crates/dubu-core/src/curve.rs:810-853 | A sale executes at its reported average or better, and below one price unit more |
| CurveAverages.PurchaseWithinReportedAverage | engine/crates/dubu-core/src/curve.rs:855-891 | A purchase costs at most its reported average, rounded up |
| Inverse.ComputeWidestWidth | engine/crates/dubu-core/src/inverse.rs:132-181 | The candidate loop picks the narrowest candidate and names the constraint that bound it |
| Inverse.WidestWidthExact | engine/crates/dubu-core/src/inverse.rs:132-181 | A width within the request and the price ceiling satisfies both rounded headroom constraints exactly when it is at most the returned one |
| Inverse.BindingIsExact | engine/crates/dubu-core/src/inverse.rs:132-181 | The binding names the first constraint one more unit of width would break |
| Inverse.CheckInput | engine/crates/dubu-core/src/inverse.rs:185-214 | Accepts exactly the in-domain inputs whose target lies between the price bounds, with the effective capture min(capture, capacity); each error names the first field that broke |
| Inverse.SolveBidWithinBounds | engine/crates/dubu-core/src/inverse.rs:230-260 | For accepted inputs min <= low <= target <= high <= max with no underflow, the width is the largest that fits the bounds, and errors are the input check's own |
| Inverse.SolveAskWithinBounds | engine/crates/dubu-core/src/inverse.rs:267-297 | The same for the ask side |
| Inverse.SolvedBidBinding | engine/crates/dubu-core/src/inverse.rs:230-260 | What a solved bid's binding means: the request, one wider over the ceiling, one wider under the floor, or the price domain |
| Inverse.SolvedAskBinding | engine/crates/dubu-core/src/inverse.rs:267-297 | The same for the ask side |
| Inverse.SolvedBidAverage | engine/crates/dubu-core/src/inverse.rs:10-26 | The exact bid average over the capture lies in (target - 1, target], and so does its report |
| Inverse.SolvedAskAverage | engine/crates/dubu-core/src/inverse.rs:10-26 | The exact ask average over the capture lies in [target, target + 1), and so does its report |
| Inverse.SolvedBidNeverOverpays | engine/crates/dubu-core/src/inverse.rs:216-260 | From the capture to capacity a solved bid never pays more than the size at the target, floored |
| Inverse.SolvedAskNeverUndersells | engine/crates/dubu-core/src/inverse.rs:262-297 | From the capture to capacity a solved ask never charges less than the size at the target, ceiled |
| Inverse.AssembleTwoSided | engine/crates/dubu-core/src/inverse.rs:325-365 | The step-by-step repair and validation compute the two-sided answer |
| Inverse.TwoSidedNeverRejected | engine/crates/dubu-core/src/inverse.rs:325-365 | Never rejected; every answer validates, keeps the bid verbatim and only raises the ask; the repair refuses exactly when the worst bid is the price ceiling |
| Inverse.RepairIsLeast | engine/crates/dubu-core/src/inverse.rs:333-352 | The repair is the least raise of the ask that makes the row valid, and is flagged exactly when it moved something |
| Inverse.RepairKeepsAskTarget | engine/crates/dubu-core/src/inverse.rs:333-352 | After the repair the ask average over the capture is still at or above the target |
| LadderBuilder.SkewedMid | engine/crates/dubu-core/src/ladder.rs:106-133 | Refuses exactly a reference outside the price domain; otherwise the mid stays inside it and moves in the direction of the skew |
| LadderBuilder.SkewIsExact | engine/crates/dubu-core/src/ladder.rs:106-133 | Inside the price domain the mid is the floor of the reference scaled by one minus the clamped skew |
| LadderBuilder.ProjectionRoundsOutward | engine/crates/dubu-core/src/ladder.rs:171-266 | Each bid is the floor, and each ask the ceiling or the floor as configured, of the price it is scaled from; an ask saturates exactly when its rounded quotient leaves the price domain |
| LadderBuilder.BuildKeepsProjection | engine/crates/dubu-core/src/ladder.rs:142-230 | A projection that fits the floor and the ceiling is returned unclamped |
| LadderBuilder.BuildClampsProjection | engine/crates/dubu-core/src/ladder.rs:142-168 | A built row is the clamped projection of the skewed mid by the capped half-spread and width |
| LadderBuilder.ClampChain | engine/crates/dubu-core/src/ladder.rs:206-230 | Every clamp has its ends in order, the result always validates within the price domain, and a row that already does is unchanged |
| LadderBuilder.ClampsIndependently | engine/crates/dubu-core/src/ladder.rs:206-230 | On ordered prices the sweep clamps each price by itself, the worst ask alone keeping one unit above the worst bid |
| LadderBuilder.BuildTotal | engine/crates/dubu-core/src/ladder.rs:142-168 | For any knob values a built row validates and packs, and refusals are exactly an out-of-range reference or a floor with no room above it |
| LadderBuilder.BuildBracketsMid | engine/crates/dubu-core/src/ladder.rs:171-200 | While the skewed mid lies at or above the floor and under the ceiling, the row brackets it |
| Pack.LimbsRoundTrip | engine/crates/dubu-core/src/pack.rs:66-112 | Unpacking the packed limbs gives the row back, best ask split 16/40 across them |
| Pack.WordRoundTrip | engine/crates/dubu-core/src/pack.rs:98-112 | Unpacking is refused exactly when the top sixteen bits are not clear; otherwise packing gives the word back |
| Pack.PackUnpack | engine/crates/dubu-core/src/pack.rs:86-124 | The same through the 32 big-endian bytes |
| Pack.UnpackPack | engine/crates/dubu-core/src/pack.rs:86-124 | And back, for every word whose first two bytes are zero |
| Pack.PackedLayout | engine/crates/dubu-core/src/pack.rs:30-92 | The word read big-endian is the four prices at bits 0, 56, 112 and 168 and the pair at 224; packing is refused exactly for a price out of range |
| Pack.TopBytesClear | engine/crates/dubu-core/src/pack.rs:98-112 | The reserved bits are clear exactly when the first two bytes are zero |
| Pack.Pack | engine/crates/dubu-core/src/pack.rs:86-92 | The byte buffer written is the packed word |
| Pack.Unpack | engine/crates/dubu-core/src/pack.rs:118-124 | The row read from a byte buffer is the unpacked word |
| Pool.Refusal | engine/crates/dubu-core/src/pool.rs:53-72 | The exact condition of each status: paused, never quoted, stamped ahead, stale, or quotable |
| Pool.AskGate | engine/crates/dubu-core/src/pool.rs:75-119 | The decayed ask accepts an input exactly when the base it buys fits the remaining room, needing only that one unit more than the room settles |
| Pool.BidRamp | engine/crates/dubu-core/src/pool.rs:130-174 | A bid query, for any inputs, is the curve's own answer exactly when the size fits the available depth, and zero otherwise |
| Pool.AskRamp | engine/crates/dubu-core/src/pool.rs:130-174 | An ask query is the curve's own answer exactly when the base it buys fits the available depth, and zero otherwise |
| Pool.RampStaysWithin | engine/crates/dubu-core/src/pool.rs:130-174 | With the queried side's own leg settling, the answer is never an error and never takes usage past the available depth |
| Pool.RampRefinesFullEpoch | engine/crates/dubu-core/src/pool.rs:130-174 | For every available depth the answer is the full epoch's own exactly when what that moves fits, and zero otherwise |
| RowBuilder.TargetsAreExact | engine/crates/dubu-updater/src/ladder.rs:192-228 | Targets are the mid scaled by the half-spread, rounded away from the taker, widths floored shares of them; refused exactly when the ask leaves the price domain or the bid vanishes |
| RowBuilder.TargetsBracketMid | engine/crates/dubu-updater/src/ladder.rs:183-260 | The two target prices lie on either side of the mid, inside the price domain |
| RowBuilder.SidesMeetAtMid | engine/crates/dubu-updater/src/ladder.rs:183-286 | The two solved sides never cross the mid |
| RowBuilder.RealisedPrices | engine/crates/dubu-updater/src/ladder.rs:262-320 | Realised averages land within one unit of the targets on the pool's side |
| RowBuilder.BuildLaw | engine/crates/dubu-updater/src/ladder.rs:183-334 | Validator, round-trip and packing refusals are unreachable and each other refusal names its cause; a row brackets the mid, realises its targets within a unit, is repaired only without a spread, and its word carries the pair and the four solved prices, its costs the forward quotes of the capture |
| RowBuilder.RowIsWidest | engine/crates/dubu-updater/src/ladder.rs:226-259 | Each side of a row is the widest ladder around its target between the pool's floor, the mid and the price ceiling |
| RowBuilder.RowWithinRequest | engine/crates/dubu-updater/src/ladder.rs:219-224 | And no wider than the requested share of its target |
| RowBuilder.PlannedBidWithinBudget | engine/crates/dubu-updater/src/ladder.rs:378-410 | Up to a fair value of 2^63 a positive planned bid costs, at fair, strictly less than the quote budget; above it any positive budget plans the configured bid, up to 2^96 - 2, whatever it costs |
| RowBuilder.PlanIsAffordable | engine/crates/dubu-updater/src/ladder.rs:378-410 | Any sequence of fills within the planned bid, against any ladder bidding at most a fair value of at most 2^63, pays out at most the balance above its reserve |
| RowBuilder.PlanOverspendsAboveFair | engine/crates/dubu-updater/src/ladder.rs:373-375 | For every best bid above fair there are a budget and an epoch in which selling the planned bid overspends |
| RowBuilder.PlanOverspendsAboveFairMax | engine/crates/dubu-updater/src/ladder.rs:390-402 | For every fair value above 2^63 and every best bid but zero, a budget of one unit plans four units whose sale overspends it |
| RowBuilder.PlanOverspendsAtOne | engine/crates/dubu-updater/src/ladder.rs:390-402 | The input: fair 2^63 + 1, budget 1, four units configured, a flat ladder at 1; four are planned and cost 4 |
| RowBuilder.AffordableUpToFair | engine/crates/dubu-updater/src/ladder.rs:370-410 | The plan is safe for a ladder exactly when fair is zero, the best bid is zero, or the best bid is at most fair and fair at most 2^63 |
| RowBuilder.PlanIsNearMaximal | engine/crates/dubu-updater/src/ladder.rs:378-410 | A bid cut by the budget below the uint96 ceiling is maximal: one more unit at fair reaches the whole budget |
| RowBuilder.PlannedAskIsGreatest | engine/crates/dubu-updater/src/ladder.rs:378-410 | The planned ask is exactly the greatest amount within the configured one, the base above its reserve and the amount domain; the flag says exactly when it was cut |
| RowBuilder.PlannedBidIsGreatest | engine/crates/dubu-updater/src/ladder.rs:386-403 | Up to a fair value of 2^63 the planned bid is exactly the greatest configured amount whose floored cost at fair falls short of the budget |
| RowBuilder.PlanFlags | engine/crates/dubu-updater/src/ladder.rs:404-410 | Each flag says exactly whether its side is below the configured capacity; no fair value plans no bid |
| RowBuilder.QuoteAvailable | engine/crates/dubu-updater/src/ladder.rs:385 | The budget is the quote balance above its reserve, and nothing at or below it |
| RowBuilder.BestBidAgainstFair | engine/crates/dubu-updater/src/ladder.rs:183-200 | The best bid lies between its target and the mid; the mid is at most fair exactly when not skewed up by a whole unit or clamped at the ceiling, and then so is the best bid; without a spread, only then |
| Jump.Bounds.Threshold | engine/crates/dubu-updater/src/jump.rs:161-170 | The threshold is the volatility arm clamped between floor and ceiling, and the tag says whether floor, ceiling or neither bound it |
| Jump.NewBounds | engine/crates/dubu-updater/src/jump.rs:141-157 | The floor is the configured one or a hundred, and the ceiling half-spread plus half the width, raised to the floor if below it |
| Jump.ThresholdMonotone | engine/crates/dubu-updater/src/jump.rs:161-170 | A larger volatility estimate never lowers the threshold |
| Jump.StepLaw | engine/crates/dubu-updater/src/jump.rs:362-468 | What any one event can do: trips re-stamp the clock, a resume needs cool-off, a fresh sample and a quiet window, nothing else moves the state |
| Jump.ThresholdLaw | engine/crates/dubu-updater/src/jump.rs:411-412 | A measured observation sets the threshold from its estimate; nothing else changes it |
| Jump.ThresholdIsLatest | engine/crates/dubu-updater/src/jump.rs:362-435 | After any run the threshold is the one the latest measured observation set, the floor before any |
| Jump.ResumesExactlyWhenSettled | engine/crates/dubu-updater/src/jump.rs:456-492 | An observation ends a withdrawal exactly when it does not trip, is not the first, and cool-off, freshness, sample count and range all pass |
| Jump.ReasonLaw | engine/crates/dubu-updater/src/jump.rs:362-455 | The reason of each trip, move, gap or contagion, and that the latest is kept |
| Jump.TripsExactlyOnJumps | engine/crates/dubu-updater/src/jump.rs:386-435 | An observation trips exactly when it is far enough from the anchor in time and too late, from an unusable anchor, or moved by the threshold or more, compared exactly |
| Jump.AnchorIsObserved | engine/crates/dubu-updater/src/jump.rs:386-420 | After any run the anchor is an actual observation, and nothing past the minimum interval has been observed since without becoming the anchor |
| Jump.ReportedEdge | engine/crates/dubu-updater/src/jump.rs:362-435 | The edge an observation reports is the transition that happened |
| Jump.ReportedMeasure | engine/crates/dubu-updater/src/jump.rs:362-435 | The reported interval, estimate, threshold, arm and move of every observation |
| Jump.WindowIsRecentHistory | engine/crates/dubu-updater/src/jump.rs:362-385 | Under ordered clocks the window is exactly the positive prices of the last cool-off |
| Jump.RunInvariant | engine/crates/dubu-updater/src/jump.rs:362-468 | After any run: withdrawn exactly when a trip time is held, that time is the latest trip's, and trips minus resumes is one if withdrawn and zero otherwise |
| Jump.LastTripIsLatest | engine/crates/dubu-updater/src/jump.rs:444-455 | No trip of the run is later than the recorded one |
| Jump.StaysWithdrawn | engine/crates/dubu-updater/src/jump.rs:444-468 | From any trip until the cool-off has passed, whatever is observed, the pair stays withdrawn |
| Jump.ResumeIsSafe | engine/crates/dubu-updater/src/jump.rs:458-492 | At every resume the cool-off has run from every trip and the settling window is post-trip history of two or more samples ranging within the threshold |
| Jump.ResumesExactly | engine/crates/dubu-updater/src/jump.rs:456-492 | Over any ordered run, a resume happens exactly when the cool-off has run from the latest trip and the history of the last cool-off is long, fresh and quiet enough for the latest measured threshold |
| Jump.SettledWindowIsQuiet | engine/crates/dubu-updater/src/jump.rs:471-507 | A range passes a threshold exactly when no two prices of the window are further apart than it, a distance beyond 128 bits reading as 100% and the widest threshold passing everything |
| Jump.LiveDetector.Observe | engine/crates/dubu-updater/src/jump.rs:362-435 | The mutating detector takes exactly the specified step and reports it |
| Jump.LiveDetector.TripNow | engine/crates/dubu-updater/src/jump.rs:444-455 | Trip in place, with the edge it returns |
| Jump.LiveDetector.TryResume | engine/crates/dubu-updater/src/jump.rs:458-468 | Resume in place exactly when allowed |
| Jump.LiveDetector.IsSettled | engine/crates/dubu-updater/src/jump.rs:471-492 | The settle test as written equals its specification, which the resume laws pin |
| Jump.LiveDetector.MeasureRange | engine/crates/dubu-updater/src/jump.rs:496-507 | The one-pass minimum and maximum give the window's range |
| Jump.Book.Observe | engine/crates/dubu-updater/src/jump.rs:634-646 | Only the observed pair's detector changes |
| Jump.Book.Contagion | engine/crates/dubu-updater/src/jump.rs:653-685 | Exactly the peers in the origin's group are tripped, the rest of the book is untouched, and the answer lists each new withdrawal once |
| FairValue.MicroPriceInsideBook | engine/crates/dubu-updater/src/fair_value.rs:80-122 | A live book's micro-price lies in [bid, ask); the arithmetic refuses exactly an overflowing total size |
| FairValue.MicroPriceRefusals | engine/crates/dubu-updater/src/fair_value.rs:80-122 | Which refusal each unusable book gets |
| FairValue.MedianSorted | engine/crates/dubu-updater/src/fair_value.rs:368-398 | The middle, or the overflow-free average of the two middles, inside the sample |
| FairValue.MajorityHoldsMedian | engine/crates/dubu-updater/src/fair_value.rs:368-398 | If a strict majority lies in an interval, so does the median |
| FairValue.HalfSurvives | engine/crates/dubu-updater/src/fair_value.rs:483-505 | At least half of a cleared section survives when the parameters cannot tighten the filter below the spread |
| FairValue.HalfAlwaysSurvives | engine/crates/dubu-updater/src/fair_value.rs:483-505 | Every cleared section of three or more keeps at least half exactly under those parameters |
| FairValue.CampsAreLost | engine/crates/dubu-updater/src/fair_value.rs:483-505 | Under any other parameters a concrete four-venue section loses everyone |
| FairValue.MeanIsDefined | engine/crates/dubu-updater/src/fair_value.rs:510-527 | Some section divides by zero exactly when no quorum is asked for and the parameters can tighten the filter |
| FairValue.SumOverflowIsExact | engine/crates/dubu-updater/src/fair_value.rs:510-597 | The checked 128-bit sum overflows exactly past every gate with survivors summing beyond 2^128 - 1 |
| FairValue.SmallSectionsAdd | engine/crates/dubu-updater/src/fair_value.rs:510-512 | It cannot overflow while the number of venues times the highest price fits 128 bits |
| FairValue.UnanimousOverflow | engine/crates/dubu-updater/src/fair_value.rs:510-512 | That bound is tight: venues in full agreement overflow exactly when their number times the price does not fit |
| FairValue.TwoVenuesOverflow | engine/crates/dubu-updater/src/fair_value.rs:510-512 | Two venues at 2^127 overflow under any parameters asking for at most two |
| FairValue.TwoVenuesStandTogether | engine/crates/dubu-updater/src/fair_value.rs:456-481 | Two cleared venues both survive exactly when the higher is within the limit of the rounded midpoint; otherwise one does |
| FairValue.TwoVenuesCanPart | engine/crates/dubu-updater/src/fair_value.rs:456-481 | Prices 99750 and 100251 at limit 250: one venue is kept and the other rejected |
| FairValue.ReferenceIsRobust | engine/crates/dubu-updater/src/fair_value.rs:540-597 | Survivors are within the threshold, the rejected beyond it, nobody is lost, their sum fits, and the reference is their floored mean, between survivors and strictly within one deci-bp more than the threshold of the median, given a threshold below 2^32 - 1 or quotients that fit 128 bits |
| FairValue.ReferenceIsExact | engine/crates/dubu-updater/src/fair_value.rs:540-597 | Every number of an answer: past the gate, the venues near and far from the median in order with their exact deviations, the floored mean of the near ones, the threshold and the arm that set it |
| FairValue.PartitionIsExact | engine/crates/dubu-updater/src/fair_value.rs:485-505 | The partition keeps exactly the venues near the median by an exact comparison, in the order quoted |
| FairValue.DeviationIsExact | engine/crates/dubu-updater/src/fair_value.rs:401-422 | A deviation is the signed distance in deci-bps, toward zero, with its 128-bit edge |
| FairValue.ThresholdIsExact | engine/crates/dubu-updater/src/fair_value.rs:461-481 | The threshold reaches a value exactly when the floor or the scaled spread does, and says which bound it |
| FairValue.DispersionIsTypical | engine/crates/dubu-updater/src/fair_value.rs:444-454 | The dispersion lies wherever a strict majority of the distances lie |
| FairValue.CombineGates | engine/crates/dubu-updater/src/fair_value.rs:540-597 | Which gate each refusal names, with its numbers, and that an answer passed them all |
| FairValue.CombineForgetsOrder | engine/crates/dubu-updater/src/fair_value.rs:540-597 | The reference or the refusal, overflow included, does not depend on the order of the venues |
| Markout.MarkoutIsExact | engine/crates/dubu-updater/src/markout.rs:111-146 | A mark exists exactly when every exact intermediate fits and the notional is positive, and is the exact profit ratio rounded toward zero |
| Markout.MarkoutIsEarned | engine/crates/dubu-updater/src/markout.rs:111-146 | Stated of the fill's own fields: the pool's profit per million of the notional at the fill, rounded toward zero, or none |
| Markout.MirrorNegates | engine/crates/dubu-updater/src/markout.rs:101-146 | The same trade on the other side marks out to the opposite number |
| Markout.MarkoutRisesWithReference | engine/crates/dubu-updater/src/markout.rs:111-146 | A higher later reference never marks a purchase lower |
| Markout.WeightingIsFaithful | engine/crates/dubu-updater/src/markout.rs:299-337 | A marked fill never saturates on its way into a score, and weighting recovers its profit toward zero to within one rounding each way |
| Markout.NearestIsNearest | engine/crates/dubu-updater/src/markout.rs:279-297 | No reference exactly when none is near enough; otherwise the first of the nearest |
| Markout.RunConserves | engine/crates/dubu-updater/src/markout.rs:231-337 | Over any calls: fills taken off the queue followed by those pending are the fills observed, in order; the unmarked counter and both indexes are exactly what the taken fills imply |
| Markout.NothingIsLost | engine/crates/dubu-updater/src/markout.rs:231-272 | Observed equals pending plus unmarked plus settled |
| Markout.EveryMarkIsEarned | engine/crates/dubu-updater/src/markout.rs:244-297 | Every fill any run takes off is sixty seconds old by then, and each mark is what it earns at the first nearest reference within three seconds of one, ten and sixty seconds after it, none without one; over the whole history while the latest reference is within 178 seconds |
| Markout.SettledHasMark | engine/crates/dubu-updater/src/markout.rs:254-270 | A fill taken off reaches the scores exactly when it has a mark at some horizon |
| Markout.IndexIsPerKey | engine/crates/dubu-updater/src/markout.rs:299-337 | Each key's score is built from its own settled fills alone, in arrival order |
| Markout.ScoresAreKeyedRight | engine/crates/dubu-updater/src/markout.rs:313-347 | After any run a counterparty's score is what it received and a pair's what was traded against it, and there is one exactly when there is such a fill |
| Markout.ScoreIsItsFills | engine/crates/dubu-updater/src/markout.rs:299-337 | A score counts its fills exactly, its notional up to the one clamp, and is stamped with its last fill and the first that carries a stamp |
| Markout.ScoreProfitIsExact | engine/crates/dubu-updater/src/markout.rs:323-335 | While the marks fit a signed word, one score holds exactly the profit of its fills at every horizon |
| Markout.IndexAddsUp | engine/crates/dubu-updater/src/markout.rs:299-337 | While totals fit their words, the scores under any key add up to the settled fills: count, notional and profit per horizon |
| Markout.IndexesAgree | engine/crates/dubu-updater/src/markout.rs:299-337 | After any run the per-counterparty and per-pair scores hold the same totals |
| Markout.SettleTakesAllMatured | engine/crates/dubu-updater/src/markout.rs:244-272 | Settling leaves nothing matured exactly when no immature fill stands in front of a matured one |
| Markout.TimelyFillsSettle | engine/crates/dubu-updater/src/markout.rs:244-272 | With fills observed in time order, settling leaves nothing matured after any history |
| Markout.MarksSurviveRetention | engine/crates/dubu-updater/src/markout.rs:71-76 | Pruning never changes a mark while the latest reference is within 178 seconds of the fill |
| Markout.RetentionIsExact | engine/crates/dubu-updater/src/markout.rs:219-228 | Under ordered clocks exactly the references of the last 180 seconds are retained |
| Markout.Markout.ObserveReference | engine/crates/dubu-updater/src/markout.rs:219-228 | Appends and prunes in place as the step says |
| Markout.Markout.ObserveFill | engine/crates/dubu-updater/src/markout.rs:231-233 | Queues in place as the step says |
| Markout.Markout.Settle | engine/crates/dubu-updater/src/markout.rs:244-272 | The loop settles the ledger as specified and returns exactly the marked fills |
| Markout.Markout.Mark | engine/crates/dubu-updater/src/markout.rs:254-262 | One mark per horizon against the nearest retained reference; the horizon time cannot overflow for a matured fill |
| Markout.Markout.ReferenceAt | engine/crates/dubu-updater/src/markout.rs:279-297 | The scan returns the nearest retained reference within tolerance |
| Markout.Markout.Fold | engine/crates/dubu-updater/src/markout.rs:299-337 | Credits both indexes in place |
| Markout.Markout.Accrue | engine/crates/dubu-updater/src/markout.rs:313-336 | One score updated field by field equals the specified addition |

## Left out

- Process wiring, chain reads, websockets, venue feeds, hedging, transaction sending: input and output.
- Configuration parsing, update policy, flow control, request-for-quote signing, vectors, routing and the contracts: single decisions, fixed data, hashing and curves from libraries, or code of another component.
- The volatility estimator: its estimate enters the detector as an arbitrary 32-bit value.
- `math::sub256`: a tuple-shaped duplicate of the limb subtraction.
- Labels, summaries, hexadecimal output, venue names and ages, and the reporting-only accessors of scores and detectors.
- Behaviour of the quote functions outside the uint56/uint96 input domain, which their own debug assertions exclude: the specification functions take any naturals, and the limb methods are proved equal to them inside the domain. The exact-output bid, which the capacity plan calls at unbounded prices, is modelled at every 128-bit price.
- Bitwise `|` of disjoint fields is modelled as `+`, and shifts as multiplication and division by powers of two.
- Clocks are nanosecond or second counts passed in by the caller; a monotonic clock is the `Ordered` or `InTimeOrder` condition where a law needs one.
- Library sorting is the function `Permutations.Sort`, any sorted permutation being the same sequence; hash maps are Dafny maps, so their iteration order is not modelled; the order in which contagion lists the pairs it withdrew is left open.
- The fill, unmarked and per-score counters of the markout ledger are unbounded: 2^64 observations are out of reach.
- Pair identifiers and addresses of the markout ledger are plain naturals.
- Markout.IndexAddsUp: exact profit totals are stated for logs whose marks fit 128 bits in total size; saturating signed addition is not associative, so past that the two indexes can differ.
