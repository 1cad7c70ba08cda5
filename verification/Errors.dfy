/** Every way the engine declines to produce a number. */
module Errors {
  /** The first six mirror the chain's own custom errors; the last two are raised only by the port. */
  datatype CurveError =
    | AmountExceedsCapacity
    | ZeroCapacity
    | ZeroPrice
    | CrossedBook
    | BidBelowMinPrice
    | AmountOutOfDomain
    | ArithmeticPanic
    | DomainOverflow

  datatype LadderError =
    | NoCapacity
    | PriceOutOfRange
    | AmountOutOfRange
    | TargetBelowFloor
    | TargetAboveCeiling
    | InfeasibleBounds
    | Rejected(reason: CurveError)

  datatype PackError = PackPriceOutOfRange | NonCanonical
}
