/**
 The jump detector: one pair's withdrawal state machine over a sliding window of reference prices,
 and the book that spreads a trip across a correlation group. Instants and durations are
 nanoseconds; the volatility estimate is an input of each observation.
 */
module Jump {
  import opened Words
  import opened Arithmetic
  import opened WideMath

  const BPS_E2: nat := 1_000_000
  const NANOS_PER_MILLI: nat := 1_000_000

  type Sample = (u128, nat)

  datatype Params = Params(sigmaKE2: u32, cooloff: nat, sampleMin: nat, sampleMax: nat)
  datatype Arm = Floor | Sigma | Absorption
  datatype Reason = Move | FeedGap | Contagion
  datatype State = Quoting | Withdrawn
  datatype Scope = Pair | WholeBook

  // ---- Bounds ----

  datatype Bounds = Bounds(floor: u32, ceiling: u32) {
    predicate Valid() { floor <= ceiling }

    /** The sigma arm clamped between the two bounds. */
    function Threshold(sigmaK: u32, sigma: u32): (r: (u32, Arm))
      requires Valid()
      ensures floor <= r.0 <= ceiling
      ensures 0 <= sigmaK * sigma && r.0 == Max(floor, Min(ceiling, (sigmaK * sigma) / 100))
      ensures r.1 == Floor <==> (sigmaK * sigma) / 100 <= floor
      ensures r.1 == Sigma <==> floor < (sigmaK * sigma) / 100 < ceiling
    {
      MulLe(0, sigmaK, sigma);
      var arm := (sigmaK * sigma) / 100;
      if arm <= floor then (floor, Floor)
      else if arm >= ceiling then (ceiling, Absorption)
      else (arm, Sigma)
    }
  }

  function NewBounds(floorBps: u16, halfSpreadBps: u16, widthBps: u16): (b: Bounds)
    ensures b.Valid() && b.floor == Max(100, floorBps * 100)
    ensures b.ceiling == Max(b.floor, halfSpreadBps * 100 + widthBps * 50)
  {
    var floor: u32 := if floorBps * 100 == 0 then 100 else floorBps * 100;
    var ceiling: u32 := halfSpreadBps * 100 + widthBps * 50;
    Bounds(floor, if ceiling < floor then floor else ceiling)
  }

  /** More volatility never lowers the bar. */
  lemma ThresholdMonotone(b: Bounds, k: u32, s: u32, s': u32)
    requires b.Valid() && s <= s'
    ensures b.Threshold(k, s).0 <= b.Threshold(k, s').0
  {
    MulLe(s, s', k);
    assert k * s == s * k && k * s' == s' * k;
    MulLe(0, k, s);
    FloorMono(k * s, k * s', 100);
  }

  // ---- The state machine ----

  datatype Detector = Detector(
    params: Params, bounds: Bounds,
    anchor: Option<Sample>, window: seq<Sample>,
    state: State, trippedAt: Option<nat>, lastReason: Option<Reason>,
    threshold: u32, trips: nat)

  datatype Observation = Observation(
    move: u32, threshold: u32, sigma: u32, arm: Arm, dtMs: nat, range: u32,
    tripped: Option<Reason>, edge: bool, resumed: bool, state: State)

  function Fresh(params: Params, bounds: Bounds): Detector {
    Detector(params, bounds, None, [], Quoting, None, None, bounds.floor, 0)
  }

  function Elapsed(now: nat, since: nat): nat { if since <= now then now - since else 0 }

  /** Drop samples from the front until the oldest is within the cool-off. */
  function Prune(window: seq<Sample>, now: nat, cooloff: nat): seq<Sample> {
    if window != [] && Elapsed(now, window[0].1) > cooloff then Prune(window[1..], now, cooloff) else window
  }

  function Lowest(window: seq<Sample>): u128 {
    if window == [] then U128_MAX
    else Min(Lowest(window[..|window| - 1]), window[|window| - 1].0)
  }

  function Highest(window: seq<Sample>): u128 {
    if window == [] then 0
    else Max(Highest(window[..|window| - 1]), window[|window| - 1].0)
  }

  /** `floor(distance * 10^6 / of)`, a quotient beyond 128 bits reading as 100%. */
  function RelativeE2(distance: u128, of: u128): u32 {
    Min(UnwrapOr(MulDivFloor(distance, BPS_E2, of), BPS_E2), U32_MAX)
  }

  function RangeOf(lo: u128, hi: u128): u32 {
    if lo == U128_MAX || lo == 0 then 0 else RelativeE2(if lo <= hi then hi - lo else 0, lo)
  }

  /** Peak-to-trough range of the window, of its low. */
  function Range(window: seq<Sample>): u32 { RangeOf(Lowest(window), Highest(window)) }

  function Trip(d: Detector, now: nat, reason: Reason): Detector {
    d.(state := Withdrawn, trippedAt := Some(now), lastReason := Some(reason),
       trips := if d.state == Quoting && d.trips < U64_MAX then d.trips + 1 else d.trips)
  }

  predicate Settled(d: Detector, now: nat) {
    match d.trippedAt
    case None => true
    case Some(t) =>
      && Elapsed(now, t) >= d.params.cooloff
      && d.window != []
      && Elapsed(now, d.window[|d.window| - 1].1) <= d.params.sampleMax
      && |d.window| >= 2
      && Range(d.window) <= d.threshold
  }

  predicate CanResume(d: Detector, now: nat) { d.state == Withdrawn && Settled(d, now) }

  function MaybeResume(d: Detector, now: nat): Detector {
    if CanResume(d, now) then d.(state := Quoting, trippedAt := None) else d
  }

  function Report(d: Detector, base: Observation): Observation {
    base.(range := Range(d.window), state := d.state)
  }

  const NoMeasure := Observation(0, 0, 0, Floor, 0, 0, None, false, false, Quoting)

  function WithSample(d: Detector, price: u128, now: nat): Detector {
    d.(window := Prune(if price > 0 then d.window + [(price, now)] else d.window, now, d.params.cooloff))
  }

  function ObserveStep(d: Detector, price: u128, now: nat, sigma: u32): (Detector, Observation)
    requires d.bounds.Valid()
  {
    var d1 := WithSample(d, price, now);
    match d1.anchor
    case None =>
      var d2 := d1.(anchor := Some((price, now)));
      (d2, Report(d2, NoMeasure))
    case Some((prev, t0)) =>
      var dt := Elapsed(now, t0);
      var base := NoMeasure.(threshold := d1.threshold, sigma := sigma, dtMs := Min(dt / NANOS_PER_MILLI, U64_MAX));
      if dt < d1.params.sampleMin then
        var d2 := MaybeResume(d1, now);
        (d2, Report(d2, base.(resumed := CanResume(d1, now))))
      else if dt > d1.params.sampleMax || prev == 0 then
        var d2 := Trip(d1.(anchor := Some((price, now))), now, FeedGap);
        (d2, Report(d2, base.(tripped := Some(FeedGap), edge := d1.state == Quoting)))
      else
        var (threshold, arm) := d1.bounds.Threshold(d1.params.sigmaKE2, sigma);
        var move := RelativeE2(AbsDiff(price, prev), prev);
        var d2 := d1.(threshold := threshold, anchor := Some((price, now)));
        var measured := base.(move := move, threshold := threshold, arm := arm);
        if move >= threshold then
          var d3 := Trip(d2, now, Move);
          (d3, Report(d3, measured.(tripped := Some(Move), edge := d1.state == Quoting)))
        else
          var d3 := MaybeResume(d2, now);
          (d3, Report(d3, measured.(resumed := CanResume(d2, now))))
  }

  // ---- Runs ----

  datatype Event = Seen(price: u128, at: nat, sigma: u32) | PeerTripped(at: nat)

  function Apply(d: Detector, e: Event): Detector
    requires d.bounds.Valid()
    ensures Apply(d, e).bounds == d.bounds && Apply(d, e).params == d.params
  {
    match e
    case Seen(price, at, sigma) => ObserveStep(d, price, at, sigma).0
    case PeerTripped(at) => Trip(d, at, Contagion)
  }

  predicate TripsAt(d: Detector, e: Event)
    requires d.bounds.Valid()
  {
    match e
    case Seen(price, at, sigma) => ObserveStep(d, price, at, sigma).1.tripped.Some?
    case PeerTripped(_) => true
  }

  predicate ResumesAt(d: Detector, e: Event)
    requires d.bounds.Valid()
  {
    e.Seen? && ObserveStep(d, e.price, e.at, e.sigma).1.resumed
  }

  function Run(d: Detector, es: seq<Event>): (r: Detector)
    requires d.bounds.Valid()
    ensures r.bounds == d.bounds && r.params == d.params
  {
    if es == [] then d else Apply(Run(d, es[..|es| - 1]), es[|es| - 1])
  }

  predicate Ordered(es: seq<Event>) { forall i, j :: 0 <= i < j < |es| ==> es[i].at <= es[j].at }

  /** Every positive price ever observed, with its time. */
  function History(es: seq<Event>): seq<Sample> {
    if es == [] then []
    else
      var h, e := History(es[..|es| - 1]), es[|es| - 1];
      if e.Seen? && e.price > 0 then h + [(e.price, e.at)] else h
  }

  function LastSeen(es: seq<Event>): Option<nat> {
    if es == [] then None
    else if es[|es| - 1].Seen? then Some(es[|es| - 1].at)
    else LastSeen(es[..|es| - 1])
  }

  /** The samples no older than the cool-off. */
  function Recent(h: seq<Sample>, now: nat, cooloff: nat): seq<Sample> {
    if h == [] then []
    else
      var r, s := Recent(h[..|h| - 1], now, cooloff), h[|h| - 1];
      if Elapsed(now, s.1) <= cooloff then r + [s] else r
  }

  predicate TripsAtIndex(d: Detector, es: seq<Event>, k: nat)
    requires d.bounds.Valid() && k < |es|
  {
    TripsAt(Run(d, es[..k]), es[k])
  }

  /** When the run last tripped, if it ever did. */
  function LastTrip(d: Detector, es: seq<Event>): Option<nat>
    requires d.bounds.Valid()
  {
    if es == [] then None
    else if TripsAt(Run(d, es[..|es| - 1]), es[|es| - 1]) then Some(es[|es| - 1].at)
    else LastTrip(d, es[..|es| - 1])
  }

  /** Transitions into `Withdrawn`. */
  function Edges(d: Detector, es: seq<Event>): nat
    requires d.bounds.Valid()
  {
    if es == [] then 0
    else
      var before := Run(d, es[..|es| - 1]);
      Edges(d, es[..|es| - 1]) + if TripsAt(before, es[|es| - 1]) && before.state == Quoting then 1 else 0
  }

  function Resumes(d: Detector, es: seq<Event>): nat
    requires d.bounds.Valid()
  {
    if es == [] then 0
    else Resumes(d, es[..|es| - 1]) + if ResumesAt(Run(d, es[..|es| - 1]), es[|es| - 1]) then 1 else 0
  }

  // ---- One step ----

  /** What every event does to the withdrawal state, whichever branch it takes. */
  lemma StepLaw(d: Detector, e: Event)
    requires d.bounds.Valid() && d.bounds.floor <= d.threshold <= d.bounds.ceiling
    requires d.state == Withdrawn <==> d.trippedAt.Some?
    ensures var d' := Apply(d, e);
            && d'.bounds.floor <= d'.threshold <= d'.bounds.ceiling
            && (d'.state == Withdrawn <==> d'.trippedAt.Some?)
            && !(TripsAt(d, e) && ResumesAt(d, e))
            && (TripsAt(d, e) ==> d'.state == Withdrawn && d'.trippedAt == Some(e.at)
                                  && d'.trips == if d.state == Quoting && d.trips < U64_MAX then d.trips + 1 else d.trips)
            && (!TripsAt(d, e) ==> d'.trips == d.trips)
            && (ResumesAt(d, e) ==>
                  && d.state == Withdrawn && d'.state == Quoting
                  && Elapsed(e.at, d.trippedAt.value) >= d.params.cooloff
                  && |d'.window| >= 2 && Elapsed(e.at, d'.window[|d'.window| - 1].1) <= d.params.sampleMax
                  && Range(d'.window) <= d'.threshold)
            && (!TripsAt(d, e) && !ResumesAt(d, e) ==> d'.state == d.state && d'.trippedAt == d.trippedAt)
  {
    hide Apply, TripsAt, ResumesAt;
    TripLaw(d, e);
    ResumeLaw(d, e);
  }

  /** What a trip does, and that nothing else counts one. */
  lemma TripLaw(d: Detector, e: Event)
    requires d.bounds.Valid() && d.bounds.floor <= d.threshold <= d.bounds.ceiling
    ensures var d' := Apply(d, e);
            && d'.bounds.floor <= d'.threshold <= d'.bounds.ceiling
            && !(TripsAt(d, e) && ResumesAt(d, e))
            && (TripsAt(d, e) ==> d'.state == Withdrawn && d'.trippedAt == Some(e.at)
                                  && d'.trips == if d.state == Quoting && d.trips < U64_MAX then d.trips + 1 else d.trips)
            && (!TripsAt(d, e) ==> d'.trips == d.trips)
  {
    hide Prune, Range, RelativeE2, Bounds.Threshold;
  }

  /** What a resume needs and does, and that an event that is neither leaves the state alone. */
  lemma ResumeLaw(d: Detector, e: Event)
    requires d.bounds.Valid() && (d.state == Withdrawn <==> d.trippedAt.Some?)
    ensures var d' := Apply(d, e);
            && (ResumesAt(d, e) ==>
                  && d.state == Withdrawn && d'.state == Quoting && d'.trippedAt == None
                  && Elapsed(e.at, d.trippedAt.value) >= d.params.cooloff
                  && |d'.window| >= 2 && Elapsed(e.at, d'.window[|d'.window| - 1].1) <= d.params.sampleMax
                  && Range(d'.window) <= d'.threshold)
            && (!TripsAt(d, e) && !ResumesAt(d, e) ==> d'.state == d.state && d'.trippedAt == d.trippedAt)
  {
    hide Prune, Range, RelativeE2, Bounds.Threshold;
  }

  /** The observation is a return: far enough from a usable anchor, and not a hole in the reference. */
  predicate Measured(d: Detector, e: Event) {
    && e.Seen? && d.anchor.Some? && 0 < d.anchor.value.0
    && d.params.sampleMin <= Elapsed(e.at, d.anchor.value.1) <= d.params.sampleMax
  }

  /** The threshold in force follows the latest measured observation and nothing else. */
  lemma ThresholdLaw(d: Detector, e: Event)
    requires d.bounds.Valid()
    ensures Apply(d, e).threshold
         == if Measured(d, e) then d.bounds.Threshold(d.params.sigmaKE2, e.sigma).0 else d.threshold
  {
    hide Prune, Range, RelativeE2, Bounds.Threshold;
  }

  /**
   Exactly when an observation ends a withdrawal: it does not trip, it is not the first, the cool-off
   has run from the latest trip, and the window, this observation included, holds two or more samples,
   the newest fresh, ranging within the threshold.
   */
  lemma ResumesExactlyWhenSettled(d: Detector, price: u128, now: nat, sigma: u32)
    requires d.bounds.Valid() && (d.state == Withdrawn <==> d.trippedAt.Some?)
    ensures var e := Seen(price, now, sigma);
            var d' := Apply(d, e);
            ResumesAt(d, e) <==>
            && d.state == Withdrawn && d.anchor.Some? && !TripsAt(d, e)
            && Elapsed(now, d.trippedAt.value) >= d.params.cooloff
            && |d'.window| >= 2 && Elapsed(now, d'.window[|d'.window| - 1].1) <= d.params.sampleMax
            && Range(d'.window) <= d'.threshold
  {
    hide Prune, Range, RelativeE2, Bounds.Threshold;
  }

  /** Why a detector tripped: a peer did, the price moved, or the reference had a hole; the latest reason is kept. */
  lemma ReasonLaw(d: Detector, e: Event)
    requires d.bounds.Valid()
    ensures var reason := if e.PeerTripped? then Contagion else if Measured(d, e) then Move else FeedGap;
            && Apply(d, e).lastReason == (if TripsAt(d, e) then Some(reason) else d.lastReason)
            && (e.Seen? ==> ObserveStep(d, e.price, e.at, e.sigma).1.tripped == if TripsAt(d, e) then Some(reason) else None)
  {
    hide Prune, Range, RelativeE2, Bounds.Threshold;
  }

  /**
   What an observation reports beside its edges: nothing before there is an anchor; else the interval,
   the estimate and the threshold in force, and, when it is a return, the move and the arm that bound it.
   */
  lemma ReportedMeasure(d: Detector, price: u128, now: nat, sigma: u32, t: u32)
    requires d.bounds.Valid()
    ensures var (d', o) := ObserveStep(d, price, now, sigma);
            if d.anchor.None? then o == NoMeasure.(range := o.range, state := o.state)
            else
              && o.dtMs == Min(Elapsed(now, d.anchor.value.1) / 1_000_000, U64_MAX)
              && o.sigma == sigma && o.threshold == d'.threshold
              && if Measured(d, Seen(price, now, sigma)) then
                   && o.arm == d.bounds.Threshold(d.params.sigmaKE2, sigma).1
                   && (o.move >= t <==> MovedBy(AbsDiff(price, d.anchor.value.0), d.anchor.value.0, t))
                 else o.move == 0 && o.arm == Floor
  {
    hide Prune, Range, RelativeE2, Bounds.Threshold, MovedBy;
    if d.anchor.Some? && 0 < d.anchor.value.0 {
      RelativeReaches(AbsDiff(price, d.anchor.value.0), d.anchor.value.0, t);
    }
  }

  /** The edge a trip reports is the transition, and the report carries the state after the event. */
  lemma ReportedEdge(d: Detector, price: u128, now: nat, sigma: u32)
    requires d.bounds.Valid()
    ensures var (d', o) := ObserveStep(d, price, now, sigma);
            && o.state == d'.state && o.range == Range(d'.window)
            && (o.edge <==> d.state == Quoting && d'.state == Withdrawn)
            && (o.resumed <==> d.state == Withdrawn && d'.state == Quoting)
  {}

  /**
   The exact fraction reaches the threshold. A quotient beyond 128 bits is read as 100%, so a
   threshold above that is not reached by one.
   */
  predicate MovedBy(distance: u128, of: u128, threshold: u32) {
    distance * BPS_E2 >= threshold * of && (threshold <= BPS_E2 || distance * BPS_E2 < POW128 * of)
  }

  lemma RelativeReaches(distance: u128, of: u128, threshold: u32)
    requires 0 < of
    ensures RelativeE2(distance, of) >= threshold <==> MovedBy(distance, of, threshold)
  {
    FloorGalois(distance * BPS_E2, of, threshold);
    FloorGalois(distance * BPS_E2, of, POW128);
  }

  /**
   Detection, exactly: an observation trips when it comes at least the minimum after the anchor and
   either too late, or from an unusable anchor, or having moved by the threshold or more.
   */
  lemma TripsExactlyOnJumps(d: Detector, price: u128, now: nat, sigma: u32)
    requires d.bounds.Valid()
    ensures TripsAt(d, Seen(price, now, sigma)) <==>
            && d.anchor.Some?
            && Elapsed(now, d.anchor.value.1) >= d.params.sampleMin
            && (|| Elapsed(now, d.anchor.value.1) > d.params.sampleMax
                || d.anchor.value.0 == 0
                || MovedBy(AbsDiff(price, d.anchor.value.0), d.anchor.value.0,
                           d.bounds.Threshold(d.params.sigmaKE2, sigma).0))
  {
    hide RelativeE2, Prune, Range, MovedBy;
    if d.anchor.Some? && 0 < d.anchor.value.0 {
      var prev := d.anchor.value.0;
      RelativeReaches(AbsDiff(price, prev), prev, d.bounds.Threshold(d.params.sigmaKE2, sigma).0);
    }
  }

  /** The anchor is an actual observation, and nothing has been observed since past the minimum interval. */
  lemma {:induction false} AnchorIsObserved(params: Params, bounds: Bounds, es: seq<Event>)
    requires bounds.Valid()
    ensures var d := Run(Fresh(params, bounds), es);
            match LastSeen(es)
            case None => d.anchor.None?
            case Some(t) =>
              d.anchor.Some? && (Elapsed(t, d.anchor.value.1) < params.sampleMin || t == d.anchor.value.1)
              && exists k :: 0 <= k < |es| && es[k].Seen? && d.anchor.value == (es[k].price, es[k].at)
  {
    hide Prune, Range, RelativeE2, Bounds.Threshold;
    if es != [] {
      var init, e := es[..|es| - 1], es[|es| - 1];
      AnchorIsObserved(params, bounds, init);
      var d := Run(Fresh(params, bounds), init);
      AnchorStep(d, e);
      var d' := Apply(d, e);
      if d'.anchor == d.anchor && LastSeen(init).Some? {
        var k :| 0 <= k < |init| && init[k].Seen? && d.anchor.value == (init[k].price, init[k].at);
        assert es[k] == init[k];
      } else {
        assert e.Seen? ==> es[|es| - 1].Seen? && d'.anchor.value == (es[|es| - 1].price, es[|es| - 1].at);
      }
    }
  }

  lemma AnchorStep(d: Detector, e: Event)
    requires d.bounds.Valid()
    ensures var d' := Apply(d, e);
            && (e.PeerTripped? ==> d'.anchor == d.anchor)
            && (e.Seen? ==> d'.anchor == Some((e.price, e.at))
                            || (d'.anchor == d.anchor && d.anchor.Some? && Elapsed(e.at, d.anchor.value.1) < d.params.sampleMin))
  {
    hide Prune, Range, RelativeE2, Bounds.Threshold;
  }

  // ---- The window is the recent history ----

  predicate TimeSorted(s: seq<Sample>) { forall i, j :: 0 <= i < j < |s| ==> s[i].1 <= s[j].1 }

  lemma {:induction false} RecentOfAll(s: seq<Sample>, now: nat, cooloff: nat)
    requires forall i :: 0 <= i < |s| ==> Elapsed(now, s[i].1) <= cooloff
    ensures Recent(s, now, cooloff) == s
  {
    if s != [] {
      RecentOfAll(s[..|s| - 1], now, cooloff);
      assert s == s[..|s| - 1] + [s[|s| - 1]];
    }
  }

  lemma {:induction false} RecentDropsOld(x: Sample, s: seq<Sample>, now: nat, cooloff: nat)
    requires Elapsed(now, x.1) > cooloff
    ensures Recent([x] + s, now, cooloff) == Recent(s, now, cooloff)
  {
    if s == [] {
      assert [x] + s == [x] && [x][..0] == [];
    } else {
      assert ([x] + s)[..|s|] == [x] + s[..|s| - 1];
      RecentDropsOld(x, s[..|s| - 1], now, cooloff);
    }
  }

  /** On samples in time order, popping the front is filtering. */
  lemma {:induction false} PruneIsRecent(w: seq<Sample>, now: nat, cooloff: nat)
    requires TimeSorted(w)
    ensures Prune(w, now, cooloff) == Recent(w, now, cooloff)
    decreases |w|
  {
    if w != [] && Elapsed(now, w[0].1) > cooloff {
      PruneIsRecent(w[1..], now, cooloff);
      assert w == [w[0]] + w[1..];
      RecentDropsOld(w[0], w[1..], now, cooloff);
    } else {
      RecentOfAll(w, now, cooloff);
    }
  }

  /** What was already dropped stays dropped as the clock moves on. */
  lemma {:induction false} RecentTwice(h: seq<Sample>, t: nat, now: nat, cooloff: nat)
    requires t <= now
    ensures Recent(Recent(h, t, cooloff), now, cooloff) == Recent(h, now, cooloff)
  {
    if h != [] {
      var init, s := h[..|h| - 1], h[|h| - 1];
      RecentTwice(init, t, now, cooloff);
      var r := Recent(init, t, cooloff);
      if Elapsed(t, s.1) <= cooloff {
        assert (r + [s])[..|r|] == r;
      }
    }
  }

  lemma {:induction false} RecentSelects(h: seq<Sample>, now: nat, cooloff: nat)
    ensures forall s :: s in Recent(h, now, cooloff) ==> s in h && Elapsed(now, s.1) <= cooloff
  {
    if h != [] { RecentSelects(h[..|h| - 1], now, cooloff); }
  }

  lemma {:induction false} RecentKeepsOrder(h: seq<Sample>, now: nat, cooloff: nat)
    requires TimeSorted(h)
    ensures TimeSorted(Recent(h, now, cooloff))
  {
    if h != [] {
      var init, last := h[..|h| - 1], h[|h| - 1];
      RecentKeepsOrder(init, now, cooloff);
      RecentSelects(init, now, cooloff);
      SortedSnoc(init, last);
      SortedExtend(Recent(init, now, cooloff), last);
    }
  }

  lemma SortedSnoc(init: seq<Sample>, last: Sample)
    requires TimeSorted(init + [last])
    ensures TimeSorted(init) && forall s :: s in init ==> s.1 <= last.1
  {
    var h := init + [last];
    assert h[|init|] == last;
    forall s | s in init ensures s.1 <= last.1 {
      var i :| 0 <= i < |init| && init[i] == s;
      assert h[i] == s;
    }
    assert forall i :: 0 <= i < |init| ==> h[i] == init[i];
  }

  lemma SortedExtend(r: seq<Sample>, last: Sample)
    requires TimeSorted(r) && forall s :: s in r ==> s.1 <= last.1
    ensures TimeSorted(r + [last])
  {
    forall i | 0 <= i < |r| ensures r[i].1 <= last.1 { assert r[i] in r; }
  }

  lemma {:induction false} HistoryOrdered(es: seq<Event>)
    requires Ordered(es)
    ensures TimeSorted(History(es))
    ensures es != [] ==> forall s :: s in History(es) ==> s.1 <= es[|es| - 1].at
  {
    if es != [] {
      var init, e := es[..|es| - 1], es[|es| - 1];
      HistoryOrdered(init);
      assert init != [] ==> init[|init| - 1].at <= e.at;
      assert init == [] ==> History(init) == [];
      if e.Seen? { SortedExtend(History(init), (e.price, e.at)); }
    }
  }

  /** Appending one sample and popping the front keeps the window equal to the filtered history. */
  lemma WindowExtends(h: seq<Sample>, t: nat, added: seq<Sample>, now: nat, cooloff: nat)
    requires TimeSorted(h) && t <= now && (forall s :: s in h ==> s.1 <= now)
    requires |added| <= 1 && (forall s :: s in added ==> s.1 == now)
    ensures Prune(Recent(h, t, cooloff) + added, now, cooloff) == Recent(h + added, now, cooloff)
  {
    var w := Recent(h, t, cooloff);
    RecentKeepsOrder(h, t, cooloff);
    RecentSelects(h, t, cooloff);
    if added == [] {
      assert w + added == w;
    } else {
      assert added == [added[0]] && added[0] in added;
      SortedExtend(w, added[0]);
    }
    PruneIsRecent(w + added, now, cooloff);
    RecentAppend(w, added, now, cooloff);
    RecentAppend(h, added, now, cooloff);
    RecentTwice(h, t, now, cooloff);
  }

  /** The window is the positive prices of the last `cooloff` before the latest observation. */
  lemma {:induction false} WindowIsRecentHistory(d: Detector, es: seq<Event>)
    requires d.bounds.Valid() && d.window == [] && Ordered(es)
    ensures Run(d, es).window
         == match LastSeen(es) case None => [] case Some(t) => Recent(History(es), t, d.params.cooloff)
    ensures LastSeen(es) == None ==> History(es) == []
    ensures LastSeen(es).Some? ==> es != [] && LastSeen(es).value <= es[|es| - 1].at
  {
    hide ObserveStep, Recent, Prune, TimeSorted;
    if es != [] {
      var init, e := es[..|es| - 1], es[|es| - 1];
      WindowIsRecentHistory(d, init);
      var h, c := History(init), d.params.cooloff;
      if e.Seen? {
        WindowAfterObserve(Run(d, init), e.price, e.at, e.sigma);
        HistoryOrdered(init);
        assert init != [] ==> init[|init| - 1].at <= e.at;
        var added := if e.price > 0 then [(e.price, e.at)] else [];
        assert History(es) == h + added;
        var t := if LastSeen(init).Some? then LastSeen(init).value else e.at;
        assert Recent([], t, c) == [] by { RecentOfAll([], t, c); }
        WindowExtends(h, t, added, e.at, c);
      }
    }
  }

  lemma WindowAfterObserve(d: Detector, price: u128, now: nat, sigma: u32)
    requires d.bounds.Valid()
    ensures ObserveStep(d, price, now, sigma).0.window
         == Prune(d.window + if price > 0 then [(price, now)] else [], now, d.params.cooloff)
  {
    assert d.window + [] == d.window;
  }

  lemma RecentAppend(h: seq<Sample>, added: seq<Sample>, now: nat, cooloff: nat)
    requires |added| <= 1
    ensures Recent(h + added, now, cooloff) == Recent(h, now, cooloff) + Recent(added, now, cooloff)
  {
    if added == [] {
      assert h + added == h;
    } else {
      assert (h + added)[..|h|] == h && added[..0] == [];
    }
  }

  // ---- Whole-run safety ----

  /**
   After any sequence of events: withdrawn exactly when a trip time is held, that time is the latest
   trip's, the threshold lies between the bounds, and trips outnumber resumes by the one in force.
   */
  lemma {:induction false} RunInvariant(params: Params, bounds: Bounds, es: seq<Event>)
    requires bounds.Valid()
    ensures var d0 := Fresh(params, bounds);
            var d := Run(d0, es);
            && (d.state == Withdrawn <==> d.trippedAt.Some?)
            && (d.state == Withdrawn ==> d.trippedAt == LastTrip(d0, es))
            && bounds.floor <= d.threshold <= bounds.ceiling
            && Edges(d0, es) == Resumes(d0, es) + (if d.state == Withdrawn then 1 else 0)
            && d.trips == Min(Edges(d0, es), U64_MAX)
  {
    hide Apply, TripsAt, ResumesAt;
    if es != [] {
      var init := es[..|es| - 1];
      RunInvariant(params, bounds, init);
      StepLaw(Run(Fresh(params, bounds), init), es[|es| - 1]);
    }
  }

  /** The estimate of the run's latest measured observation, if any. */
  function LatestEstimate(d: Detector, es: seq<Event>): Option<u32>
    requires d.bounds.Valid()
  {
    if es == [] then None
    else
      var init, e := es[..|es| - 1], es[|es| - 1];
      if Measured(Run(d, init), e) then Some(e.sigma) else LatestEstimate(d, init)
  }

  /** After any run the threshold is the one the latest measured observation set, and the floor before any. */
  lemma {:induction false} ThresholdIsLatest(params: Params, bounds: Bounds, es: seq<Event>)
    requires bounds.Valid()
    ensures var d0 := Fresh(params, bounds);
            Run(d0, es).threshold ==
            match LatestEstimate(d0, es)
            case None => bounds.floor
            case Some(sigma) => bounds.Threshold(params.sigmaKE2, sigma).0
  {
    hide Apply, Measured, Bounds.Threshold;
    if es != [] {
      var init := es[..|es| - 1];
      ThresholdIsLatest(params, bounds, init);
      ThresholdLaw(Run(Fresh(params, bounds), init), es[|es| - 1]);
    }
  }

  /** No trip comes after the last one. */
  lemma {:induction false} LastTripIsLatest(d: Detector, es: seq<Event>, k: nat)
    requires d.bounds.Valid() && Ordered(es) && k < |es| && TripsAtIndex(d, es, k)
    ensures LastTrip(d, es).Some? && es[k].at <= LastTrip(d, es).value <= es[|es| - 1].at
  {
    hide TripsAt, Run;
    var init := es[..|es| - 1];
    assert es[..k] == init[..k] || k == |es| - 1;
    if !TripsAt(Run(d, init), es[|es| - 1]) {
      assert init[..k] == es[..k];
      LastTripIsLatest(d, init, k);
    }
  }

  /** The cool-off holds: until `cooloff` past a trip, whatever is observed, the pair stays withdrawn. */
  lemma {:induction false} StaysWithdrawn(params: Params, bounds: Bounds, es: seq<Event>, k: nat)
    requires bounds.Valid() && Ordered(es) && k < |es| && TripsAtIndex(Fresh(params, bounds), es, k)
    requires es[|es| - 1].at < es[k].at + params.cooloff
    ensures Run(Fresh(params, bounds), es).state == Withdrawn
  {
    hide Apply, TripsAt, ResumesAt;
    var d0 := Fresh(params, bounds);
    var init, e := es[..|es| - 1], es[|es| - 1];
    RunInvariant(params, bounds, init);
    StepLaw(Run(d0, init), e);
    if k < |es| - 1 {
      assert init[..k] == es[..k];
      StaysWithdrawn(params, bounds, init, k);
      LastTripIsLatest(d0, init, k);
    } else {
      assert es[..k] == init;
    }
  }

  /**
   Every resume is safe: the cool-off has run from every trip so far, and the window that settled it
   is the positive history of the last cool-off, all of it at or after the latest trip, with at least
   two samples, the newest of them fresh, ranging within a threshold that lies between the bounds.
   */
  lemma ResumeIsSafe(params: Params, bounds: Bounds, es: seq<Event>, e: Event)
    requires bounds.Valid() && Ordered(es + [e]) && ResumesAt(Run(Fresh(params, bounds), es), e)
    ensures var d0 := Fresh(params, bounds);
            var d := Run(d0, es + [e]);
            && LastTrip(d0, es).Some? && LastTrip(d0, es).value + params.cooloff <= e.at
            && (forall k :: 0 <= k < |es| && TripsAtIndex(d0, es, k) ==> es[k].at + params.cooloff <= e.at)
            && d.window == Recent(History(es + [e]), e.at, params.cooloff)
            && (forall s :: s in d.window ==> LastTrip(d0, es).value <= s.1 <= e.at)
            && |d.window| >= 2 && e.at <= d.window[|d.window| - 1].1 + params.sampleMax
            && Range(d.window) <= d.threshold && bounds.floor <= d.threshold <= bounds.ceiling
  {
    hide Apply, TripsAt, ResumesAt, Run, Recent, History, Range, Edges, Resumes, LastTrip, Ordered, LastSeen;
    var d0 := Fresh(params, bounds);
    RunAppend(d0, es, e);
    RunInvariant(params, bounds, es);
    RunInvariant(params, bounds, es + [e]);
    StepLaw(Run(d0, es), e);
    LastTripTime(d0, es, e);
    SettlingWindow(params, bounds, es, e);
    forall k | 0 <= k < |es| && TripsAtIndex(d0, es, k) ensures es[k].at + params.cooloff <= e.at {
      OrderedPrefix(es, e);
      LastTripIsLatest(d0, es, k);
    }
  }

  /**
   And every resume there could be happens: over any ordered run, an observation of a withdrawn pair
   that does not trip and is not the first resumes exactly when the cool-off has run from the latest
   trip and the positive history of the last cool-off has two or more samples, the newest fresh,
   ranging within the threshold of the latest measured observation.
   */
  lemma ResumesExactly(params: Params, bounds: Bounds, es: seq<Event>, e: Event)
    requires bounds.Valid() && Ordered(es + [e]) && e.Seen?
    ensures var d0 := Fresh(params, bounds);
            var w := Recent(History(es + [e]), e.at, params.cooloff);
            var threshold := match LatestEstimate(d0, es + [e])
                             case None => bounds.floor
                             case Some(sigma) => bounds.Threshold(params.sigmaKE2, sigma).0;
            ResumesAt(Run(d0, es), e) <==>
            && Run(d0, es).state == Withdrawn && LastSeen(es).Some? && !TripsAt(Run(d0, es), e)
            && LastTrip(d0, es).Some? && Elapsed(e.at, LastTrip(d0, es).value) >= params.cooloff
            && |w| >= 2 && Elapsed(e.at, w[|w| - 1].1) <= params.sampleMax && Range(w) <= threshold
  {
    hide Apply, TripsAt, ResumesAt, Recent, History, Range, Edges, Resumes, LastTrip, LatestEstimate, Bounds.Threshold;
    var d0, all := Fresh(params, bounds), es + [e];
    assert all[..|es|] == es && all[|es|] == e;
    RunAppend(d0, es, e);
    RunInvariant(params, bounds, es);
    AnchorIsObserved(params, bounds, es);
    ResumesExactlyWhenSettled(Run(d0, es), e.price, e.at, e.sigma);
    WindowIsRecentHistory(d0, all);
    ThresholdIsLatest(params, bounds, all);
  }

  lemma OrderedPrefix(es: seq<Event>, e: Event)
    requires Ordered(es + [e])
    ensures Ordered(es)
  {
    var all := es + [e];
    assert forall i :: 0 <= i < |es| ==> es[i] == all[i];
  }

  /** The window after a sighted event is the recent history as of that event. */
  lemma SettlingWindow(params: Params, bounds: Bounds, es: seq<Event>, e: Event)
    requires bounds.Valid() && Ordered(es + [e]) && ResumesAt(Run(Fresh(params, bounds), es), e)
    ensures var w := Run(Fresh(params, bounds), es + [e]).window;
            && w == Recent(History(es + [e]), e.at, params.cooloff)
            && (forall s :: s in w ==> s.1 <= e.at && e.at - s.1 <= params.cooloff)
  {
    hide Apply, TripsAt, ResumesAt, Run, Recent, History;
    var all := es + [e];
    ResumeNeedsSight(Run(Fresh(params, bounds), es), e);
    WindowIsRecentHistory(Fresh(params, bounds), all);
    HistoryOrdered(all);
    RecentSelects(History(all), e.at, params.cooloff);
    assert all[|all| - 1] == e;
  }

  lemma RunAppend(d: Detector, es: seq<Event>, e: Event)
    requires d.bounds.Valid()
    ensures Run(d, es + [e]) == Apply(Run(d, es), e)
    ensures (es + [e])[..|es|] == es
  {
    assert (es + [e])[..|es|] == es;
  }

  lemma ResumeNeedsSight(d: Detector, e: Event)
    requires d.bounds.Valid() && ResumesAt(d, e)
    ensures e.Seen?
  {}

  lemma {:induction false} LastTripTime(d: Detector, es: seq<Event>, e: Event)
    requires d.bounds.Valid() && Ordered(es + [e])
    ensures LastTrip(d, es).Some? ==> LastTrip(d, es).value <= e.at
  {
    hide TripsAt, Run;
    if es != [] {
      var init := es[..|es| - 1];
      assert (es + [e])[|es| - 1] == es[|es| - 1] && (es + [e])[|es|] == e;
      assert Ordered(init + [e]) by {
        var all, sub := es + [e], init + [e];
        assert forall i :: 0 <= i < |init| ==> sub[i] == all[i];
      }
      LastTripTime(d, init, e);
    }
  }

  // ---- What a settled range means ----

  lemma {:induction false} Extremes(w: seq<Sample>)
    ensures forall s :: s in w ==> Lowest(w) <= s.0 <= Highest(w)
    ensures w != [] ==> (exists s :: s in w && s.0 == Lowest(w)) && (exists s :: s in w && s.0 == Highest(w))
  {
    if w != [] {
      var init, last := w[..|w| - 1], w[|w| - 1];
      Extremes(init);
      assert forall s :: s in w <==> s in init || s == last;
      if init == [] { assert Lowest(init) == U128_MAX && Highest(init) == 0; }
    }
  }

  /** Two prices of the window whose relative distance leaves 128 bits. */
  ghost predicate LeavesWord(w: seq<Sample>) {
    exists s, s' :: s in w && s' in w && s.0 <= s'.0 && (s'.0 - s.0) * BPS_E2 >= POW128 * s.0
  }

  /** No two prices of the window are further apart, relative to the lower, than the threshold. */
  ghost predicate Quiet(w: seq<Sample>, threshold: u32) {
    forall s, s' :: s in w && s' in w && s.0 <= s'.0 ==> (s'.0 - s.0) * BPS_E2 < (threshold + 1) * s.0
  }

  /** The widest pair bounds every other. */
  lemma WidestPair(w: seq<Sample>, s: Sample, s': Sample, k: nat)
    requires s in w && s' in w && s.0 <= s'.0 && (s'.0 - s.0) * BPS_E2 >= k * s.0
    ensures (Highest(w) - Lowest(w)) * BPS_E2 >= k * Lowest(w)
  {
    Extremes(w);
    MulLe(Lowest(w), s.0, k);
  }

  lemma PairsAreExtremes(w: seq<Sample>, threshold: u32)
    requires w != []
    ensures LeavesWord(w) <==> (Highest(w) - Lowest(w)) * BPS_E2 >= POW128 * Lowest(w)
    ensures Quiet(w, threshold) <==> (Highest(w) - Lowest(w)) * BPS_E2 < (threshold + 1) * Lowest(w)
  {
    hide Lowest, Highest;
    Extremes(w);
    var lo :| lo in w && lo.0 == Lowest(w);
    var hi :| hi in w && hi.0 == Highest(w);
    forall s, s' | s in w && s' in w && s.0 <= s'.0
      ensures (s'.0 - s.0) * BPS_E2 >= POW128 * s.0 ==> (hi.0 - lo.0) * BPS_E2 >= POW128 * lo.0
      ensures (s'.0 - s.0) * BPS_E2 >= (threshold + 1) * s.0 ==> (hi.0 - lo.0) * BPS_E2 >= (threshold + 1) * lo.0
    {
      if (s'.0 - s.0) * BPS_E2 >= POW128 * s.0 { WidestPair(w, s, s', POW128); }
      if (s'.0 - s.0) * BPS_E2 >= (threshold + 1) * s.0 { WidestPair(w, s, s', threshold + 1); }
    }
  }

  /**
   What the range half of the settle test establishes, exactly: no two prices of the window further
   apart than the threshold, so no staircase hides between its ends. A distance beyond 128 bits reads
   as 100%, and the widest threshold passes everything.
   */
  lemma SettledWindowIsQuiet(w: seq<Sample>, threshold: u32)
    requires forall x :: x in w ==> 0 < x.0
    ensures Range(w) <= threshold <==>
            || threshold == U32_MAX
            || (if LeavesWord(w) then BPS_E2 <= threshold else Quiet(w, threshold))
  {
    if w == [] {
      EmptyWindowIsQuiet(threshold);
    } else {
      hide RangeOf, Quiet, LeavesWord, Lowest, Highest;
      Extremes(w);
      PairsAreExtremes(w, threshold);
      RangeWithin(Lowest(w), Highest(w), threshold);
    }
  }

  lemma EmptyWindowIsQuiet(threshold: u32)
    ensures Quiet([], threshold) && !LeavesWord([])
  {}

  lemma RangeWithin(lo: u128, hi: u128, threshold: u32)
    requires 0 < lo <= hi
    ensures RangeOf(lo, hi) <= threshold <==>
            || threshold == U32_MAX
            || (if (hi - lo) * BPS_E2 >= POW128 * lo then BPS_E2 <= threshold
                else (hi - lo) * BPS_E2 < (threshold + 1) * lo)
  {
    hide RelativeE2;
    RangeCaps(hi - lo, lo);
    if threshold < U32_MAX && lo < U128_MAX {
      RelativeReaches(hi - lo, lo, threshold + 1);
      MulLe(threshold + 1, POW128, lo);
    }
  }

  lemma RangeCaps(distance: u128, of: u128)
    requires 0 < of
    ensures RelativeE2(distance, of) <= U32_MAX
    ensures distance == 0 ==> RelativeE2(distance, of) == 0
  {
    if distance == 0 { FloorGalois(0, of, 1); FloorGalois(0, of, 0); }
  }

  // ---- The detector as a mutable object ----

  class LiveDetector {
    const params: Params
    const bounds: Bounds
    var anchor: Option<Sample>
    var window: seq<Sample>
    var state: State
    var trippedAt: Option<nat>
    var lastReason: Option<Reason>
    var threshold: u32
    var trips: nat

    ghost predicate Valid() { bounds.Valid() }

    ghost function Value(): Detector
      reads this
    {
      Detector(params, bounds, anchor, window, state, trippedAt, lastReason, threshold, trips)
    }

    constructor (params: Params, bounds: Bounds)
      requires bounds.Valid()
      ensures Valid() && Value() == Fresh(params, bounds)
    {
      this.params, this.bounds := params, bounds;
      anchor, window, state, trippedAt, lastReason := None, [], Quoting, None, None;
      threshold, trips := bounds.floor, 0;
    }

    /** Fold in one reference observation and decide. */
    method Observe(price: u128, now: nat, sigma: u32) returns (o: Observation)
      requires Valid()
      modifies this
      ensures (Value(), o) == ObserveStep(old(Value()), price, now, sigma)
    {
      if price > 0 {
        window := window + [(price, now)];
      }
      ghost var pushed := window;
      while window != [] && Elapsed(now, window[0].1) > params.cooloff
        invariant Prune(window, now, params.cooloff) == Prune(pushed, now, params.cooloff)
        invariant Value() == old(Value()).(window := window)
        decreases |window|
      {
        window := window[1..];
      }
      assert Value() == WithSample(old(Value()), price, now);
      match anchor
      case None =>
        anchor := Some((price, now));
        o := Reported(NoMeasure);
      case Some((prev, t0)) =>
        var dt := Elapsed(now, t0);
        var base := NoMeasure.(threshold := threshold, sigma := sigma, dtMs := Min(dt / NANOS_PER_MILLI, U64_MAX));
        if dt < params.sampleMin {
          var resumed := TryResume(now);
          o := Reported(base.(resumed := resumed));
          return;
        }
        if dt > params.sampleMax || prev == 0 {
          anchor := Some((price, now));
          var edge := TripNow(now, FeedGap);
          o := Reported(base.(tripped := Some(FeedGap), edge := edge));
          return;
        }
        var (bar, arm) := bounds.Threshold(params.sigmaKE2, sigma);
        threshold := bar;
        var moved := RelativeE2(AbsDiff(price, prev), prev);
        anchor := Some((price, now));
        base := base.(move := moved, threshold := bar, arm := arm);
        if moved >= bar {
          var edge := TripNow(now, Move);
          o := Reported(base.(tripped := Some(Move), edge := edge));
        } else {
          var resumed := TryResume(now);
          o := Reported(base.(resumed := resumed));
        }
    }

    /** Withdraw, re-arming the cool-off; only the transition counts as a trip. */
    method TripNow(now: nat, reason: Reason) returns (edge: bool)
      modifies this
      ensures Value() == Trip(old(Value()), now, reason) && edge == (old(state) == Quoting)
    {
      edge := state != Withdrawn;
      state := Withdrawn;
      trippedAt := Some(now);
      lastReason := Some(reason);
      if edge {
        trips := if trips < U64_MAX then trips + 1 else trips;
      }
    }

    method TryResume(now: nat) returns (resumed: bool)
      modifies this
      ensures Value() == MaybeResume(old(Value()), now) && resumed == CanResume(old(Value()), now)
    {
      if state != Withdrawn { return false; }
      var quiet := IsSettled(now);
      if !quiet { return false; }
      state := Quoting;
      trippedAt := None;
      return true;
    }

    method IsSettled(now: nat) returns (quiet: bool)
      ensures quiet == Settled(Value(), now)
    {
      match trippedAt
      case None => return true;
      case Some(t) =>
        if Elapsed(now, t) < params.cooloff { return false; }
        if window == [] { return false; }
        if Elapsed(now, window[|window| - 1].1) > params.sampleMax { return false; }
        if |window| < 2 { return false; }
        var range := MeasureRange();
        return range <= threshold;
    }

    method MeasureRange() returns (range: u32)
      ensures range == Range(window)
    {
      var lo: u128, hi: u128 := U128_MAX, 0;
      for i := 0 to |window|
        invariant lo == Lowest(window[..i]) && hi == Highest(window[..i])
      {
        assert window[..i + 1][..i] == window[..i];
        lo := Min(lo, window[i].0);
        hi := Max(hi, window[i].0);
      }
      assert window[..|window|] == window;
      return RangeOf(lo, hi);
    }

    method Reported(base: Observation) returns (o: Observation)
      ensures o == Report(Value(), base)
    {
      var range := MeasureRange();
      return base.(range := range, state := state);
    }

    /** Trip because another pair did. */
    method Contagion(now: nat) returns (edge: bool)
      modifies this
      ensures Value() == Trip(old(Value()), now, Reason.Contagion) && edge == (old(state) == Quoting)
    {
      edge := TripNow(now, Reason.Contagion);
    }
  }

  // ---- The book ----

  /** The members of `p` below `n`, ascending: the order an ordered map walks its keys. */
  function Ascending(p: set<u16>, n: nat): (s: seq<u16>)
    requires n <= 0x1_0000
    ensures forall x :: x in s <==> x in p && x < n
    ensures forall i :: 0 <= i < |s| ==> s[i] in p && s[i] < n
    ensures forall i, j :: 0 <= i < j < |s| ==> s[i] < s[j]
  {
    if n == 0 then [] else Ascending(p, n - 1) + if n - 1 in p then [n - 1] else []
  }

  lemma JoinDistinct(p: set<u16>, q: set<u16>)
    requires p !! q
    ensures var s := Ascending(p, 0x1_0000) + Ascending(q, 0x1_0000);
            && (forall x :: x in s <==> x in p || x in q)
            && (forall i, j :: 0 <= i < j < |s| ==> s[i] != s[j])
  {
    var a, b := Ascending(p, 0x1_0000), Ascending(q, 0x1_0000);
    var s := a + b;
    forall i, j | 0 <= i < j < |s| ensures s[i] != s[j] {
      if i < |a| <= j { assert s[i] in p && s[j] in q; }
    }
  }

  class Book {
    const detectors: map<u16, LiveDetector>
    const groups: map<u16, string>
    const scope: Scope
    const enabled: bool

    /** Every pair has its own detector. */
    ghost predicate Valid() {
      && (forall id :: id in detectors ==> detectors[id].Valid())
      && (forall i, j :: i in detectors && j in detectors && i != j ==> detectors[i] != detectors[j])
    }

    constructor (detectors: map<u16, LiveDetector>, groups: map<u16, string>, scope: Scope, enabled: bool)
      requires forall id :: id in detectors ==> detectors[id].Valid()
      requires forall i, j :: i in detectors && j in detectors && i != j ==> detectors[i] != detectors[j]
      ensures Valid() && this.detectors == detectors && this.groups == groups
      ensures this.scope == scope && this.enabled == enabled
    {
      this.detectors, this.groups, this.scope, this.enabled := detectors, groups, scope, enabled;
    }

    function GroupOf(id: u16): string { if id in groups then groups[id] else "" }

    /** Whether a trip on `origin` reaches `id`: another known pair of the same group. */
    predicate Reaches(origin: u16, id: u16) {
      enabled && scope == WholeBook && id != origin && id in detectors && GroupOf(id) == GroupOf(origin)
    }

    /** The named members of the group, then the unnamed ones if the origin is unnamed too. */
    function Peers(origin: u16): (s: seq<u16>)
      ensures forall id :: id in s && id in detectors <==> id in detectors && id != origin && GroupOf(id) == GroupOf(origin)
      ensures forall i, j :: 0 <= i < j < |s| ==> s[i] != s[j]
    {
      JoinDistinct(Named(origin), Unnamed(origin));
      var n: nat := 0x1_0000;
      Ascending(Named(origin), n) + Ascending(Unnamed(origin), n)
    }

    function Named(origin: u16): set<u16> {
      set id | id in groups && groups[id] == GroupOf(origin) && id != origin
    }

    function Unnamed(origin: u16): set<u16> {
      set id | id in detectors && id !in groups && GroupOf(origin) == "" && id != origin
    }

    method Observe(id: u16, price: u128, now: nat, sigma: u32) returns (o: Option<Observation>)
      requires Valid()
      modifies detectors.Values
      ensures Valid()
      ensures !enabled || id !in detectors ==> o == None
      ensures enabled && id in detectors ==>
              o.Some? && (detectors[id].Value(), o.value) == ObserveStep(old(detectors[id].Value()), price, now, sigma)
      ensures forall other :: other in detectors && (other != id || !enabled) ==>
              detectors[other].Value() == old(detectors[other].Value())
    {
      if !enabled { return None; }
      if id !in detectors { return None; }
      var d := detectors[id];
      var seen := d.Observe(price, now, sigma);
      return Some(seen);
    }

    /**
     Spread a trip: exactly the reached pairs are tripped now, everyone else is untouched, and the
     pairs returned are exactly those that were quoting, each once.
     */
    method Contagion(origin: u16, now: nat) returns (newly: seq<u16>)
      requires Valid()
      modifies detectors.Values
      ensures Valid()
      ensures forall id :: id in detectors ==>
              detectors[id].Value() == if Reaches(origin, id) then Trip(old(detectors[id].Value()), now, Reason.Contagion)
                                       else old(detectors[id].Value())
      ensures forall id :: id in newly <==> Reaches(origin, id) && old(detectors[id].state) == Quoting
      ensures forall i, j :: 0 <= i < j < |newly| ==> newly[i] != newly[j]
    {
      if !enabled { return []; }
      if scope == Pair { return []; }
      newly := TripAll(Peers(origin), now);
    }

    /** Trip every known pair listed, each pair once. */
    method TripAll(peers: seq<u16>, now: nat) returns (newly: seq<u16>)
      requires Valid() && forall i, j :: 0 <= i < j < |peers| ==> peers[i] != peers[j]
      modifies detectors.Values
      ensures Valid()
      ensures forall id :: id in detectors ==>
              detectors[id].Value() == if id in peers then Trip(old(detectors[id].Value()), now, Reason.Contagion)
                                       else old(detectors[id].Value())
      ensures forall id :: id in newly <==> id in peers && id in detectors && old(detectors[id].state) == Quoting
      ensures forall i, j :: 0 <= i < j < |newly| ==> newly[i] != newly[j]
    {
      hide Trip;
      newly := [];
      for i := 0 to |peers|
        invariant forall id :: id in detectors ==>
                  detectors[id].Value() == if id in peers[..i] then Trip(old(detectors[id].Value()), now, Reason.Contagion)
                                           else old(detectors[id].Value())
        invariant forall id :: id in newly <==> id in peers[..i] && id in detectors && old(detectors[id].state) == Quoting
        invariant forall a, b :: 0 <= a < b < |newly| ==> newly[a] != newly[b]
      {
        var id := peers[i];
        assert id !in peers[..i];
        assert forall x :: x in peers[..i + 1] <==> x in peers[..i] || x == id;
        if id in detectors {
          var d := detectors[id];
          assert d.Value() == old(d.Value());
          var edge := d.Contagion(now);
          if edge {
            newly := newly + [id];
          }
        }
      }
      assert peers[..|peers|] == peers;
    }
  }
}
