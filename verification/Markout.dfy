/**
 The markout ledger: fills queue up until their longest horizon has passed, are marked against the
 references seen around each horizon, and fold into one score per counterparty and one per pair.
 */
module Markout {
  import opened Words
  import opened Arithmetic
  import opened Permutations
  import CurveSpec

  const HORIZONS: seq<nat> := [1, 10, 60]
  const LONGEST: nat := 60
  const RETENTION: nat := LONGEST + 120
  const TOLERANCE: nat := 3
  const MILLION: nat := 1_000_000

  // ---- Signed 128-bit arithmetic ----

  function Checked(x: int): Option<int> { if 0 - POW127 <= x < POW127 then Some(x) else None }

  function Saturate(x: int): int {
    if x < 0 - POW127 then 0 - POW127 else if x >= POW127 then POW127 - 1 else x
  }

  /** Division rounding toward zero. */
  function TruncDiv(a: int, b: nat): int
    requires b > 0
  {
    if a >= 0 then a / b else 0 - (0 - a) / b
  }

  function Size(x: int): nat { if x < 0 then 0 - x else x }

  /** Truncation: the quotient keeps the sign, and falls short of the dividend by less than one divisor. */
  lemma TruncBounds(a: int, b: nat)
    requires b > 0
    ensures var q := TruncDiv(a, b);
            (a >= 0 ==> 0 <= q * b <= a < q * b + b && q >= 0) && (a <= 0 ==> q * b - b < a <= q * b <= 0 && q <= 0)
  {
    var m := Size(a);
    FloorGalois(m, b, m / b);
    FloorGalois(m, b, m / b + 1);
    FloorGalois(m, b, 0);
    MulLe(0, m / b, b);
    assert (0 - m / b) * b == 0 - (m / b) * b;
  }

  // ---- One fill ----

  datatype Fill = Fill(
    pair: nat, receiver: nat, partner: u128, isBid: bool, amountIn: u128, amountOut: u128,
    at: u64, refAtFill: u128, scaleExp: nat)
  {
    function Base(): u128 { if isBid then amountIn else amountOut }
    function Quote(): u128 { if isBid then amountOut else amountIn }

    function Scale(): nat { CurveSpec.TenTo(scaleExp) }

    /** The base leg at a reference, in quote units, exactly. */
    function ValueAt(reference: u128): nat {
      MulLe(0, Base(), reference);
      FloorBounds(Base() * reference, CurveSpec.TenTo(scaleExp));
      (Base() * reference) / CurveSpec.TenTo(scaleExp)
    }

    /** What the pool's position is worth at a later reference. */
    function Pnl(later: u128): int {
      if isBid then ValueAt(later) - Quote() else Quote() - ValueAt(later)
    }

    /** The same trade seen from the other side. */
    function Mirror(): Fill {
      this.(isBid := !isBid, amountIn := amountOut, amountOut := amountIn)
    }

    /** Markout in hundredths of a basis point of the notional, in checked signed arithmetic. */
    function MarkoutE2(later: u128): Option<int> {
      var scale :- Checked(CurveSpec.TenTo(scaleExp));
      var base :- Checked(Base());
      var quote :- Checked(Quote());
      var reference :- Checked(later);
      var gross :- Checked(base * reference);
      var pnl :- Checked(if isBid then gross / scale - quote else quote - gross / scale);
      var atFill :- Checked(refAtFill);
      var traded :- Checked(base * atFill);
      MulLe(0, base, atFill);
      FloorBounds(traded, scale);
      if traded / scale == 0 then None
      else
        var weighted :- Checked(pnl * MILLION);
        Some(TruncDiv(weighted, traded / scale))
    }
  }

  /** The checked computation answers exactly when the exact intermediate values fit, and then rounds once toward zero. */
  lemma MarkoutIsExact(f: Fill, later: u128)
    ensures f.MarkoutE2(later).Some? <==>
            && f.Scale() < POW127 && f.Base() < POW127 && f.Quote() < POW127
            && later < POW127 && f.refAtFill < POW127
            && f.Base() * later < POW127 && f.Base() * f.refAtFill < POW127
            && f.ValueAt(f.refAtFill) > 0 && Size(f.Pnl(later)) * MILLION < POW127
    ensures f.MarkoutE2(later).Some? ==>
            && f.ValueAt(f.refAtFill) > 0
            && f.MarkoutE2(later).value == TruncDiv(f.Pnl(later) * MILLION, f.ValueAt(f.refAtFill))
  {
    MulLe(0, f.Base(), later);
    MulLe(0, f.Base(), f.refAtFill);
    if f.Base() * later < POW127 {
      FloorGalois(f.Base() * later, f.Scale(), POW127);
      MulLe(1, f.Scale(), POW127);
    }
    assert f.Pnl(later) * MILLION != 0 - POW127 by { NotAMillionfold(f.Pnl(later)); }
  }

  lemma NotAMillionfold(x: int)
    ensures x * MILLION != 0 - POW127
  {}

  /** `q` is `a / b` rounded toward zero. */
  ghost predicate RoundsTowardZero(q: int, a: int, b: nat) {
    if a >= 0 then 0 <= q * b <= a < q * b + b else q * b - b < a <= q * b <= 0
  }

  /**
   The mark a fill earns at a later price: what the pool made, per million of the notional at the fill,
   or none when a leg, a price, a product or the ratio leaves a signed word or the notional is nothing.
   */
  ghost predicate IsMarkout(f: Fill, price: u128, mark: Option<int>) {
    var scale := CurveSpec.TenTo(f.scaleExp);
    var base, quote := if f.isBid then f.amountIn else f.amountOut, if f.isBid then f.amountOut else f.amountIn;
    var worth, notional := (base * price) / scale, (base * f.refAtFill) / scale;
    var pnl := if f.isBid then worth - quote else quote - worth;
    if scale < POW127 && base < POW127 && quote < POW127 && price < POW127 && f.refAtFill < POW127
       && base * price < POW127 && base * f.refAtFill < POW127 && 0 < notional
       && 0 - POW127 < pnl * 1_000_000 < POW127
    then mark.Some? && RoundsTowardZero(mark.value, pnl * 1_000_000, notional)
    else mark.None?
  }

  lemma MarkoutIsEarned(f: Fill, price: u128)
    ensures IsMarkout(f, price, f.MarkoutE2(price))
  {
    hide Fill.MarkoutE2, TruncDiv, RoundsTowardZero;
    MarkoutIsExact(f, price);
    if f.ValueAt(f.refAtFill) > 0 { TruncRounds(f.Pnl(price) * MILLION, f.ValueAt(f.refAtFill)); }
  }

  lemma TruncRounds(a: int, b: nat)
    requires b > 0
    ensures RoundsTowardZero(TruncDiv(a, b), a, b)
  {
    TruncBounds(a, b);
  }

  /** The two sides of a trade mark out to opposite numbers, or neither marks out. */
  lemma MirrorNegates(f: Fill, later: u128)
    ensures f.Mirror().MarkoutE2(later).Some? <==> f.MarkoutE2(later).Some?
    ensures f.MarkoutE2(later).Some? ==> f.Mirror().MarkoutE2(later).value == 0 - f.MarkoutE2(later).value
  {
    hide Fill.MarkoutE2, Fill.ValueAt, Fill.Pnl, Fill.Mirror, Fill.Base, Fill.Quote, TruncDiv;
    MarkoutIsExact(f, later);
    MarkoutIsExact(f.Mirror(), later);
    MirrorSwaps(f, later);
    if f.MarkoutE2(later).Some? { TruncNegates(f.Pnl(later) * MILLION, f.ValueAt(f.refAtFill)); }
  }

  lemma MirrorSwaps(f: Fill, later: u128)
    ensures var g := f.Mirror();
            && g.Base() == f.Base() && g.Quote() == f.Quote() && g.Scale() == f.Scale() && g.refAtFill == f.refAtFill
            && g.ValueAt(f.refAtFill) == f.ValueAt(f.refAtFill) && g.Pnl(later) == 0 - f.Pnl(later)
  {}

  lemma TruncNegates(a: int, b: nat)
    requires b > 0
    ensures TruncDiv(0 - a, b) == 0 - TruncDiv(a, b)
  {
    if a == 0 { FloorGalois(0, b, 1); FloorGalois(0, b, 0); }
  }

  /** A higher later reference never marks a purchase lower. */
  lemma MarkoutRisesWithReference(f: Fill, later: u128, later': u128)
    requires f.isBid && later <= later'
    requires f.MarkoutE2(later).Some? && f.MarkoutE2(later').Some?
    ensures f.MarkoutE2(later).value <= f.MarkoutE2(later').value
  {
    hide Fill.MarkoutE2;
    MarkoutIsExact(f, later);
    MarkoutIsExact(f, later');
    MulLe(later, later', f.Base());
    FloorMono(f.Base() * later, f.Base() * later', f.Scale());
    TruncMono(f.Pnl(later) * MILLION, f.Pnl(later') * MILLION, f.ValueAt(f.refAtFill));
  }

  lemma TruncMono(a: int, a': int, b: nat)
    requires b > 0 && a <= a'
    ensures TruncDiv(a, b) <= TruncDiv(a', b)
  {
    TruncBounds(a, b);
    TruncBounds(a', b);
    if a >= 0 { FloorMono(a, a', b); }
    if a' < 0 { FloorMono(0 - a', 0 - a, b); }
  }

  // ---- Weighting ----

  /** The notional as the fold computes it, saturating instead of failing. */
  function FoldNotional(f: Fill): u128 {
    var base: int := if f.Base() < POW127 then f.Base() else 0;
    var reference: int := if f.refAtFill < POW127 then f.refAtFill else 0;
    MulLe(0, base, reference);
    var scale := Min(f.Scale(), POW127 - 1);
    FloorBounds(Saturate(base * reference), scale);
    Saturate(base * reference) / scale
  }

  function Contribution(f: Fill, mark: int): int {
    TruncDiv(Saturate(mark * FoldNotional(f)), MILLION)
  }

  /**
   Whenever a fill has a mark at all, nothing saturates on the way into its score, and weighting the
   mark back by the notional recovers the profit to within one rounding of each division, toward zero.
   */
  lemma WeightingIsFaithful(f: Fill, later: u128)
    requires f.MarkoutE2(later).Some?
    ensures FoldNotional(f) == f.ValueAt(f.refAtFill) > 0
    ensures var m, c, pnl := f.MarkoutE2(later).value, Contribution(f, f.MarkoutE2(later).value), f.Pnl(later);
            && c == TruncDiv(m * f.ValueAt(f.refAtFill), MILLION)
            && (pnl >= 0 ==> 0 <= c <= pnl) && (pnl <= 0 ==> pnl <= c <= 0)
            && (Size(pnl) - Size(c)) * MILLION < f.ValueAt(f.refAtFill) + MILLION
  {
    hide Fill.MarkoutE2;
    MarkoutIsExact(f, later);
    MulLe(0, f.Base(), f.refAtFill);
    var n, m, pnl := f.ValueAt(f.refAtFill), f.MarkoutE2(later).value, f.Pnl(later);
    assert FoldNotional(f) == n;
    WeightBack(pnl, n, m);
  }

  lemma WeightBack(pnl: int, n: nat, m: int)
    requires n > 0 && m == TruncDiv(pnl * MILLION, n) && Size(pnl) * MILLION < POW127
    ensures Saturate(m * n) == m * n
    ensures var c := TruncDiv(m * n, MILLION);
            && (pnl >= 0 ==> 0 <= c <= pnl) && (pnl <= 0 ==> pnl <= c <= 0)
            && (Size(pnl) - Size(c)) * MILLION < n + MILLION
  {
    TruncBounds(pnl * MILLION, n);
    TruncBounds(m * n, MILLION);
  }

  // ---- References ----

  datatype Ref = Ref(at: u64, pair: nat, price: u128)

  predicate Candidate(r: Ref, pair: nat, at: nat) { r.pair == pair && AbsDiff(r.at, at) <= TOLERANCE }

  /** The nearest candidate and its distance; the earlier one on a tie. */
  function Nearest(refs: seq<Ref>, pair: nat, at: nat): Option<(nat, u128)> {
    if refs == [] then None
    else
      var best, r := Nearest(refs[..|refs| - 1], pair, at), refs[|refs| - 1];
      var d := AbsDiff(r.at, at);
      if !Candidate(r, pair, at) then best
      else if best.None? || d < best.value.0 then Some((d, r.price))
      else best
  }

  function ReferencePrice(refs: seq<Ref>, pair: nat, at: nat): Option<u128> {
    match Nearest(refs, pair, at) case None => None case Some(b) => Some(b.1)
  }

  ghost predicate IsNearest(refs: seq<Ref>, pair: nat, at: nat, i: nat) {
    && i < |refs| && Candidate(refs[i], pair, at)
    && (forall j :: 0 <= j < |refs| && Candidate(refs[j], pair, at) ==> AbsDiff(refs[i].at, at) <= AbsDiff(refs[j].at, at))
    && (forall j :: 0 <= j < i && Candidate(refs[j], pair, at) ==> AbsDiff(refs[i].at, at) < AbsDiff(refs[j].at, at))
  }

  /** No reference is used exactly when none is near enough; otherwise it is the first of the nearest. */
  lemma {:induction false} NearestIsNearest(refs: seq<Ref>, pair: nat, at: nat)
    ensures Nearest(refs, pair, at).None? <==> forall r :: r in refs ==> !Candidate(r, pair, at)
    ensures Nearest(refs, pair, at).Some? ==>
            exists i: nat :: IsNearest(refs, pair, at, i) && Nearest(refs, pair, at).value == (AbsDiff(refs[i].at, at), refs[i].price)
  {
    if refs != [] {
      var init, r := refs[..|refs| - 1], refs[|refs| - 1];
      NearestIsNearest(init, pair, at);
      assert refs == init + [r];
      var best := Nearest(init, pair, at);
      if Candidate(r, pair, at) && (best.None? || AbsDiff(r.at, at) < best.value.0) {
        assert forall j :: 0 <= j < |init| ==> init[j] in init;
        assert IsNearest(refs, pair, at, |init|);
      } else if best.Some? {
        var i: nat :| IsNearest(init, pair, at, i) && best.value == (AbsDiff(init[i].at, at), init[i].price);
        assert IsNearest(refs, pair, at, i);
      }
    }
  }

  /** References too far from the target to be candidates can be dropped from the front. */
  lemma {:induction false} NearestForgets(dropped: seq<Ref>, kept: seq<Ref>, pair: nat, at: nat)
    requires forall r :: r in dropped ==> !Candidate(r, pair, at)
    ensures Nearest(dropped + kept, pair, at) == Nearest(kept, pair, at)
  {
    if kept == [] {
      assert dropped + kept == dropped;
      NearestIsNearest(dropped, pair, at);
    } else {
      var init := kept[..|kept| - 1];
      NearestForgets(dropped, init, pair, at);
      assert (dropped + kept)[..|dropped + kept| - 1] == dropped + init;
    }
  }

  /** The mark at one horizon: none without a reference within three seconds, else what the first of the nearest earns. */
  ghost predicate MarkedAround(refs: seq<Ref>, f: Fill, at: nat, mark: Option<int>) {
    if forall r :: r in refs && r.pair == f.pair ==> AbsDiff(r.at, at) > 3 then mark.None?
    else exists i: nat :: IsNearest(refs, f.pair, at, i) && IsMarkout(f, refs[i].price, mark)
  }

  function Elapsed(now: int, since: int): nat { if now < since then 0 else now - since }

  function Prune(refs: seq<Ref>, now: nat): seq<Ref> {
    if refs != [] && Elapsed(now, refs[0].at) > RETENTION then Prune(refs[1..], now) else refs
  }

  // ---- Scores ----

  type Marks = m: seq<Option<int>> | |m| == 3 witness [None, None, None]
  type Totals = t: seq<int> | |t| == 3 witness [0, 0, 0]

  datatype Outcome = Outcome(fill: Fill, marks: Marks)
  datatype Score = Score(fills: nat, notional: u128, pnl: Totals, firstSeen: u64, lastSeen: u64)

  const NoScore: Score := Score(0, 0, [0, 0, 0], 0, 0)

  function AddMark(total: int, f: Fill, mark: Option<int>): int {
    match mark case None => total case Some(m) => Saturate(total + Contribution(f, m))
  }

  function Add(s: Score, o: Outcome): Score {
    Score(
      s.fills + 1,
      Min(U128_MAX, s.notional + FoldNotional(o.fill)),
      [AddMark(s.pnl[0], o.fill, o.marks[0]), AddMark(s.pnl[1], o.fill, o.marks[1]), AddMark(s.pnl[2], o.fill, o.marks[2])],
      if s.firstSeen == 0 then o.fill.at else s.firstSeen,
      o.fill.at)
  }

  function ScoreOf(index: map<nat, Score>, k: nat): Score { if k in index then index[k] else NoScore }

  function Credit(index: map<nat, Score>, k: nat, o: Outcome): map<nat, Score> {
    index[k := Add(ScoreOf(index, k), o)]
  }

  function ByReceiver(): Outcome -> nat { (o: Outcome) => o.fill.receiver }
  function ByPair(): Outcome -> nat { (o: Outcome) => o.fill.pair }

  function MarkAt(refs: seq<Ref>, f: Fill, h: nat): Option<int>
    requires h < 3
  {
    match ReferencePrice(refs, f.pair, f.at + HORIZONS[h])
    case None => None
    case Some(price) => f.MarkoutE2(price)
  }

  function MarksOf(refs: seq<Ref>, f: Fill): Marks { [MarkAt(refs, f, 0), MarkAt(refs, f, 1), MarkAt(refs, f, 2)] }

  function IsMarked(): Outcome -> bool { (o: Outcome) => o.marks[0].Some? || o.marks[1].Some? || o.marks[2].Some? }

  /** The outcomes that reach the scores. */
  function Settled(popped: seq<Outcome>): seq<Outcome> { Filter(IsMarked(), popped) }

  // ---- The ledger as a value ----

  datatype Ledger = Ledger(
    pending: seq<Fill>, refs: seq<Ref>, scores: map<nat, Score>, perPair: map<nat, Score>, unmarked: nat)

  const Empty: Ledger := Ledger([], [], map[], map[], 0)

  predicate Matured(f: Fill, now: nat) { Elapsed(now, f.at) >= LONGEST }

  function SettleFront(s: Ledger): (r: (Ledger, Outcome))
    requires s.pending != []
  {
    var f := s.pending[0];
    var o := Outcome(f, MarksOf(s.refs, f));
    var rest := s.(pending := s.pending[1..]);
    if !IsMarked()(o) then (rest.(unmarked := s.unmarked + 1), o)
    else (rest.(scores := Credit(s.scores, f.receiver, o), perPair := Credit(s.perPair, f.pair, o)), o)
  }

  /** Every fill taken off the queue, marked or not. */
  function SettleAll(s: Ledger, now: nat): (Ledger, seq<Outcome>)
    decreases |s.pending|
  {
    if s.pending == [] || !Matured(s.pending[0], now) then (s, [])
    else
      var (next, o) := SettleFront(s);
      var (final, rest) := SettleAll(next, now);
      (final, [o] + rest)
  }

  datatype Event = Referenced(ref: Ref) | Filled(fill: Fill) | Settling(now: u64)

  function Step(s: Ledger, e: Event): (Ledger, seq<Outcome>) {
    match e
    case Referenced(r) => (s.(refs := Prune(s.refs + [r], r.at)), [])
    case Filled(f) => (s.(pending := s.pending + [f]), [])
    case Settling(now) => SettleAll(s, now)
  }

  /** The ledger after a whole history, with every fill it took off the queue, in order. */
  function Run(es: seq<Event>): (Ledger, seq<Outcome>)
    decreases |es|
  {
    if es == [] then (Empty, [])
    else
      var (s, popped) := Run(es[..|es| - 1]);
      var (s', more) := Step(s, es[|es| - 1]);
      (s', popped + more)
  }

  function FillsOf(es: seq<Event>): seq<Fill>
    decreases |es|
  {
    if es == [] then []
    else FillsOf(es[..|es| - 1]) + match es[|es| - 1] case Filled(f) => [f] case _ => []
  }

  function RefsOf(es: seq<Event>): seq<Ref>
    decreases |es|
  {
    if es == [] then []
    else RefsOf(es[..|es| - 1]) + match es[|es| - 1] case Referenced(r) => [r] case _ => []
  }

  // ---- Conservation ----

  function Fills(popped: seq<Outcome>): seq<Fill> { Map((o: Outcome) => o.fill, popped) }

  /** The scores a sequence of settled fills builds, one key per counterparty or per pair. */
  function Index(log: seq<Outcome>, key: Outcome -> nat): map<nat, Score>
    decreases |log|
  {
    if log == [] then map[]
    else
      var o := log[|log| - 1];
      Credit(Index(log[..|log| - 1], key), key(o), o)
  }

  /** Every fill observed is still queued or was taken off in arrival order, and the counters and indexes say which. */
  ghost predicate Accounts(s: Ledger, observed: seq<Fill>, popped: seq<Outcome>) {
    && Fills(popped) + s.pending == observed
    && s.unmarked + |Settled(popped)| == |popped|
    && s.scores == Index(Settled(popped), ByReceiver())
    && s.perPair == Index(Settled(popped), ByPair())
  }

  lemma IndexSnoc(log: seq<Outcome>, key: Outcome -> nat, o: Outcome)
    ensures Index(log + [o], key) == Credit(Index(log, key), key(o), o)
  {
    assert (log + [o])[..|log|] == log;
  }

  lemma SettledSnoc(popped: seq<Outcome>, o: Outcome)
    ensures Settled(popped + [o]) == if IsMarked()(o) then Settled(popped) + [o] else Settled(popped)
  {
    FilterJoin(IsMarked(), popped, [o]);
    assert [o][1..] == [];
  }

  lemma FillsSnoc(popped: seq<Outcome>, o: Outcome)
    ensures Fills(popped + [o]) == Fills(popped) + [o.fill]
  {}

  lemma SettleFrontKeeps(s: Ledger, observed: seq<Fill>, popped: seq<Outcome>)
    requires Accounts(s, observed, popped) && s.pending != []
    ensures var (next, o) := SettleFront(s); Accounts(next, observed, popped + [o]) && next.refs == s.refs
  {
    hide Index, Settled, MarksOf, Credit, Fills;
    FrontLeaves(s);
    var (next, o) := SettleFront(s);
    SettledSnoc(popped, o);
    IndexSnoc(Settled(popped), ByReceiver(), o);
    IndexSnoc(Settled(popped), ByPair(), o);
    FillsSnoc(popped, o);
    Associative(Fills(popped), [s.pending[0]], s.pending[1..]);
    assert s.pending == [s.pending[0]] + s.pending[1..];
  }

  lemma {:induction false} SettleKeeps(s: Ledger, now: nat, observed: seq<Fill>, popped: seq<Outcome>)
    requires Accounts(s, observed, popped)
    ensures var (next, more) := SettleAll(s, now); Accounts(next, observed, popped + more) && next.refs == s.refs
    decreases |s.pending|
  {
    hide Accounts, SettleFront;
    if s.pending == [] || !Matured(s.pending[0], now) {
      assert popped + [] == popped;
    } else {
      var (next, o) := SettleFront(s);
      SettleFrontKeeps(s, observed, popped);
      FrontLeaves(s);
      SettleKeeps(next, now, observed, popped + [o]);
      var rest := SettleAll(next, now).1;
      Associative(popped, [o], rest);
    }
  }

  lemma FrontLeaves(s: Ledger)
    requires s.pending != []
    ensures SettleFront(s).0.pending == s.pending[1..] && SettleFront(s).1.fill == s.pending[0]
  {}

  /** Over any sequence of calls at all, in any order and at any times. */
  lemma {:induction false} RunConserves(es: seq<Event>)
    ensures var (s, popped) := Run(es); Accounts(s, FillsOf(es), popped)
    decreases |es|
  {
    if es != [] {
      var init, e := es[..|es| - 1], es[|es| - 1];
      RunConserves(init);
      var (s, popped) := Run(init);
      match e
      case Referenced(r) => assert popped + [] == popped;
      case Filled(f) =>
        assert popped + [] == popped;
        Associative(Fills(popped), s.pending, [f]);
      case Settling(now) =>
        SettleKeeps(s, now, FillsOf(init), popped);
        assert FillsOf(es) == FillsOf(init) + [] == FillsOf(init);
    }
  }

  /** Observed equals pending plus unmarked plus settled. */
  lemma NothingIsLost(es: seq<Event>)
    ensures var (s, popped) := Run(es);
            |FillsOf(es)| == |s.pending| + s.unmarked + |Settled(popped)|
  {
    RunConserves(es);
  }

  // ---- What one score holds ----

  function Accumulate(log: seq<Outcome>): Score
    decreases |log|
  {
    if log == [] then NoScore else Add(Accumulate(log[..|log| - 1]), log[|log| - 1])
  }

  function HasKey(key: Outcome -> nat, k: nat): Outcome -> bool { (o: Outcome) => key(o) == k }

  /** The settled fills of one counterparty or one pair, in arrival order. */
  function Slice(log: seq<Outcome>, key: Outcome -> nat, k: nat): seq<Outcome> { Filter(HasKey(key, k), log) }

  /** Each key's score is built from its own fills alone, in arrival order, and a key without fills has none. */
  lemma {:induction false} IndexIsPerKey(log: seq<Outcome>, key: Outcome -> nat, k: nat)
    ensures k in Index(log, key) <==> Slice(log, key, k) != []
    ensures ScoreOf(Index(log, key), k) == Accumulate(Slice(log, key, k))
    decreases |log|
  {
    hide Add;
    if log != [] {
      var init, o := log[..|log| - 1], log[|log| - 1];
      IndexIsPerKey(init, key, k);
      FilterJoin(HasKey(key, k), init, [o]);
      assert log == init + [o] && [o][1..] == [];
      if key(o) == k {
        var slice := Slice(init, key, k);
        assert Slice(log, key, k) == slice + [o];
        assert (slice + [o])[..|slice|] == slice;
      } else {
        assert Slice(log, key, k) == Slice(init, key, k);
      }
    }
  }

  /** The settled fills a counterparty received, and those against a pair, in arrival order. */
  function ReceivedBy(who: nat, log: seq<Outcome>): seq<Outcome> {
    Filter((o: Outcome) => o.fill.receiver == who, log)
  }

  function Against(pair: nat, log: seq<Outcome>): seq<Outcome> {
    Filter((o: Outcome) => o.fill.pair == pair, log)
  }

  /** After any run, whose score is whose: a counterparty's is what it received, a pair's what was traded against it. */
  lemma ScoresAreKeyedRight(es: seq<Event>, k: nat)
    ensures var (s, popped) := Run(es);
            && (k in s.scores <==> ReceivedBy(k, Settled(popped)) != [])
            && (k in s.perPair <==> Against(k, Settled(popped)) != [])
            && ScoreOf(s.scores, k) == Accumulate(ReceivedBy(k, Settled(popped)))
            && ScoreOf(s.perPair, k) == Accumulate(Against(k, Settled(popped)))
  {
    hide Run, Index, Filter, Settled, Accumulate;
    RunConserves(es);
    var log := Settled(Run(es).1);
    IndexIsPerKey(log, ByReceiver(), k);
    IndexIsPerKey(log, ByPair(), k);
    FilterSame(HasKey(ByReceiver(), k), (o: Outcome) => o.fill.receiver == k, log);
    FilterSame(HasKey(ByPair(), k), (o: Outcome) => o.fill.pair == k, log);
  }

  function SumOf(log: seq<Outcome>, amount: Outcome -> int): int
    decreases |log|
  {
    if log == [] then 0 else SumOf(log[..|log| - 1], amount) + amount(log[|log| - 1])
  }

  function One(): Outcome -> int { (o: Outcome) => 1 }
  function Traded(): Outcome -> int { (o: Outcome) => FoldNotional(o.fill) }

  /** What one settled fill is worth at a horizon. */
  function Worth(h: nat): Outcome -> int
    requires h < 3
  {
    (o: Outcome) => match o.marks[h] case None => 0 case Some(m) => Contribution(o.fill, m)
  }

  function Magnitude(h: nat): Outcome -> int
    requires h < 3
  {
    (o: Outcome) => Size(Worth(h)(o))
  }

  /** Counts are exact, the notional is exact up to its one clamp, and the seasoning window is the first to the last fill. */
  lemma {:induction false} ScoreIsItsFills(log: seq<Outcome>)
    ensures Accumulate(log).fills == |log|
    ensures Accumulate(log).notional == Min(U128_MAX, SumOf(log, Traded()))
    ensures log != [] ==> Accumulate(log).lastSeen == log[|log| - 1].fill.at
    ensures Accumulate(log).firstSeen == FirstStamp(log)
    decreases |log|
  {
    hide FoldNotional, AddMark;
    if log != [] {
      var init, o := log[..|log| - 1], log[|log| - 1];
      ScoreIsItsFills(init);
      FirstStampSnoc(init, o);
      assert log == init + [o];
    }
  }

  /** The stamp of the first fill that has one; a fill stamped zero reads as not yet seen. */
  function FirstStamp(log: seq<Outcome>): nat {
    if log == [] then 0 else if log[0].fill.at > 0 then log[0].fill.at else FirstStamp(log[1..])
  }

  lemma {:induction false} FirstStampSnoc(log: seq<Outcome>, o: Outcome)
    ensures FirstStamp(log + [o]) == if FirstStamp(log) > 0 then FirstStamp(log) else o.fill.at
  {
    if log == [] {
      assert ([] + [o])[1..] == [];
    } else {
      FirstStampSnoc(log[1..], o);
      assert (log + [o])[1..] == log[1..] + [o];
    }
  }

  /** While the sizes of the marks fit a signed word, one score holds exactly the profit of its fills at every horizon. */
  lemma {:induction false} ScoreProfitIsExact(log: seq<Outcome>, h: nat)
    requires h < 3 && SumOf(log, Magnitude(h)) < POW127
    ensures Accumulate(log).pnl[h] == SumOf(log, Worth(h)) && Size(Accumulate(log).pnl[h]) <= SumOf(log, Magnitude(h))
    decreases |log|
  {
    hide FoldNotional, Contribution;
    if log != [] {
      var init, o := log[..|log| - 1], log[|log| - 1];
      AddMarkBounds(0, o, h);
      ScoreProfitIsExact(init, h);
      AddMarkBounds(Accumulate(init).pnl[h], o, h);
    }
  }

  // ---- The two indexes hold the same totals ----

  /** Sum of a measure over the keys below `n`. */
  function Total(index: map<nat, Score>, measure: Score -> int, n: nat): int {
    if n == 0 then 0 else Total(index, measure, n - 1) + measure(ScoreOf(index, n - 1))
  }

  lemma {:induction false} TotalOfNothing(measure: Score -> int, n: nat)
    requires measure(NoScore) == 0
    ensures Total(map[], measure, n) == 0
  {
    if n > 0 { TotalOfNothing(measure, n - 1); }
  }

  lemma {:induction false} TotalAfterUpdate(index: map<nat, Score>, measure: Score -> int, n: nat, k: nat, s: Score)
    ensures Total(index[k := s], measure, n)
         == Total(index, measure, n) + if k < n then measure(s) - measure(ScoreOf(index, k)) else 0
  {
    if n > 0 { TotalAfterUpdate(index, measure, n - 1, k, s); }
  }

  lemma TotalAfterCredit(index: map<nat, Score>, measure: Score -> int, n: nat, k: nat, o: Outcome, amount: Outcome -> int)
    requires k < n && Moves(index, k, o, measure, amount)
    ensures Total(Credit(index, k, o), measure, n) == Total(index, measure, n) + amount(o)
  {
    hide Add;
    TotalAfterUpdate(index, measure, n, k, Add(ScoreOf(index, k), o));
  }

  /** A measure that every credit moves by exactly the fill's own amount adds up over the whole log. */
  lemma {:induction false} TotalIsSum(log: seq<Outcome>, key: Outcome -> nat, n: nat, measure: Score -> int, amount: Outcome -> int)
    requires forall o :: o in log ==> key(o) < n
    requires measure(NoScore) == 0
    requires forall i :: 0 <= i < |log| ==> Moves(Index(log[..i], key), key(log[i]), log[i], measure, amount)
    ensures Total(Index(log, key), measure, n) == SumOf(log, amount)
    decreases |log|
  {
    hide Add, Total, ScoreOf, Moves;
    if log == [] {
      TotalOfNothing(measure, n);
    } else {
      var init, o := log[..|log| - 1], log[|log| - 1];
      forall i | 0 <= i < |init|
        ensures Moves(Index(init[..i], key), key(init[i]), init[i], measure, amount)
      {
        assert init[..i] == log[..i];
      }
      TotalIsSum(init, key, n, measure, amount);
      TotalAfterCredit(Index(init, key), measure, n, key(o), o, amount);
    }
  }

  ghost predicate Moves(index: map<nat, Score>, k: nat, o: Outcome, measure: Score -> int, amount: Outcome -> int) {
    measure(Add(ScoreOf(index, k), o)) == measure(ScoreOf(index, k)) + amount(o)
  }

  function Count(): Score -> int { (s: Score) => s.fills }
  function Notional(): Score -> int { (s: Score) => s.notional }
  function Profit(h: nat): Score -> int
    requires h < 3
  {
    (s: Score) => s.pnl[h]
  }

  lemma {:induction false} SumGrows(log: seq<Outcome>, amount: Outcome -> int, i: nat)
    requires i <= |log| && forall o :: o in log ==> amount(o) >= 0
    ensures 0 <= SumOf(log[..i], amount) <= SumOf(log, amount)
    decreases |log|
  {
    if log != [] {
      var init := log[..|log| - 1];
      assert forall o :: o in init ==> o in log;
      if i == |log| {
        SumGrows(init, amount, |init|);
        assert log[..i] == log && init[..|init|] == init;
      } else {
        SumGrows(init, amount, i);
        assert init[..i] == log[..i];
      }
    }
  }

  /** One key holds no more notional, and no larger a profit or loss, than all the settled fills together. */
  lemma {:induction false} KeyWithinLog(log: seq<Outcome>, key: Outcome -> nat, k: nat, h: nat)
    requires h < 3
    ensures ScoreOf(Index(log, key), k).notional <= SumOf(log, Traded())
    ensures Size(ScoreOf(Index(log, key), k).pnl[h]) <= SumOf(log, Magnitude(h))
    decreases |log|
  {
    hide FoldNotional, Contribution;
    if log != [] {
      var init, o := log[..|log| - 1], log[|log| - 1];
      KeyWithinLog(init, key, k, h);
      AddMarkBounds(ScoreOf(Index(init, key), k).pnl[h], o, h);
    }
  }

  /** A mark moves a running profit by at most its own size, and by exactly its worth when the sizes fit. */
  lemma AddMarkBounds(total: int, o: Outcome, h: nat)
    requires h < 3
    ensures Magnitude(h)(o) == Size(Worth(h)(o)) >= 0
    ensures Size(AddMark(total, o.fill, o.marks[h])) <= Size(total) + Magnitude(h)(o)
    ensures Size(total) + Magnitude(h)(o) < POW127 ==> AddMark(total, o.fill, o.marks[h]) == total + Worth(h)(o)
  {
    hide Contribution;
  }

  /**
   While the traded notional and the sizes of the marks fit their words, the scores under any key
   function add up to exactly the settled fills: their number, their notional and their profit at every horizon.
   */
  lemma IndexAddsUp(log: seq<Outcome>, key: Outcome -> nat, n: nat)
    requires forall o :: o in log ==> key(o) < n
    requires Fits(log)
    ensures Total(Index(log, key), Count(), n) == |log|
    ensures Total(Index(log, key), Notional(), n) == SumOf(log, Traded())
    ensures forall h :: 0 <= h < 3 ==> Total(Index(log, key), Profit(h), n) == SumOf(log, Worth(h))
  {
    hide Add, FoldNotional, Contribution, Total, Index;
    forall i | 0 <= i < |log|
      ensures Moves(Index(log[..i], key), key(log[i]), log[i], Count(), One())
      ensures Moves(Index(log[..i], key), key(log[i]), log[i], Notional(), Traded())
    {
      NotionalMoves(log, key, i);
    }
    TotalIsSum(log, key, n, Count(), One());
    SumOfOnes(log);
    TotalIsSum(log, key, n, Notional(), Traded());
    forall h | 0 <= h < 3 ensures Total(Index(log, key), Profit(h), n) == SumOf(log, Worth(h)) {
      forall i | 0 <= i < |log|
        ensures Moves(Index(log[..i], key), key(log[i]), log[i], Profit(h), Worth(h))
      {
        ProfitMoves(log, key, i, h);
      }
      TotalIsSum(log, key, n, Profit(h), Worth(h));
    }
  }

  predicate Fits(log: seq<Outcome>) {
    SumOf(log, Traded()) <= U128_MAX && forall h :: 0 <= h < 3 ==> SumOf(log, Magnitude(h)) < POW127
  }

  lemma {:induction false} SumOfOnes(log: seq<Outcome>)
    ensures SumOf(log, One()) == |log|
    decreases |log|
  {
    if log != [] { SumOfOnes(log[..|log| - 1]); }
  }

  lemma SumPrefixStep(log: seq<Outcome>, amount: Outcome -> int, i: nat)
    requires i < |log| && forall o :: o in log ==> amount(o) >= 0
    ensures SumOf(log[..i], amount) + amount(log[i]) <= SumOf(log, amount)
  {
    SumGrows(log, amount, i + 1);
    assert log[..i + 1][..i] == log[..i];
  }

  lemma NotionalMoves(log: seq<Outcome>, key: Outcome -> nat, i: nat)
    requires i < |log| && Fits(log)
    ensures Moves(Index(log[..i], key), key(log[i]), log[i], Count(), One())
    ensures Moves(Index(log[..i], key), key(log[i]), log[i], Notional(), Traded())
  {
    hide FoldNotional, Index;
    KeyWithinLog(log[..i], key, key(log[i]), 0);
    SumPrefixStep(log, Traded(), i);
  }

  lemma ProfitMoves(log: seq<Outcome>, key: Outcome -> nat, i: nat, h: nat)
    requires i < |log| && Fits(log) && h < 3
    ensures Moves(Index(log[..i], key), key(log[i]), log[i], Profit(h), Worth(h))
  {
    hide FoldNotional, Contribution, Index;
    var before := ScoreOf(Index(log[..i], key), key(log[i]));
    KeyWithinLog(log[..i], key, key(log[i]), h);
    AddMarkBounds(before.pnl[h], log[i], h);
    forall o | o in log ensures Magnitude(h)(o) >= 0 { AddMarkBounds(0, o, h); }
    SumPrefixStep(log, Magnitude(h), i);
  }

  /** After any run the per-counterparty and the per-pair scores hold the same fills, notional and profit. */
  lemma IndexesAgree(es: seq<Event>, n: nat)
    requires forall f :: f in FillsOf(es) ==> f.receiver < n && f.pair < n
    requires Fits(Settled(Run(es).1))
    ensures var s := Run(es).0;
            && Total(s.scores, Count(), n) == Total(s.perPair, Count(), n) == |Settled(Run(es).1)|
            && Total(s.scores, Notional(), n) == Total(s.perPair, Notional(), n)
            && forall h :: 0 <= h < 3 ==> Total(s.scores, Profit(h), n) == Total(s.perPair, Profit(h), n)
  {
    hide Run, FillsOf, Fits, Total, Index;
    RunConserves(es);
    var (s, popped) := Run(es);
    forall o | o in Settled(popped) ensures o.fill in FillsOf(es) {
      FilterMembers(IsMarked(), popped);
      var i :| 0 <= i < |popped| && popped[i] == o;
      assert (Fills(popped) + s.pending)[i] == o.fill;
    }
    IndexAddsUp(Settled(popped), ByReceiver(), n);
    IndexAddsUp(Settled(popped), ByPair(), n);
  }

  // ---- Settlement order ----

  ghost predicate NothingMatured(s: Ledger, now: nat) {
    forall i :: 0 <= i < |s.pending| ==> !Matured(s.pending[i], now)
  }

  /** No immature fill stands in front of a matured one. */
  ghost predicate RipensInOrder(fills: seq<Fill>, now: nat) {
    forall i, j :: 0 <= i < j < |fills| && Matured(fills[j], now) ==> Matured(fills[i], now)
  }

  /** Settling leaves nothing matured behind exactly when no immature fill stands in front of a matured one. */
  lemma {:induction false} SettleTakesAllMatured(s: Ledger, now: nat)
    ensures NothingMatured(SettleAll(s, now).0, now) <==> RipensInOrder(s.pending, now)
    decreases |s.pending|
  {
    hide SettleFront;
    if s.pending == [] {
    } else if !Matured(s.pending[0], now) {
      if NothingMatured(s, now) {
      } else {
        var j :| 0 <= j < |s.pending| && Matured(s.pending[j], now);
      }
    } else {
      FrontLeaves(s);
      var next := SettleFront(s).0;
      SettleTakesAllMatured(next, now);
      assert forall i :: 0 < i < |s.pending| ==> s.pending[i] == next.pending[i - 1];
      assert forall i :: 0 <= i < |next.pending| ==> next.pending[i] == s.pending[i + 1];
    }
  }

  ghost predicate InTimeOrder(fills: seq<Fill>) { forall i, j :: 0 <= i < j < |fills| ==> fills[i].at <= fills[j].at }

  /** Fills observed in time order: a settling leaves nothing matured pending, whatever came before. */
  lemma TimelyFillsSettle(es: seq<Event>, now: u64)
    requires InTimeOrder(FillsOf(es))
    ensures NothingMatured(Run(es + [Settling(now)]).0, now)
  {
    hide FillsOf, SettleAll;
    RunConserves(es);
    var (s, popped) := Run(es);
    assert (es + [Settling(now)])[..|es|] == es;
    var taken := Fills(popped);
    assert forall i :: 0 <= i < |s.pending| ==> s.pending[i] == (taken + s.pending)[|taken| + i];
    assert RipensInOrder(s.pending, now);
    SettleTakesAllMatured(s, now);
  }

  // ---- Retention ----

  ghost predicate Timely(refs: seq<Ref>) { forall i, j :: 0 <= i < j < |refs| ==> refs[i].at <= refs[j].at }

  lemma {:induction false} PruneDropsStale(refs: seq<Ref>, now: nat) returns (dropped: seq<Ref>)
    ensures refs == dropped + Prune(refs, now)
    ensures forall r :: r in dropped ==> r.at + RETENTION < now
  {
    if refs != [] && Elapsed(now, refs[0].at) > RETENTION {
      var more := PruneDropsStale(refs[1..], now);
      dropped := [refs[0]] + more;
      assert refs == [refs[0]] + refs[1..];
    } else {
      dropped := [];
    }
  }

  /** The references dropped are a prefix, all older than the retention before the latest one. */
  ghost predicate Forgets(history: seq<Ref>, dropped: seq<Ref>, kept: seq<Ref>) {
    && history == dropped + kept
    && forall r :: r in dropped ==> history != [] && r.at + RETENTION < history[|history| - 1].at
  }

  lemma ReferenceForgets(history: seq<Ref>, dropped: seq<Ref>, kept: seq<Ref>, r: Ref) returns (dropped': seq<Ref>)
    requires Forgets(history, dropped, kept) && Timely(history + [r])
    ensures Forgets(history + [r], dropped', Prune(kept + [r], r.at))
  {
    hide Prune;
    var more := PruneDropsStale(kept + [r], r.at);
    dropped' := dropped + more;
    Associative(dropped, kept, [r]);
    Associative(dropped, more, Prune(kept + [r], r.at));
    var all := history + [r];
    assert all[|all| - 1] == r;
    if history != [] { assert all[|history| - 1] == history[|history| - 1] && all[|history|] == r; }
  }

  /** What the ledger has forgotten is more than the retention older than its latest reference. */
  lemma {:induction false} RunForgetsStale(es: seq<Event>) returns (dropped: seq<Ref>)
    requires Timely(RefsOf(es))
    ensures Forgets(RefsOf(es), dropped, Run(es).0.refs)
    decreases |es|
  {
    hide Forgets, Prune, SettleAll;
    if es == [] {
      dropped := [];
      assert Forgets([], [], []) by { EmptyForgets(); }
    } else {
      var init, e := es[..|es| - 1], es[|es| - 1];
      var before, s := RefsOf(init), Run(init).0;
      assert forall i :: 0 <= i < |before| ==> before[i] == RefsOf(es)[i];
      dropped := RunForgetsStale(init);
      match e
      case Referenced(r) => dropped := ReferenceForgets(before, dropped, s.refs, r);
      case Filled(f) => assert RefsOf(es) == before;
      case Settling(now) =>
        assert RefsOf(es) == before;
        RunConserves(init);
        SettleKeeps(s, now, FillsOf(init), Run(init).1);
    }
  }

  lemma EmptyForgets()
    ensures Forgets([], [], [])
  {}

  /**
   Forgetting never changes a mark: while the latest reference is at most two seconds short of the
   retention past a fill, its marks are the ones the whole reference history would give.
   */
  lemma MarksSurviveRetention(es: seq<Event>, f: Fill)
    requires Timely(RefsOf(es))
    requires RefsOf(es) != [] ==> RefsOf(es)[|RefsOf(es)| - 1].at <= f.at + 178
    ensures MarksOf(Run(es).0.refs, f) == MarksOf(RefsOf(es), f)
  {
    hide Run, RefsOf, Nearest;
    var history := RefsOf(es);
    var dropped := RunForgetsStale(es);
    var kept := Run(es).0.refs;
    NearestForgets(dropped, kept, f.pair, f.at + 1);
    NearestForgets(dropped, kept, f.pair, f.at + 10);
    NearestForgets(dropped, kept, f.pair, f.at + 60);
  }

  // ---- What a mark is worth ----

  /** The three marks of a fill, one, ten and sixty seconds after it. */
  ghost predicate ProperlyMarked(refs: seq<Ref>, o: Outcome) {
    && MarkedAround(refs, o.fill, o.fill.at + 1, o.marks[0])
    && MarkedAround(refs, o.fill, o.fill.at + 10, o.marks[1])
    && MarkedAround(refs, o.fill, o.fill.at + 60, o.marks[2])
  }

  lemma MarkIsAround(refs: seq<Ref>, f: Fill, h: nat)
    requires h < 3
    ensures MarkedAround(refs, f, f.at + HORIZONS[h], MarkAt(refs, f, h))
  {
    hide IsMarkout, Nearest, Fill.MarkoutE2, MarkedAround;
    var at := f.at + HORIZONS[h];
    NearestIsNearest(refs, f.pair, at);
    match Nearest(refs, f.pair, at)
    case None => UnmarkedAround(refs, f, at);
    case Some(best) =>
      var i: nat :| IsNearest(refs, f.pair, at, i) && best == (AbsDiff(refs[i].at, at), refs[i].price);
      MarkoutIsEarned(f, best.1);
      EarnedAround(refs, f, at, i, f.MarkoutE2(best.1));
  }

  lemma UnmarkedAround(refs: seq<Ref>, f: Fill, at: nat)
    requires forall r :: r in refs ==> !Candidate(r, f.pair, at)
    ensures MarkedAround(refs, f, at, None)
  {}

  lemma EarnedAround(refs: seq<Ref>, f: Fill, at: nat, i: nat, mark: Option<int>)
    requires IsNearest(refs, f.pair, at, i) && IsMarkout(f, refs[i].price, mark)
    ensures MarkedAround(refs, f, at, mark)
  {
    hide IsMarkout;
    NearestIsClose(refs, f.pair, at, i);
  }

  lemma NearestIsClose(refs: seq<Ref>, pair: nat, at: nat, i: nat)
    requires IsNearest(refs, pair, at, i)
    ensures refs[i] in refs && refs[i].pair == pair && AbsDiff(refs[i].at, at) <= 3
  {}

  lemma MarksAreProper(refs: seq<Ref>, f: Fill)
    ensures ProperlyMarked(refs, Outcome(f, MarksOf(refs, f)))
  {
    hide MarkedAround, MarkAt;
    MarkIsAround(refs, f, 0);
    MarkIsAround(refs, f, 1);
    MarkIsAround(refs, f, 2);
  }

  /** One settling: everything taken off is sixty seconds old and marked against the references then retained. */
  lemma {:induction false} SettlingMarks(s: Ledger, now: nat, o: Outcome)
    requires o in SettleAll(s, now).1
    ensures o.fill.at + 60 <= now && o == Outcome(o.fill, MarksOf(s.refs, o.fill)) && ProperlyMarked(s.refs, o)
    decreases |s.pending|
  {
    hide MarksOf, ProperlyMarked, Credit;
    var (next, first) := SettleFront(s);
    MarksAreProper(s.refs, first.fill);
    FrontLeaves(s);
    if o != first { SettlingMarks(next, now, o); }
  }

  /**
   Every mark of every run is earned: the fill was taken off by a settling at least sixty seconds after
   it, and marked against the references retained at that moment; while the latest of those is within
   178 seconds of the fill, that is the whole reference history.
   */
  lemma {:induction false} EveryMarkIsEarned(es: seq<Event>, o: Outcome) returns (k: nat)
    requires o in Run(es).1
    ensures k < |es| && es[k].Settling? && o.fill.at + 60 <= es[k].now
    ensures ProperlyMarked(Run(es[..k]).0.refs, o)
    ensures var history := RefsOf(es[..k]);
            Timely(history) && (history != [] ==> history[|history| - 1].at <= o.fill.at + 178) ==> ProperlyMarked(history, o)
    decreases |es|
  {
    hide ProperlyMarked, SettleAll, MarksOf, Prune, RefsOf;
    var init, e := es[..|es| - 1], es[|es| - 1];
    if o in Run(init).1 {
      k := EveryMarkIsEarned(init, o);
      assert init[..k] == es[..k];
    } else {
      k := |es| - 1;
      SettlingMarks(Run(init).0, e.now, o);
      var history := RefsOf(init);
      if Timely(history) && (history != [] ==> history[|history| - 1].at <= o.fill.at + 178) {
        MarksSurviveRetention(init, o.fill);
        MarksAreProper(history, o.fill);
      }
    }
  }

  /** A fill taken off reaches the scores exactly when it has a mark at some horizon. */
  lemma SettledHasMark(popped: seq<Outcome>, o: Outcome)
    ensures o in Settled(popped) <==> o in popped && exists h :: 0 <= h < 3 && o.marks[h].Some?
  {
    FilterMembers(IsMarked(), popped);
    if IsMarked()(o) {
      var h := if o.marks[0].Some? then 0 else if o.marks[1].Some? then 1 else 2;
      assert o.marks[h].Some?;
    }
  }

  // ---- Retention, exactly ----

  lemma {:induction false} PruneKeepsFresh(refs: seq<Ref>, now: nat)
    ensures Prune(refs, now) != [] ==> now <= Prune(refs, now)[0].at + 180
    ensures refs != [] && refs[|refs| - 1].at == now ==>
            Prune(refs, now) != [] && Prune(refs, now)[|Prune(refs, now)| - 1] == refs[|refs| - 1]
  {
    if refs != [] && Elapsed(now, refs[0].at) > RETENTION { PruneKeepsFresh(refs[1..], now); }
  }

  /** The oldest reference retained is at most 180 seconds older than the latest. */
  lemma {:induction false} FrontIsFresh(es: seq<Event>)
    requires Timely(RefsOf(es)) && RefsOf(es) != []
    ensures var kept := Run(es).0.refs;
            kept != [] && RefsOf(es)[|RefsOf(es)| - 1].at <= kept[0].at + 180
    decreases |es|
  {
    hide Prune, SettleAll;
    var init, e := es[..|es| - 1], es[|es| - 1];
    var before, s := RefsOf(init), Run(init).0;
    assert forall i :: 0 <= i < |before| ==> before[i] == RefsOf(es)[i];
    match e
    case Referenced(r) => PruneKeepsFresh(s.refs + [r], r.at);
    case Filled(f) => assert RefsOf(es) == before; FrontIsFresh(init);
    case Settling(now) =>
      assert RefsOf(es) == before;
      FrontIsFresh(init);
      RunConserves(init);
      SettleKeeps(s, now, FillsOf(init), Run(init).1);
  }

  /** Under ordered clocks exactly the references of the last 180 seconds are retained. */
  lemma RetentionIsExact(es: seq<Event>) returns (k: nat)
    requires Timely(RefsOf(es)) && RefsOf(es) != []
    ensures var history := RefsOf(es);
            && k <= |history| && Run(es).0.refs == history[k..]
            && forall i :: 0 <= i < |history| ==> (history[|history| - 1].at <= history[i].at + 180 <==> k <= i)
  {
    hide Run, RefsOf;
    var history := RefsOf(es);
    var dropped := RunForgetsStale(es);
    FrontIsFresh(es);
    k := |dropped|;
    var kept := Run(es).0.refs;
    assert history[k..] == kept && history[k] == kept[0];
    forall i | 0 <= i < |history| ensures history[|history| - 1].at <= history[i].at + 180 <==> k <= i {
      if i < k { assert history[i] == dropped[i] && dropped[i] in dropped; }
      else if i > k { assert history[k].at <= history[i].at; }
    }
  }

  // ---- The settlement loop ----

  /** Having popped `popped`, settling `s` finishes what settling `start` began. */
  ghost predicate Settles(popped: seq<Outcome>, s: Ledger, start: Ledger, now: nat) {
    && SettleAll(s, now).0 == SettleAll(start, now).0
    && popped + SettleAll(s, now).1 == SettleAll(start, now).1
  }

  lemma SettleStarts(s: Ledger, now: nat)
    ensures Settles([], s, s, now) && Settled([]) == []
  {
    assert [] + SettleAll(s, now).1 == SettleAll(s, now).1;
  }

  lemma SettleStep(popped: seq<Outcome>, s: Ledger, start: Ledger, now: nat)
    requires Settles(popped, s, start, now) && s.pending != [] && Matured(s.pending[0], now)
    ensures var (next, o) := SettleFront(s);
            && Settles(popped + [o], next, start, now)
            && Settled(popped + [o]) == if IsMarked()(o) then Settled(popped) + [o] else Settled(popped)
  {
    hide SettleFront, Settled, Filter, Matured;
    var (next, o) := SettleFront(s);
    FrontLeaves(s);
    SettledSnoc(popped, o);
    Associative(popped, [o], SettleAll(next, now).1);
  }

  lemma SettleEnds(popped: seq<Outcome>, s: Ledger, start: Ledger, now: nat)
    requires Settles(popped, s, start, now) && (s.pending == [] || !Matured(s.pending[0], now))
    ensures SettleAll(start, now) == (s, popped)
  {
    assert popped + [] == popped;
  }

  // ---- The mutable ledger ----

  class Markout {
    var pending: seq<Fill>
    var refs: seq<Ref>
    var scores: map<nat, Score>
    var perPair: map<nat, Score>
    var unmarked: nat

    ghost function Value(): Ledger
      reads this
    {
      Ledger(pending, refs, scores, perPair, unmarked)
    }

    constructor ()
      ensures Value() == Empty
    {
      pending, refs, scores, perPair, unmarked := [], [], map[], map[], 0;
    }

    method ObserveReference(pair: nat, at: u64, price: u128)
      modifies this
      ensures Value() == Step(old(Value()), Referenced(Ref(at, pair, price))).0
    {
      refs := refs + [Ref(at, pair, price)];
      ghost var pushed := refs;
      while refs != [] && Elapsed(at, refs[0].at) > RETENTION
        invariant Prune(refs, at) == Prune(pushed, at)
        invariant Value() == old(Value()).(refs := refs)
        decreases |refs|
      {
        refs := refs[1..];
      }
    }

    method ObserveFill(fill: Fill)
      modifies this
      ensures Value() == Step(old(Value()), Filled(fill)).0
    {
      pending := pending + [fill];
    }

    /** Mark and fold every matured fill at the front of the queue; the marked ones are returned. */
    method Settle(now: u64) returns (settled: seq<Outcome>)
      modifies this
      ensures Value() == Step(old(Value()), Settling(now)).0
      ensures settled == Settled(Step(old(Value()), Settling(now)).1)
    {
      hide Settled, Filter, Credit, MarksOf, SettleAll, Settles;
      SettleStarts(Value(), now);
      settled := [];
      ghost var popped: seq<Outcome> := [];
      while pending != [] && Matured(pending[0], now)
        invariant Settles(popped, Value(), old(Value()), now)
        invariant settled == Settled(popped)
        decreases |pending|
      {
        SettleStep(popped, Value(), old(Value()), now);
        var fill := pending[0];
        pending := pending[1..];
        var marks := Mark(fill, now);
        popped := popped + [Outcome(fill, marks)];
        if marks[0].None? && marks[1].None? && marks[2].None? {
          unmarked := unmarked + 1;
        } else {
          Fold(fill, marks);
          settled := settled + [Outcome(fill, marks)];
        }
      }
      SettleEnds(popped, Value(), old(Value()), now);
    }

    /** One mark per horizon; a horizon without a reference near it has none. */
    method Mark(fill: Fill, now: u64) returns (marks: Marks)
      requires Matured(fill, now)
      ensures marks == MarksOf(refs, fill)
    {
      marks := [None, None, None];
      for i := 0 to 3
        invariant forall j :: 0 <= j < i ==> marks[j] == MarkAt(refs, fill, j)
        invariant forall j :: i <= j < 3 ==> marks[j] == None
      {
        var target: u64 := fill.at + HORIZONS[i];
        var price := ReferenceAt(fill.pair, target);
        if price.Some? {
          marks := marks[i := fill.MarkoutE2(price.value)];
        }
      }
    }

    /** The retained reference nearest to `at`, within the tolerance; the earlier one on a tie. */
    method ReferenceAt(pair: nat, at: u64) returns (price: Option<u128>)
      ensures price == ReferencePrice(refs, pair, at)
    {
      var best: Option<(nat, u128)> := None;
      for i := 0 to |refs|
        invariant best == Nearest(refs[..i], pair, at)
      {
        assert refs[..i + 1][..i] == refs[..i];
        var r := refs[i];
        if r.pair == pair {
          var d := AbsDiff(r.at, at);
          if d <= TOLERANCE && (best.None? || d < best.value.0) {
            best := Some((d, r.price));
          }
        }
      }
      assert refs[..|refs|] == refs;
      price := if best.None? then None else Some(best.value.1);
    }

    method Fold(fill: Fill, marks: Marks)
      modifies this
      ensures var o := Outcome(fill, marks);
              Value() == old(Value()).(scores := Credit(old(scores), fill.receiver, o), perPair := Credit(old(perPair), fill.pair, o))
    {
      var score := Accrue(ScoreOf(scores, fill.receiver), fill, marks);
      scores := scores[fill.receiver := score];
      score := Accrue(ScoreOf(perPair, fill.pair), fill, marks);
      perPair := perPair[fill.pair := score];
    }

    static method Accrue(before: Score, fill: Fill, marks: Marks) returns (score: Score)
      ensures score == Add(before, Outcome(fill, marks))
    {
      score := before.(fills := before.fills + 1, notional := Min(U128_MAX, before.notional + FoldNotional(fill)));
      if score.firstSeen == 0 {
        score := score.(firstSeen := fill.at);
      }
      score := score.(lastSeen := fill.at);
      ghost var frame := score;
      for i := 0 to 3
        invariant score == frame.(pnl := score.pnl)
        invariant forall j :: 0 <= j < 3 ==>
                    score.pnl[j] == if j < i then AddMark(before.pnl[j], fill, marks[j]) else before.pnl[j]
      {
        if marks[i].Some? {
          var contribution := TruncDiv(Saturate(marks[i].value * FoldNotional(fill)), MILLION);
          score := score.(pnl := score.pnl[i := Saturate(score.pnl[i] + contribution)]);
        }
      }
    }
  }
}
