/** Search of the prescaler and segment lengths nearest to a requested bitrate and sample point
    (pcan_bitrate_to_bittiming, the variant derived from Linux 4.8). */
module BitTiming {
  import opened Words
  import opened SamplePoint

  const MHZ := 1_000_000
  const GHZ := 1_000_000_000
  const CALC_MAX_ERROR := 50

  /** Timing of a channel (struct pcan_bittiming). */
  datatype Timing = Timing(
    brp: u32, tseg1: u32, tseg2: u32, sjw: u32, tsam: u32,
    bitrate: u32, samplePoint: u32, tq: u32)

  datatype Status = Done | Invalid | Domain

  /** What the search is asked for: controller, clock, bitrate and nominal sample point. */
  datatype Query = Query(btc: Range, clk: u32, bitrate: u32, nominal: u32)

  /** The recommended sample point when the caller names none (CiA 301, CiA 601-1). */
  function NominalPoint(bt: Timing): u32 {
    if bt.samplePoint != 0 then bt.samplePoint
    else if bt.bitrate > 800_000 then 7500
    else if bt.bitrate > 500_000 then 8000
    else 8750
  }

  function QueryOf(btc: Range, clk: u32, bt: Timing): Query {
    Query(btc, clk, bt.bitrate, NominalPoint(bt))
  }

  /** Ranges and rates for which no sum or product of the search leaves 32 bits and no divisor is zero. At a
      nominal point of 100% no length tried may be one whose second attempt wraps. */
  predicate NoOverflow(q: Query) {
    && q.bitrate > 0 && q.clk > 0
    && q.btc.brpInc > 0 && q.btc.brpMin > 0
    && q.btc.tseg1Min + q.btc.tseg2Min > 0
    && q.btc.tseg2Min <= q.btc.tseg2Max
    && q.btc.tseg1Max + q.btc.tseg2Max < SAMPT_SCALE
    && (q.btc.tseg1Max + q.btc.tseg2Max + 1) * q.bitrate <= UINT_MAX
    && (q.btc.tseg1Max + q.btc.tseg2Max + 1) * q.btc.brpMax <= UINT_MAX
    && q.nominal <= SAMPT_SCALE
    && (q.btc.tseg1Min + q.btc.tseg2Min) * 2 <= UINT_MAX
    && (q.nominal == SAMPT_SCALE ==>
          Min(q.btc.tseg2Max, q.btc.tseg1Max + q.btc.tseg2Min) <= Max(q.btc.tseg1Max, q.btc.tseg1Min + q.btc.tseg2Min))
  }

  // ---------------------------------------------------------------- candidates
  // A candidate t stands for a bit of 1 + t / 2 quanta; t % 2 says which way its prescaler is rounded.

  function First(q: Query): nat { (q.btc.tseg1Max + q.btc.tseg2Max) * 2 + 1 }

  function Last(q: Query): nat { (q.btc.tseg1Min + q.btc.tseg2Min) * 2 }

  function Quanta(t: nat): (n: nat)
    ensures n > 0
  {
    1 + t / 2
  }

  function Brp(q: Query, t: nat): nat
    requires q.bitrate > 0 && q.btc.brpInc > 0
  {
    ProductPositive(Quanta(t), q.bitrate);
    StepDown(q.clk / (Quanta(t) * q.bitrate) + t % 2, q.btc.brpInc)
  }

  /** The next prescaler the controller can be set to. */
  function StepDown(brp: nat, inc: nat): nat
    requires inc > 0
  {
    var steps: nat := brp / inc;
    ProductNatural(steps, inc);
    steps * inc
  }

  /** The largest multiple of the increment up to the quotient. */
  lemma StepDownExactly(brp: nat, inc: nat) returns (k: nat)
    requires inc > 0
    ensures StepDown(brp, inc) == k * inc <= brp < (k + 1) * inc
  {
    hide StepDown;
    QuotientBounds(brp, inc);
    k := Steps(brp, inc);
  }

  lemma Steps(brp: nat, inc: nat) returns (k: nat)
    requires inc > 0
    ensures k == brp / inc && StepDown(brp, inc) == k * inc
  {
    var steps: nat := brp / inc;
    k := steps;
  }

  predicate Admissible(q: Query, t: nat)
    requires NoOverflow(q)
  {
    Last(q) <= t <= First(q) && q.btc.brpMin <= Brp(q, t) <= q.btc.brpMax
  }

  /** The bitrate a prescaler p and n quanta give. */
  function Rate(clk: nat, p: nat, n: nat): nat
    requires p > 0 && n > 0
  {
    ProductPositive(p, n);
    clk / (p * n)
  }

  function BitrateError(q: Query, t: nat): u32
    requires NoOverflow(q) && Admissible(q, t)
  {
    AbsInt32(U32(q.bitrate - Rate(q.clk, Brp(q, t), Quanta(t))))
  }

  ghost function CandidatePointError(q: Query, t: nat): nat {
    PointError(q.btc, q.nominal, t / 2)
  }

  /** Candidate a is at least as good as b: bitrate error first, then sample point error. */
  ghost predicate NoWorse(q: Query, a: nat, b: nat)
    requires NoOverflow(q) && Admissible(q, a) && Admissible(q, b)
  {
    || BitrateError(q, a) < BitrateError(q, b)
    || (BitrateError(q, a) == BitrateError(q, b) && CandidatePointError(q, a) <= CandidatePointError(q, b))
  }

  ghost predicate Exact(q: Query, a: nat)
    requires NoOverflow(q) && Admissible(q, a)
  {
    BitrateError(q, a) == 0 && CandidatePointError(q, a) == 0
  }

  /** The candidate the search settles on: no candidate is better; among equals the shortest bit wins,
      unless they are exact, in which case the first one met, the longest, wins. */
  ghost predicate IsBest(q: Query, a: nat)
    requires NoOverflow(q)
    ensures IsBest(q, a) ==> Admissible(q, a)
  {
    && Admissible(q, a)
    && (forall b: nat :: Admissible(q, b) ==> NoWorse(q, a, b))
    && (forall b: nat :: Admissible(q, b) && NoWorse(q, b, a) && b != a ==>
          if Exact(q, a) then b < a else a < b)
  }

  lemma BestIsUnique(q: Query, a: nat, b: nat)
    requires NoOverflow(q) && IsBest(q, a) && IsBest(q, b)
    ensures a == b
  {
    hide BitrateError, CandidatePointError;
    assert NoWorse(q, a, b) && NoWorse(q, b, a);
  }

  // ---------------------------------------------------------------- tolerance

  /** The final 0.5% test, with the quotient cut to 32 bits as in the source. */
  predicate Tolerated(bitrate: u32, error: u32)
    requires bitrate > 0
  {
    error == 0 || U32(error * SAMPT_SCALE / bitrate) <= CALC_MAX_ERROR
  }

  /** A quotient k * 2^32 + w of the sentinel by a 32-bit bitrate has a large low word w. */
  lemma SentinelLowWord(bitrate: u32, k: nat, w: nat)
    requires bitrate > 0
    requires (k * 0x1_0000_0000 + w) * bitrate <= UINT_MAX * SAMPT_SCALE < (k * 0x1_0000_0000 + w + 1) * bitrate
    ensures w > CALC_MAX_ERROR
  {
    SentinelProducts(bitrate, k * bitrate, w * bitrate);
    if w <= CALC_MAX_ERROR {
      MulMonotone(w, CALC_MAX_ERROR, bitrate);
    }
  }

  lemma SentinelProducts(bitrate: u32, high: nat, low: nat)
    requires bitrate > 0 && (high == 0 || high >= bitrate)
    requires high * 0x1_0000_0000 + low <= UINT_MAX * SAMPT_SCALE < high * 0x1_0000_0000 + low + bitrate
    ensures low > CALC_MAX_ERROR * bitrate
  {
    if high > 0 {
      assert high <= SAMPT_SCALE - 1;
      assert high * 0x1_0000_0000 <= (SAMPT_SCALE - 1) * 0x1_0000_0000;
      assert low > 0x1_0000_0000 - SAMPT_SCALE - bitrate;
    }
  }

  /** The sentinel left by an empty search never passes the test, although its quotient is cut too. */
  lemma SentinelRejected(bitrate: u32)
    requires bitrate > 0
    ensures !Tolerated(bitrate, UINT_MAX)
  {
    var v := UINT_MAX * SAMPT_SCALE / bitrate;
    var k, w := v / 0x1_0000_0000, v % 0x1_0000_0000;
    assert v == k * 0x1_0000_0000 + w;
    assert v * bitrate <= UINT_MAX * SAMPT_SCALE < (v + 1) * bitrate;
    SentinelLowWord(bitrate, k, w);
  }

  // ---------------------------------------------------------------- the search

  ghost predicate Sjw(btc: Range, asked: u32, tseg2: u32, sjw: u32) {
    sjw == if asked == 0 || btc.sjwMax == 0 then 1 else Min(Min(asked, btc.sjwMax), tseg2)
  }

  /** The fields filled in for candidate t. */
  ghost predicate Filled(q: Query, bt: Timing, t: nat, r: Timing)
    requires NoOverflow(q)
  {
    && r.brp == Brp(q, t) && r.tq == U32(Brp(q, t) * GHZ / q.clk)
    && r.bitrate == bt.bitrate && r.tsam == bt.tsam
    && Sjw(q.btc, bt.sjw, r.tseg2, r.sjw)
    && if HasFit(q.btc, q.nominal, t / 2) then
         && BestFit(q.btc, q.nominal, t / 2, r.tseg2)
         && r.tseg1 == t / 2 - r.tseg2
         && r.samplePoint == PointAt(r.tseg1 + 1, t / 2 + 1)
       else
         r.samplePoint == 0
  }

  /** The bitrate cannot be met: there is no candidate, or the best one is out of tolerance. */
  ghost predicate Unmet(q: Query)
    requires NoOverflow(q)
  {
    || (forall t: nat :: !Admissible(q, t))
    || (exists t: nat :: IsBest(q, t) && !Tolerated(q.bitrate, BitrateError(q, t)))
  }

  /** What a call promises: an unusable sample point is refused; otherwise the best candidate decides
      alone whether the bitrate can be met and, if so, gives the timing. */
  ghost predicate Outcome(btc: Range, clk: u32, bt: Timing, status: Status, r: Timing)
    requires bt.samplePoint <= SAMPT_SCALE ==> NoOverflow(QueryOf(btc, clk, bt))
  {
    if bt.samplePoint > SAMPT_SCALE then
      status == Invalid && r == bt
    else
      var q := QueryOf(btc, clk, bt);
      || (status == Done && exists t: nat :: IsBest(q, t) && Tolerated(q.bitrate, BitrateError(q, t)) && Filled(q, bt, t, r))
      || (status == Domain && r == bt && Unmet(q))
  }

  /** The running optimum after the candidates above `next` have been examined. */
  ghost predicate BestAbove(q: Query, next: int, a: nat)
    requires NoOverflow(q)
  {
    && next < a && Admissible(q, a)
    && (forall b: nat :: next < b && Admissible(q, b) ==> NoWorse(q, a, b))
    && (forall b: nat :: next < b < a && Admissible(q, b) ==> !NoWorse(q, b, a))
    && (forall b: nat :: next < b && Admissible(q, b) && b != a ==> !Exact(q, b))
  }

  /** What has been found above `next`; best is 0 while no candidate was admissible. */
  ghost predicate Running(q: Query, next: int, best: nat, error: u32, pointError: u32)
    requires NoOverflow(q)
  {
    if best == 0 then
      error == UINT_MAX && pointError == UINT_MAX && forall b: nat :: next < b ==> !Admissible(q, b)
    else
      BestAbove(q, next, best) && error == BitrateError(q, best) && pointError == CandidatePointError(q, best)
  }

  lemma Skip(q: Query, t: nat, best: nat, error: u32, pointError: u32)
    requires NoOverflow(q) && Running(q, t, best, error, pointError)
    requires best != 0 ==> Admissible(q, best) && !Exact(q, best)
    requires Admissible(q, t) ==>
               || BitrateError(q, t) > error
               || (BitrateError(q, t) == error && CandidatePointError(q, t) > pointError)
    ensures Running(q, t - 1, best, error, pointError)
  {
    hide BitrateError, CandidatePointError, Brp;
    if Admissible(q, t) {
      ErrorBound(q, t);
    }
  }

  lemma Take(q: Query, t: nat, best: nat, error: u32, pointError: u32)
    requires NoOverflow(q) && Running(q, t, best, error, pointError) && Admissible(q, t) && t > 0
    requires best != 0 ==> Admissible(q, best) && !Exact(q, best)
    requires || BitrateError(q, t) < error
             || (BitrateError(q, t) == error && CandidatePointError(q, t) <= pointError)
    ensures Running(q, t - 1, t, BitrateError(q, t), CandidatePointError(q, t))
  {
    hide BitrateError, CandidatePointError, Brp;
  }

  /** The search may stop below the last candidate, or right after an exact one. */
  lemma Settle(q: Query, next: int, best: nat, error: u32, pointError: u32)
    requires NoOverflow(q) && Running(q, next, best, error, pointError) && best != 0
    requires if Exact(q, best) then best == next + 1 else next < Last(q)
    ensures IsBest(q, best)
  {
    hide BitrateError, CandidatePointError, Brp;
  }

  lemma ErrorBound(q: Query, t: nat)
    requires NoOverflow(q) && Admissible(q, t)
    ensures BitrateError(q, t) < UINT_MAX
  {
  }

  lemma LegalLength(q: Query, t: nat)
    requires NoOverflow(q) && Last(q) <= t <= First(q)
    ensures Legal(q.btc, t / 2) && !Wraps(q.btc, q.nominal, t / 2)
  {
  }

  /** The timing nearest to bt's bitrate and sample point. */
  method BitrateToBittiming(bt: Timing, btc: Range, clk: u32) returns (status: Status, r: Timing)
    requires bt.samplePoint <= SAMPT_SCALE ==> NoOverflow(QueryOf(btc, clk, bt))
    ensures Outcome(btc, clk, bt, status, r)
  {
    hide Brp, BitrateError, CandidatePointError, PointAt, BestFit, Rate, U32, Legal, Wraps, Running, IsBest;
    if bt.samplePoint > SAMPT_SCALE {
      return Invalid, bt;
    }
    var q := QueryOf(btc, clk, bt);
    var bestError: u32, bestPointError: u32 := UINT_MAX, UINT_MAX;
    var bestTseg: u32, bestBrp: u32, tseg1: u32, tseg2: u32 := 0, 0, 0, 0;
    ghost var best: nat := 0;
    var t: int := First(q);
    Start(q);
    while t >= Last(q)
      invariant t <= First(q)
      invariant Running(q, t, best, bestError, bestPointError)
      invariant best != 0 ==> Admissible(q, best) && !Exact(q, best)
      invariant best != 0 ==> bestTseg == best / 2 && bestBrp == Brp(q, best)
      decreases t
    {
      var brp := Brp(q, t);
      if brp < btc.brpMin || brp > btc.brpMax {
        Skip(q, t, best, bestError, bestPointError);
        t := t - 1;
        continue;
      }
      var bitrateError := BitrateError(q, t);
      if bitrateError > bestError {
        Skip(q, t, best, bestError, bestPointError);
        t := t - 1;
        continue;
      }
      ghost var oldPointError := bestPointError;
      if bitrateError < bestError {
        bestPointError := UINT_MAX;
      }
      LegalLength(q, t);
      var point, pointError;
      point, tseg1, tseg2, pointError := UpdateSamplePoint(btc, q.nominal, t / 2, tseg1, tseg2);
      PointErrorOf(q, t, pointError);
      if pointError > bestPointError {
        Skip(q, t, best, bestError, bestPointError);
        t := t - 1;
        continue;
      }
      Take(q, t, best, bestError, oldPointError);
      bestPointError := pointError;
      bestError := bitrateError;
      bestTseg := t / 2;
      bestBrp := brp;
      best := t;
      t := t - 1;
      if bitrateError == 0 && pointError == 0 {
        break;
      }
    }
    Conclude(q, t, best, bestError, bestPointError);
    if bestError != 0 && U32(bestError * SAMPT_SCALE / bt.bitrate) > CALC_MAX_ERROR {
      return Domain, bt;
    }
    LegalLength(q, best);
    var point, pointError;
    point, tseg1, tseg2, pointError := UpdateSamplePoint(btc, q.nominal, bestTseg, tseg1, tseg2);
    var sjw := if bt.sjw == 0 || btc.sjwMax == 0 then 1
               else var capped := Min(bt.sjw, btc.sjwMax); if tseg2 < capped then tseg2 else capped;
    r := bt.(samplePoint := point, tq := U32(bestBrp * GHZ / clk),
             tseg1 := tseg1, tseg2 := tseg2, brp := bestBrp, sjw := sjw);
    assert Filled(q, bt, best, r);
    return Done, r;
  }

  lemma Start(q: Query)
    requires NoOverflow(q)
    ensures Running(q, First(q), 0, UINT_MAX, UINT_MAX)
  {
  }

  lemma PointErrorOf(q: Query, t: nat, e: nat)
    requires e == PointError(q.btc, q.nominal, t / 2)
    ensures e == CandidatePointError(q, t)
  {
  }

  /** At the end of the loop either nothing was admissible and the sentinel is refused, or the running
      optimum is the best candidate. */
  lemma Conclude(q: Query, next: int, best: nat, error: u32, pointError: u32)
    requires NoOverflow(q) && Running(q, next, best, error, pointError)
    requires best != 0 ==> Admissible(q, best)
    requires if best != 0 && Exact(q, best) then best == next + 1 else next < Last(q)
    ensures best != 0 ==> IsBest(q, best) && error == BitrateError(q, best)
    ensures best == 0 ==> !Tolerated(q.bitrate, error) && error == UINT_MAX && forall t: nat :: !Admissible(q, t)
  {
    hide BitrateError, CandidatePointError, Brp, IsBest, Tolerated;
    if best == 0 {
      SentinelRejected(q.bitrate);
    } else {
      Settle(q, next, best, error, pointError);
    }
  }

  // ---------------------------------------------------------------- what an accepted timing carries

  /** No legal cut of the length puts the sample point between the one given and the limit. */
  ghost predicate NoLaterCut(btc: Range, tseg: nat, point: nat, limit: nat) {
    forall t2: nat :: Feasible(btc, tseg, t2) ==> !(point < PointAt(tseg + 1 - t2, tseg + 1) <= limit)
  }

  function DefaultLimit(bitrate: nat): nat {
    if bitrate <= 500_000 then 8750 else if bitrate <= 800_000 then 8000 else 7500
  }

  /** Without a sample point in the request the one returned is the latest cut of its bit that does not pass
      75% above 800 kbit/s, 80% above 500 kbit/s and 87.5% below. */
  lemma DefaultPoint(btc: Range, clk: u32, bt: Timing, r: Timing)
    requires bt.samplePoint == 0 && NoOverflow(QueryOf(btc, clk, bt)) && Outcome(btc, clk, bt, Done, r)
    ensures r.samplePoint <= DefaultLimit(bt.bitrate)
    ensures r.samplePoint > 0 ==>
              && Feasible(btc, r.tseg1 + r.tseg2, r.tseg2) && r.samplePoint == PointAt(1 + r.tseg1, 1 + r.tseg1 + r.tseg2)
              && NoLaterCut(btc, r.tseg1 + r.tseg2, r.samplePoint, DefaultLimit(bt.bitrate))
  {
    hide NoOverflow, PointAt, Outcome;
    LatestPoint(btc, clk, bt, r);
  }

  /** The sample point returned is the latest cut of its bit that does not pass the nominal one. */
  lemma LatestPoint(btc: Range, clk: u32, bt: Timing, r: Timing)
    requires bt.samplePoint <= SAMPT_SCALE && NoOverflow(QueryOf(btc, clk, bt)) && Outcome(btc, clk, bt, Done, r)
    ensures r.samplePoint <= NominalPoint(bt)
    ensures r.samplePoint > 0 ==>
              && Feasible(btc, r.tseg1 + r.tseg2, r.tseg2) && r.samplePoint == PointAt(1 + r.tseg1, 1 + r.tseg1 + r.tseg2)
              && NoLaterCut(btc, r.tseg1 + r.tseg2, r.samplePoint, NominalPoint(bt))
  {
    hide Brp, PointAt, Rate, PointError, BitrateError, Tolerated, IsBest, BestFit;
    var q := QueryOf(btc, clk, bt);
    var t: nat :| IsBest(q, t) && Tolerated(q.bitrate, BitrateError(q, t)) && Filled(q, bt, t, r);
    hide NoOverflow;
    if HasFit(btc, q.nominal, t / 2) {
      BestIsLatest(btc, q.nominal, t / 2, r.tseg2);
    }
  }

  lemma BestIsLatest(btc: Range, nominal: nat, tseg: nat, t2: nat)
    requires BestFit(btc, nominal, tseg, t2)
    ensures Feasible(btc, tseg, t2) && PointAt(tseg + 1 - t2, tseg + 1) <= nominal
    ensures NoLaterCut(btc, tseg, PointAt(tseg + 1 - t2, tseg + 1), nominal)
  {
    hide PointAt;
    forall t: nat | Feasible(btc, tseg, t)
      ensures !(PointAt(tseg + 1 - t2, tseg + 1) < PointAt(tseg + 1 - t, tseg + 1) <= nominal)
    {
      assert PointAt(tseg + 1 - t, tseg + 1) <= nominal ==> Fits(btc, nominal, tseg, t);
    }
  }

  /** The jump width asked for is kept unless the controller or the second segment is too short for it; zero
      asks for one. A quantum lasts brp clock ticks. */
  lemma WidthAndQuantum(btc: Range, clk: u32, bt: Timing, r: Timing)
    requires bt.samplePoint <= SAMPT_SCALE && NoOverflow(QueryOf(btc, clk, bt)) && Outcome(btc, clk, bt, Done, r)
    ensures bt.sjw == 0 || btc.sjwMax == 0 ==> r.sjw == 1
    ensures 0 < bt.sjw <= btc.sjwMax && bt.sjw <= r.tseg2 ==> r.sjw == bt.sjw
    ensures bt.sjw > 0 && btc.sjwMax > 0 ==>
              r.sjw <= bt.sjw && r.sjw <= btc.sjwMax && r.sjw <= r.tseg2
              && (r.sjw == bt.sjw || r.sjw == btc.sjwMax || r.sjw == r.tseg2)
    ensures clk > 0 && (r.brp * 1_000_000_000 / clk <= UINT_MAX ==> r.tq * clk <= r.brp * 1_000_000_000 < (r.tq + 1) * clk)
    ensures r.bitrate == bt.bitrate && r.tsam == bt.tsam
  {
    hide Brp, PointAt, Rate, PointError, BitrateError, Tolerated, IsBest, BestFit, U32;
    var q := QueryOf(btc, clk, bt);
    var t: nat :| IsBest(q, t) && Tolerated(q.bitrate, BitrateError(q, t)) && Filled(q, bt, t, r);
    hide NoOverflow, Filled;
    QuantumLasts(r.brp, clk);
  }

  /** An accepted prescaler lies in the range of the controller and is a multiple of its increment. */
  lemma PrescalerInRange(btc: Range, clk: u32, bt: Timing, r: Timing) returns (k: nat)
    requires bt.samplePoint <= SAMPT_SCALE && NoOverflow(QueryOf(btc, clk, bt)) && Outcome(btc, clk, bt, Done, r)
    ensures r.brp == k * btc.brpInc && btc.brpMin <= r.brp <= btc.brpMax
  {
    hide PointAt, Rate, PointError, BitrateError, Tolerated, IsBest, BestFit, Brp;
    var q := QueryOf(btc, clk, bt);
    var t: nat :| IsBest(q, t) && Tolerated(q.bitrate, BitrateError(q, t)) && Filled(q, bt, t, r);
    k := CandidateStep(q, t);
  }

  lemma CandidateStep(q: Query, t: nat) returns (k: nat)
    requires q.bitrate > 0 && q.btc.brpInc > 0
    ensures Brp(q, t) == k * q.btc.brpInc
  {
    hide StepDown;
    ProductPositive(Quanta(t), q.bitrate);
    k := StepDownExactly(q.clk / (Quanta(t) * q.bitrate) + t % 2, q.btc.brpInc);
  }

  lemma QuantumLasts(brp: nat, clk: u32)
    requires clk > 0
    ensures var tq := U32(brp * GHZ / clk);
            brp * GHZ / clk <= UINT_MAX ==> tq * clk <= brp * GHZ < (tq + 1) * clk
  {
    hide U32;
    QuotientBounds(brp * GHZ, clk);
    if brp * GHZ / clk <= UINT_MAX {
      FitsU32(brp * GHZ / clk);
    }
  }
}
