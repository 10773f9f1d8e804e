/** Placing the sample point inside a bit of a given length (pcan_update_sample_point). */
module SamplePoint {
  import opened Words

  /** Scale of a sample point: 10000 stands for 100%. */
  const SAMPT_SCALE := 10000

  /** Capabilities of a CAN controller (struct pcanfd_bittiming_range). */
  datatype Range = Range(
    brpMin: u32, brpMax: u32, brpInc: u32,
    tseg1Min: u32, tseg1Max: u32,
    tseg2Min: u32, tseg2Max: u32,
    sjwMin: u32, sjwMax: u32)

  /** Ranges and a length of `tseg` quanta (sync segment excluded) that stay clear of overflows. */
  predicate Legal(btc: Range, tseg: nat) {
    && btc.tseg2Min <= btc.tseg2Max <= SAMPT_SCALE
    && btc.tseg1Max <= SAMPT_SCALE
    && btc.tseg2Min <= tseg <= btc.tseg1Max + btc.tseg2Max
    && tseg < SAMPT_SCALE
  }

  /** A second segment of t2 quanta leaves a legal first one. */
  predicate Feasible(btc: Range, tseg: nat, t2: nat) {
    && btc.tseg2Min <= t2 <= btc.tseg2Max
    && t2 <= tseg
    && tseg - t2 <= btc.tseg1Max
  }

  /** Sample point of a bit whose first k quanta precede it, out of n. */
  function PointAt(k: nat, n: nat): nat
    requires n > 0
  {
    SAMPT_SCALE * k / n
  }

  /** Quanta before the sample point when the nominal position is rounded down. */
  function Reach(nominal: nat, n: nat): nat { nominal * n / SAMPT_SCALE }

  predicate Fits(btc: Range, nominal: nat, tseg: nat, t2: nat) {
    Feasible(btc, tseg, t2) && PointAt(tseg + 1 - t2, tseg + 1) <= nominal
  }

  /** t2 puts the sample point as late as possible without passing the nominal one. */
  ghost predicate BestFit(btc: Range, nominal: nat, tseg: nat, t2: nat) {
    && Fits(btc, nominal, tseg, t2)
    && forall t: nat :: Fits(btc, nominal, tseg, t) ==> PointAt(tseg + 1 - t, tseg + 1) <= PointAt(tseg + 1 - t2, tseg + 1)
  }

  ghost predicate HasFit(btc: Range, nominal: nat, tseg: nat) {
    exists t2: nat :: BestFit(btc, nominal, tseg, t2)
  }

  /** Distance of the best fit from the nominal sample point; UINT_MAX when there is no fit. */
  ghost function PointError(btc: Range, nominal: nat, tseg: nat): (e: nat)
    ensures (exists t2: nat :: BestFit(btc, nominal, tseg, t2)) ==> e <= nominal
  {
    if t2: nat :| BestFit(btc, nominal, tseg, t2) then nominal - PointAt(tseg + 1 - t2, tseg + 1) else UINT_MAX
  }

  lemma {:induction false} FitGivesBest(btc: Range, nominal: nat, tseg: nat, t2: nat)
    requires tseg < SAMPT_SCALE && Fits(btc, nominal, tseg, t2)
    ensures HasFit(btc, nominal, tseg)
    decreases t2
  {
    hide PointAt;
    if t: nat :| t < t2 && Fits(btc, nominal, tseg, t) {
      FitGivesBest(btc, nominal, tseg, t);
    } else {
      forall t: nat | Fits(btc, nominal, tseg, t)
        ensures PointAt(tseg + 1 - t, tseg + 1) <= PointAt(tseg + 1 - t2, tseg + 1)
      {
        if t2 < t { PointIncreases(tseg + 1 - t, tseg + 1 - t2, tseg + 1); }
      }
      assert BestFit(btc, nominal, tseg, t2);
    }
  }

  // ---------------------------------------------------------------- the two attempts

  function Clamp(x: int, lo: int, hi: int): int { Min(Max(x, lo), hi) }

  /** The segments tried once the length of the second one has been guessed. */
  function Cut(btc: Range, tseg: u32, guess: u32): (r: (u32, u32))
    requires btc.tseg2Min <= btc.tseg2Max
  {
    var t2: u32 := Clamp(guess, btc.tseg2Min, btc.tseg2Max);
    var t1 := U32(tseg - t2);
    if t1 > btc.tseg1Max then (btc.tseg1Max, U32(tseg - btc.tseg1Max)) else (t1, t2)
  }

  /** The segments tried in iteration i, with the 32-bit arithmetic of the source. */
  function Attempt(btc: Range, nominal: u32, tseg: u32, i: nat): (r: (u32, u32))
    requires btc.tseg2Min <= btc.tseg2Max
  {
    Cut(btc, tseg, U32(tseg + 1 - U32(nominal * (tseg + 1)) / SAMPT_SCALE - i))
  }

  /** The sample point computed for a second segment of t2 quanta. */
  function AttemptPoint(tseg: u32, t2: u32): nat {
    U32(SAMPT_SCALE * U32(tseg + 1 - t2)) / (tseg + 1)
  }

  /** Points are strictly increasing in k as long as a bit has at most 10000 quanta. */
  lemma PointIncreases(k: nat, k': nat, n: nat)
    requires 0 < n <= SAMPT_SCALE && k < k'
    ensures PointAt(k, n) < PointAt(k', n)
  {
  }

  /** The truncated product q = nominal * n / 10000 decides: q quanta never pass the nominal point,
      q + 2 always do, q + 1 may do neither because the point itself is truncated. */
  lemma PointBound(nominal: nat, n: nat, k: nat)
    requires 0 < n <= SAMPT_SCALE
    ensures var q := Reach(nominal, n);
            && (k <= q ==> PointAt(k, n) <= nominal)
            && (k >= q + 2 ==> PointAt(k, n) > nominal)
  {
    var q := Reach(nominal, n);
    QuotientAtMost(SAMPT_SCALE * k, n, nominal);
    assert (nominal + 1) * n == nominal * n + n;
  }

  lemma BestFitUnique(btc: Range, nominal: nat, tseg: nat, t2: nat)
    requires tseg < SAMPT_SCALE && BestFit(btc, nominal, tseg, t2)
    ensures forall t: nat :: BestFit(btc, nominal, tseg, t) ==> t == t2
    ensures PointError(btc, nominal, tseg) == nominal - PointAt(tseg + 1 - t2, tseg + 1)
  {
    forall t: nat | BestFit(btc, nominal, tseg, t)
      ensures t == t2
    {
      if t < t2 { PointIncreases(tseg + 1 - t2, tseg + 1 - t, tseg + 1); }
      if t > t2 { PointIncreases(tseg + 1 - t, tseg + 1 - t2, tseg + 1); }
    }
  }

  /** At a nominal point of 100% the second attempt subtracts one from zero; when the controller also
      allows longer second segments than this bit has quanta, the cut it falls back to is illegal. */
  predicate Wraps(btc: Range, nominal: nat, tseg: nat) {
    && nominal == SAMPT_SCALE
    && btc.tseg1Max <= tseg < btc.tseg2Max
    && tseg - btc.tseg1Max < btc.tseg2Min
  }

  /** What iteration i yields for a truncated product q: the feasible cut nearest to q + i quanta,
      or, where a subtraction wraps, a cut with tseg1Max + 1 quanta before the sample point. */
  predicate CutIs(btc: Range, tseg: u32, q: nat, i: nat, r: (u32, u32)) {
    var n := tseg + 1;
    var lo, hi := Max(btc.tseg2Min, tseg - btc.tseg1Max), Min(btc.tseg2Max, tseg);
    if btc.tseg2Max > tseg && ((q == 0 && i == 0 && btc.tseg1Max > 0) || (q == n && i == 1)) then
      r == (btc.tseg1Max, U32(tseg - btc.tseg1Max))
    else
      && Feasible(btc, tseg, r.1)
      && r.0 == tseg - r.1
      && r.1 == if q == n && i == 1 then hi else Clamp(n - q - i, lo, hi)
  }

  lemma CutNearest(btc: Range, tseg: u32, q: nat, i: nat)
    requires Legal(btc, tseg) && q <= tseg + 1 && i <= 1
    ensures CutIs(btc, tseg, q, i, Cut(btc, tseg, U32(tseg + 1 - q - i)))
  {
    hide U32;
    var guess := tseg + 1 - q - i;
    if guess < 0 { WrapsU32(guess); } else { FitsU32(guess); }
    var t2 := Clamp(U32(guess), btc.tseg2Min, btc.tseg2Max);
    if t2 > tseg { WrapsU32(tseg - t2); } else { FitsU32(tseg - t2); }
    if tseg >= btc.tseg1Max { FitsU32(tseg - btc.tseg1Max); }
  }

  lemma TruncatedProduct(nominal: u32, n: nat) returns (q: nat)
    requires nominal <= SAMPT_SCALE && 0 < n <= SAMPT_SCALE
    ensures q == Reach(nominal, n) == U32(nominal * n) / SAMPT_SCALE && q <= n
    ensures q == n <==> nominal == SAMPT_SCALE
  {
    assert nominal * n <= SAMPT_SCALE * n;
    q := Reach(nominal, n);
    if nominal < SAMPT_SCALE {
      assert (SAMPT_SCALE - nominal) * n > 0;
    }
  }

  lemma AttemptCut(btc: Range, nominal: u32, tseg: u32, i: nat) returns (q: nat)
    requires Legal(btc, tseg) && nominal <= SAMPT_SCALE && i <= 1
    ensures q == Reach(nominal, tseg + 1) && q <= tseg + 1
    ensures q == tseg + 1 <==> nominal == SAMPT_SCALE
    ensures CutIs(btc, tseg, q, i, Attempt(btc, nominal, tseg, i))
  {
    q := TruncatedProduct(nominal, tseg + 1);
    CutNearest(btc, tseg, q, i);
  }

  lemma AttemptPointAt(tseg: u32, t2: u32)
    requires U32(tseg + 1 - t2) <= SAMPT_SCALE + 1
    ensures AttemptPoint(tseg, t2) == PointAt(U32(tseg + 1 - t2), tseg + 1)
  {
  }

  /** An attempt is either a fit, with the exact sample point of its cut, or it passes the nominal point. */
  lemma AttemptFits(btc: Range, nominal: u32, tseg: u32, i: nat)
    requires Legal(btc, tseg) && nominal <= SAMPT_SCALE && i <= 1 && !Wraps(btc, nominal, tseg)
    ensures var (t1, t2) := Attempt(btc, nominal, tseg, i);
            if AttemptPoint(tseg, t2) <= nominal then
              && Fits(btc, nominal, tseg, t2)
              && t1 == tseg - t2
              && AttemptPoint(tseg, t2) == PointAt(tseg + 1 - t2, tseg + 1)
            else
              !Fits(btc, nominal, tseg, t2)
  {
    hide PointAt, AttemptPoint, Attempt, Reach, U32;
    var q := AttemptCut(btc, nominal, tseg, i);
    var (t1, t2) := Attempt(btc, nominal, tseg, i);
    var n, k := tseg + 1, U32(tseg + 1 - t2);
    if tseg < btc.tseg1Max { WrapsU32(tseg - btc.tseg1Max); } else { FitsU32(tseg - btc.tseg1Max); }
    if t2 <= tseg + 1 { FitsU32(tseg + 1 - t2); } else { WrapsU32(tseg + 1 - t2); }
    assert k <= SAMPT_SCALE + 1;
    AttemptPointAt(tseg, t2);
    PointBound(nominal, n, k);
    if !(Feasible(btc, tseg, t2) && t1 == tseg - t2) {
      assert k == btc.tseg1Max + 1;
      if q == n {
        PastTheEnd(k, n);
      }
    }
  }

  lemma PastTheEnd(k: nat, n: nat)
    requires 0 < n <= SAMPT_SCALE && k > n
    ensures PointAt(k, n) > SAMPT_SCALE
  {
    QuotientAtLeast(SAMPT_SCALE * n, n, SAMPT_SCALE);
    PointIncreases(n, k, n);
    hide PointAt;
  }

  /** Every fit is matched by an attempt that fits and cuts no earlier. */
  lemma AttemptsSuffice(btc: Range, nominal: u32, tseg: u32, t: nat)
    requires Legal(btc, tseg) && nominal <= SAMPT_SCALE && !Wraps(btc, nominal, tseg)
    requires Fits(btc, nominal, tseg, t)
    ensures var t2, t2' := Attempt(btc, nominal, tseg, 0).1, Attempt(btc, nominal, tseg, 1).1;
            (Fits(btc, nominal, tseg, t2) && t2 <= t) || (Fits(btc, nominal, tseg, t2') && t2' <= t)
  {
    hide PointAt, Attempt, Reach, U32;
    var n := tseg + 1;
    var q := AttemptCut(btc, nominal, tseg, 0);
    var q' := AttemptCut(btc, nominal, tseg, 1);
    var t2, t2' := Attempt(btc, nominal, tseg, 0).1, Attempt(btc, nominal, tseg, 1).1;
    PointBound(nominal, n, n - t);
    assert n - t <= q + 1;
    if t == n - q - 1 && q < n {
      assert t2' == t;
    } else {
      if t2 <= tseg { PointBound(nominal, n, n - t2); }
    }
  }

  /** Cuts a bit of tseg + 1 quanta so that the sample point comes as late as possible without
      passing the nominal one. The two incoming segments survive when no cut fits. */
  method UpdateSamplePoint(btc: Range, nominal: u32, tseg: u32, tseg1In: u32, tseg2In: u32)
      returns (best: nat, tseg1: u32, tseg2: u32, error: u32)
    requires Legal(btc, tseg) && nominal <= SAMPT_SCALE
    ensures !Wraps(btc, nominal, tseg) ==>
              Updated(btc, nominal, tseg, tseg1In, tseg2In, best, tseg1, tseg2, error)
    ensures Wraps(btc, nominal, tseg) ==> tseg2 < btc.tseg2Min
  {
    hide PointAt, AttemptPoint, Attempt, Reach;
    ghost var wraps := Wraps(btc, nominal, tseg);
    best, error := 0, UINT_MAX;
    tseg1, tseg2 := tseg1In, tseg2In;
    for i := 0 to 2
      invariant error == UINT_MAX ==> best == 0 && tseg1 == tseg1In && tseg2 == tseg2In
      invariant !wraps && error != UINT_MAX ==>
        IsFound(btc, nominal, tseg, tseg2, error) && tseg1 == tseg - tseg2 && best == nominal - error
      invariant !wraps ==>
        forall j :: 0 <= j < i ==> NoBetter(btc, nominal, tseg, Attempt(btc, nominal, tseg, j).1, error)
      invariant wraps && i == 0 ==> error == UINT_MAX
      invariant wraps && i == 1 ==> error == nominal - AttemptPoint(tseg, btc.tseg2Min)
      invariant wraps && i == 2 ==> tseg2 < btc.tseg2Min
    {
      if wraps {
        WrappedAttempts(btc, tseg);
      } else {
        AttemptFits(btc, nominal, tseg, i);
      }
      var (t1, t2) := Attempt(btc, nominal, tseg, i);
      var point := AttemptPoint(tseg, t2);
      var pointError := AbsInt32(U32(nominal - point));
      if point <= nominal && pointError < error {
        best, error := point, pointError;
        tseg1, tseg2 := t1, t2;
      }
    }
    if !wraps {
      BestOfAttempts(btc, nominal, tseg, tseg2, error);
    }
  }

  /** The outcome when nothing wraps. */
  ghost predicate Updated(btc: Range, nominal: nat, tseg: nat, tseg1In: u32, tseg2In: u32,
                          best: nat, tseg1: u32, tseg2: u32, error: u32) {
    && error == PointError(btc, nominal, tseg)
    && if HasFit(btc, nominal, tseg) then
         && BestFit(btc, nominal, tseg, tseg2)
         && tseg1 == tseg - tseg2
         && best == PointAt(tseg1 + 1, tseg + 1) == nominal - error > 0
       else
         && best == 0 && tseg1 == tseg1In && tseg2 == tseg2In
         && forall t: nat :: !Fits(btc, nominal, tseg, t)
  }

  /** Where the subtraction wraps, the second attempt wins with a second segment below the minimum. */
  lemma WrappedAttempts(btc: Range, tseg: u32)
    requires Legal(btc, tseg) && Wraps(btc, SAMPT_SCALE, tseg)
    ensures var t2, t2' := Attempt(btc, SAMPT_SCALE, tseg, 0).1, Attempt(btc, SAMPT_SCALE, tseg, 1).1;
            t2' < t2 == btc.tseg2Min && AttemptPoint(tseg, t2) < AttemptPoint(tseg, t2') <= SAMPT_SCALE
  {
    hide PointAt, Attempt, AttemptPoint, Reach;
    var n := tseg + 1;
    var q := AttemptCut(btc, SAMPT_SCALE, tseg, 0);
    var q' := AttemptCut(btc, SAMPT_SCALE, tseg, 1);
    var t2, t2' := Attempt(btc, SAMPT_SCALE, tseg, 0).1, Attempt(btc, SAMPT_SCALE, tseg, 1).1;
    AttemptPointAt(tseg, t2);
    AttemptPointAt(tseg, t2');
    PointIncreases(n - t2, n - t2', n);
    PointBound(SAMPT_SCALE, n, n - t2');
  }

  /** t2 fits and misses the nominal point by `error`. */
  ghost predicate IsFound(btc: Range, nominal: u32, tseg: u32, t2: nat, error: nat) {
    Fits(btc, nominal, tseg, t2) && error == nominal - PointAt(tseg + 1 - t2, tseg + 1)
  }

  ghost predicate NoBetter(btc: Range, nominal: u32, tseg: u32, t2: nat, error: nat) {
    Fits(btc, nominal, tseg, t2) ==> error <= nominal - PointAt(tseg + 1 - t2, tseg + 1)
  }

  lemma BestOfAttempts(btc: Range, nominal: u32, tseg: u32, tseg2: u32, error: u32)
    requires Legal(btc, tseg) && nominal <= SAMPT_SCALE && !Wraps(btc, nominal, tseg)
    requires error != UINT_MAX ==> IsFound(btc, nominal, tseg, tseg2, error)
    requires forall j :: 0 <= j < 2 ==> NoBetter(btc, nominal, tseg, Attempt(btc, nominal, tseg, j).1, error)
    ensures error != UINT_MAX ==> BestFit(btc, nominal, tseg, tseg2) && nominal - error > 0
    ensures error == UINT_MAX ==> forall t: nat :: !Fits(btc, nominal, tseg, t)
    ensures error == PointError(btc, nominal, tseg)
  {
    hide PointAt, Attempt, AttemptPoint, Reach;
    var n := tseg + 1;
    var a, b := Attempt(btc, nominal, tseg, 0).1, Attempt(btc, nominal, tseg, 1).1;
    assert NoBetter(btc, nominal, tseg, a, error) && NoBetter(btc, nominal, tseg, b, error);
    forall t: nat | Fits(btc, nominal, tseg, t)
      ensures error <= nominal - PointAt(n - t, n)
    {
      AttemptsSuffice(btc, nominal, tseg, t);
      if Fits(btc, nominal, tseg, a) && a < t { PointIncreases(n - t, n - a, n); }
      if Fits(btc, nominal, tseg, b) && b < t { PointIncreases(n - t, n - b, n); }
    }
    if error != UINT_MAX {
      BestFitUnique(btc, nominal, tseg, tseg2);
      PointIncreases(0, n - tseg2, n);
    }
  }

  /** A fit that no fit can exceed is the best one. */
  lemma LatestIsBest(btc: Range, nominal: nat, tseg: nat, t2: nat)
    requires tseg < SAMPT_SCALE && Fits(btc, nominal, tseg, t2)
    requires forall t: nat :: Fits(btc, nominal, tseg, t) ==> t2 <= t
    ensures BestFit(btc, nominal, tseg, t2)
  {
    hide PointAt;
    forall t: nat | Fits(btc, nominal, tseg, t)
      ensures PointAt(tseg + 1 - t, tseg + 1) <= PointAt(tseg + 1 - t2, tseg + 1)
    {
      if t2 < t { PointIncreases(tseg + 1 - t, tseg + 1 - t2, tseg + 1); }
    }
  }

  /** Whether one quantum more than the truncated product still fits. */
  lemma NextQuantum(nominal: nat, n: nat)
    requires 0 < n <= SAMPT_SCALE
    ensures PointAt(Reach(nominal, n) + 1, n) <= nominal <==> SAMPT_SCALE * (Reach(nominal, n) + 1) < (nominal + 1) * n
  {
    QuotientAtMost(SAMPT_SCALE * (Reach(nominal, n) + 1), n, nominal);
  }

  lemma FitsReach(btc: Range, nominal: nat, tseg: nat, t: nat)
    requires tseg < SAMPT_SCALE && Fits(btc, nominal, tseg, t)
    ensures tseg + 1 - t <= Reach(nominal, tseg + 1) + 1
  {
    PointBound(nominal, tseg + 1, tseg + 1 - t);
  }

  /** The second attempt is not clamped to the cut of the first one. */
  predicate SecondDiffers(btc: Range, tseg: u32, q: nat) {
    && Max(btc.tseg2Min, tseg - btc.tseg1Max) < tseg + 1 - q <= btc.tseg2Max
    && (q > 0 || btc.tseg1Max > 0)
  }

  /** The second attempt is needed only because the division truncates: it alone gives the optimum exactly
      when it is not clamped to the cut of the first one and one quantum more than the truncated product
      still truncates to at most the nominal point. */
  lemma SecondAttemptNeeded(btc: Range, nominal: u32, tseg: u32)
    requires Legal(btc, tseg) && nominal <= SAMPT_SCALE && !Wraps(btc, nominal, tseg)
    ensures var n, q := tseg + 1, Reach(nominal, tseg + 1);
            var (t2, t2') := (Attempt(btc, nominal, tseg, 0).1, Attempt(btc, nominal, tseg, 1).1);
            BestFit(btc, nominal, tseg, t2') && !BestFit(btc, nominal, tseg, t2) <==>
              SecondDiffers(btc, tseg, q) && SAMPT_SCALE * (q + 1) < (nominal + 1) * n
  {
    hide PointAt, Attempt, Reach, U32;
    var n := tseg + 1;
    var q := AttemptCut(btc, nominal, tseg, 0);
    var q' := AttemptCut(btc, nominal, tseg, 1);
    var (t2, t2') := (Attempt(btc, nominal, tseg, 0).1, Attempt(btc, nominal, tseg, 1).1);
    NextQuantum(nominal, n);
    if SecondDiffers(btc, tseg, q) {
      assert t2' == n - q - 1;
      if PointAt(q + 1, n) <= nominal {
        forall t: nat | Fits(btc, nominal, tseg, t)
          ensures t2' <= t
        {
          FitsReach(btc, nominal, tseg, t);
        }
        LatestIsBest(btc, nominal, tseg, t2');
        if tseg < btc.tseg1Max { WrapsU32(tseg - btc.tseg1Max); } else { FitsU32(tseg - btc.tseg1Max); }
        assert t2 != t2';
        if BestFit(btc, nominal, tseg, t2) {
          BestFitUnique(btc, nominal, tseg, t2');
        }
      }
    } else if t2 != t2' {
      assert q == n && t2 == Max(btc.tseg2Min, tseg - btc.tseg1Max);
      PointBound(nominal, n, n - t2);
      LatestIsBest(btc, nominal, tseg, t2);
    }
  }
}
