/** Bit timing of the SJA1000: completeness of the bitrate search at 8 MHz, and the way of a timing
    through the BTR0BTR1 register pair and the abstract (nanosecond) form. */
module Sja1000 {
  import opened Common
  import opened Words
  import opened SamplePoint
  import opened BitTiming

  const SJA1000 := Range(1, 64, 1, 1, 16, 1, 8, 1, 4)
  const CLOCK_HZ := 8 * MHZ

  predicate Reasonable(bt: Timing) {
    bt.bitrate > 0 && 25 * bt.bitrate <= UINT_MAX && bt.samplePoint <= SAMPT_SCALE
  }

  function Ask(bt: Timing): Query { QueryOf(SJA1000, CLOCK_HZ, bt) }

  /** Prescaler p and n quanta per bit meet the bitrate within 0.5%. */
  predicate Meets(bitrate: nat, p: nat, n: nat)
    requires bitrate > 0
  {
    && 1 <= p <= 64 && 3 <= n <= 25
    && Abs(bitrate - Rate(CLOCK_HZ, p, n)) * SAMPT_SCALE / bitrate <= CALC_MAX_ERROR
  }

  /** In numbers: an 8 MHz clock, and a deviation of less than 0.51% of the bitrate, the test being made on a
      quotient cut to whole hundredths of a percent. */
  lemma ToleranceExactly(bitrate: nat, p: nat, n: nat)
    requires bitrate > 0 && 1 <= p <= 64 && 3 <= n <= 25
    ensures p * n > 0
    ensures Meets(bitrate, p, n) <==> 10_000 * Abs(bitrate - 8_000_000 / (p * n)) < 51 * bitrate
  {
    ProductPositive(p, n);
    hide Rate;
    RateIs(p, n);
    QuotientAtMost(Abs(bitrate - Rate(CLOCK_HZ, p, n)) * SAMPT_SCALE, bitrate, 50);
  }

  lemma RateIs(p: nat, n: nat)
    requires p > 0 && n > 0
    ensures p * n > 0 && Rate(CLOCK_HZ, p, n) == 8_000_000 / (p * n)
  {
    ProductPositive(p, n);
  }

  // ---------------------------------------------------------------- completeness

  lemma RateDecreases(p: nat, p': nat, n: nat)
    requires 0 < p <= p' && n > 0
    ensures Rate(CLOCK_HZ, p', n) <= Rate(CLOCK_HZ, p, n)
  {
    var r := Rate(CLOCK_HZ, p', n);
    QuotientBounds(CLOCK_HZ, p' * n);
    MulMonotone(p, p', n);
    MulMonotone(p * n, p' * n, r);
    QuotientAtLeast(CLOCK_HZ, p * n, r);
  }

  /** The two prescalers tried for n quanta bracket the requested bitrate. */
  lemma Bracket(bitrate: nat, n: nat) returns (c: nat)
    requires bitrate > 0 && n > 0
    ensures assert n * bitrate > 0; c == CLOCK_HZ / (n * bitrate)
    ensures c > 0 ==> Rate(CLOCK_HZ, c, n) >= bitrate
    ensures Rate(CLOCK_HZ, c + 1, n) < bitrate
  {
    assert n * bitrate > 0;
    c := CLOCK_HZ / (n * bitrate);
    QuotientBounds(CLOCK_HZ, n * bitrate);
    assert c * (n * bitrate) == bitrate * (c * n);
    assert (c + 1) * (n * bitrate) == bitrate * ((c + 1) * n);
    if c > 0 {
      QuotientAtLeast(CLOCK_HZ, c * n, bitrate);
    }
    QuotientAtMost(CLOCK_HZ, (c + 1) * n, bitrate - 1);
  }

  /** A length whose rounded-down prescaler exceeds 64 cannot meet the bitrate with any legal one. */
  lemma OutOfRangeNeverMeets(bitrate: nat, p: nat, n: nat)
    requires bitrate > 0 && 1 <= p <= 64 && 3 <= n <= 25
    requires 65 * (n * bitrate) <= CLOCK_HZ
    ensures !Meets(bitrate, p, n)
  {
    var r := Rate(CLOCK_HZ, 64, n);
    RateDecreases(p, 64, n);
    QuotientBounds(CLOCK_HZ, 64 * n);
    assert 64 * r >= 65 * bitrate - 63 by {
      assert (r + 1) * (64 * n) == ((r + 1) * 64) * n;
      assert 65 * (n * bitrate) == (65 * bitrate) * n;
      if (r + 1) * 64 <= 65 * bitrate { MulMonotone((r + 1) * 64, 65 * bitrate, n); }
    }
    QuotientAtLeast(CLOCK_HZ, 64 * n, 5000);
    var e := Abs(bitrate - Rate(CLOCK_HZ, p, n));
    assert e * SAMPT_SCALE >= 51 * bitrate;
    QuotientAtLeast(e * SAMPT_SCALE, bitrate, 51);
  }

  lemma CandidateError(bt: Timing, t: nat)
    requires Reasonable(bt) && Admissible(Ask(bt), t)
    ensures BitrateError(Ask(bt), t) == Abs(bt.bitrate - Rate(CLOCK_HZ, Brp(Ask(bt), t), Quanta(t)))
  {
    var rate := Rate(CLOCK_HZ, Brp(Ask(bt), t), Quanta(t));
    assert Brp(Ask(bt), t) * Quanta(t) >= 1;
    QuotientAtMost(CLOCK_HZ, Brp(Ask(bt), t) * Quanta(t), CLOCK_HZ);
    AbsDifference(bt.bitrate, rate);
  }

  lemma CandidatePrescaler(bt: Timing, t: nat) returns (c: nat)
    requires Reasonable(bt)
    ensures assert Quanta(t) * bt.bitrate > 0; c == CLOCK_HZ / (Quanta(t) * bt.bitrate)
    ensures Brp(Ask(bt), t) == c + t % 2
  {
    assert Quanta(t) * bt.bitrate > 0;
    c := CLOCK_HZ / (Quanta(t) * bt.bitrate);
  }

  /** For an admissible candidate the 0.5% test of the source and the one of Meets agree. */
  lemma ToleratedMeets(bt: Timing, t: nat)
    requires Reasonable(bt) && Admissible(Ask(bt), t)
    ensures Tolerated(bt.bitrate, BitrateError(Ask(bt), t)) <==> Meets(bt.bitrate, Brp(Ask(bt), t), Quanta(t))
  {
    hide Brp, Rate, BitrateError, U32;
    var n, p := Quanta(t), Brp(Ask(bt), t);
    CandidateError(bt, t);
    var c := CandidatePrescaler(bt, t);
    BitrateNotTiny(bt.bitrate, n, c);
    RateAtMostClock(p, n);
    QuotientNotCut(bt.bitrate, BitrateError(Ask(bt), t));
  }

  lemma BitrateNotTiny(bitrate: nat, n: nat, c: nat)
    requires bitrate > 0 && 0 < n <= 25 && c <= 64
    requires assert n * bitrate > 0; c == CLOCK_HZ / (n * bitrate)
    ensures bitrate > 4000
  {
    QuotientBounds(CLOCK_HZ, n * bitrate);
    MulMonotone(n, 25, bitrate);
    MulMonotone(c + 1, 65, n * bitrate);
  }

  lemma QuotientNotCut(bitrate: nat, e: nat)
    requires bitrate > 4000 && e <= Max(bitrate, CLOCK_HZ)
    ensures U32(e * SAMPT_SCALE / bitrate) == e * SAMPT_SCALE / bitrate
    ensures e == 0 ==> e * SAMPT_SCALE / bitrate == 0
  {
    hide U32;
    var scaled := e * SAMPT_SCALE;
    assert scaled < (UINT_MAX + 1) * bitrate;
    QuotientAtMost(scaled, bitrate, UINT_MAX);
    if e == 0 { QuotientAtMost(scaled, bitrate, 0); }
    FitsU32(scaled / bitrate);
  }

  lemma RateAtMostClock(p: nat, n: nat)
    requires p > 0 && n > 0
    ensures Rate(CLOCK_HZ, p, n) <= CLOCK_HZ
  {
    assert p * n >= 1;
    MulMonotone(1, p * n, CLOCK_HZ + 1);
    QuotientAtMost(CLOCK_HZ, p * n, CLOCK_HZ);
  }

  lemma FloorInRange(bitrate: nat, p: nat, n: nat, c: nat)
    requires bitrate > 0 && Meets(bitrate, p, n)
    requires assert n * bitrate > 0; c == CLOCK_HZ / (n * bitrate)
    ensures c <= 64
  {
    hide Rate;
    if c > 64 {
      assert n * bitrate > 0;
      QuotientAtLeast(CLOCK_HZ, n * bitrate, 65);
      OutOfRangeNeverMeets(bitrate, p, n);
    }
  }

  lemma InRange(bitrate: nat, p: nat, n: nat)
    requires bitrate > 0 && Meets(bitrate, p, n)
    ensures 1 <= p <= 64 && 3 <= n <= 25
  {
  }

  /** If some prescaler and length meet the bitrate, a candidate of the search is at least as near. */
  lemma CandidateSuffices(bt: Timing, p: nat, n: nat) returns (t: nat)
    requires Reasonable(bt) && Meets(bt.bitrate, p, n)
    ensures Admissible(Ask(bt), t)
    ensures BitrateError(Ask(bt), t) <= Abs(bt.bitrate - Rate(CLOCK_HZ, p, n))
  {
    hide Rate, BitrateError, Brp, Meets;
    InRange(bt.bitrate, p, n);
    var c := Bracket(bt.bitrate, n);
    if p <= c {
      t := 2 * (n - 1);
      var c' := CandidatePrescaler(bt, t);
      FloorInRange(bt.bitrate, p, n, c);
      RateDecreases(p, c, n);
    } else {
      t := 2 * (n - 1) + 1;
      var c' := CandidatePrescaler(bt, t);
      RateDecreases(c + 1, p, n);
    }
    CandidateError(bt, t);
  }

  /** The bitrate is accepted exactly when some prescaler in 1..64 and some length in 3..25 meet it. */
  lemma Completeness(bt: Timing, status: Status, r: Timing)
    requires Reasonable(bt) && Outcome(SJA1000, CLOCK_HZ, bt, status, r)
    ensures status == Done <==> exists p: nat, n: nat :: Meets(bt.bitrate, p, n)
  {
    hide Rate, BitrateError, Brp, PointError, IsBest, Filled, Tolerated;
    var q := Ask(bt);
    if status == Done {
      var t: nat :| IsBest(q, t) && Tolerated(q.bitrate, BitrateError(q, t)) && Filled(q, bt, t, r);
      ToleratedMeets(bt, t);
      assert Meets(bt.bitrate, Brp(q, t), Quanta(t));
    } else if p: nat, n: nat :| Meets(bt.bitrate, p, n) {
      var t' := CandidateSuffices(bt, p, n);
      var t: nat :| IsBest(q, t) && !Tolerated(q.bitrate, BitrateError(q, t));
      BestNotWorse(bt, t, t');
      SmallerErrorMeets(bt.bitrate, BitrateError(q, t), Abs(bt.bitrate - Rate(CLOCK_HZ, p, n)));
      ToleratedMeets(bt, t);
      CandidateError(bt, t);
    }
  }

  lemma BestNotWorse(bt: Timing, t: nat, t': nat)
    requires Reasonable(bt) && IsBest(Ask(bt), t) && Admissible(Ask(bt), t')
    ensures BitrateError(Ask(bt), t) <= BitrateError(Ask(bt), t')
  {
    hide BitrateError, Brp, CandidatePointError;
    assert NoWorse(Ask(bt), t, t');
  }

  lemma SmallerErrorMeets(bitrate: nat, e: nat, e': nat)
    requires bitrate > 0 && e <= e' && e' * SAMPT_SCALE / bitrate <= CALC_MAX_ERROR
    ensures e * SAMPT_SCALE / bitrate <= CALC_MAX_ERROR
  {
    QuotientAtMost(e * SAMPT_SCALE, bitrate, CALC_MAX_ERROR);
    QuotientAtMost(e' * SAMPT_SCALE, bitrate, CALC_MAX_ERROR);
  }

  // ---------------------------------------------------------------- timings that reach the registers

  const LATEST_FIT := 6800

  /** All fields inside the SJA1000 ranges, and the sample point really reached. */
  predicate Usable(r: Timing) {
    && 1 <= r.brp <= 64 && 1 <= r.tseg1 <= 16 && 1 <= r.tseg2 <= 8
    && 1 <= r.sjw <= Min(4, r.tseg2)
    && r.samplePoint == PointAt(1 + r.tseg1, 1 + r.tseg1 + r.tseg2)
  }

  /** A length of tseg quanta (sync segment excluded) can be cut at or before the nominal point with at least
      one quantum in each segment: the second segment as long as it can be is not too short. */
  predicate Cuttable(nominal: nat, tseg: nat) {
    tseg >= 2 && PointAt(tseg + 1 - Min(8, tseg - 1), tseg + 1) <= nominal
  }

  lemma CuttableMeans(nominal: nat, tseg: nat)
    requires 2 <= tseg <= 24
    ensures Cuttable(nominal, tseg) <==> exists t2: nat :: t2 < tseg && Fits(SJA1000, nominal, tseg, t2)
  {
    hide PointAt;
    var most := Min(8, tseg - 1);
    if Cuttable(nominal, tseg) {
      assert Fits(SJA1000, nominal, tseg, most);
    }
    if t2: nat :| t2 < tseg && Fits(SJA1000, nominal, tseg, t2) {
      if t2 < most { PointIncreases(tseg + 1 - most, tseg + 1 - t2, tseg + 1); }
    }
  }

  /** From 68% on, every length the search tries can be cut. */
  lemma LateNominalCuttable(nominal: nat, tseg: nat)
    requires LATEST_FIT <= nominal && 2 <= tseg <= 24
    ensures Cuttable(nominal, tseg)
  {
    var n, t2 := tseg + 1, Min(8, tseg - 1);
    QuotientAtMost(SAMPT_SCALE * (n - t2), n, nominal);
    MulMonotone(LATEST_FIT, nominal, n);
  }

  /** Whether the length decides: the timing found for it is usable exactly when it can be cut. */
  lemma CutDecides(bt: Timing, r: Timing, t: nat)
    requires Reasonable(bt) && IsBest(Ask(bt), t) && Filled(Ask(bt), bt, t, r)
    ensures Usable(r) <==> Cuttable(NominalPoint(bt), t / 2)
    ensures Usable(r) ==> 1 + r.tseg1 + r.tseg2 == Quanta(t) && r.brp == Brp(Ask(bt), t)
  {
    hide Brp, PointAt, Rate, PointError, BitrateError, Cuttable;
    var nominal, tseg := NominalPoint(bt), t / 2;
    CuttableMeans(nominal, tseg);
    if t2: nat :| t2 < tseg && Fits(SJA1000, nominal, tseg, t2) {
      FitGivesBest(SJA1000, nominal, tseg, t2);
      assert BestFit(SJA1000, nominal, tseg, r.tseg2);
      if tseg + 1 - r.tseg2 < tseg + 1 - t2 {
        PointIncreases(tseg + 1 - r.tseg2, tseg + 1 - t2, tseg + 1);
      }
    } else if HasFit(SJA1000, nominal, tseg) {
      assert Fits(SJA1000, nominal, tseg, r.tseg2);
    } else if r.tseg1 <= 16 && r.tseg2 <= 8 {
      PointIncreases(0, 1 + r.tseg1, 1 + r.tseg1 + r.tseg2);
    }
  }

  /** The length the search settles on can be cut. */
  ghost predicate ChosenCuttable(bt: Timing)
    requires Reasonable(bt)
  {
    forall t: nat :: IsBest(Ask(bt), t) ==> Cuttable(NominalPoint(bt), t / 2)
  }

  lemma LateIsCuttable(bt: Timing)
    requires Reasonable(bt) && NominalPoint(bt) >= LATEST_FIT
    ensures ChosenCuttable(bt)
  {
    hide BitrateError, Cuttable, Brp;
    forall t: nat | IsBest(Ask(bt), t)
      ensures Cuttable(NominalPoint(bt), t / 2)
    {
      LateNominalCuttable(NominalPoint(bt), t / 2);
    }
  }

  /** For every request, at any nominal point: an accepted timing is usable if and only if the length chosen
      for it can be cut, and then it keeps the promised tolerance with the segments it carries. */
  lemma UsableExactly(bt: Timing, r: Timing)
    requires Reasonable(bt) && Outcome(SJA1000, CLOCK_HZ, bt, Done, r)
    ensures Usable(r) <==> ChosenCuttable(bt)
    ensures Usable(r) ==> Meets(bt.bitrate, r.brp, 1 + r.tseg1 + r.tseg2)
  {
    hide Brp, PointAt, Rate, PointError, BitrateError, Cuttable, IsBest, Filled, Tolerated, Usable, Meets;
    var q := Ask(bt);
    var t: nat :| IsBest(q, t) && Tolerated(q.bitrate, BitrateError(q, t)) && Filled(q, bt, t, r);
    CutDecides(bt, r, t);
    forall u: nat | IsBest(q, u)
      ensures u == t
    {
      BestIsUnique(q, u, t);
    }
    ToleratedMeets(bt, t);
  }

  lemma {:induction false} EarlyNominalMisses(nominal: nat, t2: nat)
    requires nominal < LATEST_FIT
    ensures !Fits(SJA1000, nominal, 24, t2)
  {
    if t2 <= 8 {
      QuotientAtLeast(SAMPT_SCALE * (25 - t2), 25, LATEST_FIT);
    }
  }

  /** 5245 bit/s can be met exactly only with 25 quanta and prescaler 61. */
  lemma OnlyOneExact(p: nat, n: nat)
    requires 1 <= p <= 64 && 3 <= n <= 25 && Rate(CLOCK_HZ, p, n) == 5245
    ensures n == 25 && p == 61
  {
    assert p * n > 0;
    QuotientBounds(CLOCK_HZ, p * n);
    assert p * n == 1525;
    MulMonotone(p, 64, n);
    assert n == 24 || n == 25;
  }

  /** A sample point below 68% makes the search settle, for 5245 bit/s, on 25 quanta. */
  lemma EarlyNominalSettles(bt: Timing)
    requires 0 < bt.samplePoint < LATEST_FIT && bt.bitrate == 5245
    ensures IsBest(Ask(bt), 48) && BitrateError(Ask(bt), 48) == 0 && Brp(Ask(bt), 48) == 61
  {
    var q := Ask(bt);
    var c := CandidatePrescaler(bt, 48);
    assert CLOCK_HZ / (25 * 5245) == 61;
    assert Rate(CLOCK_HZ, 61, 25) == 5245;
    CandidateError(bt, 48);
    forall b: nat | Admissible(q, b) && b != 48
      ensures BitrateError(q, b) > 0
    {
      CandidateError(bt, b);
      var c' := CandidatePrescaler(bt, b);
      if BitrateError(q, b) == 0 {
        OnlyOneExact(Brp(q, b), Quanta(b));
      }
    }
    EarlyNominalUncut(bt);
    hide BitrateError, Brp, PointAt, Rate;
    assert IsBest(q, 48);
  }

  lemma EarlyNominalUncut(bt: Timing)
    requires 0 < bt.samplePoint < LATEST_FIT
    ensures !HasFit(SJA1000, bt.samplePoint, 24)
  {
    forall t2: nat
      ensures !Fits(SJA1000, bt.samplePoint, 24, t2)
    {
      EarlyNominalMisses(bt.samplePoint, t2);
    }
  }

  /** Whatever the search returns then, it accepts the bitrate with a length it cannot cut. */
  lemma EarlyNominalFails(bt: Timing, status: Status, r: Timing)
    requires 0 < bt.samplePoint < LATEST_FIT && bt.bitrate == 5245
    requires Outcome(SJA1000, CLOCK_HZ, bt, status, r)
    ensures status == Done && r.brp == 61 && r.samplePoint == 0 && !Usable(r)
  {
    hide BitrateError, Brp, PointAt, Rate, IsBest, Tolerated;
    var q := Ask(bt);
    EarlyNominalSettles(bt);
    EarlyNominalUncut(bt);
    assert Tolerated(q.bitrate, 0) by { ExactIsTolerated(q.bitrate); }
    if t: nat :| IsBest(q, t) {
      BestIsUnique(q, t, 48);
    }
    if status == Done {
      var t: nat :| IsBest(q, t) && Tolerated(q.bitrate, BitrateError(q, t)) && Filled(q, bt, t, r);
      BestIsUnique(q, t, 48);
      if r.tseg1 <= 16 && r.tseg2 <= 8 {
        PointIncreases(0, 1 + r.tseg1, 1 + r.tseg1 + r.tseg2);
      }
    } else if t: nat :| IsBest(q, t) && !Tolerated(q.bitrate, BitrateError(q, t)) {
      BestIsUnique(q, t, 48);
    }
  }

  lemma ExactIsTolerated(bitrate: u32)
    requires bitrate > 0
    ensures Tolerated(bitrate, 0)
  {
  }

  /** Accepted, whatever the search returns, with a timing that cannot be used. */
  ghost predicate NeverUsable(bt: Timing) {
    && Reasonable(bt)
    && forall status: Status, r: Timing :: Outcome(SJA1000, CLOCK_HZ, bt, status, r) ==> status == Done && !Usable(r)
  }

  /** Every accepted bitrate gives a usable timing exactly from a sample point of 68% on; below it some
      bitrate never does. */
  lemma AcceptedMeansUsable(point: u32)
    requires 0 < point <= SAMPT_SCALE
    ensures point >= LATEST_FIT ==> forall bt: Timing, r: Timing ::
              Reasonable(bt) && bt.samplePoint == point && Outcome(SJA1000, CLOCK_HZ, bt, Done, r) ==> Usable(r)
    ensures point < LATEST_FIT ==> exists bt: Timing :: bt.samplePoint == point && NeverUsable(bt)
  {
    if point >= LATEST_FIT {
      forall bt: Timing, r: Timing |
        Reasonable(bt) && bt.samplePoint == point && Outcome(SJA1000, CLOCK_HZ, bt, Done, r)
        ensures Usable(r)
      {
        LateIsCuttable(bt);
        UsableExactly(bt, r);
      }
    } else {
      var bt := Timing(0, 0, 0, 0, 0, 5245, point, 0);
      forall status: Status, r: Timing | Outcome(SJA1000, CLOCK_HZ, bt, status, r)
        ensures status == Done && !Usable(r)
      {
        EarlyNominalFails(bt, status, r);
      }
      assert bt.samplePoint == point && NeverUsable(bt);
    }
  }

  /** In particular from 68% on: usable, and within the promised tolerance. */
  lemma DeliveredRate(bt: Timing, r: Timing)
    requires Reasonable(bt) && NominalPoint(bt) >= LATEST_FIT && Outcome(SJA1000, CLOCK_HZ, bt, Done, r)
    ensures Usable(r) && Meets(bt.bitrate, r.brp, 1 + r.tseg1 + r.tseg2)
  {
    hide Outcome, Usable, ChosenCuttable, Rate;
    LateIsCuttable(bt);
    UsableExactly(bt, r);
  }

  // ---------------------------------------------------------------- the register pair BTR0BTR1

  /** Packing done by sja1000_bitrate: masks are remainders, disjoint bit fields are summed. */
  function Pack(bt: Timing): u16 {
    U32(bt.sjw - 1) % 4 * 0x4000
    + U32(bt.brp - 1) % 64 * 0x100
    + (if bt.tsam != 0 then 0x80 else 0)
    + U32(bt.tseg2 - 1) % 8 * 0x10
    + U32(bt.tseg1 - 1) % 16
  }

  /** The fields pcan_btr0btr1_to_abstract reads back; the others stay unset. */
  function Unpack(btr0btr1: u16): Timing {
    var btr0, btr1 := btr0btr1 / 0x100, btr0btr1 % 0x100;
    Timing(btr0 % 64 + 1, btr1 % 16 + 1, btr1 / 16 % 8 + 1, btr0 / 64 % 4 + 1, btr1 / 128, 0, 0, 0)
  }

  predicate SameFields(a: Timing, b: Timing) {
    a.brp == b.brp && a.tseg1 == b.tseg1 && a.tseg2 == b.tseg2 && a.sjw == b.sjw
  }

  lemma PackBytes(r: Timing, tsam: nat)
    requires Usable(r) && tsam == if r.tsam != 0 then 1 else 0
    ensures Pack(r) / 0x100 == (r.sjw - 1) * 64 + (r.brp - 1)
    ensures Pack(r) % 0x100 == (tsam * 8 + (r.tseg2 - 1)) * 16 + (r.tseg1 - 1)
  {
    hide PointAt, U32;
    FitsU32(r.sjw - 1);
    FitsU32(r.brp - 1);
    FitsU32(r.tseg2 - 1);
    FitsU32(r.tseg1 - 1);
    var high, low := (r.sjw - 1) * 64 + (r.brp - 1), (tsam * 8 + (r.tseg2 - 1)) * 16 + (r.tseg1 - 1);
    assert Pack(r) == high * 0x100 + low by {
      assert (r.sjw - 1) % 4 == r.sjw - 1 && (r.brp - 1) % 64 == r.brp - 1;
      assert (r.tseg2 - 1) % 8 == r.tseg2 - 1 && (r.tseg1 - 1) % 16 == r.tseg1 - 1;
    }
    hide Pack;
    Digits(high, low, 0x100);
  }

  lemma PackRoundTrip(r: Timing)
    requires Usable(r)
    ensures SameFields(Unpack(Pack(r)), r) && (Unpack(Pack(r)).tsam == 1 <==> r.tsam != 0)
  {
    hide PointAt, U32, Pack;
    var tsam := if r.tsam != 0 then 1 else 0;
    PackBytes(r, tsam);
    Digits(r.sjw - 1, r.brp - 1, 64);
    Digits(tsam * 8 + (r.tseg2 - 1), r.tseg1 - 1, 16);
    Digits(tsam, r.tseg2 - 1, 8);
    Digits(tsam, (r.tseg2 - 1) * 16 + (r.tseg1 - 1), 128);
  }

  /** A timing as sja1000_bitrate sets it up before the search. */
  function Request(bitrate: u32, samplePoint: u32, sjw: u32): Timing {
    Timing(0, 0, 0, if sjw != 0 then sjw else SJA1000.sjwMin, 0, bitrate, samplePoint, 0)
  }

  /** The register pair programs p * n clock ticks per bit. */
  predicate Programs(btr0btr1: u16, p: nat, n: nat) {
    var u := Unpack(btr0btr1);
    u.brp == p && 1 + u.tseg1 + u.tseg2 == n
  }

  /** No prescaler and length meet the bitrate, or the sample point is above 100%. */
  ghost predicate Refused(bitrate: u32, samplePoint: u32)
    requires samplePoint <= SAMPT_SCALE ==> bitrate > 0
  {
    samplePoint > SAMPT_SCALE || !exists p: nat, n: nat :: Meets(bitrate, p, n)
  }

  /** What a refused request leaves in the registers: every field minus one has its mask full, and the
      channel runs at 5000 bit/s. */
  lemma RefusedRequest(bt: Timing)
    requires bt.brp == bt.tseg1 == bt.tseg2 == bt.tsam == 0
    ensures var u := Unpack(Pack(bt));
            && u.brp == 64 && u.tseg1 == 16 && u.tseg2 == 8 && u.tsam == 0
            && Programs(Pack(bt), 64, 25) && Rate(CLOCK_HZ, 64, 25) == 5000
  {
    var sjw := U32(bt.sjw - 1) % 4;
    var high, low := sjw * 64 + 63, 7 * 16 + 15;
    assert Pack(bt) == high * 0x100 + low;
    Digits(high, low, 0x100);
    Digits(sjw, 63, 64);
  }

  /** Packed, whatever the search has returned meets the bitrate exactly when the bitrate can be met at
      all, provided an accepted length can be cut: an unmet one silently becomes 5000 bit/s. */
  lemma RegistersMeet(bt: Timing, status: Status, r: Timing)
    requires bt.brp == bt.tseg1 == bt.tseg2 == bt.tsam == 0
    requires Reasonable(bt) && Outcome(SJA1000, CLOCK_HZ, bt, status, r) && (status == Done ==> ChosenCuttable(bt))
    ensures var u := Unpack(Pack(r));
            && (Meets(bt.bitrate, u.brp, 1 + u.tseg1 + u.tseg2) <==> exists p: nat, n: nat :: Meets(bt.bitrate, p, n))
            && ((exists p: nat, n: nat :: Meets(bt.bitrate, p, n)) || Programs(Pack(r), 64, 25))
  {
    hide Outcome, Rate, Pack, Unpack, ChosenCuttable;
    Completeness(bt, status, r);
    if status == Done {
      UsableExactly(bt, r);
      PackRoundTrip(r);
    } else {
      RefusedKeeps(bt, status, r);
      RefusedRequest(bt);
    }
  }

  lemma RefusedKeeps(bt: Timing, status: Status, r: Timing)
    requires bt.samplePoint <= SAMPT_SCALE ==> Reasonable(bt)
    requires Outcome(SJA1000, CLOCK_HZ, bt, status, r) && status != Done
    ensures r == bt
  {
    hide IsBest, Filled, Unmet;
  }

  /** What the register pair carries of a request: single sampling, the jump width asked for or else one, as far
      as the controller and the second segment allow, and, if a sample point is asked for, the latest one that
      does not pass it. */
  ghost predicate Carries(btr0btr1: u16, samplePoint: u32, sjw: u32) {
    var u := Unpack(btr0btr1);
    var point := PointAt(1 + u.tseg1, 1 + u.tseg1 + u.tseg2);
    && u.tsam == 0 && u.sjw == Min(Min(Max(sjw, 1), 4), u.tseg2)
    && (samplePoint > 0 ==> point <= samplePoint && NoLaterCut(SJA1000, u.tseg1 + u.tseg2, point, samplePoint))
  }

  lemma RequestCarried(bt: Timing, r: Timing)
    requires Reasonable(bt) && ChosenCuttable(bt) && bt.tsam == 0 && bt.sjw > 0 && Outcome(SJA1000, CLOCK_HZ, bt, Done, r)
    ensures Carries(Pack(r), bt.samplePoint, bt.sjw)
  {
    hide Outcome, PointAt, Pack, ChosenCuttable, NoLaterCut, Unpack, Meets;
    UsableExactly(bt, r);
    PackRoundTrip(r);
    WidthAndQuantum(SJA1000, CLOCK_HZ, bt, r);
    LatestPoint(SJA1000, CLOCK_HZ, bt, r);
    PointPositive(1 + r.tseg1, 1 + r.tseg1 + r.tseg2);
    TripleBit(Pack(r));
  }

  lemma PointPositive(k: nat, n: nat)
    requires 0 < k <= n <= SAMPT_SCALE
    ensures PointAt(k, n) > 0
  {
    QuotientAtMost(SAMPT_SCALE * k, n, 0);
  }

  lemma TripleBit(btr0btr1: u16)
    ensures Unpack(btr0btr1).tsam <= 1
  {
  }

  /** The register value for a bitrate. A bitrate that can be met within tolerance is programmed so; a refused
      one is not reported, and the channel is programmed for 5000 bit/s. */
  method Bitrate(bitrate: u32, samplePoint: u32, sjw: u32) returns (btr0btr1: u16)
    requires samplePoint <= SAMPT_SCALE ==> bitrate > 0 && 25 * bitrate <= UINT_MAX
    ensures exists status, r :: Outcome(SJA1000, CLOCK_HZ, Request(bitrate, samplePoint, sjw), status, r) && btr0btr1 == Pack(r)
    ensures Refused(bitrate, samplePoint) ==> Programs(btr0btr1, 64, 25)
    ensures !Refused(bitrate, samplePoint) && NominalPoint(Request(bitrate, samplePoint, sjw)) >= LATEST_FIT ==>
              exists p: nat, n: nat :: Programs(btr0btr1, p, n) && Meets(bitrate, p, n)
    ensures !Refused(bitrate, samplePoint) && ChosenCuttable(Request(bitrate, samplePoint, sjw)) ==>
              exists p: nat, n: nat :: Programs(btr0btr1, p, n) && Meets(bitrate, p, n)
    ensures !Refused(bitrate, samplePoint) && ChosenCuttable(Request(bitrate, samplePoint, sjw)) ==>
              Carries(btr0btr1, samplePoint, sjw)
    ensures samplePoint == sjw == 0 ==>
              && (bitrate == 1_000_000 ==> btr0btr1 == 0x0014) && (bitrate == 500_000 ==> btr0btr1 == 0x001C)
              && (bitrate == 250_000 ==> btr0btr1 == 0x011C) && (bitrate == 125_000 ==> btr0btr1 == 0x031C)
  {
    hide Outcome, Meets, Pack, Programs, Unpack, Rate, ChosenCuttable, PointAt, NoLaterCut;
    var bt := Timing(0, 0, 0, if sjw != 0 then sjw else SJA1000.sjwMin, 0, bitrate, samplePoint, 0);
    var status, r := BitrateToBittiming(bt, SJA1000, CLOCK_HZ);
    btr0btr1 := Pack(r);
    assert bt == Request(bitrate, samplePoint, sjw) && Outcome(SJA1000, CLOCK_HZ, bt, status, r);
    BitrateOutcome(bt, status, r);
    if samplePoint == sjw == 0 && bitrate in {1_000_000, 500_000, 250_000, 125_000} {
      UsualRegisters(bitrate, status, r);
    }
  }

  lemma BitrateOutcome(bt: Timing, status: Status, r: Timing)
    requires bt.brp == bt.tseg1 == bt.tseg2 == bt.tsam == 0
    requires bt.samplePoint <= SAMPT_SCALE ==> Reasonable(bt)
    requires Outcome(SJA1000, CLOCK_HZ, bt, status, r)
    ensures Refused(bt.bitrate, bt.samplePoint) ==> Programs(Pack(r), 64, 25)
    ensures !Refused(bt.bitrate, bt.samplePoint) && NominalPoint(bt) >= LATEST_FIT ==> ChosenCuttable(bt)
    ensures !Refused(bt.bitrate, bt.samplePoint) && ChosenCuttable(bt) ==>
              exists p: nat, n: nat :: Programs(Pack(r), p, n) && Meets(bt.bitrate, p, n)
    ensures !Refused(bt.bitrate, bt.samplePoint) && ChosenCuttable(bt) && bt.sjw > 0 ==> Carries(Pack(r), bt.samplePoint, bt.sjw)
  {
    hide Rate, Pack, Unpack, IsBest, Filled, Unmet, ChosenCuttable, Carries;
    if bt.samplePoint <= SAMPT_SCALE {
      Completeness(bt, status, r);
      if NominalPoint(bt) >= LATEST_FIT { LateIsCuttable(bt); }
    }
    if status != Done {
      RefusedKeeps(bt, status, r);
      RefusedRequest(bt);
    } else if ChosenCuttable(bt) {
      UsableExactly(bt, r);
      PackRoundTrip(r);
      assert Programs(Pack(r), r.brp, 1 + r.tseg1 + r.tseg2);
      if bt.sjw > 0 { RequestCarried(bt, r); }
    }
  }

  // ---------------------------------------------------------------- the usual bitrates

  /** The clock is an exact multiple of the bitrate, and of its divisors by a length up to 25 quanta n is the
      longest; with prescaler p it puts the sample point exactly at the default. */
  predicate Preset(bitrate: nat, p: nat, n: nat, t2: nat, nominal: nat) {
    && 50_000 < bitrate && bitrate * (p * n) == CLOCK_HZ
    && 1 <= p <= 64 && 3 <= n <= 25 && 1 <= t2 <= 8 && t2 <= n - 2 && n - 1 - t2 <= 16
    && (forall m :: n < m <= 25 ==> (p * n) % m != 0)
    && nominal < SAMPT_SCALE && SAMPT_SCALE * (n - t2) == nominal * n
  }

  /** The bitrate is met exactly only by prescalers and lengths of the same product. */
  lemma ExactProduct(bitrate: nat, k: nat, p: nat, n: nat)
    requires 50_000 < bitrate && bitrate * k == CLOCK_HZ && p > 0 && n > 0
    ensures Rate(CLOCK_HZ, p, n) == bitrate <==> p * n == k
  {
    ProductPositive(p, n);
    var x := p * n;
    QuotientAtMost(CLOCK_HZ, x, bitrate);
    QuotientAtLeast(CLOCK_HZ, x, bitrate);
    MulMonotone(50_000, bitrate, k);
    assert (bitrate + 1) * x == bitrate * x + x && (k + 1) * bitrate == k * bitrate + bitrate;
    assert (k - 1) * (bitrate + 1) == k * bitrate + k - bitrate - 1;
    if x > k {
      MulMonotone(k + 1, x, bitrate);
    } else if x < k {
      MulMonotone(x, k - 1, bitrate + 1);
    }
  }

  /** A cut that meets the nominal point exactly is the best one. */
  lemma ExactCut(nominal: nat, tseg: nat, t2: nat)
    requires 2 <= tseg <= 24 && Feasible(SJA1000, tseg, t2)
    requires SAMPT_SCALE * (tseg + 1 - t2) == nominal * (tseg + 1)
    ensures BestFit(SJA1000, nominal, tseg, t2) && PointError(SJA1000, nominal, tseg) == 0
  {
    Digits(nominal, 0, tseg + 1);
    BestFitUnique(SJA1000, nominal, tseg, t2);
  }

  lemma PresetIsBest(bt: Timing, p: nat, n: nat, t2: nat)
    requires Reasonable(bt) && Preset(bt.bitrate, p, n, t2, NominalPoint(bt))
    ensures IsBest(Ask(bt), 2 * (n - 1)) && Brp(Ask(bt), 2 * (n - 1)) == p
  {
    hide Rate, BitrateError, Brp, PointError, BestFit;
    var q, t := Ask(bt), 2 * (n - 1);
    var c := CandidatePrescaler(bt, t);
    PresetPrescaler(bt.bitrate, p, n, c);
    CandidateError(bt, t);
    ExactProduct(bt.bitrate, p * n, p, n);
    ExactCut(NominalPoint(bt), n - 1, t2);
    assert Exact(q, t);
    forall b: nat | Admissible(q, b) && b > t
      ensures !Exact(q, b)
    {
      LongerNotExact(bt, p, n, b);
    }
  }

  lemma PresetPrescaler(bitrate: nat, p: nat, n: nat, c: nat)
    requires bitrate > 0 && p > 0 && n > 0 && bitrate * (p * n) == CLOCK_HZ
    requires assert n * bitrate > 0; c == CLOCK_HZ / (n * bitrate)
    ensures c == p
  {
    assert bitrate * (p * n) == p * (n * bitrate);
    Digits(p, 0, n * bitrate);
  }

  lemma LongerNotExact(bt: Timing, p: nat, n: nat, b: nat)
    requires Reasonable(bt) && 50_000 < bt.bitrate && bt.bitrate * (p * n) == CLOCK_HZ && p > 0 && 3 <= n <= 25
    requires forall m :: n < m <= 25 ==> (p * n) % m != 0
    requires Admissible(Ask(bt), b) && b > 2 * (n - 1)
    ensures BitrateError(Ask(bt), b) != 0
  {
    hide Rate, BitrateError, Brp;
    var q, m, k := Ask(bt), Quanta(b), p * n;
    CandidateError(bt, b);
    ExactProduct(bt.bitrate, k, Brp(q, b), m);
    assert (p + 1) * n == p * n + n;
    if m == n {
      var c := CandidatePrescaler(bt, b);
      PresetPrescaler(bt.bitrate, p, n, c);
    } else if Brp(q, b) * m == k {
      Digits(Brp(q, b), 0, m);
    }
  }

  /** A preset bitrate without sample point and jump width is cut as the preset says. */
  lemma PresetTiming(bt: Timing, p: nat, n: nat, t2: nat, status: Status, r: Timing)
    requires Reasonable(bt) && Preset(bt.bitrate, p, n, t2, NominalPoint(bt)) && bt.sjw == 1
    requires Outcome(SJA1000, CLOCK_HZ, bt, status, r)
    ensures status == Done && r.brp == p && r.tseg1 == n - 1 - t2 && r.tseg2 == t2 && r.sjw == 1 && r.tsam == bt.tsam
  {
    hide Rate, Brp, PointError, PointAt, IsBest, Meets, BestFit;
    var q, t := Ask(bt), 2 * (n - 1);
    PresetIsBest(bt, p, n, t2);
    ExactProduct(bt.bitrate, p * n, p, n);
    ExactMeets(bt.bitrate, p, n);
    Completeness(bt, status, r);
    var u: nat :| IsBest(q, u) && Tolerated(q.bitrate, BitrateError(q, u)) && Filled(q, bt, u, r);
    BestIsUnique(q, u, t);
    ExactCut(NominalPoint(bt), n - 1, t2);
    BestFitUnique(SJA1000, NominalPoint(bt), n - 1, t2);
    assert HasFit(SJA1000, NominalPoint(bt), n - 1);
  }

  lemma ExactMeets(bitrate: nat, p: nat, n: nat)
    requires bitrate > 0 && 1 <= p <= 64 && 3 <= n <= 25 && Rate(CLOCK_HZ, p, n) == bitrate
    ensures Meets(bitrate, p, n)
  {
    QuotientAtMost(0, bitrate, 0);
  }

  /** The registers for 1 Mbit/s, 500, 250 and 125 kbit/s, asked for without sample point and jump width. */
  lemma UsualRegisters(bitrate: u32, status: Status, r: Timing)
    requires bitrate in {1_000_000, 500_000, 250_000, 125_000}
    requires Outcome(SJA1000, CLOCK_HZ, Request(bitrate, 0, 0), status, r)
    ensures status == Done
    ensures Pack(r) ==
              if bitrate == 1_000_000 then 0x0014 else if bitrate == 500_000 then 0x001C
              else if bitrate == 250_000 then 0x011C else 0x031C
  {
    hide Outcome;
    var bt := Request(bitrate, 0, 0);
    if bitrate == 1_000_000 {
      PresetTiming(bt, 1, 8, 2, status, r);
    } else if bitrate == 500_000 {
      PresetTiming(bt, 1, 16, 2, status, r);
    } else if bitrate == 250_000 {
      PresetTiming(bt, 2, 16, 2, status, r);
    } else {
      PresetTiming(bt, 4, 16, 2, status, r);
    }
  }

  // ---------------------------------------------------------------- the abstract form

  /** Timing in nanoseconds (struct pcan_bittiming_abs). */
  datatype Abstract = Abstract(
    prescaler: u32, syncNs: u32, tseg1Ns: u32, tseg2Ns: u32, sjwNs: u32,
    bitrate: u32, deltaBitrate: u32, sample3: u32)

  function DivRound(a: u32, b: u32): u32
    requires b > 0
  {
    U32(U32(a + b / 2) / b)
  }

  predicate Convertible(bt: Timing, clk: u32) {
    var widest := 1 + bt.tseg1 + bt.tseg2 + bt.sjw;
    && clk >= MHZ && bt.brp > 0
    && 1000 * bt.brp * widest + clk <= UINT_MAX
    && bt.brp * widest + clk <= UINT_MAX
  }

  lemma ConvertibleProducts(bt: Timing, clk: u32, quanta: nat)
    requires Convertible(bt, clk) && quanta <= 1 + bt.tseg1 + bt.tseg2 + bt.sjw
    ensures 0 <= 1000 * bt.brp * quanta <= UINT_MAX - clk && 0 <= bt.brp * quanta <= UINT_MAX - clk
    ensures quanta > 0 ==> bt.brp * quanta > 0
  {
    MulMonotone(quanta, 1 + bt.tseg1 + bt.tseg2 + bt.sjw, bt.brp);
    assert 1000 * bt.brp * quanta == 1000 * (bt.brp * quanta);
    assert 1000 * bt.brp * (1 + bt.tseg1 + bt.tseg2 + bt.sjw) == 1000 * (bt.brp * (1 + bt.tseg1 + bt.tseg2 + bt.sjw));
    assert quanta > 0 ==> bt.brp * quanta > 0;
  }

  function ToAbstract(bt: Timing, clk: u32): Abstract
    requires Convertible(bt, clk)
  {
    ConvertibleProducts(bt, clk, 1);
    ConvertibleProducts(bt, clk, bt.tseg1);
    ConvertibleProducts(bt, clk, bt.tseg2);
    ConvertibleProducts(bt, clk, bt.sjw);
    ConvertibleProducts(bt, clk, 1 + bt.tseg1 + bt.tseg2);
    ConvertibleProducts(bt, clk, 1 + bt.tseg1 + bt.tseg2 + bt.sjw);
    var clkMhz := clk / MHZ;
    var prescalerHz := bt.brp * 1000;
    var bitrate := DivRound(clk, bt.brp * (1 + bt.tseg1 + bt.tseg2));
    var shifted := DivRound(clk, bt.brp * (1 + bt.tseg1 + bt.tseg2 + bt.sjw));
    Abstract(bt.brp,
             DivRound(prescalerHz, clkMhz),
             DivRound(prescalerHz * bt.tseg1, clkMhz),
             DivRound(prescalerHz * bt.tseg2, clkMhz),
             DivRound(prescalerHz * bt.sjw, clkMhz),
             bitrate, AbsInt32(U32(bitrate - shifted)), bt.tsam)
  }

  /** Back to quanta; None when a quantum rounds to zero nanoseconds. */
  function FromAbstract(abt: Abstract, clk: u32): Option<Timing>
    requires clk >= MHZ
  {
    var quantumNs := DivRound(U32(abt.prescaler * 1000), clk / MHZ);
    if quantumNs == 0 then None
    else
      var tseg1 := DivRound(abt.tseg1Ns, quantumNs);
      var tseg2 := DivRound(abt.tseg2Ns, quantumNs);
      Some(Timing(abt.prescaler, tseg1, tseg2, DivRound(abt.sjwNs, quantumNs), abt.sample3, abt.bitrate,
                  U32(U32(SAMPT_SCALE * (1 + tseg1)) / (1 + tseg1 + tseg2)), quantumNs))
  }

  /** x is the whole number nearest to num / den. */
  predicate Nearest(x: int, num: int, den: int) { 2 * Abs(x * den - num) <= den }

  lemma DivRoundNearest(a: u32, b: u32)
    requires b > 0 && a + b / 2 <= UINT_MAX
    ensures Nearest(DivRound(a, b), a, b)
  {
    hide U32;
    FitsU32(a + b / 2);
    QuotientNoLarger(a + b / 2, b);
    FitsU32((a + b / 2) / b);
    QuotientBounds(a + b / 2, b);
    NextMultiple((a + b / 2) / b, b);
  }

  lemma QuotientNoLarger(n: nat, d: nat)
    requires d > 0
    ensures n / d <= n
  {
    MulMonotone(1, d, n + 1);
    QuotientAtMost(n, d, n);
  }

  /** Every length of the abstract form is the nearest number of nanoseconds, the bitrate the nearest to clock
      over prescaler times quanta, and its deviation the distance to the nearest one for a bit longer by the
      jump width. */
  lemma AbstractNearest(bt: Timing, clk: u32) returns (shifted: u32)
    requires Convertible(bt, clk)
    ensures var (a, mhz, hz) := (ToAbstract(bt, clk), clk / 1_000_000, bt.brp * 1000);
            && a.prescaler == bt.brp && a.sample3 == bt.tsam
            && Nearest(a.syncNs, hz, mhz) && Nearest(a.tseg1Ns, hz * bt.tseg1, mhz)
            && Nearest(a.tseg2Ns, hz * bt.tseg2, mhz) && Nearest(a.sjwNs, hz * bt.sjw, mhz)
            && Nearest(a.bitrate, clk, bt.brp * (1 + bt.tseg1 + bt.tseg2))
            && Nearest(shifted, clk, bt.brp * (1 + bt.tseg1 + bt.tseg2 + bt.sjw))
            && (-0x8000_0000 < a.bitrate - shifted < 0x8000_0000 ==> a.deltaBitrate == Abs(a.bitrate - shifted))
  {
    hide DivRound, U32, AbsInt32, Nearest;
    ConvertibleProducts(bt, clk, 1);
    ConvertibleProducts(bt, clk, bt.tseg1);
    ConvertibleProducts(bt, clk, bt.tseg2);
    ConvertibleProducts(bt, clk, bt.sjw);
    ConvertibleProducts(bt, clk, 1 + bt.tseg1 + bt.tseg2);
    ConvertibleProducts(bt, clk, 1 + bt.tseg1 + bt.tseg2 + bt.sjw);
    var mhz, hz := clk / MHZ, bt.brp * 1000;
    DivRoundNearest(hz, mhz);
    DivRoundNearest(hz * bt.tseg1, mhz);
    DivRoundNearest(hz * bt.tseg2, mhz);
    DivRoundNearest(hz * bt.sjw, mhz);
    DivRoundNearest(clk, bt.brp * (1 + bt.tseg1 + bt.tseg2));
    DivRoundNearest(clk, bt.brp * (1 + bt.tseg1 + bt.tseg2 + bt.sjw));
    shifted := DivRound(clk, bt.brp * (1 + bt.tseg1 + bt.tseg2 + bt.sjw));
    var a := ToAbstract(bt, clk);
    if -0x8000_0000 < a.bitrate - shifted < 0x8000_0000 {
      AbsDifference(a.bitrate, shifted);
    }
  }

  /** The nearest rate is the truncated one or the next. */
  lemma NearestRate(x: int, p: nat, n: nat)
    requires p > 0 && n > 0 && Nearest(x, CLOCK_HZ, p * n)
    ensures Rate(CLOCK_HZ, p, n) <= x <= Rate(CLOCK_HZ, p, n) + 1
  {
    ProductPositive(p, n);
    var d, r := p * n, Rate(CLOCK_HZ, p, n);
    QuotientBounds(CLOCK_HZ, d);
    assert (r - 1) * d == r * d - d && (r + 2) * d == (r + 1) * d + d;
    if x < r {
      MulMonotone(x, r - 1, d);
    } else if x > r + 1 {
      MulMonotone(r + 2, x, d);
    }
  }

  lemma DivRoundExact(k: nat, b: nat)
    requires b > 0 && k * b + b <= UINT_MAX
    ensures 0 <= k * b <= UINT_MAX && DivRound(k * b, b) == k
  {
    assert k * b >= 0;
    FitsU32(k * b + b / 2);
    FitsU32(k);
    assert (k + 1) * b == k * b + b;
    QuotientAtMost(k * b + b / 2, b, k);
    QuotientAtLeast(k * b + b / 2, b, k);
  }

  /** A length of t quanta survives the conversion when the quantum is a whole number of nanoseconds. */
  lemma QuantaSurvive(prescalerHz: u32, clkMhz: u32, quantumNs: nat, t: nat)
    requires clkMhz > 0 && prescalerHz > 0 && prescalerHz == quantumNs * clkMhz
    requires prescalerHz * (1 + t) <= UINT_MAX - clkMhz
    ensures 0 <= prescalerHz * t <= UINT_MAX
    ensures 0 < quantumNs <= UINT_MAX
    ensures var ns := DivRound(prescalerHz * t, clkMhz); ns == quantumNs * t && DivRound(ns, quantumNs) == t
  {
    hide DivRound;
    assert prescalerHz * (1 + t) == prescalerHz + prescalerHz * t;
    assert prescalerHz * t == (quantumNs * t) * clkMhz;
    DivRoundExact(quantumNs * t, clkMhz);
    assert quantumNs > 0;
    MulMonotone(1, clkMhz, quantumNs);
    MulMonotone(quantumNs, prescalerHz, t);
    DivRoundExact(t, quantumNs);
  }

  lemma AbstractLengths(bt: Timing, clk: u32, quantumNs: nat)
    requires Convertible(bt, clk) && bt.brp * 1000 == quantumNs * (clk / MHZ)
    ensures 0 < quantumNs <= UINT_MAX
    ensures var a := ToAbstract(bt, clk);
            && a.prescaler == bt.brp && a.sample3 == bt.tsam && bt.brp * 1000 <= UINT_MAX
            && DivRound(bt.brp * 1000, clk / MHZ) == quantumNs
            && DivRound(a.tseg1Ns, quantumNs) == bt.tseg1
            && DivRound(a.tseg2Ns, quantumNs) == bt.tseg2
            && DivRound(a.sjwNs, quantumNs) == bt.sjw
  {
    hide DivRound, U32, AbsInt32;
    ConvertibleProducts(bt, clk, 1);
    ConvertibleProducts(bt, clk, 1 + bt.tseg1);
    ConvertibleProducts(bt, clk, 1 + bt.tseg2);
    ConvertibleProducts(bt, clk, 1 + bt.sjw);
    QuantaSurvive(bt.brp * 1000, clk / MHZ, quantumNs, bt.tseg1);
    QuantaSurvive(bt.brp * 1000, clk / MHZ, quantumNs, bt.tseg2);
    QuantaSurvive(bt.brp * 1000, clk / MHZ, quantumNs, bt.sjw);
    DivRoundExact(quantumNs, clk / MHZ);
  }

  /** Abstract form and back is the identity whenever the MHz value of the clock divides 1000 * brp. */
  lemma AbstractRoundTrip(bt: Timing, clk: u32)
    requires Convertible(bt, clk) && 1000 * bt.brp % (clk / MHZ) == 0
    ensures var r := FromAbstract(ToAbstract(bt, clk), clk);
            && r.Some? && SameFields(r.value, bt) && r.value.tsam == bt.tsam
            && r.value.samplePoint == U32(SAMPT_SCALE * (1 + bt.tseg1)) / (1 + bt.tseg1 + bt.tseg2)
            && r.value.tq * (clk / MHZ) == 1000 * bt.brp && r.value.bitrate == ToAbstract(bt, clk).bitrate
  {
    hide DivRound, U32, ToAbstract;
    var quantumNs := bt.brp * 1000 / (clk / MHZ);
    AbstractLengths(bt, clk, quantumNs);
    FitsU32(bt.brp * 1000);
    QuotientAtMost(U32(SAMPT_SCALE * (1 + bt.tseg1)), 1 + bt.tseg1 + bt.tseg2, UINT_MAX);
    FitsU32(U32(SAMPT_SCALE * (1 + bt.tseg1)) / (1 + bt.tseg1 + bt.tseg2));
  }

  /** From an accepted bitrate, its length cuttable (from 68% on it always is), through the register pair and the abstract form back to the same timing. */
  lemma RegisterPipeline(bt: Timing, r: Timing)
    requires Reasonable(bt) && ChosenCuttable(bt) && Outcome(SJA1000, CLOCK_HZ, bt, Done, r)
    ensures Convertible(Unpack(Pack(r)), CLOCK_HZ)
    ensures var back := FromAbstract(ToAbstract(Unpack(Pack(r)), CLOCK_HZ), CLOCK_HZ);
            && back.Some? && SameFields(back.value, r)
            && back.value.samplePoint == r.samplePoint
            && Meets(bt.bitrate, back.value.brp, 1 + back.value.tseg1 + back.value.tseg2)
            && back.value.tq == 125 * r.brp
            && 0 <= back.value.bitrate - Rate(CLOCK_HZ, r.brp, 1 + r.tseg1 + r.tseg2) <= 1
  {
    hide Outcome, Rate, ToAbstract, FromAbstract, Pack, Unpack, U32, Meets, ChosenCuttable;
    UsableExactly(bt, r);
    PackRoundTrip(r);
    SmallTimingConverts(Unpack(Pack(r)));
    AbstractRoundTrip(Unpack(Pack(r)), CLOCK_HZ);
    var shifted := AbstractNearest(Unpack(Pack(r)), CLOCK_HZ);
    NearestRate(ToAbstract(Unpack(Pack(r)), CLOCK_HZ).bitrate, r.brp, 1 + r.tseg1 + r.tseg2);
    FitsU32(SAMPT_SCALE * (1 + r.tseg1));
  }

  lemma SmallTimingConverts(u: Timing)
    requires 1 <= u.brp <= 64 && u.tseg1 <= 16 && u.tseg2 <= 8 && u.sjw <= 4
    ensures Convertible(u, CLOCK_HZ) && 1000 * u.brp % (CLOCK_HZ / MHZ) == 0
  {
    var widest := 1 + u.tseg1 + u.tseg2 + u.sjw;
    MulMonotone(u.brp, 64, widest);
    assert 1000 * u.brp * widest == 1000 * (u.brp * widest);
    assert 1000 * u.brp == 8 * (125 * u.brp);
  }
}
