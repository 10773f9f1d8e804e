/** Synchronisation of the device clock with host time, and the drift-corrected time stamps made from it
    (pcan_sync_times, pcan_sync_decode, pcan_sync_timestamps; timeval helpers of pcan_common.h). */
module TimeSync {
  import opened Words

  const USEC_PER_SEC := 1_000_000
  const DRIFT_SCALE := 0x2_0000

  function U64(x: nat): nat { x % LONG }

  // ---------------------------------------------------------------- struct timeval

  datatype TimeVal = TimeVal(sec: int, usec: int)

  function ToUs(tv: TimeVal): int { tv.sec * USEC_PER_SEC + tv.usec }

  /** timeval_add_us: quotient and remainder of C truncate towards zero. */
  function AddUs(tv: TimeVal, us: int): TimeVal {
    var usec := tv.usec + us;
    TimeVal(tv.sec + TruncDiv(usec, USEC_PER_SEC), usec - TruncDiv(usec, USEC_PER_SEC) * USEC_PER_SEC)
  }

  predicate Normal(tv: TimeVal) { 0 <= tv.usec < USEC_PER_SEC }

  /** Adding keeps the total right, but only some negative offsets keep tv_usec in range. */
  lemma AddUsTotal(tv: TimeVal, us: int)
    ensures ToUs(AddUs(tv, us)) == ToUs(tv) + us
    ensures Normal(AddUs(tv, us)) <==> tv.usec + us >= 0 || (tv.usec + us) % USEC_PER_SEC == 0
  {
    var usec := tv.usec + us;
    if usec < 0 {
      var q := -usec / USEC_PER_SEC;
      assert -usec == q * USEC_PER_SEC + -usec % USEC_PER_SEC;
      assert usec == (-q - 1) * USEC_PER_SEC + (USEC_PER_SEC - -usec % USEC_PER_SEC);
    }
  }

  // ---------------------------------------------------------------- synchronising

  /** struct pcan_time_sync: host time and device time of the last sync, totals since the first one. */
  datatype Sync = Sync(tv: TimeVal, ts: nat, ttv: nat, tts: nat, drift: nat)

  const NO_SYNC := Sync(TimeVal(0, 0), 0, 0, 0, 0)

  /** One calibration: host time when it is handled, device microseconds, host time offset. */
  datatype Call = Call(now: TimeVal, ts: nat, tvOff: int)

  /** Device microseconds per host microsecond, scaled, plus one against time stamps from the future. */
  function DriftOf(tts: nat, ttv: nat): nat
    requires 0 < ttv < WORD
  {
    U32(U64(tts * DRIFT_SCALE) / ttv) + 1
  }

  function Shifted(call: Call): TimeVal {
    if call.tvOff < 0 then AddUs(call.now, call.tvOff) else call.now
  }

  function Step(s: Sync, call: Call): (Sync, int) {
    if s.ts == 0 then (NO_SYNC.(tv := Shifted(call), ts := call.ts), 1)
    else
      var dtv := ToUs(call.now) - ToUs(s.tv);
      var dtv' := if call.tvOff < 0 then dtv + call.tvOff else dtv;
      if dtv < USEC_PER_SEC || call.ts < s.ts || dtv' <= 0 then (s, 0)
      else
        var ttv, tts := s.ttv + dtv', s.tts + (call.ts - s.ts);
        (Sync(Shifted(call), call.ts, ttv, tts, if ttv < WORD then DriftOf(tts, ttv) else s.drift), 1)
  }

  /** The time_sync member of a device, overwritten by each accepted calibration. */
  class TimeKeeper {
    var tv: TimeVal
    var tsUs: nat
    var ttvUs: nat
    var ttsUs: nat
    var clockDrift: nat

    function State(): Sync
      reads this
    {
      Sync(tv, tsUs, ttvUs, ttsUs, clockDrift)
    }

    /** pcan_sync_init */
    constructor ()
      ensures State() == NO_SYNC
    {
      tv, tsUs, ttvUs, ttsUs, clockDrift := TimeVal(0, 0), 0, 0, 0, 0;
    }

    method SyncTimes(call: Call) returns (r: int)
      modifies this
      ensures (State(), r) == Step(old(State()), call)
    {
      if tsUs == 0 {
        tv, tsUs, ttvUs, ttsUs, clockDrift := call.now, call.ts, 0, 0, 0;
        if call.tvOff < 0 {
          tv := AddUs(tv, call.tvOff);
        }
        return 1;
      }
      var dtvUs := ToUs(call.now) - ToUs(tv);
      if dtvUs < USEC_PER_SEC {
        return 0;
      }
      var dtsUs := call.ts - tsUs;
      if dtsUs < 0 {
        return 0;
      }
      var now := call.now;
      if call.tvOff < 0 {
        now := AddUs(now, call.tvOff);
        dtvUs := dtvUs + call.tvOff;
      }
      if dtvUs <= 0 {
        return 0;
      }
      ttvUs := ttvUs + dtvUs;
      ttsUs := ttsUs + dtsUs;
      if ttvUs != 0 && ttvUs <= UINT_MAX {
        clockDrift := U32(U64(ttsUs * DRIFT_SCALE) / ttvUs);
        clockDrift := clockDrift + 1;
      }
      tv, tsUs := now, call.ts;
      return 1;
    }
  }

  function Run(s: Sync, calls: seq<Call>): Sync
    decreases |calls|
  {
    if calls == [] then s else Step(Run(s, calls[..|calls| - 1]), calls[|calls| - 1]).0
  }

  /** s is the state some calibrations after the first sync `first`. */
  ghost predicate Since(first: Sync, s: Sync) {
    && s.ts >= first.ts > 0
    && s.tts == s.ts - first.ts
    && s.ttv == ToUs(s.tv) - ToUs(first.tv)
    && (s.ttv == 0 ==> s == first)
  }

  lemma StepSince(first: Sync, s: Sync, call: Call)
    requires first.ts > 0 && first.ttv == first.tts == first.drift == 0 && Since(first, s)
    ensures Since(first, Step(s, call).0) && Step(s, call).0.ts >= s.ts
  {
    hide DriftOf;
    AddUsTotal(call.now, call.tvOff);
  }

  /** Over every run after the first sync device time never decreases, and the two totals are exactly the
      device time and the host time elapsed since that sync. */
  lemma {:induction false} RunSince(first: Sync, calls: seq<Call>, k: nat)
    requires first.ts > 0 && first.ttv == first.tts == first.drift == 0 && k <= |calls|
    ensures Since(first, Run(first, calls)) && Run(first, calls[..k]).ts <= Run(first, calls).ts
    decreases |calls|
  {
    if k == |calls| {
      assert calls[..k] == calls;
    }
    if calls != [] {
      var front := calls[..|calls| - 1];
      RunSince(first, front, Min(k, |front|));
      assert k < |calls| ==> front[..k] == calls[..k];
      StepSince(first, Run(first, front), calls[|calls| - 1]);
    }
  }

  // ---------------------------------------------------------------- cooked time stamps

  datatype Mode = Off | On | Cooked | Raw

  /** What pcan_sync_decode stores with an event (struct pcan_timeval). */
  datatype HwTime = HwTime(tv: TimeVal, tvUs: nat, ts: nat, mode: Mode, drift: nat)

  function Decode(s: Sync, mode: Mode, ts: nat, now: TimeVal): HwTime {
    if s.ts != 0 && mode != Off then HwTime(s.tv, s.ts, ts, mode, s.drift) else HwTime(now, 0, 0, Off, 0)
  }

  /** A device offset turned into a host offset. */
  function Cook(d: nat, drift: nat): nat
    requires drift < WORD
  {
    if drift == 0 || drift == DRIFT_SCALE then d else U64(d * DRIFT_SCALE) / drift
  }

  function Offset(h: HwTime): nat
    requires h.drift < WORD
  {
    var d := Abs(h.ts - h.tvUs);
    if h.mode.Cooked? then Cook(d, h.drift) else d
  }

  /** pcan_sync_timestamps */
  function Timestamp(h: HwTime): TimeVal
    requires h.drift < WORD
  {
    match h.mode
    case Raw => TimeVal(h.ts / USEC_PER_SEC, h.ts % USEC_PER_SEC)
    case Off => h.tv
    case _ => AddUs(h.tv, if h.ts < h.tvUs then -(Offset(h) as int) else Offset(h))
  }

  /** Offsets for which the scaled product fits 64 bits: below 2^47 microseconds, about 4.4 years. */
  const LONGEST := 0x8000_0000_0000

  lemma CookBounds(d: nat, drift: nat)
    requires 0 < drift < WORD && d < LONGEST
    ensures Cook(d, drift) * drift <= d * DRIFT_SCALE < (Cook(d, drift) + 1) * drift
  {
    assert U64(d * DRIFT_SCALE) == d * DRIFT_SCALE;
    if drift != DRIFT_SCALE {
      QuotientBounds(d * DRIFT_SCALE, drift);
    }
  }

  lemma DriftBounds(tts: nat, ttv: nat)
    requires 0 < ttv < WORD && tts < 0x8000 * ttv
    ensures (DriftOf(tts, ttv) - 1) * ttv <= tts * DRIFT_SCALE < DriftOf(tts, ttv) * ttv
  {
    var p := tts * DRIFT_SCALE;
    assert p < WORD * ttv;
    assert U64(p) == p;
    QuotientBounds(p, ttv);
    QuotientAtMost(p, ttv, UINT_MAX);
    FitsU32(p / ttv);
  }

  /** For an event after the sync point the cooked offset never runs ahead of host time, measured by the
      totals the drift was computed from, and lags behind it by less than the drift's own rounding. */
  lemma CookedNeverAhead(d: nat, tts: nat, ttv: nat)
    requires 0 < ttv < WORD && tts < 0x8000 * ttv && d < LONGEST && DriftOf(tts, ttv) < WORD
    ensures var c := Cook(d, DriftOf(tts, ttv));
            c * tts <= d * ttv && d * DRIFT_SCALE * ttv < (c + 1) * (tts * DRIFT_SCALE + ttv)
  {
    var drift := DriftOf(tts, ttv);
    var c := Cook(d, drift);
    DriftBounds(tts, ttv);
    CookBounds(d, drift);
    hide DriftOf, Cook;
    CookedProducts(c, d, drift, tts, ttv);
  }

  lemma CookedProducts(c: nat, d: nat, drift: nat, tts: nat, ttv: nat)
    requires drift > 0 && ttv > 0
    requires (drift - 1) * ttv <= tts * DRIFT_SCALE < drift * ttv
    requires c * drift <= d * DRIFT_SCALE < (c + 1) * drift
    ensures c * tts <= d * ttv && d * DRIFT_SCALE * ttv < (c + 1) * (tts * DRIFT_SCALE + ttv)
  {
    MulMonotone(tts * DRIFT_SCALE, drift * ttv, c);
    MulMonotone(c * drift, d * DRIFT_SCALE, ttv);
    assert tts * DRIFT_SCALE * c == (c * tts) * DRIFT_SCALE;
    assert drift * ttv * c == c * drift * ttv;
    assert d * DRIFT_SCALE * ttv == (d * ttv) * DRIFT_SCALE;
    MulMonotone(d * DRIFT_SCALE + 1, (c + 1) * drift, ttv);
    assert (drift - 1) * ttv == drift * ttv - ttv;
    MulMonotone(drift * ttv, tts * DRIFT_SCALE + ttv, c + 1);
    assert drift * ttv * (c + 1) == (c + 1) * drift * ttv;
    assert (tts * DRIFT_SCALE + ttv) * (c + 1) == (c + 1) * (tts * DRIFT_SCALE + ttv);
    assert (d * DRIFT_SCALE + 1) * ttv == d * DRIFT_SCALE * ttv + ttv;
  }

  /** Without a limit on how fast the device clock runs this fails: the scaled ratio is cut to 32 bits.
      No cooked offset is ahead exactly when the device ran less than 32768 times as fast as the host. */
  lemma NeverAheadExactly(tts: nat, ttv: nat)
    requires 0 < ttv < WORD && DriftOf(tts, ttv) < WORD
    ensures (forall d: nat :: d < LONGEST ==> Cook(d, DriftOf(tts, ttv)) * tts <= d * ttv) <==> tts < 0x8000 * ttv
  {
    var drift := DriftOf(tts, ttv);
    if tts < 0x8000 * ttv {
      forall d: nat | d < LONGEST
        ensures Cook(d, drift) * tts <= d * ttv
      {
        CookedNeverAhead(d, tts, ttv);
      }
    } else {
      assert Cook(drift, drift) == DRIFT_SCALE by {
        CookBounds(drift, drift);
        ExactQuotient(Cook(drift, drift), drift);
      }
      MulMonotone(drift, WORD - 1, ttv);
      assert DRIFT_SCALE * tts >= WORD * ttv;
      assert Cook(drift, drift) * tts > drift * ttv;
    }
  }

  lemma ExactQuotient(c: nat, b: nat)
    requires b > 0 && c * b <= b * DRIFT_SCALE < (c + 1) * b
    ensures c == DRIFT_SCALE
  {
    if c < DRIFT_SCALE {
      MulMonotone(c + 1, DRIFT_SCALE, b);
    } else if c > DRIFT_SCALE {
      MulMonotone(DRIFT_SCALE + 1, c, b);
    }
  }

  lemma CookMonotone(d: nat, d': nat, drift: nat)
    requires drift < WORD && d <= d' < LONGEST
    ensures Cook(d, drift) <= Cook(d', drift)
  {
    if drift > 0 {
      CookBounds(d, drift);
      CookBounds(d', drift);
      var c, c' := Cook(d, drift), Cook(d', drift);
      hide Cook;
      if c > c' {
        MulMonotone(c' + 1, c, drift);
      }
    }
  }

  /** For a fixed sync base cooked times follow the order of device times, on both sides of the base. */
  lemma TimestampsMonotone(h: HwTime, h': HwTime)
    requires h' == h.(ts := h'.ts) && h.ts <= h'.ts && h.drift < WORD
    requires Abs(h.ts - h.tvUs) < LONGEST && Abs(h'.ts - h.tvUs) < LONGEST
    ensures ToUs(Timestamp(h)) <= ToUs(Timestamp(h'))
  {
    var d, d' := Abs(h.ts - h.tvUs), Abs(h'.ts - h.tvUs);
    if d <= d' { CookMonotone(d, d', h.drift); } else { CookMonotone(d', d, h.drift); }
    hide Cook, Timestamp;
    TimestampTotal(h);
    TimestampTotal(h');
  }

  lemma TimestampTotal(h: HwTime)
    requires h.drift < WORD
    ensures ToUs(Timestamp(h)) ==
              match h.mode
              case Raw => h.ts
              case Off => ToUs(h.tv)
              case _ => ToUs(h.tv) + if h.ts < h.tvUs then -(Offset(h) as int) else Offset(h)
  {
    hide AddUs, Offset;
    AddUsTotal(h.tv, Offset(h));
    AddUsTotal(h.tv, -(Offset(h) as int));
  }

  /** On both sides of the base an uncooked stamp is as far from it in host time as the event is in device
      time. */
  lemma UncookedExact(h: HwTime)
    requires h.mode.On? || (h.mode.Cooked? && h.drift == 0)
    requires h.drift < WORD
    ensures ToUs(Timestamp(h)) - ToUs(h.tv) == h.ts - h.tvUs
  {
    hide Timestamp;
    TimestampTotal(h);
  }

  /** A cooked stamp is the device time from the base divided by the drift, rounded towards the base. */
  lemma CookedExact(h: HwTime)
    requires h.mode.Cooked? && 0 < h.drift < WORD && Abs(h.ts - h.tvUs) < LONGEST
    ensures var (shift, d) := (ToUs(Timestamp(h)) - ToUs(h.tv), h.ts - h.tvUs);
            && (d >= 0 ==> shift >= 0) && (d <= 0 ==> shift <= 0)
            && Abs(shift) * h.drift <= Abs(d) * DRIFT_SCALE < (Abs(shift) + 1) * h.drift
  {
    hide Timestamp, Cook;
    TimestampTotal(h);
    CookBounds(Abs(h.ts - h.tvUs), h.drift);
    CookZero(h.drift);
  }

  lemma CookZero(drift: nat)
    requires 0 < drift < WORD
    ensures Cook(0, drift) == 0
  {
    QuotientAtMost(0, drift, 0);
  }

  /** The stamp of an event in each mode: the host time of its arrival before the first sync or without
      device times, the bare device time, or a time counted from the last sync. */
  lemma StampInMode(s: Sync, mode: Mode, ts: nat, now: TimeVal)
    requires s.drift < WORD
    ensures var stamp := Timestamp(Decode(s, mode, ts, now));
            && (s.ts == 0 || mode.Off? ==> stamp == now)
            && (s.ts != 0 && mode.Raw? ==> ToUs(stamp) == ts && Normal(stamp))
            && (s.ts != 0 && (mode.On? || (mode.Cooked? && s.drift == 0)) ==> ToUs(stamp) - ToUs(s.tv) == ts - s.ts)
  {
    hide AddUs;
    if s.ts != 0 && (mode.On? || (mode.Cooked? && s.drift == 0)) {
      UncookedExact(Decode(s, mode, ts, now));
    }
  }

  // ---------------------------------------------------------------- which calibrations are taken

  /** A calibration is taken, and reported so, exactly if it is the first one, or comes at least a second of
      host time after the last sync, with a device time that has not gone back and a host time that is still
      later with its offset. It then becomes the last sync; otherwise nothing changes. */
  lemma TakenExactly(s: Sync, call: Call)
    ensures var (s', r) := Step(s, call);
            var at := ToUs(call.now) + Min(call.tvOff, 0);
            if s.ts == 0 || (ToUs(call.now) - ToUs(s.tv) >= 1_000_000 && call.ts >= s.ts && at > ToUs(s.tv)) then
              && r == 1 && s'.ts == call.ts && ToUs(s'.tv) == at
              && (s.ts == 0 ==> s'.ttv == s'.tts == s'.drift == 0)
            else r == 0 && s' == s
  {
    hide AddUs, DriftOf;
    AddUsTotal(call.now, call.tvOff);
  }

  /** Calibrations at least a second apart, with device times that never go back. */
  predicate Spaced(first: Sync, calls: seq<Call>) {
    forall i: nat :: i < |calls| ==> SpacedAt(first, calls, i)
  }

  predicate SpacedAt(first: Sync, calls: seq<Call>, i: nat)
    requires i < |calls|
  {
    && calls[i].tvOff >= 0
    && calls[i].ts >= (if i == 0 then first.ts else calls[i - 1].ts)
    && ToUs(calls[i].now) >= (if i == 0 then ToUs(first.tv) else ToUs(calls[i - 1].now)) + 1_000_000
  }

  /** All of those are taken: the last sync is the last one of them. */
  lemma {:induction false} SpacedAllTaken(first: Sync, calls: seq<Call>)
    requires first.ts > 0 && Spaced(first, calls)
    ensures var s := Run(first, calls);
            if calls == [] then s == first else s.ts == calls[|calls| - 1].ts && ToUs(s.tv) == ToUs(calls[|calls| - 1].now)
    decreases |calls|
  {
    hide Step;
    if calls != [] {
      var front := calls[..|calls| - 1];
      forall i: nat | i < |front|
        ensures SpacedAt(first, front, i)
      {
        assert SpacedAt(first, calls, i);
      }
      assert SpacedAt(first, calls, |front|);
      SpacedAllTaken(first, front);
      TakenExactly(Run(first, front), calls[|calls| - 1]);
      FirstGrows(first, front);
    }
  }

  lemma {:induction false} FirstGrows(first: Sync, calls: seq<Call>)
    requires first.ts > 0
    ensures Run(first, calls).ts > 0
    decreases |calls|
  {
    hide Step;
    if calls != [] {
      FirstGrows(first, calls[..|calls| - 1]);
      TakenExactly(Run(first, calls[..|calls| - 1]), calls[|calls| - 1]);
    }
  }

  // ---------------------------------------------------------------- stamps after a run

  /** A calibration is ignored, or computes the drift from the new totals, or, once host time no longer fits
      32 bits, keeps the drift. */
  lemma StepDrift(s: Sync, call: Call)
    requires s.ts > 0
    ensures var s' := Step(s, call).0;
            || s' == s
            || (0 < s'.ttv < WORD && s'.drift == DriftOf(s'.tts, s'.ttv))
            || (s'.ttv >= WORD && s'.drift == s.drift)
  {
    hide DriftOf, AddUs;
  }

  /** The drift in use after a run is the one computed at its last drift update. */
  lemma {:induction false} LastUpdate(first: Sync, calls: seq<Call>) returns (k: nat)
    requires first.ts > 0 && first.ttv == first.tts == first.drift == 0
    requires Run(first, calls).drift > 0
    ensures k <= |calls|
    ensures var u := Run(first, calls[..k]); 0 < u.ttv < WORD && Run(first, calls).drift == DriftOf(u.tts, u.ttv)
    decreases |calls|
  {
    hide DriftOf, Step;
    var front, call := calls[..|calls| - 1], calls[|calls| - 1];
    RunSince(first, front, |front|);
    var s, s' := Run(first, front), Run(first, calls);
    StepDrift(s, call);
    if s' != s && s'.ttv < WORD {
      k := |calls|;
      assert calls[..k] == calls;
    } else {
      k := LastUpdate(first, front);
      assert calls[..k] == front[..k];
    }
  }

  /** From the first sync on, however long the run: an event decoded after it, at or after the last sync
      point, is stamped with the last sync's host time plus an offset that is not ahead of host time by the
      totals of the last drift update, and behind it by no more than the rounding of drift and offset, unless
      the device ran 32768 times as fast as the host until then. */
  lemma EventNeverAhead(first: Sync, calls: seq<Call>, ts: nat, now: TimeVal) returns (k: nat)
    requires first.ts > 0 && first.ttv == first.tts == first.drift == 0
    requires var s := Run(first, calls); 0 < s.drift < WORD && s.ts <= ts < s.ts + LONGEST
    ensures k <= |calls|
    ensures var s, u := Run(first, calls), Run(first, calls[..k]);
            var t := ToUs(Timestamp(Decode(s, Cooked, ts, now))) - ToUs(s.tv);
            && 0 < u.ttv < WORD && s.drift == DriftOf(u.tts, u.ttv)
            && u.tts == u.ts - first.ts && u.ttv == ToUs(u.tv) - ToUs(first.tv)
            && 0 <= t
            && (u.tts < 0x8000 * u.ttv ==>
                  && t * u.tts <= (ts - s.ts) * u.ttv
                  && (ts - s.ts) * DRIFT_SCALE * u.ttv < (t + 1) * (u.tts * DRIFT_SCALE + u.ttv))
  {
    hide Run, AddUs, Cook, DriftOf;
    k := LastUpdate(first, calls);
    var s, u := Run(first, calls), Run(first, calls[..k]);
    RunSince(first, calls, |calls|);
    RunSince(first, calls[..k], k);
    if u.tts < 0x8000 * u.ttv {
      CookedNeverAhead(ts - s.ts, u.tts, u.ttv);
    }
    AddUsTotal(s.tv, Offset(Decode(s, Cooked, ts, now)));
  }

  // ---------------------------------------------------------------- a drift too large to divide by

  /** The increment after the division makes the drift 2^32, which do_div takes as zero, exactly when the
      ratio before it fills the 32-bit word. */
  lemma DriftFits(tts: nat, ttv: nat)
    requires 0 < ttv < WORD && tts * DRIFT_SCALE < LONG
    ensures DriftOf(tts, ttv) <= WORD
    ensures DriftOf(tts, ttv) == WORD <==> tts * DRIFT_SCALE / ttv % WORD == UINT_MAX
    ensures tts < 0x8000 * ttv ==> (DriftOf(tts, ttv) == WORD <==> tts * DRIFT_SCALE + ttv >= WORD * ttv)
  {
    var p := tts * DRIFT_SCALE;
    assert U64(p) == p;
    if tts < 0x8000 * ttv {
      QuotientAtMost(p, ttv, UINT_MAX);
      QuotientAtLeast(p, ttv, UINT_MAX);
      FitsU32(p / ttv);
      assert UINT_MAX * ttv == WORD * ttv - ttv;
    }
  }

  /** It does happen: one second after the first sync, a device clock just short of 32768 times as fast. */
  lemma DriftOverflowReachable()
    ensures var first := NO_SYNC.(ts := 1);
            Run(first, [Call(TimeVal(1, 0), 32_768_000_000, 0)]).drift == WORD
  {
    var first, call := NO_SYNC.(ts := 1), Call(TimeVal(1, 0), 32_768_000_000, 0);
    assert [call][..0] == [];
    assert Run(first, []) == first;
    DriftFits(32_767_999_999, USEC_PER_SEC);
    hide DriftOf;
    assert Run(first, [call]) == Step(first, call).0;
  }

  /** One more microsecond of device time than the exact limit allows: at 32768 times the speed of the host
      the ratio is cut to zero, and an event one microsecond after the sync is stamped 131 milliseconds ahead. */
  lemma AheadReachable()
    ensures var s := Run(NO_SYNC.(ts := 1), [Call(TimeVal(1, 0), 32_768_000_001, 0)]);
            && s.ttv == USEC_PER_SEC && s.tts == 0x8000 * s.ttv && s.drift == 1
            && Cook(1, s.drift) == 131_072 && Cook(1, s.drift) * s.tts > 1 * s.ttv
  {
    var first, call := NO_SYNC.(ts := 1), Call(TimeVal(1, 0), 32_768_000_001, 0);
    assert [call][..0] == [];
    assert Run(first, []) == first;
    assert DriftOf(32_768_000_000, USEC_PER_SEC) == 1;
    hide DriftOf;
    assert Run(first, [call]) == Step(first, call).0;
  }
}
