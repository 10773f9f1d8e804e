/** Reconstruction of a long tick count, and of microseconds, from the 16-bit and 8-bit tick values the
    PCAN-USB sends (struct pcan_usb_time). One tick lasts 128/3 microseconds. */
module UsbClock {
  import opened Words

  const SCALE_MULTIPLIER := 128
  const SCALE_DIVISOR := 3
  const SYNC_PERIOD_US := 1_000_000
  const SYNC_PERIOD_TICK := SYNC_PERIOD_US * SCALE_DIVISOR / SCALE_MULTIPLIER
  const BLOCK := 0x1_0000

  datatype Clock = Clock(ticksInit: u16, ticks16: u16, syncLow: u16, syncHigh: u32, tsLow: u32, tsHigh: u32)

  const RESET := Clock(0, 0, 0, 0, 0, 0)

  function Micros(count: u32): u32 { U32(count * SCALE_MULTIPLIER) / SCALE_DIVISOR }

  /** pcan_usb_sync_times: a calibration message. */
  function Sync(c: Clock, ticks: u16): Clock {
    var c1 := if c.ticksInit == 0 then c.(ticksInit := ticks, ticks16 := ticks)
              else if ticks < c.syncLow then c.(syncHigh := U32(c.syncHigh + BLOCK))
              else c;
    var ts := Micros(U32(c1.syncHigh + ticks));
    c1.(syncLow := ticks, tsHigh := if ts < c.tsLow then U32(c.tsHigh + 1) else c.tsHigh, tsLow := ts)
  }

  /** The time given to an event: its tick count and the two words of its microseconds. */
  datatype Stamp = Stamp(count: u32, tsLow: u32, tsHigh: u32)

  function WordCount(c: Clock, ticks: u16): u32 {
    if c.ticksInit == 0 then ticks
    else if ticks < c.syncLow && ticks < SYNC_PERIOD_TICK && U16(c.syncLow + SYNC_PERIOD_TICK) < c.syncLow then
      U32(c.syncHigh + BLOCK + ticks)
    else
      U32(c.syncHigh + ticks)
  }

  /** pcan_updateTimeStampFromWord: an event with a 16-bit stamp. */
  function FromWord(c: Clock, ticks: u16): (Clock, Stamp) {
    var c1 := if c.ticksInit == 0 then c.(ticksInit := ticks, syncLow := ticks) else c;
    var ts := Micros(WordCount(c, ticks));
    var high := if ts < c.tsLow && U32(c.tsLow + SYNC_PERIOD_US) < c.tsLow then U32(c.tsHigh + 1) else c.tsHigh;
    (c1.(ticks16 := ticks), Stamp(WordCount(c, ticks), ts, high))
  }

  /** The 16-bit value an 8-bit stamp is extended to. */
  function Extend(c: Clock, ticks8: u8): u16 {
    var hsb := c.ticks16 / 0x100;
    U8(if c.ticksInit != 0 && ticks8 < c.ticks16 % 0x100 then hsb + 1 else hsb) * 0x100 + ticks8
  }

  /** pcan_updateTimeStampFromByte: an event with an 8-bit stamp. */
  function FromByte(c: Clock, ticks8: u8): (Clock, Stamp) {
    FromWord(c, Extend(c, ticks8))
  }

  // ---------------------------------------------------------------- the driver's object

  /** struct pcan_usb_time, updated in place by each message. */
  class UsbTime {
    var ticksInit: u16
    var ticks16: u16
    var syncTicksLow: u16
    var syncTicksHigh: u32
    var syncTsLow: u32
    var syncTsHigh: u32

    function State(): Clock
      reads this
    {
      Clock(ticksInit, ticks16, syncTicksLow, syncTicksHigh, syncTsLow, syncTsHigh)
    }

    constructor ()
      ensures State() == RESET
    {
      ticksInit, ticks16, syncTicksLow, syncTicksHigh, syncTsLow, syncTsHigh := 0, 0, 0, 0, 0, 0;
    }

    method SyncTimes(ticks: u16)
      modifies this
      ensures State() == Sync(old(State()), ticks)
    {
      if ticksInit != 0 {
        if ticks < syncTicksLow {
          syncTicksHigh := U32(syncTicksHigh + BLOCK);
        }
      } else {
        ticksInit := ticks;
        ticks16 := ticks;
      }
      syncTicksLow := ticks;
      var tsLow := Micros(U32(syncTicksHigh + syncTicksLow));
      if tsLow < syncTsLow {
        syncTsHigh := U32(syncTsHigh + 1);
      }
      syncTsLow := tsLow;
    }

    method UpdateFromWord(ticks: u16) returns (stamp: Stamp)
      modifies this
      ensures (State(), stamp) == FromWord(old(State()), ticks)
    {
      hide U32, Micros;
      U32Sum(syncTicksHigh + BLOCK, ticks);
      FitsU32(ticks);
      FitsU32(syncTicksHigh);
      var tsHigh: u32 := syncTsHigh;
      var count: u32 := 0;
      if ticksInit != 0 {
        count := syncTicksHigh;
        if ticks < syncTicksLow {
          if ticks < SYNC_PERIOD_TICK {
            var nextTicks := U16(syncTicksLow + SYNC_PERIOD_TICK);
            if nextTicks < syncTicksLow {
              count := U32(count + BLOCK);
            }
          }
        }
      } else {
        ticksInit := ticks;
        syncTicksLow := ticks;
      }
      ticks16 := ticks;
      count := U32(count + ticks);
      var tsLow := Micros(count);
      if tsLow < syncTsLow {
        var nextTsLow := U32(syncTsLow + SYNC_PERIOD_US);
        if nextTsLow < syncTsLow {
          tsHigh := U32(tsHigh + 1);
        }
      }
      stamp := Stamp(count, tsLow, tsHigh);
    }

    method UpdateFromByte(ticks8: u8) returns (stamp: Stamp)
      modifies this
      ensures (State(), stamp) == FromByte(old(State()), ticks8)
    {
      hide FromWord;
      var hsb := ticks16 / 0x100;
      if ticksInit != 0 {
        var lsb := ticks16 % 0x100;
        if ticks8 < lsb {
          hsb := U8(hsb + 1);
        }
      }
      stamp := UpdateFromWord(hsb * 0x100 + ticks8);
    }
  }

  // ---------------------------------------------------------------- following the true tick count

  /** Ticks at the start of the block that holds t. */
  function BlockBase(t: nat): nat { t - t % BLOCK }

  /** The long microsecond time the driver keeps for a total of n ticks: the product n * 128 is cut to 32
      bits before it is divided, and the cuts are counted in the high word. */
  function Timeline(n: nat): nat {
    n * SCALE_MULTIPLIER / WORD * WORD + n * SCALE_MULTIPLIER % WORD / SCALE_DIVISOR
  }

  /** The counter stands at true tick s, counted from the start of the block `base`. */
  ghost predicate OnTicks(c: Clock, base: nat, s: nat) {
    && base % BLOCK == 0 && base <= s
    && c.ticksInit != 0
    && c.syncLow == s % BLOCK
    && c.syncHigh == U32(BlockBase(s) - base)
  }

  /** The two microsecond words stand at n ticks. */
  ghost predicate OnTime(c: Clock, n: nat) {
    c.tsLow == Micros(U32(n)) && c.tsHigh == U32(n * SCALE_MULTIPLIER / WORD)
  }

  lemma MicrosOfTicks(n: nat)
    ensures Micros(U32(n)) == n * SCALE_MULTIPLIER % WORD / SCALE_DIVISOR
  {
    var k, low := n / WORD, n % WORD;
    var high, rest := low * SCALE_MULTIPLIER / WORD, low * SCALE_MULTIPLIER % WORD;
    assert n * SCALE_MULTIPLIER == (k * SCALE_MULTIPLIER + high) * WORD + rest;
    Digits(k * SCALE_MULTIPLIER + high, rest, WORD);
  }

  /** Moving fewer than 131072 ticks on crosses at most one 2^32 boundary of the product, and the
      microsecond word decreases exactly when it does. */
  lemma MicrosWrap(n: nat, n': nat)
    requires n <= n' < n + 2 * BLOCK
    ensures var q, q' := n * SCALE_MULTIPLIER / WORD, n' * SCALE_MULTIPLIER / WORD;
            q' == if Micros(U32(n')) < Micros(U32(n)) then q + 1 else q
  {
    MicrosOfTicks(n);
    MicrosOfTicks(n');
  }

  /** Fewer than 65536 ticks on, the low half decreases exactly when the next block has begun. */
  lemma BlockStep(s: nat, s': nat)
    requires s <= s' < s + BLOCK
    ensures BlockBase(s') == if s' % BLOCK < s % BLOCK then BlockBase(s) + BLOCK else BlockBase(s)
  {
    assert s == s / BLOCK * BLOCK + s % BLOCK && s' == s' / BLOCK * BLOCK + s' % BLOCK;
    assert s' / BLOCK == s / BLOCK || s' / BLOCK == s / BLOCK + 1;
  }

  lemma BlockParts(s: nat)
    ensures BlockBase(s) + s % BLOCK == s && BlockBase(s) % BLOCK == 0
  {
  }

  lemma SyncTicks(c: Clock, base: nat, s: nat, s': nat)
    requires OnTicks(c, base, s) && s <= s' < s + BLOCK
    ensures OnTicks(Sync(c, s' % BLOCK), base, s')
    ensures U32(Sync(c, s' % BLOCK).syncHigh + s' % BLOCK) == U32(s' - base)
  {
    hide Micros, U32;
    BlockStep(s, s');
    BlockParts(s');
    U32Sum(BlockBase(s) - base, BLOCK);
    U32Sum(BlockBase(s') - base, s' % BLOCK);
  }

  lemma SyncTime(c: Clock, base: nat, s: nat, n: nat, s': nat)
    requires OnTicks(c, base, s) && s <= s' < s + BLOCK
    requires OnTime(c, n) && n <= s' - base < n + 2 * BLOCK
    ensures OnTime(Sync(c, s' % BLOCK), s' - base)
  {
    hide Micros, U32;
    SyncTicks(c, base, s, s');
    MicrosWrap(n, s' - base);
    U32Sum(n * SCALE_MULTIPLIER / WORD, 1);
  }

  lemma FirstSync(s: nat)
    requires s % BLOCK != 0
    ensures OnTicks(Sync(RESET, s % BLOCK), BlockBase(s), s)
    ensures OnTime(Sync(RESET, s % BLOCK), s - BlockBase(s))
  {
    BlockParts(s);
  }

  // ---------------------------------------------------------------- events

  /** When the count given to an event at true tick e, after a calibration at s, is right. */
  predicate CountExact(s: nat, e: nat) {
    var low := s % BLOCK;
    var late := low >= BLOCK - SYNC_PERIOD_TICK;
    if s <= e then
      low + (e - s) < BLOCK || (late && low + (e - s) - BLOCK < SYNC_PERIOD_TICK)
    else
      s - e <= low && !(late && low - (s - e) < SYNC_PERIOD_TICK)
  }

  /** The count is right exactly in that window. */
  lemma EventCount(c: Clock, base: nat, s: nat, e: nat)
    requires OnTicks(c, base, s) && base <= e && s - BLOCK < e < s + BLOCK
    ensures WordCount(c, e % BLOCK) == U32(e - base) <==> CountExact(s, e)
  {
    hide Micros, U32;
    var ticks := e % BLOCK;
    var high := BlockBase(s) - base;
    U32Sum(high, ticks);
    U32Sum(high, BLOCK + ticks);
    U32Apart(high + ticks, high + BLOCK + ticks);
    assert BlockBase(e) == BlockBase(s) || BlockBase(e) == BlockBase(s) + BLOCK || BlockBase(e) == BlockBase(s) - BLOCK;
    if BlockBase(e) == BlockBase(s) - BLOCK {
      U32Apart(e - base, high + ticks);
      U32Apart(e - base, high + BLOCK + ticks);
    }
  }

  lemma U32Apart(x: nat, y: nat)
    requires x < y < x + WORD
    ensures U32(x) != U32(y)
  {
  }

  /** Events up to 23437 ticks after the last calibration always get their true count, no later one does
      always; before it in the same block the bound is 18662. */
  lemma EventWindow(d: int)
    requires -BLOCK < d < BLOCK
    ensures (forall s: nat, e: nat :: e - s == d && (d < 0 ==> -d <= s % BLOCK) ==> CountExact(s, e))
            <==> -18662 <= d <= SYNC_PERIOD_TICK
  {
    if d > SYNC_PERIOD_TICK {
      var s := BLOCK - 1;
      assert !CountExact(s, s + d);
    } else if d < -18662 {
      var s := Max(BLOCK - SYNC_PERIOD_TICK, -d);
      assert !CountExact(s, s + d);
    }
  }

  /** The two bytes of a 16-bit tick value. */
  lemma Bytes(t: nat)
    ensures t % BLOCK / 0x100 == t / 0x100 % 0x100 && t % BLOCK % 0x100 == t % 0x100
    ensures t % BLOCK == t / 0x100 % 0x100 * 0x100 + t % 0x100
  {
    var block, hsb, lsb := t / BLOCK, t % BLOCK / 0x100, t % 0x100;
    assert t == (block * 0x100 + hsb) * 0x100 + lsb;
    Digits(block * 0x100 + hsb, lsb, 0x100);
    Digits(block, hsb, 0x100);
  }

  /** Eight bits suffice as long as consecutive events are less than 256 ticks apart. */
  lemma ByteExtends(c: Clock, t: nat, t': nat)
    requires c.ticks16 == t % BLOCK && t <= t' < t + 0x100 && (c.ticksInit == 0 ==> t % BLOCK == 0)
    ensures Extend(c, t' % 0x100) == t' % BLOCK
  {
    Bytes(t);
    Bytes(t');
    var carry := if t' % 0x100 < t % 0x100 then 1 else 0;
    assert t' / 0x100 == t / 0x100 + carry;
    assert U8(t / 0x100 % 0x100 + carry) == (t / 0x100 + carry) % 0x100;
  }

  // ---------------------------------------------------------------- whole runs

  /** What arrives, with its true tick: calibrations, events with a 16-bit stamp and events with an 8-bit
      stamp, in any order. */
  datatype Record = Calibration(t: nat) | Event16(t: nat) | Event8(t: nat)

  /** What has arrived so far. Nothing but ticks that read as zero; or, from the block `base` of the first
      other one on, the reference s (the last calibration, or that first event if there has been none
      since), the ticks the microseconds stand for, and the tick an 8-bit stamp is taken to follow. */
  datatype Past = Zero(last: nat) | Running(base: nat, s: nat, timed: nat, last: nat)

  function Remember(p: Past, r: Record): Past {
    match p
    case Zero(_) =>
      if r.t % BLOCK == 0 then Zero(r.t)
      else Running(BlockBase(r.t), r.t, if r.Calibration? then r.t % BLOCK else 0, r.t)
    case Running(base, s, timed, last) =>
      if r.Calibration? then Running(base, r.t, Max(r.t - base, 0), last) else Running(base, s, timed, r.t)
  }

  /** A calibration comes less than 65536 ticks after the reference, an event within 65536 ticks of it on
      either side, and an 8-bit stamp less than 256 ticks after the tick it follows. */
  predicate InStep(p: Past, r: Record) {
    && (p.Running? ==> if r.Calibration? then p.s <= r.t < p.s + BLOCK else p.base <= r.t && p.s - BLOCK < r.t < p.s + BLOCK)
    && (r.Event8? ==> p.last <= r.t < p.last + 0x100)
  }

  function Arrive(c: Clock, r: Record): (Clock, Stamp) {
    match r
    case Calibration(t) => (Sync(c, t % BLOCK), Stamp(0, 0, 0))
    case Event16(t) => FromWord(c, t % BLOCK)
    case Event8(t) => FromByte(c, t % 0x100)
  }

  ghost predicate Follows(c: Clock, p: Past) {
    match p
    case Zero(last) => c == RESET && last % BLOCK == 0
    case Running(base, s, timed, last) =>
      && OnTicks(c, base, s) && OnTime(c, timed) && timed <= s - base < timed + BLOCK && c.ticks16 == last % BLOCK
  }

  lemma CalibrationFollows(c: Clock, p: Past, t: nat)
    requires Follows(c, p) && InStep(p, Calibration(t))
    ensures Follows(Arrive(c, Calibration(t)).0, Remember(p, Calibration(t)))
  {
    hide Micros, U32, OnTime, BlockBase;
    BlockParts(t);
    if p.Running? {
      SyncTicks(c, p.base, p.s, t);
      SyncTime(c, p.base, p.s, p.timed, t);
    } else if t % BLOCK != 0 {
      FirstSync(t);
    } else {
      ZeroSync();
    }
  }

  lemma ZeroSync()
    ensures Sync(RESET, 0) == RESET && FromWord(RESET, 0) == (RESET, Stamp(0, 0, 0))
  {
  }

  /** An 8-bit stamp is extended to the 16 bits of its true tick. */
  lemma ByteIsWord(c: Clock, p: Past, t: nat)
    requires Follows(c, p) && InStep(p, Event8(t))
    ensures FromByte(c, t % 0x100) == FromWord(c, t % BLOCK)
  {
    hide OnTime, FromWord;
    ByteExtends(c, p.last, t);
  }

  /** The first tick other than zero may be that of an event. */
  lemma FirstEvent(e: nat)
    requires e % BLOCK != 0
    ensures var (c, stamp) := FromWord(RESET, e % BLOCK);
            && OnTicks(c, BlockBase(e), e) && OnTime(c, 0) && c.ticks16 == e % BLOCK
            && stamp.count == e - BlockBase(e)
  {
    BlockParts(e);
  }

  /** Every event keeps the clock on track, and its own count is right exactly in the window. */
  lemma EventFollows(c: Clock, p: Past, r: Record)
    requires Follows(c, p) && InStep(p, r) && !r.Calibration?
    ensures var (c', stamp) := Arrive(c, r);
            var p' := Remember(p, r);
            && Follows(c', p')
            && (p'.Zero? ==> stamp.count == 0 == r.t % BLOCK)
            && (p'.Running? ==> p'.base <= r.t && (stamp.count == U32(r.t - p'.base) <==> CountExact(p'.s, r.t)))
  {
    hide Micros, U32, FromByte;
    if r.Event8? {
      ByteIsWord(c, p, r.t);
    }
    BlockParts(r.t);
    if p.Running? {
      EventCount(c, p.base, p.s, r.t);
      EventKeepsSync(c, r.t % BLOCK);
    } else if r.t % BLOCK != 0 {
      FirstEvent(r.t);
      FitsU32(r.t - BlockBase(r.t));
    } else {
      ZeroSync();
    }
  }

  /** Events leave the reference alone once a tick other than zero has been seen. */
  lemma EventKeepsSync(c: Clock, ticks: u16)
    requires c.ticksInit != 0
    ensures FromWord(c, ticks).0 == c.(ticks16 := ticks) && FromWord(c, ticks).1.count == WordCount(c, ticks)
  {
  }

  function AfterRun(rs: seq<Record>): Clock {
    if rs == [] then RESET else Arrive(AfterRun(rs[..|rs| - 1]), rs[|rs| - 1]).0
  }

  function PastOf(rs: seq<Record>): Past {
    if rs == [] then Zero(0) else Remember(PastOf(rs[..|rs| - 1]), rs[|rs| - 1])
  }

  predicate Steady(rs: seq<Record>) {
    rs == [] || (Steady(rs[..|rs| - 1]) && InStep(PastOf(rs[..|rs| - 1]), rs[|rs| - 1]))
  }

  /** Over every run of calibrations and events in any order, whichever comes first and whatever the first
      tick is, high + low is the true tick of the reference from the first block on (mod 2^32). */
  lemma {:induction false} RecordsTrack(rs: seq<Record>)
    requires Steady(rs)
    ensures var c, p := AfterRun(rs), PastOf(rs);
            && Follows(c, p)
            && (p.Running? ==> p.base <= p.s && U32(c.syncHigh + c.syncLow) == U32(p.s - p.base))
    decreases |rs|
  {
    hide Follows, Arrive, Remember, InStep, U32;
    if rs == [] {
      ZeroFollows();
    } else {
      var front, r := rs[..|rs| - 1], rs[|rs| - 1];
      RecordsTrack(front);
      if r.Calibration? {
        CalibrationFollows(AfterRun(front), PastOf(front), r.t);
      } else {
        EventFollows(AfterRun(front), PastOf(front), r);
      }
    }
    if PastOf(rs).Running? {
      FollowsTicks(AfterRun(rs), PastOf(rs));
    }
  }

  lemma ZeroFollows()
    ensures Follows(RESET, Zero(0))
  {
  }

  lemma FollowsTicks(c: Clock, p: Past)
    requires Follows(c, p) && p.Running?
    ensures p.base <= p.s && U32(c.syncHigh + c.syncLow) == U32(p.s - p.base)
  {
    hide U32, Micros;
    BlockParts(p.s);
    U32Sum(BlockBase(p.s) - p.base, p.s % BLOCK);
  }

  /** Every event of every run gets its true tick count if and only if it lies in the window of the
      reference: the last calibration, or the event itself if it is the first tick other than zero. */
  lemma RecordCounts(rs: seq<Record>, r: Record)
    requires Steady(rs) && InStep(PastOf(rs), r) && !r.Calibration?
    ensures var stamp, p := Arrive(AfterRun(rs), r).1, Remember(PastOf(rs), r);
            && (p.Zero? ==> stamp.count == 0 == r.t % BLOCK)
            && (p.Running? ==> p.base <= r.t && (stamp.count == U32(r.t - p.base) <==> CountExact(p.s, r.t)))
  {
    hide Arrive, Remember, InStep, CountExact;
    RecordsTrack(rs);
    EventFollows(AfterRun(rs), PastOf(rs), r);
  }

  // ---------------------------------------------------------------- microseconds

  /** The calibrated time follows Timeline over every run, events in between or not. */
  lemma RecordsTime(rs: seq<Record>)
    requires Steady(rs) && PastOf(rs).Running? && PastOf(rs).timed * SCALE_MULTIPLIER < WORD * WORD
    ensures var c, p := AfterRun(rs), PastOf(rs);
            && c.tsHigh * WORD + c.tsLow == Timeline(p.timed)
            && (rs[|rs| - 1].Calibration? ==> p.timed == p.s - p.base)
  {
    hide U32, Micros, OnTicks, AfterRun;
    RecordsTrack(rs);
    var n := PastOf(rs).timed;
    MicrosOfTicks(n);
    QuotientAtMost(n * SCALE_MULTIPLIER, WORD, WORD - 1);
    FitsU32(n * SCALE_MULTIPLIER / WORD);
    BlockParts(PastOf(rs).s);
  }

  /** Timeline never runs backwards, and is the true time exactly during the first 2^25 ticks. */
  lemma TimelineExact(n: nat, n': nat)
    requires n <= n'
    ensures Timeline(n) <= Timeline(n')
    ensures Timeline(n) == n * SCALE_MULTIPLIER / SCALE_DIVISOR <==> n < 0x200_0000
  {
    var p, p' := n * SCALE_MULTIPLIER, n' * SCALE_MULTIPLIER;
    assert p / WORD <= p' / WORD;
    if p / WORD < p' / WORD {
      assert (p / WORD + 1) * WORD <= p' / WORD * WORD;
    }
    assert p == p / WORD * WORD + p % WORD;
    assert p / WORD >= 1 <==> n >= 0x200_0000;
  }

  /** The microseconds of an event with the right count lie on Timeline exactly when the event falls into
      the same 2^25 ticks as the last calibration: the high word is never incremented for an event. */
  lemma EventTime(c: Clock, p: Past, e: nat)
    requires Follows(c, p) && p.Running? && InStep(p, Event16(e))
    requires CountExact(p.s, e) && p.timed * SCALE_MULTIPLIER < WORD * WORD
    ensures var (_, stamp) := FromWord(c, e % BLOCK);
            && stamp.tsHigh == c.tsHigh
            && (stamp.tsHigh * WORD + stamp.tsLow == Timeline(e - p.base)
                <==> (e - p.base) / 0x200_0000 == p.timed / 0x200_0000)
  {
    hide U32, Micros, CountExact, BlockBase;
    EventCount(c, p.base, p.s, e);
    MicrosOfTicks(e - p.base);
    MicrosOfTicks(p.timed);
    EventHigh(c, e % BLOCK);
    hide FromWord, WordCount;
    QuotientAtMost(p.timed * SCALE_MULTIPLIER, WORD, WORD - 1);
    FitsU32(p.timed * SCALE_MULTIPLIER / WORD);
    SpanOf(p.timed);
    SpanOf(e - p.base);
  }

  /** No microsecond word lies within a second of 2^32, so the test for a wrapped word never succeeds. */
  lemma EventHigh(c: Clock, ticks: u16)
    requires c.tsLow <= UINT_MAX / SCALE_DIVISOR
    ensures FromWord(c, ticks).1 == Stamp(WordCount(c, ticks), Micros(WordCount(c, ticks)), c.tsHigh)
  {
    hide WordCount, Micros;
    FitsU32(c.tsLow + SYNC_PERIOD_US);
  }

  lemma SpanOf(n: nat)
    ensures n * SCALE_MULTIPLIER / WORD == n / 0x200_0000
  {
  }
}
