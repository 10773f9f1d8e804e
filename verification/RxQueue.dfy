/** The receive queue of a character device: what pcan_chardev_rx appends, what it overwrites in place to
    keep status messages from flooding the queue, and what it marks when the queue has overflowed. */
module RxQueue {
  import opened Common
  import opened Words
  import opened Fifo

  const TYPE_NOP: u16 := 0
  const TYPE_CAN20: u16 := 1
  const TYPE_CANFD: u16 := 2
  const TYPE_STATUS: u16 := 3
  const TYPE_ERROR: u16 := 4

  const UNKNOWN: u32 := 0
  const ACTIVE: u32 := 1
  const WARNING: u32 := 2
  const PASSIVE: u32 := 3
  const BUSOFF: u32 := 4
  const RX_OVERFLOW: u32 := 6
  const BUS_LOAD: u32 := 10

  /** The bits of a flags word that are set; the numbered ones are not examined here. */
  datatype Flag = Rtr | Ext | Timestamp | ErrCnt | BusLoad | ErrorInternal | Bit(n: nat)

  /** A queued message (struct pcanfd_rxmsg); ctrlr_data holds two error counters and the bus load. */
  datatype RxMsg = RxMsg(
    kind: u16, id: u32, flags: set<Flag>, len: u16,
    rxCnt: u8, txCnt: u8, load: nat, data: seq<u8>, stamp: int)

  /** Settings that do not change while messages arrive. Acceptance code and mask, and the user's filter
      list, enter as predicates. */
  datatype Config = Config(
    can: bool, ext: bool, rtr: bool, status: bool, error: bool,
    openPaths: int, busLoadReady: bool, errCntReady: bool,
    accept: RxMsg -> bool, filtered: RxMsg -> bool)

  /** The part of a device these functions read and write. */
  datatype Device = Device(
    busState: u32, rxErr: u8, txErr: u8, prevRxErr: u8, prevTxErr: u8, overrun: bool, load: nat)

  // ---------------------------------------------------------------- bus state

  function Unequal(d: Device): Device { d.(prevRxErr := U8(d.rxErr + 1), prevTxErr := U8(d.txErr + 1)) }

  /** pcan_set_bus_state */
  function SetBusState(d: Device, state: u32): Device {
    if state == d.busState || state > BUSOFF then d
    else
      var d1 := if state == ACTIVE || state == UNKNOWN then d.(rxErr := 0, txErr := 0, load := 0) else d;
      Unequal(d1.(busState := state))
  }

  // ---------------------------------------------------------------- status messages

  /** pcan_status_normalize_rx: the state a message announces is raised to what its counters say. */
  function Normalize(m: RxMsg): RxMsg {
    if ErrCnt !in m.flags then m
    else
      var m1 := if m.id == ACTIVE && (m.rxCnt >= 96 || m.txCnt >= 96) then m.(id := WARNING) else m;
      if m1.id == WARNING && (m1.rxCnt >= 128 || m1.txCnt >= 128) then m1.(id := PASSIVE) else m1
  }

  predicate CountersUnchanged(d: Device) { d.rxErr == d.prevRxErr && d.txErr == d.prevTxErr }

  /** The bus state of the device and its counters do not belong together. */
  predicate Mismatch(d: Device) {
    || (d.busState == ACTIVE && (d.rxErr >= 96 || d.txErr >= 96))
    || (d.busState == WARNING && (d.rxErr >= 128 || d.txErr >= 128 || (d.rxErr < 96 && d.txErr < 96)))
    || (d.busState == PASSIVE && d.rxErr < 128 && d.txErr < 128)
  }

  /** pcan_status_error_rx. Its refusal of mismatching counters is ignored by the caller, so the only
      trace of it is that the previous counters stay as they were. */
  function StatusError(cfg: Config, d: Device, m: RxMsg): (Device, RxMsg, bool) {
    if d.busState == m.id && CountersUnchanged(d) then (d, m, false)
    else
      var m1 := m.(data := Zeros(64), len := 0);
      if cfg.errCntReady && Mismatch(d) then (d, m1, true)
      else (d.(prevRxErr := d.rxErr, prevTxErr := d.txErr), m1, true)
  }

  // ---------------------------------------------------------------- callbacks on the newest entry

  predicate SameKey(a: RxMsg, b: RxMsg) {
    a.kind == b.kind && a.id == b.id && a.flags == b.flags && a.len == b.len
  }

  /** pcan_do_patch_rxmsg */
  function PatchSame(m: RxMsg): Callback<RxMsg> {
    (item: RxMsg) => if SameKey(item, m) then (m, -EEXIST) else (item, -ENOENT)
  }

  /** pcan_do_patch_last */
  function PatchLast(m: RxMsg): Callback<RxMsg> {
    (item: RxMsg) => (m, -EEXIST)
  }

  // ---------------------------------------------------------------- pcan_chardev_rx

  predicate IsCan(m: RxMsg) { m.kind == TYPE_CAN20 || m.kind == TYPE_CANFD }

  /** The checks made before anything is posted. */
  predicate Wanted(cfg: Config, m: RxMsg) {
    && m.kind != TYPE_NOP
    && (m.kind == TYPE_STATUS ==> cfg.status && m.id != BUS_LOAD)
    && (m.kind == TYPE_ERROR ==> cfg.error)
    && (IsCan(m) ==> cfg.can && (Ext in m.flags ==> cfg.ext) && cfg.accept(m) && (Rtr in m.flags ==> cfg.rtr))
    && cfg.openPaths > 0
  }

  function Stamped(m: RxMsg, now: int): RxMsg {
    if Timestamp in m.flags then m else m.(stamp := now)
  }

  /** Bus load and error counters of the device are copied into the message, or their flags cleared. */
  function Decorated(cfg: Config, d: Device, m: RxMsg): RxMsg {
    var m1 := if cfg.busLoadReady then m.(load := d.load, flags := m.flags + {BusLoad}) else m.(flags := m.flags - {BusLoad});
    if cfg.errCntReady then m1.(rxCnt := d.rxErr, txCnt := d.txErr, flags := m1.flags + {ErrCnt})
    else m1.(flags := m1.flags - {ErrCnt})
  }

  /** The message that replaces the newest entry once the queue has overflowed; what the source leaves
      uninitialised is taken from `junk`. */
  function Marker(m: RxMsg, junk: RxMsg): RxMsg {
    var full := junk.(kind := TYPE_STATUS, flags := {ErrorInternal}, id := RX_OVERFLOW, len := 0);
    if Timestamp in m.flags then full.(flags := {ErrorInternal, Timestamp}, stamp := m.stamp) else full
  }

  predicate IsBusState(m: RxMsg) { m.kind == TYPE_STATUS && ACTIVE <= m.id <= BUSOFF }

  /** Normalised message, device after it, and whether it is still worth posting. */
  function Prepare(cfg: Config, d: Device, m: RxMsg): (Device, RxMsg, bool) {
    if IsCan(m) then (d, m, !cfg.filtered(m))
    else if IsBusState(m) then StatusError(cfg, d, if m.id == BUSOFF then m else Normalize(m))
    else (d, m, true)
  }

  /** Patching the newest entry, or appending. */
  function Post(capacity: nat, d: Device, q: Queue<RxMsg>, m: RxMsg): (Device, Queue<RxMsg>, int) {
    var (items, code) := if m.kind == TYPE_STATUS || m.kind == TYPE_ERROR then WalkBack(q.items, PatchSame(m)) else (q.items, 0);
    if code == -EEXIST then (d, q.(items := items), 0)
    else
      var (q1, reply) := Apply(capacity, q.(items := items), Op.Put(m));
      if reply.Code? && reply.err < 0 then (d.(overrun := true), q1, reply.err) else (d, q1, 1)
  }

  function Receive(capacity: nat, cfg: Config, d: Device, q: Queue<RxMsg>, rx: RxMsg, now: int, junk: RxMsg)
      : (Device, Queue<RxMsg>, int) {
    if !Wanted(cfg, rx) then (d, q, 0)
    else
      var m := Stamped(rx, now);
      if d.overrun then (d, q.(items := WalkBack(q.items, PatchLast(Marker(m, junk))).0), 0)
      else
        var (d1, m1, post) := Prepare(cfg, d, Decorated(cfg, d, m));
        if post then Post(capacity, d1, q, m1) else (d1, q, 0)
  }

  /** The channel: its device fields and its receive FIFO, both updated in place. */
  class Channel {
    const cfg: Config
    const readFifo: FifoManager<RxMsg>
    var dev: Device

    constructor (cfg: Config, readFifo: FifoManager<RxMsg>, dev: Device)
      ensures this.cfg == cfg && this.readFifo == readFifo && this.dev == dev
    {
      this.cfg, this.readFifo, this.dev := cfg, readFifo, dev;
    }

    method ChardevRx(rx: RxMsg, now: int, junk: RxMsg) returns (r: int)
      requires readFifo.Valid()
      modifies this, readFifo, readFifo.slots
      ensures readFifo.Valid()
      ensures (dev, readFifo.Abstract(), r) ==
              Receive(readFifo.nCount, cfg, old(dev), old(readFifo.Abstract()), rx, now, junk)
    {
      hide WalkBack, Wanted, Stamped, Decorated, Marker, Normalize, StatusError, FifoManager.Contents;
      if !Wanted(cfg, rx) {
        return 0;
      }
      var m := Stamped(rx, now);
      if dev.overrun {
        var code := readFifo.ForeachBack(PatchLast(Marker(m, junk)));
        return 0;
      }
      m := Decorated(cfg, dev, m);
      if IsCan(m) {
        if cfg.filtered(m) {
          return 0;
        }
      } else if IsBusState(m) {
        if m.id != BUSOFF {
          m := Normalize(m);
        }
        var (d, m1, post) := StatusError(cfg, dev, m);
        dev, m := d, m1;
        if !post {
          return 0;
        }
      }
      if m.kind == TYPE_STATUS || m.kind == TYPE_ERROR {
        var code := readFifo.ForeachBack(PatchSame(m));
        if code == -EEXIST {
          return 0;
        }
      }
      var err := readFifo.Put(m);
      if err >= 0 {
        return 1;
      }
      dev := dev.(overrun := true);
      return err;
    }
  }

  // ---------------------------------------------------------------- what can happen to the queue

  /** Each callback stops at the newest entry. */
  lemma WalkNewest(s: seq<RxMsg>, pf: Callback<RxMsg>)
    requires forall m :: pf(m).1 != 0
    ensures WalkBack(s, pf) == if s == [] then (s, 0) else (s[..|s| - 1] + [pf(s[|s| - 1]).0], pf(s[|s| - 1]).1)
  {
  }

  datatype Change = Kept | Appended(m: RxMsg) | Patched(m: RxMsg) | Marked(m: RxMsg)

  ghost predicate Changes(s: seq<RxMsg>, s': seq<RxMsg>, c: Change) {
    match c
    case Kept => s' == s
    case Appended(m) =>
      s' == s + [m] && m.kind != TYPE_NOP && Truthful(m)
      && (m.kind == TYPE_STATUS && s != [] ==> !SameKey(s[|s| - 1], m))
    case Patched(m) =>
      s != [] && s' == s[..|s| - 1] + [m] && SameKey(s[|s| - 1], m) && !IsCan(m) && Truthful(m)
    case Marked(m) =>
      s != [] && s' == s[..|s| - 1] + [m] && m.kind == TYPE_STATUS && m.id == RX_OVERFLOW && ErrCnt !in m.flags
  }

  /** An entry that carries error counters announces a state those counters allow. */
  predicate Truthful(m: RxMsg) {
    m.kind == TYPE_STATUS && ErrCnt in m.flags ==>
      && (m.id == ACTIVE ==> m.rxCnt < 96 && m.txCnt < 96)
      && (m.id == WARNING ==> m.rxCnt < 128 && m.txCnt < 128)
  }

  lemma PreparedIsTruthful(cfg: Config, d: Device, m: RxMsg)
    ensures Truthful(Prepare(cfg, d, m).1) && Prepare(cfg, d, m).1.kind == m.kind
  {
  }

  /** Every call does one of four things, a marker only while the overrun is set, and its result is
      positive exactly when the queue has grown, by one. */
  lemma ReceiveChanges(capacity: nat, cfg: Config, d: Device, q: Queue<RxMsg>, rx: RxMsg, now: int, junk: RxMsg)
      returns (c: Change)
    ensures var (d', q', r) := Receive(capacity, cfg, d, q, rx, now, junk);
            && Changes(q.items, q'.items, c)
            && (c.Marked? ==> d.overrun)
            && (r > 0 <==> c.Appended?)
            && (r > 0 <==> |q'.items| == |q.items| + 1)
            && (r < 0 ==> c.Kept? && d'.overrun && |q.items| >= capacity)
  {
    hide WalkBack, Prepare, Decorated;
    var (d', q', r) := Receive(capacity, cfg, d, q, rx, now, junk);
    var m := Stamped(rx, now);
    if !Wanted(cfg, rx) {
      c := Kept;
    } else if d.overrun {
      WalkNewest(q.items, PatchLast(Marker(m, junk)));
      c := if q.items == [] then Kept else Marked(Marker(m, junk));
    } else {
      var (d1, m1, post) := Prepare(cfg, d, Decorated(cfg, d, m));
      PreparedIsTruthful(cfg, d, Decorated(cfg, d, m));
      assert m1.kind == rx.kind by { DecoratedKind(cfg, d, m); }
      WalkNewest(q.items, PatchSame(m1));
      c := if !post || r < 0 then Kept else if r > 0 then Appended(m1) else Patched(m1);
      if q.items != [] {
        assert q.items == q.items[..|q.items| - 1] + [q.items[|q.items| - 1]];
      }
    }
  }

  lemma DecoratedKind(cfg: Config, d: Device, m: RxMsg)
    ensures Decorated(cfg, d, m).kind == m.kind
  {
  }

  // ---------------------------------------------------------------- what an entry holds

  /** The entry that a message becomes before its kind is looked at: its own kind, id, length and bytes, the
      time of its arrival unless it brings one, and counters and bus load of a device that knows them. */
  function Entry(cfg: Config, d: Device, rx: RxMsg, now: int): RxMsg {
    RxMsg(rx.kind, rx.id,
          (set f | f in rx.flags && f != BusLoad && f != ErrCnt)
            + (if cfg.busLoadReady then {BusLoad} else {}) + (if cfg.errCntReady then {ErrCnt} else {}),
          rx.len,
          if cfg.errCntReady then d.rxErr else rx.rxCnt,
          if cfg.errCntReady then d.txErr else rx.txCnt,
          if cfg.busLoadReady then d.load else rx.load,
          rx.data,
          if Timestamp in rx.flags then rx.stamp else now)
  }

  lemma EntryMade(cfg: Config, d: Device, rx: RxMsg, now: int)
    ensures Decorated(cfg, d, Stamped(rx, now)) == Entry(cfg, d, rx, now)
  {
    assert Decorated(cfg, d, Stamped(rx, now)).flags == Entry(cfg, d, rx, now).flags;
  }

  /** What the settings allow a CAN frame to be. */
  predicate FrameAllowed(cfg: Config, rx: RxMsg) {
    && cfg.openPaths > 0 && cfg.can && cfg.accept(rx)
    && !(Ext in rx.flags && !cfg.ext) && !(Rtr in rx.flags && !cfg.rtr)
  }

  /** A CAN frame is posted, with result 1, exactly if the settings allow it, the filter lets it through, no
      overrun is pending and there is room; then it is appended as received. Nothing else is done to the
      queue by a frame, unless an overrun is pending. */
  lemma FramePosted(capacity: nat, cfg: Config, d: Device, q: Queue<RxMsg>, rx: RxMsg, now: int, junk: RxMsg)
    requires rx.kind == 1 || rx.kind == 2
    ensures var (d', q', r) := Receive(capacity, cfg, d, q, rx, now, junk);
            var m := Entry(cfg, d, rx, now);
            && (r == 1 <==> FrameAllowed(cfg, rx) && !cfg.filtered(m) && !d.overrun && |q.items| < capacity)
            && (r == 1 ==> d' == d && q'.items == q.items + [m])
            && (r != 1 && !d.overrun ==> q' == q)
            && (!FrameAllowed(cfg, rx) ==> (d', q', r) == (d, q, 0))
  {
    hide Decorated, Stamped, WalkBack;
    EntryMade(cfg, d, rx, now);
  }

  /** The entry keeps what makes up the frame. */
  lemma FrameKept(cfg: Config, d: Device, rx: RxMsg, now: int)
    ensures var m := Entry(cfg, d, rx, now);
            && m.kind == rx.kind && m.id == rx.id && m.len == rx.len && m.data == rx.data
            && (Rtr in m.flags <==> Rtr in rx.flags) && (Ext in m.flags <==> Ext in rx.flags)
            && (Timestamp in m.flags <==> Timestamp in rx.flags)
            && m.stamp == (if Timestamp in rx.flags then rx.stamp else now)
            && (cfg.errCntReady ==> m.rxCnt == d.rxErr && m.txCnt == d.txErr)
            && (cfg.busLoadReady ==> m.load == d.load)
            && (ErrCnt in m.flags <==> cfg.errCntReady) && (BusLoad in m.flags <==> cfg.busLoadReady)
  {
  }

  /** The bus state that an announced state and two error counters amount to. */
  function Announced(id: u32, counted: bool, rxErr: u8, txErr: u8): u32 {
    var most := Max(rxErr, txErr);
    if !counted || id == 4 || id == 3 then id
    else if most >= 128 then 3
    else if most >= 96 then 2
    else id
  }

  /** A bus-state message that gets as far as the queue holds no data, and the state its counters call for. */
  lemma StatusStored(cfg: Config, d: Device, rx: RxMsg, now: int)
    requires IsBusState(rx)
    ensures var (d', m, post) := Prepare(cfg, d, Entry(cfg, d, rx, now));
            var e := Entry(cfg, d, rx, now);
            && m.id == Announced(rx.id, cfg.errCntReady, d.rxErr, d.txErr)
            && (post <==> !(m.id == d.busState && d.rxErr == d.prevRxErr && d.txErr == d.prevTxErr))
            && (post ==> m == e.(id := m.id, len := 0, data := Zeros(64)))
            && d' == (if post && !(cfg.errCntReady && Mismatch(d)) then d.(prevRxErr := d.rxErr, prevTxErr := d.txErr) else d)
  {
  }

  /** Counters and bus state belong together exactly when the counters call for that state. */
  lemma MismatchExactly(d: Device)
    requires 1 <= d.busState <= 4
    ensures Mismatch(d) <==> d.busState != 4 && Announced(1, true, d.rxErr, d.txErr) != d.busState
  {
  }

  /** A message about the controller or an error frame replaces a newest entry of the same kind, id, flags and
      length and is appended otherwise. */
  lemma OthersPosted(capacity: nat, cfg: Config, d: Device, q: Queue<RxMsg>, rx: RxMsg, now: int, junk: RxMsg)
    requires rx.kind == 4 || (rx.kind == 3 && !(1 <= rx.id <= 4) && rx.id != 10)
    requires cfg.openPaths > 0 && (if rx.kind == 4 then cfg.error else cfg.status) && !d.overrun
    ensures var (d', q', r) := Receive(capacity, cfg, d, q, rx, now, junk);
            var m := Entry(cfg, d, rx, now);
            if q.items != [] && (var top := q.items[|q.items| - 1];
                  (top.kind, top.id, top.flags, top.len) == (m.kind, m.id, m.flags, m.len)) then
              r == 0 && d' == d && q'.items == q.items[..|q.items| - 1] + [m]
            else if |q.items| < capacity then r == 1 && d' == d && q'.items == q.items + [m]
            else r == -28 && d' == d.(overrun := true) && q'.items == q.items
  {
    hide Decorated, Stamped, WalkBack;
    EntryMade(cfg, d, rx, now);
    var m := Entry(cfg, d, rx, now);
    WalkNewest(q.items, PatchSame(m));
    if q.items != [] {
      assert q.items == q.items[..|q.items| - 1] + [q.items[|q.items| - 1]];
    }
  }

  /** Messages of a kind not asked for, of no kind, or with nobody listening leave everything alone. */
  lemma Unwanted(capacity: nat, cfg: Config, d: Device, q: Queue<RxMsg>, rx: RxMsg, now: int, junk: RxMsg)
    requires cfg.openPaths <= 0 || rx.kind == 0 || (rx.kind == 3 && (!cfg.status || rx.id == 10)) || (rx.kind == 4 && !cfg.error)
    ensures Receive(capacity, cfg, d, q, rx, now, junk) == (d, q, 0)
  {
  }

  /** While an overrun is pending, every wanted message only turns the newest entry into the marker, with its
      own time if it brings or gets one. */
  lemma OverrunMarks(capacity: nat, cfg: Config, d: Device, q: Queue<RxMsg>, rx: RxMsg, now: int, junk: RxMsg)
    requires Wanted(cfg, rx) && d.overrun && q.items != []
    ensures var (d', q', r) := Receive(capacity, cfg, d, q, rx, now, junk);
            var n := |q.items| - 1;
            && r == 0 && d' == d && |q'.items| == n + 1 && q'.items[..n] == q.items[..n]
            && var m := q'.items[n];
               && m.kind == 3 && m.id == 6 && m.len == 0
               && m.flags == {ErrorInternal} + (if Timestamp in rx.flags then {Timestamp} else {})
               && (Timestamp in rx.flags ==> m.stamp == rx.stamp)
  {
    hide WalkBack;
    WalkNewest(q.items, PatchLast(Marker(Stamped(rx, now), junk)));
  }

  /** A change of the bus state. Going active or unknown clears counters and load, and afterwards the counters
      fit the state; a message announcing a new state passes the filter unless the counters move on. */
  lemma StateChanged(cfg: Config, d: Device, state: u32, rx: RxMsg, now: int)
    requires state <= 4 && state != d.busState && rx.kind == 3 && rx.id == state && state != 0
    ensures var d' := SetBusState(d, state);
            && d'.busState == state && d'.overrun == d.overrun
            && (if state == 1 then d'.rxErr == d'.txErr == d'.load == 0 && !Mismatch(d')
                else d'.rxErr == d.rxErr && d'.txErr == d.txErr && d'.load == d.load)
            && Prepare(cfg, d', Entry(cfg, d', rx, now)).2
    ensures SetBusState(d, 0).busState == 0 && (d.busState != 0 ==> SetBusState(d, 0).rxErr == SetBusState(d, 0).txErr == 0)
  {
  }

  /** Setting the state a device already has, or one that does not exist, changes nothing. */
  lemma StateKept(d: Device, state: u32)
    requires state == d.busState || state > 4
    ensures SetBusState(d, state) == d
  {
  }

  // ---------------------------------------------------------------- the queue invariant over runs

  /** Neighbouring bus-state entries differ in id, flags or length, and every entry is truthful. */
  ghost predicate Tidy(s: seq<RxMsg>) {
    && (forall i :: 0 < i < |s| && IsBusState(s[i - 1]) && IsBusState(s[i]) ==> !SameKey(s[i - 1], s[i]))
    && (forall i :: 0 <= i < |s| ==> Truthful(s[i]))
  }

  lemma ChangeKeepsTidy(s: seq<RxMsg>, s': seq<RxMsg>, c: Change)
    requires Tidy(s) && Changes(s, s', c)
    ensures Tidy(s')
  {
    var n := |s'| - 1;
    forall i | 0 < i <= n && IsBusState(s'[i - 1]) && IsBusState(s'[i])
      ensures !SameKey(s'[i - 1], s'[i])
    {
      assert s'[i - 1] == s[i - 1];
    }
    forall i | 0 <= i <= n
      ensures Truthful(s'[i])
    {
      assert i < n ==> s'[i] == s[i];
    }
  }

  /** CAN frames already queued change only through the overflow marker, and only the newest one. */
  lemma ChangeSparesFrames(s: seq<RxMsg>, s': seq<RxMsg>, c: Change, i: nat)
    requires Changes(s, s', c) && i < |s| && IsCan(s[i])
    ensures |s'| >= |s| && (s'[i] == s[i] || (c.Marked? && i == |s| - 1))
  {
  }

  /** What happens to a channel: a message arrives, a reader takes one, the bus state or the counters
      change, the user clears the overrun bit, or the bus load timer posts its message. */
  datatype Event =
    | Rx(rx: RxMsg, now: int, junk: RxMsg)
    | Read
    | BusState(state: u32)
    | Counters(rxErr: u8, txErr: u8)
    | ClearOverrun
    | BusLoadTimer(m: RxMsg)

  predicate Possible(e: Event) {
    e.BusLoadTimer? ==> e.m.kind == TYPE_STATUS && e.m.id == BUS_LOAD
  }

  function Happen(capacity: nat, cfg: Config, d: Device, q: Queue<RxMsg>, e: Event): (Device, Queue<RxMsg>) {
    match e
    case Rx(rx, now, junk) => var (d1, q1, _) := Receive(capacity, cfg, d, q, rx, now, junk); (d1, q1)
    case Read => (d, Apply(capacity, q, Op.Get).0)
    case BusState(state) => (SetBusState(d, state), q)
    case Counters(rxErr, txErr) => (d.(rxErr := rxErr, txErr := txErr), q)
    case ClearOverrun => (d.(overrun := false), q)
    case BusLoadTimer(m) => (d, Apply(capacity, q, Op.Put(m)).0)
  }

  /** What the events other than a received message do: a valid new bus state is entered, counters are taken
      over, a cleared overrun lets messages through again, the timer's message is appended if there is room,
      and the oldest entry is read. */
  lemma EventEffects(capacity: nat, cfg: Config, d: Device, q: Queue<RxMsg>, state: u32, rxErr: u8, txErr: u8, m: RxMsg)
    ensures var (d', q') := Happen(capacity, cfg, d, q, BusState(state));
            q' == q && d'.busState == (if state <= 4 then state else d.busState) && d'.overrun == d.overrun
    ensures var (d', q') := Happen(capacity, cfg, d, q, Counters(rxErr, txErr));
            q' == q && d'.rxErr == rxErr && d'.txErr == txErr && d == d'.(rxErr := d.rxErr, txErr := d.txErr)
    ensures var (d', q') := Happen(capacity, cfg, d, q, ClearOverrun);
            q' == q && !d'.overrun && d == d'.(overrun := d.overrun)
    ensures var (d', q') := Happen(capacity, cfg, d, q, BusLoadTimer(m));
            d' == d && q'.items == (if |q.items| < capacity then q.items + [m] else q.items)
    ensures var (d', q') := Happen(capacity, cfg, d, q, Read);
            d' == d && (if q.items == [] then q' == q else q.items == [q.items[0]] + q'.items)
  {
  }

  function Run(capacity: nat, cfg: Config, d: Device, q: Queue<RxMsg>, es: seq<Event>): (Device, Queue<RxMsg>)
    decreases |es|
  {
    if es == [] then (d, q)
    else var (d1, q1) := Happen(capacity, cfg, d, q, es[0]); Run(capacity, cfg, d1, q1, es[1..])
  }

  /** Over every run the queue stays tidy and within its capacity. */
  lemma {:induction false} RunStaysTidy(capacity: nat, cfg: Config, d: Device, q: Queue<RxMsg>, es: seq<Event>)
    requires Tidy(q.items) && |q.items| <= capacity && (forall i :: 0 <= i < |es| ==> Possible(es[i]))
    ensures Tidy(Run(capacity, cfg, d, q, es).1.items) && |Run(capacity, cfg, d, q, es).1.items| <= capacity
    decreases |es|
  {
    if es != [] {
      var (d1, q1) := Happen(capacity, cfg, d, q, es[0]);
      EventKeepsTidy(capacity, cfg, d, q, es[0]);
      RunStaysTidy(capacity, cfg, d1, q1, es[1..]);
    }
  }

  lemma EventKeepsTidy(capacity: nat, cfg: Config, d: Device, q: Queue<RxMsg>, e: Event)
    requires Tidy(q.items) && |q.items| <= capacity && Possible(e)
    ensures var (_, q1) := Happen(capacity, cfg, d, q, e); Tidy(q1.items) && |q1.items| <= capacity
  {
    hide Receive;
    var q1 := Happen(capacity, cfg, d, q, e).1;
    if e.Rx? {
      var c := ReceiveChanges(capacity, cfg, d, q, e.rx, e.now, e.junk);
      ChangeKeepsTidy(q.items, q1.items, c);
      AppendFits(capacity, cfg, d, q, e.rx, e.now, e.junk);
    } else if e.BusLoadTimer? && q1 != q {
      forall i | 0 < i < |q1.items| && IsBusState(q1.items[i - 1]) && IsBusState(q1.items[i])
        ensures !SameKey(q1.items[i - 1], q1.items[i])
      {
        assert i < |q.items| && q1.items[i - 1] == q.items[i - 1] && q1.items[i] == q.items[i];
      }
    }
  }

  lemma AppendFits(capacity: nat, cfg: Config, d: Device, q: Queue<RxMsg>, rx: RxMsg, now: int, junk: RxMsg)
    requires |q.items| <= capacity
    ensures |Receive(capacity, cfg, d, q, rx, now, junk).1.items| <= capacity
  {
    hide WalkBack, Prepare, Decorated;
  }

  // ---------------------------------------------------------------- the first message of a new bus state

  /** pcan_set_bus_state moves the previous counters so that the message announcing the new state passes.
      When the counters are updated before it is posted, it is dropped after all exactly when both of
      them have meanwhile gone up by one. */
  lemma FirstStatusDropped(cfg: Config, d: Device, state: u32, rxErr: u8, txErr: u8, m: RxMsg)
    requires state != d.busState && ACTIVE <= state <= BUSOFF && m.id == state
    ensures var d1 := SetBusState(d, state);
            var (_, _, post) := StatusError(cfg, d1.(rxErr := rxErr, txErr := txErr), m);
            && d1.busState == state
            && (!post <==> rxErr == U8(d1.rxErr + 1) && txErr == U8(d1.txErr + 1))
  {
  }

  /** The same on its way through pcan_chardev_rx: into a queue with room, and whose newest entry is not the
      same message, it is posted unless it still announces the new state after normalising and both
      counters have gone up by one. */
  lemma FirstStatusReceived(capacity: nat, cfg: Config, d: Device, q: Queue<RxMsg>, state: u32, rxErr: u8, txErr: u8,
                            rx: RxMsg, now: int, junk: RxMsg)
    requires state != d.busState && ACTIVE <= state <= BUSOFF && rx.kind == TYPE_STATUS && rx.id == state
    requires Wanted(cfg, rx) && !d.overrun && |q.items| < capacity
    requires var d2 := SetBusState(d, state).(rxErr := rxErr, txErr := txErr);
             q.items == [] || !SameKey(q.items[|q.items| - 1], Prepare(cfg, d2, Decorated(cfg, d2, Stamped(rx, now))).1)
    ensures var d1 := SetBusState(d, state);
            var d2 := d1.(rxErr := rxErr, txErr := txErr);
            var m := Prepare(cfg, d2, Decorated(cfg, d2, Stamped(rx, now))).1;
            var (d', q', r) := Receive(capacity, cfg, d2, q, rx, now, junk);
            if m.id == state && rxErr == U8(d1.rxErr + 1) && txErr == U8(d1.txErr + 1) then r == 0 && q' == q
            else r == 1 && q'.items == q.items + [m]
  {
    hide WalkBack, U8;
    var d2 := SetBusState(d, state).(rxErr := rxErr, txErr := txErr);
    var m := Prepare(cfg, d2, Decorated(cfg, d2, Stamped(rx, now))).1;
    WalkNewest(q.items, PatchSame(m));
    if q.items != [] {
      assert q.items == q.items[..|q.items| - 1] + [q.items[|q.items| - 1]];
    }
  }

  /** For example a device that enters the warning state while both counters go from 95 to 96. */
  lemma WarningLost(capacity: nat, cfg: Config, load: nat, rx: RxMsg, now: int, junk: RxMsg)
    requires rx.kind == TYPE_STATUS && rx.id == WARNING && Wanted(cfg, rx) && capacity > 0
    ensures var d := SetBusState(Device(ACTIVE, 95, 95, 95, 95, false, load), WARNING).(rxErr := 96, txErr := 96);
            d.busState == WARNING && Receive(capacity, cfg, d, Queue([], 0), rx, now, junk) == (d, Queue([], 0), 0)
  {
  }

  // ---------------------------------------------------------------- counters that do not match the bus state

  /** Counters that do not match the bus state were meant to keep a message from being posted. They do not:
      it is dropped only by the filter for repetitions, exactly as with matching counters. Since the previous
      counters stay as they are, that filter does not come to suppress the next one either. */
  lemma MismatchPosted(capacity: nat, cfg: Config, d: Device, q: Queue<RxMsg>, rx: RxMsg, now: int, junk: RxMsg)
    requires Wanted(cfg, rx) && IsBusState(rx) && !d.overrun && cfg.errCntReady && Mismatch(d)
    ensures var m := Prepare(cfg, d, Decorated(cfg, d, Stamped(rx, now))).1;
            var (d', q', r) := Receive(capacity, cfg, d, q, rx, now, junk);
            if m.id == d.busState && CountersUnchanged(d) then (d', q', r) == (d, q, 0)
            else if q.items != [] && SameKey(q.items[|q.items| - 1], m) then
              r == 0 && d' == d && q'.items == q.items[..|q.items| - 1] + [m]
            else if |q.items| < capacity then r == 1 && d' == d && q'.items == q.items + [m]
            else r == -ENOSPC && d' == d.(overrun := true) && q'.items == q.items
  {
    hide WalkBack;
    var m := Prepare(cfg, d, Decorated(cfg, d, Stamped(rx, now))).1;
    WalkNewest(q.items, PatchSame(m));
    if q.items != [] {
      assert q.items == q.items[..|q.items| - 1] + [q.items[|q.items| - 1]];
    }
  }

  /** For example a warning posted by a device whose counters are both at 10. */
  lemma MismatchedWarning(capacity: nat, cfg: Config, load: nat, rx: RxMsg, now: int, junk: RxMsg)
    requires rx.kind == TYPE_STATUS && rx.id == WARNING && Wanted(cfg, rx) && cfg.errCntReady && capacity > 0
    ensures var d := Device(WARNING, 10, 10, 11, 11, false, load);
            var (d', q', r) := Receive(capacity, cfg, d, Queue([], 0), rx, now, junk);
            && Mismatch(d) && r == 1 && d' == d
            && |q'.items| == 1 && q'.items[0].id == WARNING && q'.items[0].rxCnt == q'.items[0].txCnt == 10
  {
  }

  /** What the queue would show of a bus-state message received now. */
  function Prepared(cfg: Config, d: Device, e: Event): RxMsg
    requires e.Rx?
  {
    Prepare(cfg, d, Decorated(cfg, d, Stamped(e.rx, e.now))).1
  }

  /** While counters that do not match the bus state last, and once they differ from the previous ones, no
      repetition is ever suppressed: each message becomes the newest entry, and the device never changes. */
  lemma {:induction false} MismatchNeverSuppresses(capacity: nat, cfg: Config, d: Device, q: Queue<RxMsg>, es: seq<Event>)
    requires cfg.errCntReady && Mismatch(d) && !CountersUnchanged(d) && !d.overrun && |q.items| + |es| <= capacity
    requires forall i :: 0 <= i < |es| ==> es[i].Rx? && Wanted(cfg, es[i].rx) && IsBusState(es[i].rx)
    ensures var (d', q') := Run(capacity, cfg, d, q, es);
            d' == d && (es != [] ==> q'.items != [] && q'.items[|q'.items| - 1] == Prepared(cfg, d, es[|es| - 1]))
    decreases |es|
  {
    hide Receive, Prepare, Decorated;
    if es != [] {
      var e := es[0];
      MismatchPosted(capacity, cfg, d, q, e.rx, e.now, e.junk);
      MismatchNeverSuppresses(capacity, cfg, d, Happen(capacity, cfg, d, q, e).1, es[1..]);
    }
  }

  // ---------------------------------------------------------------- CAN frames over whole runs

  /** The CAN frames of a queue. */
  function Frames(s: seq<RxMsg>): (fs: seq<RxMsg>)
    decreases |s|
  {
    if s == [] then []
    else
      var last := s[|s| - 1];
      Frames(s[..|s| - 1]) + (if IsCan(last) then [last] else [])
  }

  /** A CAN frame for which pcan_chardev_rx has returned 1, as received. */
  datatype Posted = Posted(frame: RxMsg, overwritten: bool)

  /** CAN frames read so far, and those posted so far in order, with those the overflow marker has taken. */
  datatype History = History(read: seq<RxMsg>, posted: seq<Posted>)

  function Surviving(ps: seq<Posted>): seq<RxMsg>
    decreases |ps|
  {
    if ps == [] then []
    else
      var last := ps[|ps| - 1];
      Surviving(ps[..|ps| - 1]) + (if last.overwritten then [] else [last.frame])
  }

  /** The newest frame that has not been overwritten is. */
  function Overwrite(ps: seq<Posted>): (r: seq<Posted>)
    ensures |r| == |ps| && forall i :: 0 <= i < |r| ==> r[i].frame == ps[i].frame
    decreases |ps|
  {
    if ps == [] then []
    else
      var front, last := ps[..|ps| - 1], ps[|ps| - 1];
      if last.overwritten then Overwrite(front) + [last] else front + [last.(overwritten := true)]
  }

  /** The overflow marker of this call replaces a CAN frame. */
  predicate Overwrites(cfg: Config, d: Device, q: Queue<RxMsg>, e: Event) {
    e.Rx? && Wanted(cfg, e.rx) && d.overrun && q.items != [] && IsCan(q.items[|q.items| - 1])
  }

  function Note(capacity: nat, cfg: Config, d: Device, q: Queue<RxMsg>, h: History, e: Event): History {
    match e
    case Rx(rx, now, junk) =>
      if Overwrites(cfg, d, q, e) then h.(posted := Overwrite(h.posted))
      else if Receive(capacity, cfg, d, q, rx, now, junk).2 == 1 && IsCan(rx) then
        h.(posted := h.posted + [Posted(Entry(cfg, d, rx, now), false)])
      else h
    case Read => if q.items != [] && IsCan(q.items[0]) then h.(read := h.read + [q.items[0]]) else h
    case _ => h
  }

  function Notes(capacity: nat, cfg: Config, d: Device, q: Queue<RxMsg>, h: History, es: seq<Event>): History
    decreases |es|
  {
    if es == [] then h
    else
      var (d1, q1) := Happen(capacity, cfg, d, q, es[0]);
      Notes(capacity, cfg, d1, q1, Note(capacity, cfg, d, q, h, es[0]), es[1..])
  }

  lemma FramesSnoc(s: seq<RxMsg>, m: RxMsg)
    ensures Frames(s + [m]) == Frames(s) + (if IsCan(m) then [m] else [])
  {
    assert (s + [m])[..|s|] == s;
  }

  lemma NoFrames()
    ensures Frames([]) == []
  {
  }

  lemma {:induction false} FramesCons(m: RxMsg, s: seq<RxMsg>)
    ensures Frames([m] + s) == (if IsCan(m) then [m] else []) + Frames(s)
    decreases |s|
  {
    hide Frames;
    if s == [] {
      assert [m] + s == [] + [m];
      FramesSnoc([], m);
      NoFrames();
    } else {
      var front, last := s[..|s| - 1], s[|s| - 1];
      FramesCons(m, front);
      assert [m] + s == ([m] + front) + [last] && s == front + [last];
      FramesSnoc([m] + front, last);
      FramesSnoc(front, last);
      var (head, tail) := (if IsCan(m) then [m] else [], if IsCan(last) then [last] else []);
      assert head + Frames(front) + tail == head + (Frames(front) + tail);
    }
  }

  lemma SurvivingSnoc(ps: seq<Posted>, p: Posted)
    ensures Surviving(ps + [p]) == Surviving(ps) + (if p.overwritten then [] else [p.frame])
  {
    assert (ps + [p])[..|ps|] == ps;
  }

  lemma {:induction false} OverwriteSurvives(ps: seq<Posted>)
    requires Surviving(ps) != []
    ensures Surviving(Overwrite(ps)) == Surviving(ps)[..|Surviving(ps)| - 1]
    decreases |ps|
  {
    hide Surviving;
    if ps == [] {
      NothingSurvives();
    } else {
      var front, last := ps[..|ps| - 1], ps[|ps| - 1];
      assert ps == front + [last];
      SurvivingSnoc(front, last);
      if last.overwritten {
        assert Surviving(ps) == Surviving(front);
        OverwriteSurvives(front);
        SurvivingSnoc(Overwrite(front), last);
        assert Surviving(Overwrite(ps)) == Surviving(Overwrite(front));
      } else {
        SurvivingSnoc(front, last.(overwritten := true));
        assert Surviving(Overwrite(ps)) == Surviving(front);
      }
    }
  }

  lemma NothingSurvives()
    ensures Surviving([]) == []
  {
  }

  /** The frames read, then those in the queue, are the surviving ones. */
  ghost predicate Matches(q: Queue<RxMsg>, h: History) {
    h.read + Frames(q.items) == Surviving(h.posted)
  }

  lemma ReadMatches(capacity: nat, cfg: Config, d: Device, q: Queue<RxMsg>, h: History)
    requires Matches(q, h)
    ensures Matches(Happen(capacity, cfg, d, q, Read).1, Note(capacity, cfg, d, q, h, Read))
  {
    hide Frames, Surviving;
    if q.items != [] {
      var x, rest := q.items[0], q.items[1..];
      assert q.items == [x] + rest;
      FramesCons(x, rest);
      assert h.read + ([x] + Frames(rest)) == h.read + [x] + Frames(rest);
      assert h.read + ([] + Frames(rest)) == h.read + Frames(rest);
    }
  }

  /** Replacing or appending an entry that is no frame leaves the frames alone. */
  lemma NewestMatches(s: seq<RxMsg>, m: RxMsg)
    requires s != [] && !IsCan(m)
    ensures Frames(s[..|s| - 1] + [m]) == if IsCan(s[|s| - 1]) then Frames(s)[..|Frames(s)| - 1] else Frames(s)
    ensures IsCan(s[|s| - 1]) ==> Frames(s) != []
  {
    hide Frames;
    var front, last := s[..|s| - 1], s[|s| - 1];
    assert s == front + [last];
    FramesSnoc(front, last);
    FramesSnoc(front, m);
  }

  lemma OverflowMatches(q: Queue<RxMsg>, h: History, m: RxMsg)
    requires Matches(q, h) && q.items != [] && !IsCan(m) && IsCan(q.items[|q.items| - 1])
    ensures Matches(q.(items := q.items[..|q.items| - 1] + [m]), h.(posted := Overwrite(h.posted)))
  {
    hide Frames, Surviving;
    NewestMatches(q.items, m);
    var fs := Frames(q.items);
    assert h.read + fs[..|fs| - 1] == (h.read + fs)[..|h.read + fs| - 1];
    OverwriteSurvives(h.posted);
  }

  lemma RxMatches(capacity: nat, cfg: Config, d: Device, q: Queue<RxMsg>, h: History, e: Event)
    requires Matches(q, h) && e.Rx?
    ensures Matches(Happen(capacity, cfg, d, q, e).1, Note(capacity, cfg, d, q, h, e))
  {
    hide Frames, Surviving, Receive, Wanted;
    var (d', q', r) := Receive(capacity, cfg, d, q, e.rx, e.now, e.junk);
    var c := ReceiveChanges(capacity, cfg, d, q, e.rx, e.now, e.junk);
    ReceiveKind(capacity, cfg, d, q, e.rx, e.now, e.junk, c);
    if IsCan(e.rx) {
      FramePosted(capacity, cfg, d, q, e.rx, e.now, e.junk);
    }
    match c
    case Kept =>
    case Appended(m) =>
      assert (q.items + [m])[|q.items|] == m;
      FramesSnoc(q.items, m);
      assert h.read + (Frames(q.items) + [m]) == h.read + Frames(q.items) + [m];
      assert Frames(q.items) + [] == Frames(q.items);
      SurvivingSnoc(h.posted, Posted(m, false));
    case Patched(m) =>
      NewestMatches(q.items, m);
    case Marked(m) =>
      NewestMatches(q.items, m);
      if IsCan(q.items[|q.items| - 1]) {
        OverflowMatches(q, h, m);
      }
  }

  /** A marker is set exactly by a wanted message while the overrun bit is set and the queue is not empty;
      what is appended has the type of what was received. */
  lemma ReceiveKind(capacity: nat, cfg: Config, d: Device, q: Queue<RxMsg>, rx: RxMsg, now: int, junk: RxMsg, c: Change)
    requires var (d', q', r) := Receive(capacity, cfg, d, q, rx, now, junk);
             && Changes(q.items, q'.items, c) && (c.Marked? ==> d.overrun) && (r > 0 <==> c.Appended?)
    ensures Overwrites(cfg, d, q, Rx(rx, now, junk)) ==> c.Marked?
    ensures c.Marked? ==> Wanted(cfg, rx) || q.items == Receive(capacity, cfg, d, q, rx, now, junk).1.items
    ensures c.Appended? ==> c.m.kind == rx.kind && !d.overrun
  {
    hide WalkBack, Prepare, Decorated;
    var m := Stamped(rx, now);
    if Wanted(cfg, rx) {
      if d.overrun {
        WalkNewest(q.items, PatchLast(Marker(m, junk)));
      } else {
        PreparedIsTruthful(cfg, d, Decorated(cfg, d, m));
        DecoratedKind(cfg, d, m);
        WalkNewest(q.items, PatchSame(Prepare(cfg, d, Decorated(cfg, d, m)).1));
        if c.Appended? {
          assert (q.items + [c.m])[|q.items|] == c.m;
        }
      }
    }
  }

  /** Over every run: the CAN frames read, followed by those still queued, are the frames for which the call
      returned 1, in that order, less those an overflow marker has overwritten. */
  lemma {:induction false} FramesConserved(capacity: nat, cfg: Config, d: Device, q: Queue<RxMsg>, h: History, es: seq<Event>)
    requires Matches(q, h) && forall i :: 0 <= i < |es| ==> Possible(es[i])
    ensures Matches(Run(capacity, cfg, d, q, es).1, Notes(capacity, cfg, d, q, h, es))
    decreases |es|
  {
    hide Receive, Matches, Note, Happen;
    if es != [] {
      var (d1, q1) := Happen(capacity, cfg, d, q, es[0]);
      EventMatches(capacity, cfg, d, q, h, es[0]);
      FramesConserved(capacity, cfg, d1, q1, Note(capacity, cfg, d, q, h, es[0]), es[1..]);
    }
  }

  lemma EventMatches(capacity: nat, cfg: Config, d: Device, q: Queue<RxMsg>, h: History, e: Event)
    requires Matches(q, h) && Possible(e)
    ensures Matches(Happen(capacity, cfg, d, q, e).1, Note(capacity, cfg, d, q, h, e))
  {
    hide Receive, Frames, Surviving;
    if e.Rx? {
      RxMatches(capacity, cfg, d, q, h, e);
    } else if e.Read? {
      ReadMatches(capacity, cfg, d, q, h);
    } else if e.BusLoadTimer? {
      FramesSnoc(q.items, e.m);
      assert Frames(q.items) + [] == Frames(q.items);
    }
  }
}
