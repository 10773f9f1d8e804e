/** The decoder for packets received from a PCAN-USB (pcan_usb_DecodeMessage), and its round trip with the
    records of the encoder. */
module UsbDecoder {
  import opened Common
  import opened Words
  import opened UsbCodec

  /** The time stamp of a record: 16 bits for the first one in a packet, 8 bits for the others. */
  datatype Ticks = Word(w: u16) | Byte(b: u8)

  /** A record handed on: a CAN message, or an internal record with its stamp, if it brings one, and the bytes
      that belong to it. */
  datatype Rx =
    | Can(msg: CanMsg, ticks: Ticks)
    | Internal(func: u8, number: u8, stamp: Option<Ticks>, payload: seq<u8>)

  /** Bytes behind the received ones read as zero here; reading them is what the overrun test is for. */
  function At(s: seq<u8>, i: nat): u8 { if i < |s| then s[i] else 0 }

  function Drop(s: seq<u8>, n: nat): seq<u8> { if n <= |s| then s[n..] else [] }

  function Bytes(s: seq<u8>, from: nat, n: nat): (r: seq<u8>)
    ensures |r| == n && forall i :: 0 <= i < n ==> r[i] == At(s, from + i)
  {
    if n == 0 then [] else Bytes(s, from, n - 1) + [At(s, from + n - 1)]
  }

  function Stamp(s: seq<u8>, at: nat, first: bool): Ticks {
    if first then Word(At(s, at) + At(s, at + 1) * 0x100) else Byte(At(s, at))
  }

  function StampSize(first: bool): nat { if first then 2 else 1 }

  function FourBytes(b0: nat, b1: nat, b2: nat, b3: nat): nat { b0 + (b1 + (b2 + b3 * 0x100) * 0x100) * 0x100 }

  function LenOf(status: u8): nat { status % 16 }

  predicate RtrOf(status: u8) { status / 16 % 2 == 1 }

  predicate ExtOf(status: u8) { status / 32 % 2 == 1 }

  /** The identifier field: 29 bits above three free ones, or 11 bits above five. */
  function IdOf(word: nat, ext: bool): nat { if ext then word / 8 else word / 32 }

  /** A normal record: message, stamp and number of bytes it takes. */
  function DecodeCan(s: seq<u8>, rev: nat, first: bool): (Rx, nat) {
    var status := At(s, 0);
    var len, rtr, ext := LenOf(status), RtrOf(status), ExtOf(status);
    var idSize := if ext then 4 else 2;
    var idWord := if ext then FourBytes(At(s, 1), At(s, 2), At(s, 3), At(s, 4)) else FourBytes(At(s, 1), At(s, 2), 0, 0);
    var slf := rev >= 41 && At(s, 1) % 2 == 1;
    var at := 1 + idSize + StampSize(first);
    var dataSize := if rtr then 0 else len;
    var stored := Min(dataSize, 8);
    var msg := CanMsg(U32(IdOf(idWord, ext)), ext, rtr, slf, Min(len, 8), Bytes(s, at, stored) + Zeros(64 - stored));
    (Can(msg, Stamp(s, 1 + idSize, first)), at + dataSize + (if slf then 1 else 0))
  }

  /** Bytes an internal record carries after its stamp; -1 for a function the driver does not know. */
  function PayloadSize(func: u8, len: nat): int {
    match func
    case 1 => len
    case 2 => 2
    case 3 => 1
    case 4 => 2
    case 5 => len
    case 10 => 0
    case _ => -1
  }

  function DecodeInternal(s: seq<u8>, first: bool): (Rx, nat, bool) {
    var status, func := At(s, 0), At(s, 1);
    var stamped := status / 128 == 1;
    var at := 3 + if stamped then StampSize(first) else 0;
    var size := PayloadSize(func, status % 16);
    var payload := Bytes(s, at, Max(size, 0));
    var ticks := if stamped then Some(Stamp(s, 3, first)) else None;
    (Internal(func, At(s, 2), ticks, payload), at + |payload|, size >= 0)
  }

  function IsInternal(s: seq<u8>): bool { At(s, 0) / 64 % 2 == 1 }

  /** The record at the start of s, the bytes it takes, and whether its function is known. */
  function NextRecord(s: seq<u8>, rev: nat, first: bool): (Rx, nat, bool) {
    if IsInternal(s) then DecodeInternal(s, first) else var (rx, used) := DecodeCan(s, rev, first); (rx, used, true)
  }

  /** Once a record has brought its stamp, the following ones bring short ones. */
  function StillFirst(first: bool, rx: Rx): bool { first && rx.Internal? && rx.stamp.None? }

  /** Records from position pos on. The result lists what was handed on, the position reached and the
      error code. */
  function DecodeRecords(s: seq<u8>, pos: nat, n: nat, length: nat, rev: nat, first: bool): (seq<Rx>, nat, int)
    decreases n
  {
    if n == 0 then ([], pos, 0)
    else
      var (rx, used, known) := NextRecord(Drop(s, pos), rev, first);
      var end := pos + used;
      if !known then ([], end, -EILSEQ)
      else if end > length && (rev > 3 || end > length + 1) then ([rx], end, -EFAULT)
      else
        var (rxs, last, err) := DecodeRecords(s, end, n - 1, length, rev, StillFirst(first, rx));
        ([rx] + rxs, last, err)
  }

  function DecodePacket(s: seq<u8>, length: nat, rev: nat): (seq<Rx>, nat, int) {
    if length == 0 then ([], 0, 0) else DecodeRecords(s, 2, At(s, 1), length, rev, true)
  }

  /** The decoding loop; a received message is handed on before the position is checked. */
  method DecodeMessage(s: seq<u8>, length: nat, rev: nat) returns (rxs: seq<Rx>, pos: nat, err: int)
    ensures (rxs, pos, err) == DecodePacket(s, length, rev)
  {
    hide NextRecord, StillFirst, Drop, At;
    rxs, pos, err := [], 0, 0;
    if length == 0 {
      return;
    }
    pos := 2;
    var count, first, i := At(s, 1), true, 0;
    ghost var whole := DecodeRecords(s, 2, count, length, rev, true);
    assert whole == Prepend([], whole) by { assert [] + whole.0 == whole.0; }
    while i < count
      invariant 0 <= i <= count
      invariant whole == Prepend(rxs, DecodeRecords(s, pos, count - i, length, rev, first))
    {
      var (rx, used, known) := NextRecord(Drop(s, pos), rev, first);
      DecodeStep(s, pos, count - i, length, rev, first, rxs);
      pos := pos + used;
      if !known {
        return rxs, pos, -EILSEQ;
      }
      rxs := rxs + [rx];
      if pos > length && (rev > 3 || pos > length + 1) {
        return rxs, pos, -EFAULT;
      }
      first := StillFirst(first, rx);
      i := i + 1;
    }
    DecodeNone(s, pos, length, rev, first);
    assert rxs + [] == rxs;
  }

  function Prepend(rxs: seq<Rx>, r: (seq<Rx>, nat, int)): (seq<Rx>, nat, int) { (rxs + r.0, r.1, r.2) }

  lemma DecodeStep(s: seq<u8>, pos: nat, n: nat, length: nat, rev: nat, first: bool, rxs: seq<Rx>)
    requires n > 0
    ensures var (rx, used, known) := NextRecord(Drop(s, pos), rev, first);
            var end := pos + used;
            Prepend(rxs, DecodeRecords(s, pos, n, length, rev, first)) ==
              if !known then (rxs, end, -EILSEQ)
              else if end > length && (rev > 3 || end > length + 1) then (rxs + [rx], end, -EFAULT)
              else Prepend(rxs + [rx], DecodeRecords(s, end, n - 1, length, rev, StillFirst(first, rx)))
  {
    hide NextRecord, Drop;
    var (rx, used, known) := NextRecord(Drop(s, pos), rev, first);
    var tail := DecodeRecords(s, pos + used, n - 1, length, rev, StillFirst(first, rx)).0;
    assert rxs + [] == rxs && rxs + ([rx] + tail) == rxs + [rx] + tail;
  }

  lemma DecodeNone(s: seq<u8>, pos: nat, length: nat, rev: nat, first: bool)
    ensures DecodeRecords(s, pos, 0, length, rev, first) == ([], pos, 0)
  {
  }

  // ---------------------------------------------------------------- what a device sends

  function StampBytes(t: Ticks): seq<u8> {
    match t
    case Word(w) => [w % 0x100, w / 0x100]
    case Byte(b) => [b]
  }

  /** A record as a device sends it. A CAN frame brings up to 15 data bytes, and behind them one byte if it was
      sent for self-reception; an internal record brings the bytes its function calls for. */
  datatype Item =
    | Frame(id: u32, ext: bool, rtr: bool, slf: bool, dlc: u8, mark: bool, data: seq<u8>, trail: u8)
    | Note(status: u8, func: u8, number: u8, payload: seq<u8>)

  /** Bus state and error frames have as many bytes as their status says, an analog value and a calibration
      two, a bus load one, and function 10 none. */
  predicate Sent(it: Item) {
    match it
    case Frame(id, ext, rtr, slf, dlc, mark, data, trail) =>
      dlc < 16 && |data| == (if rtr then 0 else dlc) && id < (if ext then 0x2000_0000 else 0x800)
    case Note(status, func, number, payload) =>
      && status / 64 % 2 == 1
      && ((func == 1 && |payload| == status % 16) || (func == 2 && |payload| == 2) || (func == 3 && |payload| == 1)
          || (func == 4 && |payload| == 2) || (func == 5 && |payload| == status % 16) || (func == 10 && payload == []))
  }

  /** Whether the record brings a stamp: a frame always, an internal record if bit 7 of its status is set. */
  predicate BringsStamp(it: Item) { it.Frame? || it.status >= 0x80 }

  /** The fields of a frame that make up its first bytes. */
  function Front(it: Item): CanMsg
    requires it.Frame?
  {
    CanMsg(it.id, it.ext, it.rtr, it.slf, it.dlc, [])
  }

  function FirstStatus(it: Item): u8
    requires it.Frame?
  {
    StatusLen(Front(it)) + (if it.mark then 0x80 else 0)
  }

  function ItemBytes(it: Item, t: Ticks, rev: nat): seq<u8>
    requires Sent(it)
  {
    match it
    case Frame(_, _, _, slf, _, mark, data, trail) =>
      [FirstStatus(it)] + IdBytes(Front(it)) + StampBytes(t) + data
      + (if slf && rev >= 41 then [trail] else [])
    case Note(status, func, number, payload) =>
      [status, func, number] + (if BringsStamp(it) then StampBytes(t) else []) + payload
  }

  /** What is to be handed on: at most 8 data bytes, padded with zeros, and self-reception from revision 41 on;
      of an internal record everything it brings. */
  function ItemRx(it: Item, t: Ticks, rev: nat): Rx
    requires Sent(it)
  {
    match it
    case Frame(id, ext, rtr, slf, dlc, _, data, _) =>
      var kept := data[..Min(|data|, 8)];
      Can(CanMsg(id, ext, rtr, slf && rev >= 41, Min(dlc, 8), kept + Zeros(64 - |kept|)), t)
    case Note(status, func, number, payload) =>
      Internal(func, number, if BringsStamp(it) then Some(t) else None, payload)
  }

  predicate LegalId(m: CanMsg) { m.id < if m.ext then 0x2000_0000 else 0x800 }

  lemma IdRoundTrip(m: CanMsg)
    requires LegalId(m)
    ensures var b := IdBytes(m);
            && b[0] % 2 == Bit(m.slf)
            && m.id == IdOf(if m.ext then FourBytes(b[0], b[1], b[2], b[3]) else FourBytes(b[0], b[1], 0, 0), m.ext)
  {
    IdWordValue(m);
    var v, shift := IdWord(m), if m.ext then 8 else 32;
    Digits(m.id, Bit(m.slf), shift);
    FromBytes(v);
    LowBit(m.id, Bit(m.slf), shift);
    hide IdWord, FourBytes;
  }

  lemma LowBit(id: nat, bit: nat, shift: nat)
    requires bit <= 1 && (shift == 8 || shift == 32)
    ensures (id * shift + bit) % 0x100 % 2 == bit
  {
    var v := id * shift + bit;
    var half := if shift == 8 then id * 4 else id * 16;
    assert v == half * 2 + bit;
    var rest := half - v / 0x100 * 0x80;
    assert v % 0x100 == rest * 2 + bit;
    Digits(rest, bit, 2);
  }

  lemma FromBytes(v: u32)
    ensures FourBytes(v % 0x100, v / 0x100 % 0x100, v / 0x100 / 0x100 % 0x100, v / 0x100 / 0x100 / 0x100) == v
    ensures v < 0x1_0000 ==> FourBytes(v % 0x100, v / 0x100 % 0x100, 0, 0) == v
  {
    var w := v / 0x100;
    var x := w / 0x100;
    assert v == w * 0x100 + v % 0x100 && w == x * 0x100 + w % 0x100 && x == x / 0x100 * 0x100 + x % 0x100;
  }

  lemma IdWordValue(m: CanMsg)
    requires LegalId(m)
    ensures IdWord(m) == m.id * (if m.ext then 8 else 32) + Bit(m.slf)
  {
    hide U32;
    FitsU32(m.id * (if m.ext then 8 else 32));
  }

  lemma StatusRoundTrip(m: CanMsg, mark: u8)
    requires m.len < 16 && (mark == 0 || mark == 0x80)
    ensures var st := StatusLen(m) + mark;
            st < 0x100 && LenOf(st) == m.len && (RtrOf(st) <==> m.rtr) && (ExtOf(st) <==> m.ext) && st / 64 % 2 == 0
  {
  }

  lemma FirstByte(x: u8, b: seq<u8>, c: seq<u8>, d: seq<u8>, end: seq<u8>)
    ensures At([x] + b + c + d + end, 0) == x
  {
  }

  /** What lies between a and c. */
  lemma Middle(s: seq<u8>, a: seq<u8>, b: seq<u8>, c: seq<u8>, at: nat)
    requires s == a + b + c && at == |a|
    ensures forall i :: 0 <= i < |b| ==> At(s, at + i) == b[i]
    ensures Bytes(s, at, |b|) == b
  {
  }

  lemma SecondPart(a: seq<u8>, b: seq<u8>, c: seq<u8>, d: seq<u8>, end: seq<u8>, at: nat)
    requires at == |a|
    ensures forall i :: 0 <= i < |b| ==> At(a + b + c + d + end, at + i) == b[i]
  {
    hide Bytes, At;
    var s := a + b + c + d + end;
    assert s == a + b + (c + d + end);
    Middle(s, a, b, c + d + end, at);
  }

  lemma ThirdPart(a: seq<u8>, b: seq<u8>, c: seq<u8>, d: seq<u8>, end: seq<u8>, at: nat)
    requires at == |a| + |b|
    ensures forall i :: 0 <= i < |c| ==> At(a + b + c + d + end, at + i) == c[i]
  {
    hide Bytes, At;
    var s := a + b + c + d + end;
    assert s == (a + b) + c + (d + end);
    Middle(s, a + b, c, d + end, at);
  }

  lemma FourthPart(a: seq<u8>, b: seq<u8>, c: seq<u8>, d: seq<u8>, end: seq<u8>, at: nat)
    requires at == |a| + |b| + |c|
    ensures Bytes(a + b + c + d + end, at, |d|) == d
  {
    hide Bytes, At;
    Middle(a + b + c + d + end, a + b + c, d, end, at);
  }

  /** Where the parts of a frame lie. */
  lemma Layout(it: Item, t: Ticks, rev: nat, behind: seq<u8>)
    requires it.Frame? && Sent(it)
    ensures var (s, id, st) := (ItemBytes(it, t, rev) + behind, |IdBytes(Front(it))|, |StampBytes(t)|);
            && At(s, 0) == FirstStatus(it)
            && (forall i :: 0 <= i < id ==> At(s, 1 + i) == IdBytes(Front(it))[i])
            && (forall i :: 0 <= i < st ==> At(s, 1 + id + i) == StampBytes(t)[i])
            && Bytes(s, 1 + id + st, |it.data|) == it.data
            && |ItemBytes(it, t, rev)| == 1 + id + st + |it.data| + (if it.slf && rev >= 41 then 1 else 0)
  {
    hide FirstStatus, IdBytes, StampBytes, Bytes, ItemBytes, At, Zeros;
    var status := FirstStatus(it);
    var (head, id, st, end) := ([status], IdBytes(Front(it)), StampBytes(t), (if it.slf && rev >= 41 then [it.trail] else []) + behind);
    FrameParts(it, t, rev, behind);
    SecondPart(head, id, st, it.data, end, 1);
    ThirdPart(head, id, st, it.data, end, 1 + |id|);
    FourthPart(head, id, st, it.data, end, 1 + |id| + |st|);
    FirstByte(status, id, st, it.data, end);
  }

  lemma FrameParts(it: Item, t: Ticks, rev: nat, behind: seq<u8>)
    requires it.Frame? && Sent(it)
    ensures ItemBytes(it, t, rev) + behind
         == [FirstStatus(it)] + IdBytes(Front(it)) + StampBytes(t) + it.data
            + ((if it.slf && rev >= 41 then [it.trail] else []) + behind)
    ensures |ItemBytes(it, t, rev)|
         == 1 + |IdBytes(Front(it))| + |StampBytes(t)| + |it.data| + (if it.slf && rev >= 41 then 1 else 0)
  {
    hide FirstStatus, IdBytes, StampBytes;
  }

  // ---------------------------------------------------------------- round trip

  function IdSize(ext: bool): nat { if ext then 4 else 2 }

  lemma {:induction false} BytesPrefix(s: seq<u8>, from: nat, n: nat, k: nat)
    requires k <= n
    ensures Bytes(s, from, k) == Bytes(s, from, n)[..k]
  {
  }

  /** Bytes that agree with the fields of a frame, one by one, decode to it. */
  lemma DecodeFields(s: seq<u8>, rev: nat, it: Item, t: Ticks)
    requires it.Frame? && Sent(it)
    requires LenOf(At(s, 0)) == it.dlc && RtrOf(At(s, 0)) == it.rtr && ExtOf(At(s, 0)) == it.ext
    requires At(s, 1) % 2 == Bit(it.slf)
    requires it.id == IdOf(if it.ext then FourBytes(At(s, 1), At(s, 2), At(s, 3), At(s, 4)) else FourBytes(At(s, 1), At(s, 2), 0, 0), it.ext)
    requires Stamp(s, 1 + IdSize(it.ext), t.Word?) == t
    requires Bytes(s, 1 + IdSize(it.ext) + StampSize(t.Word?), |it.data|) == it.data
    ensures DecodeCan(s, rev, t.Word?) ==
            (ItemRx(it, t, rev), 1 + IdSize(it.ext) + StampSize(t.Word?) + |it.data| + (if it.slf && rev >= 41 then 1 else 0))
  {
    hide At, Bytes, LenOf, RtrOf, ExtOf, IdOf, FourBytes, Stamp, U32, Zeros;
    FitsU32(it.id);
    BytesPrefix(s, 1 + IdSize(it.ext) + StampSize(t.Word?), |it.data|, Min(|it.data|, 8));
  }

  /** One frame with its stamp decodes to its message, whatever follows it. */
  lemma FrameRoundTrip(it: Item, t: Ticks, behind: seq<u8>, rev: nat)
    requires it.Frame? && Sent(it)
    ensures var s := ItemBytes(it, t, rev) + behind;
            !IsInternal(s) && DecodeCan(s, rev, t.Word?) == (ItemRx(it, t, rev), |ItemBytes(it, t, rev)|)
  {
    hide DecodeCan, ItemRx, StatusLen, IdWord, ItemBytes, At, Bytes, LenOf, RtrOf, ExtOf, IdOf, FourBytes;
    var s, m := ItemBytes(it, t, rev) + behind, Front(it);
    var id := IdBytes(m);
    Layout(it, t, rev, behind);
    StatusRoundTrip(m, if it.mark then 0x80 else 0);
    IdRoundTrip(m);
    assert At(s, 1 + 0) == id[0] && At(s, 1 + 1) == id[1] && |id| == IdSize(m.ext);
    assert m.ext ==> At(s, 1 + 2) == id[2] && At(s, 1 + 3) == id[3];
    StampRead(s, 1 + |id|, t);
    DecodeFields(s, rev, it, t);
  }

  /** One internal record decodes to what it brings, whatever follows it. */
  lemma NoteRoundTrip(it: Item, t: Ticks, behind: seq<u8>, rev: nat, first: bool)
    requires it.Note? && Sent(it) && (BringsStamp(it) ==> (t.Word? <==> first))
    ensures var s := ItemBytes(it, t, rev) + behind;
            IsInternal(s) && DecodeInternal(s, first) == (ItemRx(it, t, rev), |ItemBytes(it, t, rev)|, true)
  {
    hide DecodeInternal, StampBytes, At, Bytes;
    var head := [it.status, it.func, it.number];
    var stamp := if BringsStamp(it) then StampBytes(t) else [];
    var s := ItemBytes(it, t, rev) + behind;
    assert s == head + stamp + (it.payload + behind);
    assert s == (head + stamp) + it.payload + behind;
    Middle(s, [], head, stamp + (it.payload + behind), 0) by { assert s == [] + head + (stamp + (it.payload + behind)); }
    Middle(s, head, stamp, it.payload + behind, 3);
    Middle(s, head + stamp, it.payload, behind, 3 + |stamp|);
    assert At(s, 0 + 0) == head[0] && At(s, 0 + 1) == head[1] && At(s, 0 + 2) == head[2];
    if BringsStamp(it) {
      StampRead(s, 3, t);
    }
    DecodeNote(s, it, t, first);
  }

  lemma StampRead(s: seq<u8>, at: nat, t: Ticks)
    requires forall i :: 0 <= i < |StampBytes(t)| ==> At(s, at + i) == StampBytes(t)[i]
    ensures Stamp(s, at, t.Word?) == t && |StampBytes(t)| == StampSize(t.Word?)
  {
    hide At;
    assert At(s, at + 0) == StampBytes(t)[0];
    assert t.Word? ==> At(s, at + 1) == StampBytes(t)[1];
  }

  /** Bytes that agree with an internal record, one by one, decode to it. */
  lemma DecodeNote(s: seq<u8>, it: Item, t: Ticks, first: bool)
    requires it.Note? && Sent(it) && (BringsStamp(it) ==> (t.Word? <==> first) && Stamp(s, 3, first) == t)
    requires At(s, 0) == it.status && At(s, 1) == it.func && At(s, 2) == it.number
    requires Bytes(s, 3 + (if BringsStamp(it) then StampSize(first) else 0), |it.payload|) == it.payload
    ensures IsInternal(s)
    ensures DecodeInternal(s, first) ==
              (Internal(it.func, it.number, if BringsStamp(it) then Some(t) else None, it.payload),
               3 + (if BringsStamp(it) then StampSize(first) else 0) + |it.payload|, true)
  {
    hide At, Bytes, Stamp;
  }

  lemma ItemRoundTrip(it: Item, t: Ticks, behind: seq<u8>, rev: nat, first: bool)
    requires Sent(it) && (BringsStamp(it) ==> (t.Word? <==> first))
    ensures NextRecord(ItemBytes(it, t, rev) + behind, rev, first) == (ItemRx(it, t, rev), |ItemBytes(it, t, rev)|, true)
  {
    hide DecodeCan, DecodeInternal, ItemBytes, IsInternal;
    if it.Frame? {
      FrameRoundTrip(it, t, behind, rev);
    } else {
      NoteRoundTrip(it, t, behind, rev, first);
    }
  }

  /** The first stamp brought has 16 bits, the later ones have 8. */
  predicate Timed(its: seq<Item>, ts: seq<Ticks>, first: bool)
    requires |its| == |ts|
    decreases |its|
  {
    its == [] ||
    (Sent(its[0]) && (BringsStamp(its[0]) ==> (ts[0].Word? <==> first)) && Timed(its[1..], ts[1..], first && !BringsStamp(its[0])))
  }

  function AllBytes(its: seq<Item>, ts: seq<Ticks>, rev: nat, first: bool): seq<u8>
    requires |its| == |ts| && Timed(its, ts, first)
    decreases |its|
  {
    if its == [] then [] else ItemBytes(its[0], ts[0], rev) + AllBytes(its[1..], ts[1..], rev, first && !BringsStamp(its[0]))
  }

  function AllRx(its: seq<Item>, ts: seq<Ticks>, rev: nat, first: bool): (rxs: seq<Rx>)
    requires |its| == |ts| && Timed(its, ts, first)
    ensures |rxs| == |its|
    decreases |its|
  {
    if its == [] then [] else [ItemRx(its[0], ts[0], rev)] + AllRx(its[1..], ts[1..], rev, first && !BringsStamp(its[0]))
  }

  /** Whether the next stamp is still the first one. */
  function FirstAfter(its: seq<Item>, first: bool): bool
    decreases |its|
  {
    if its == [] then first else FirstAfter(its[1..], first && !BringsStamp(its[0]))
  }

  lemma SkipFront(front: seq<u8>, record: seq<u8>, behind: seq<u8>)
    ensures front + (record + behind) == (front + record) + behind
    ensures Drop(front + (record + behind), |front|) == record + behind
  {
  }

  /** Records inside the received bytes are decoded one after the other, and decoding goes on behind them. */
  lemma {:induction false} RecordsRoundTrip(front: seq<u8>, its: seq<Item>, ts: seq<Ticks>, behind: seq<u8>, s: seq<u8>,
                                            more: nat, length: nat, rev: nat, first: bool)
    requires |its| == |ts| && Timed(its, ts, first)
    requires s == front + (AllBytes(its, ts, rev, first) + behind) && |s| - |behind| <= length
    ensures DecodeRecords(s, |front|, |its| + more, length, rev, first)
         == Prepend(AllRx(its, ts, rev, first), DecodeRecords(s, |s| - |behind|, more, length, rev, FirstAfter(its, first)))
    decreases |its|
  {
    hide NextRecord, DecodeRecords, Drop, ItemBytes, ItemRx, Sent, BringsStamp;
    if its == [] {
      assert [] + behind == behind;
      var r := DecodeRecords(s, |front|, more, length, rev, first);
      assert [] + r.0 == r.0;
    } else {
      var it, t := its[0], ts[0];
      var next := first && !BringsStamp(it);
      var record, tail := ItemBytes(it, t, rev), AllBytes(its[1..], ts[1..], rev, next) + behind;
      assert AllBytes(its, ts, rev, first) + behind == record + tail;
      SkipFront(front, record, tail);
      FirstRecord(front, it, t, tail, |its| + more, length, rev, first);
      RecordsRoundTrip(front + record, its[1..], ts[1..], behind, s, more, length, rev, next);
      var rest := DecodeRecords(s, |s| - |behind|, more, length, rev, FirstAfter(its, first));
      assert [ItemRx(it, t, rev)] + (AllRx(its[1..], ts[1..], rev, next) + rest.0)
          == [ItemRx(it, t, rev)] + AllRx(its[1..], ts[1..], rev, next) + rest.0;
    }
  }

  lemma StampSeen(it: Item, t: Ticks, rev: nat, first: bool)
    requires Sent(it)
    ensures StillFirst(first, ItemRx(it, t, rev)) == (first && !BringsStamp(it))
  {
  }

  /** A packet of frames and internal records in any order decodes to exactly these, with the stamps they
      bring, and every byte of it is consumed, at every revision. */
  lemma PacketRoundTrip(prefix: u8, its: seq<Item>, ts: seq<Ticks>, rev: nat)
    requires |its| == |ts| < 0x100 && Timed(its, ts, true)
    ensures var s := [prefix, |its|] + AllBytes(its, ts, rev, true);
            DecodePacket(s, |s|, rev) == (AllRx(its, ts, rev, true), |s|, 0)
  {
    hide DecodeRecords, AllBytes, AllRx, Timed;
    var s := [prefix, |its|] + AllBytes(its, ts, rev, true);
    assert AllBytes(its, ts, rev, true) + [] == AllBytes(its, ts, rev, true);
    RecordsRoundTrip([prefix, |its|], its, ts, [], s, 0, |s|, rev, true);
    DecodeNone(s, |s|, |s|, rev, FirstAfter(its, true));
    assert AllRx(its, ts, rev, true) + [] == AllRx(its, ts, rev, true);
  }

  /** An internal record of a function that the driver does not know ends the packet: the records before it
      have been handed on, none behind it is. */
  lemma UnknownEnds(prefix: u8, its: seq<Item>, ts: seq<Ticks>, status: u8, func: u8, behind: seq<u8>, more: nat, rev: nat)
    requires |its| == |ts| && |its| + 1 + more < 0x100 && Timed(its, ts, true)
    requires status / 64 % 2 == 1 && func !in {1, 2, 3, 4, 5, 10}
    ensures var s := [prefix, |its| + 1 + more] + AllBytes(its, ts, rev, true) + ([status, func] + behind);
            var (rxs, _, err) := DecodePacket(s, |s|, rev);
            rxs == AllRx(its, ts, rev, true) && err == -84
  {
    hide DecodeRecords, AllBytes, AllRx, Timed;
    var (head, bytes, tail) := ([prefix, |its| + 1 + more], AllBytes(its, ts, rev, true), [status, func] + behind);
    var s := head + bytes + tail;
    assert s == head + (bytes + tail) && s[1] == |its| + 1 + more;
    RecordsRoundTrip(head, its, ts, tail, s, 1 + more, |s|, rev, true);
    var first := FirstAfter(its, true);
    var pos := |s| - |tail|;
    assert Drop(s, pos) == tail;
    UnknownRecord(tail, rev, first);
    DecodeStep(s, pos, 1 + more, |s|, rev, first, []);
    var rest := DecodeRecords(s, pos, 1 + more, |s|, rev, first);
    assert [] + rest.0 == rest.0;
    assert AllRx(its, ts, rev, true) + [] == AllRx(its, ts, rev, true);
  }

  lemma UnknownRecord(s: seq<u8>, rev: nat, first: bool)
    requires |s| >= 2 && s[0] / 64 % 2 == 1 && s[1] !in {1, 2, 3, 4, 5, 10}
    ensures !NextRecord(s, rev, first).2
  {
  }

  /** Bytes that a record may reach beyond those received. */
  function Slack(rev: nat): nat { if rev <= 3 then 1 else 0 }

  /** The record at the position reached is handed on; it ends the packet if it reaches too far. */
  lemma FirstRecord(front: seq<u8>, it: Item, t: Ticks, tail: seq<u8>, n: nat, length: nat, rev: nat, first: bool)
    requires n > 0 && Sent(it) && (BringsStamp(it) ==> (t.Word? <==> first))
    ensures var s, end := front + (ItemBytes(it, t, rev) + tail), |front| + |ItemBytes(it, t, rev)|;
            DecodeRecords(s, |front|, n, length, rev, first) ==
              if end > length + Slack(rev) then ([ItemRx(it, t, rev)], end, -14)
              else Prepend([ItemRx(it, t, rev)], DecodeRecords(s, end, n - 1, length, rev, first && !BringsStamp(it)))
  {
    hide NextRecord, DecodeRecords, Drop, ItemBytes, ItemRx, Sent, BringsStamp;
    var record := ItemBytes(it, t, rev);
    SkipFront(front, record, tail);
    ItemRoundTrip(it, t, tail, rev, first);
    StampSeen(it, t, rev, first);
    var s := front + (record + tail);
    DecodeStep(s, |front|, n, length, rev, first, []);
    var whole := DecodeRecords(s, |front|, n, length, rev, first);
    assert [] + whole.0 == whole.0 && [] + [ItemRx(it, t, rev)] == [ItemRx(it, t, rev)];
  }

  /** Records that do not all lie within the bytes received: those up to the first one that reaches too far
      are handed on, that one included, and the packet is refused. Up to revision 3 one byte is forgiven. */
  lemma {:induction false} CutRecords(front: seq<u8>, its: seq<Item>, ts: seq<Ticks>, s: seq<u8>, length: nat, rev: nat, first: bool)
      returns (k: nat)
    requires |its| == |ts| && Timed(its, ts, first) && s == front + AllBytes(its, ts, rev, first)
    requires |front| <= length + Slack(rev)
    ensures k <= |its| && Timed(its[..k], ts[..k], first)
    ensures var (rxs, last, err) := DecodeRecords(s, |front|, |its|, length, rev, first);
            && rxs == AllRx(its, ts, rev, first)[..k]
            && last == |front| + |AllBytes(its[..k], ts[..k], rev, first)|
            && if |s| <= length + Slack(rev) then k == |its| && err == 0
               else k > 0 && err == -14 && last > length + Slack(rev)
                    && Timed(its[..k - 1], ts[..k - 1], first)
                    && |front| + |AllBytes(its[..k - 1], ts[..k - 1], rev, first)| <= length + Slack(rev)
    decreases |its|
  {
    hide NextRecord, DecodeRecords, Drop, ItemBytes, ItemRx, Sent, BringsStamp, Timed, AllBytes, AllRx;
    NoItems(rev, first);
    if its == [] {
      k := 0;
      DecodeNone(s, |front|, length, rev, first);
    } else {
      FirstItem(its, ts, rev, first);
      OneItem(its, ts, rev, first);
      var it, t := its[0], ts[0];
      var next := first && !BringsStamp(it);
      var record, tail := ItemBytes(it, t, rev), AllBytes(its[1..], ts[1..], rev, next);
      SkipFront(front, record, tail);
      FirstRecord(front, it, t, tail, |its|, length, rev, first);
      assert [ItemRx(it, t, rev)] == ([ItemRx(it, t, rev)] + AllRx(its[1..], ts[1..], rev, next))[..1];
      if |front| + |record| > length + Slack(rev) {
        k := 1;
        assert its[..0] == [] && ts[..0] == [];
      } else {
        var j := CutRecords(front + record, its[1..], ts[1..], s, length, rev, next);
        k := j + 1;
        PrefixItems(its, ts, rev, first, j);
        if |s| > length + Slack(rev) { PrefixItems(its, ts, rev, first, j - 1); }
        assert AllRx(its, ts, rev, first)[..k] == [ItemRx(it, t, rev)] + AllRx(its[1..], ts[1..], rev, next)[..j];
      }
    }
  }

  lemma FirstItem(its: seq<Item>, ts: seq<Ticks>, rev: nat, first: bool)
    requires |its| == |ts| > 0 && Timed(its, ts, first)
    ensures var next := first && !BringsStamp(its[0]);
            && Timed(its[1..], ts[1..], next)
            && AllBytes(its, ts, rev, first) == ItemBytes(its[0], ts[0], rev) + AllBytes(its[1..], ts[1..], rev, next)
            && AllRx(its, ts, rev, first) == [ItemRx(its[0], ts[0], rev)] + AllRx(its[1..], ts[1..], rev, next)
    ensures Sent(its[0]) && (BringsStamp(its[0]) ==> (ts[0].Word? <==> first))
  {
  }

  lemma NoItems(rev: nat, first: bool)
    ensures Timed([], [], first) && AllBytes([], [], rev, first) == [] && AllRx([], [], rev, first) == []
  {
  }

  lemma OneItem(its: seq<Item>, ts: seq<Ticks>, rev: nat, first: bool)
    requires |its| == |ts| > 0 && Timed(its, ts, first)
    ensures Timed(its[..1], ts[..1], first) && AllBytes(its[..1], ts[..1], rev, first) == ItemBytes(its[0], ts[0], rev)
  {
    hide ItemBytes;
    assert its[..1][1..] == [] && ts[..1][1..] == [];
  }

  lemma PrefixItems(its: seq<Item>, ts: seq<Ticks>, rev: nat, first: bool, j: nat)
    requires |its| == |ts| > 0 && Timed(its, ts, first) && j < |its|
    requires var next := first && !BringsStamp(its[0]); Timed(its[1..][..j], ts[1..][..j], next)
    ensures Timed(its[..j + 1], ts[..j + 1], first)
    ensures AllBytes(its[..j + 1], ts[..j + 1], rev, first)
         == ItemBytes(its[0], ts[0], rev) + AllBytes(its[1..][..j], ts[1..][..j], rev, first && !BringsStamp(its[0]))
  {
    hide ItemBytes;
    assert its[..j + 1][1..] == its[1..][..j] && ts[..j + 1][1..] == ts[1..][..j];
  }

  /** Nothing received holds nothing, and neither does a packet that counts no records. */
  lemma NoRecords(s: seq<u8>, length: nat, rev: nat)
    requires length == 0 || (|s| >= 2 && s[1] == 0)
    ensures DecodePacket(s, length, rev) == ([], if length == 0 then 0 else 2, 0)
  {
  }

  /** A packet of which only `length` bytes count is refused exactly if it is longer than that, by more than
      one byte up to revision 3. */
  lemma CutPacket(prefix: u8, its: seq<Item>, ts: seq<Ticks>, length: nat, rev: nat)
    requires |its| == |ts| < 0x100 && Timed(its, ts, true) && length >= 2
    ensures var s := [prefix, |its|] + AllBytes(its, ts, rev, true);
            var (rxs, _, err) := DecodePacket(s, length, rev);
            && rxs <= AllRx(its, ts, rev, true)
            && err == (if |s| <= length + (if rev <= 3 then 1 else 0) then 0 else -14)
            && (err == 0 ==> rxs == AllRx(its, ts, rev, true))
  {
    hide DecodeRecords, AllBytes, AllRx, Timed;
    var s := [prefix, |its|] + AllBytes(its, ts, rev, true);
    var k := CutRecords([prefix, |its|], its, ts, s, length, rev, true);
  }

  // ---------------------------------------------------------------- the encoder's records

  /** The record of a message as a device echoes it: the one sent, with a stamp behind the identifier. */
  function Echoed(m: CanMsg, t: Ticks, rev: nat): seq<u8>
    requires Sendable(m)
  {
    var r, n := Record(m, rev), 1 + IdSize(m.ext);
    r[..n] + StampBytes(t) + r[n..]
  }

  /** What the receiver is to see of a message: self-reception only from revision 41 on, and data beyond the
      length, or of a remote frame, as zeros. */
  function Delivered(m: CanMsg, rev: nat): CanMsg
    requires Sendable(m)
  {
    var kept := if m.rtr then [] else m.data[..m.len];
    CanMsg(m.id, m.ext, m.rtr, m.slf && rev >= 41, m.len, kept + Zeros(64 - |kept|))
  }

  /** The item that an echoed message is. */
  function Echo(m: CanMsg, rev: nat): Item
    requires Sendable(m)
  {
    Frame(m.id, m.ext, m.rtr, m.slf && rev >= 41, m.len, false, if m.rtr then [] else m.data[..m.len], 0x80)
  }

  /** At every revision the record sent, with a stamp inserted, is the frame with the same fields; below
      revision 41 without self-reception and without a byte behind the data. */
  lemma EchoIsFrame(m: CanMsg, t: Ticks, rev: nat)
    requires Sendable(m) && LegalId(m)
    ensures Sent(Echo(m, rev)) && BringsStamp(Echo(m, rev)) && ItemBytes(Echo(m, rev), t, rev) == Echoed(m, t, rev)
    ensures ItemRx(Echo(m, rev), t, rev) == Can(Delivered(m, rev), t)
  {
    hide ItemBytes, Echoed;
    EchoBytes(m, t, rev);
    EchoRx(m, t, rev);
  }

  lemma EchoRx(m: CanMsg, t: Ticks, rev: nat)
    requires Sendable(m) && LegalId(m)
    ensures Sent(Echo(m, rev)) && BringsStamp(Echo(m, rev)) && ItemRx(Echo(m, rev), t, rev) == Can(Delivered(m, rev), t)
  {
    hide Zeros;
    var data := Echo(m, rev).data;
    assert data[..Min(|data|, 8)] == data;
  }

  lemma EchoBytes(m: CanMsg, t: Ticks, rev: nat)
    requires Sendable(m) && LegalId(m)
    ensures Sent(Echo(m, rev)) && ItemBytes(Echo(m, rev), t, rev) == Echoed(m, t, rev)
  {
    hide IdBytes, StatusLen, Zeros, StampBytes;
    var it, d := Echo(m, rev), Downgraded(m, rev);
    SameFront(it, d);
    var end := if it.slf then [0x80] else [];
    Insert([StatusLen(d)], IdBytes(d), StampBytes(t), it.data, end);
  }

  lemma Insert(a: seq<u8>, b: seq<u8>, c: seq<u8>, d: seq<u8>, e: seq<u8>)
    ensures var (r, n) := (a + b + (d + e), |a| + |b|); r[..n] + c + r[n..] == a + b + c + d + e
  {
    assert (a + b + (d + e))[..|a| + |b|] == a + b && (a + b + (d + e))[|a| + |b|..] == d + e;
  }

  /** Status byte and identifier do not depend on the data. */
  lemma SameFront(it: Item, d: CanMsg)
    requires it.Frame? && d == Front(it).(data := d.data)
    ensures StatusLen(Front(it)) == StatusLen(d) && IdBytes(Front(it)) == IdBytes(d) && |IdBytes(d)| == IdSize(d.ext)
  {
  }

  predicate AllLegal(ms: seq<CanMsg>) { forall i :: 0 <= i < |ms| ==> Sendable(ms[i]) && LegalId(ms[i]) }

  function Echoes(ms: seq<CanMsg>, rev: nat): (its: seq<Item>)
    requires AllLegal(ms)
    ensures |its| == |ms| && forall i :: 0 <= i < |its| ==> its[i] == Echo(ms[i], rev)
  {
    if ms == [] then [] else [Echo(ms[0], rev)] + Echoes(ms[1..], rev)
  }

  /** The bytes of a packet that echoes messages. */
  function EchoedRecords(ms: seq<CanMsg>, ts: seq<Ticks>, rev: nat): seq<u8>
    requires |ms| == |ts| && AllLegal(ms)
  {
    if ms == [] then [] else Echoed(ms[0], ts[0], rev) + EchoedRecords(ms[1..], ts[1..], rev)
  }

  /** One item in front of others. */
  lemma ItemFirst(it: Item, t: Ticks, its: seq<Item>, ts: seq<Ticks>, rev: nat, first: bool)
    requires |its| == |ts| && Sent(it) && BringsStamp(it) && (t.Word? <==> first) && Timed(its, ts, false)
    ensures Timed([it] + its, [t] + ts, first)
    ensures AllBytes([it] + its, [t] + ts, rev, first) == ItemBytes(it, t, rev) + AllBytes(its, ts, rev, false)
    ensures AllRx([it] + its, [t] + ts, rev, first) == [ItemRx(it, t, rev)] + AllRx(its, ts, rev, false)
  {
    hide ItemBytes, ItemRx, Sent, BringsStamp;
    assert ([it] + its)[1..] == its && ([t] + ts)[1..] == ts;
  }

  /** What the messages of a packet are decoded to. */
  function DeliveredAll(ms: seq<CanMsg>, ts: seq<Ticks>, rev: nat): (rxs: seq<Rx>)
    requires |ms| == |ts| && AllLegal(ms)
    ensures |rxs| == |ms| && forall i :: 0 <= i < |ms| ==> rxs[i] == Can(Delivered(ms[i], rev), ts[i])
  {
    if ms == [] then [] else [Can(Delivered(ms[0], rev), ts[0])] + DeliveredAll(ms[1..], ts[1..], rev)
  }

  lemma {:induction false} EchoesAreItems(ms: seq<CanMsg>, ts: seq<Ticks>, rev: nat, first: bool)
    requires |ms| == |ts| && AllLegal(ms) && forall i :: 0 <= i < |ts| ==> (ts[i].Word? <==> (first && i == 0))
    ensures var its := Echoes(ms, rev);
            && Timed(its, ts, first) && AllBytes(its, ts, rev, first) == EchoedRecords(ms, ts, rev)
            && AllRx(its, ts, rev, first) == DeliveredAll(ms, ts, rev)
    decreases |ms|
  {
    hide Echo, Echoed, Delivered, ItemBytes, ItemRx, Sent, LegalId, Sendable, BringsStamp;
    if ms != [] {
      var ms', ts' := ms[1..], ts[1..];
      EchoIsFrame(ms[0], ts[0], rev);
      assert forall i :: 0 <= i < |ts'| ==> ts'[i] == ts[i + 1] && ms'[i] == ms[i + 1];
      EchoesAreItems(ms', ts', rev, false);
      assert ts == [ts[0]] + ts';
      hide Timed, AllBytes, AllRx;
      ItemFirst(Echo(ms[0], rev), ts[0], Echoes(ms', rev), ts', rev, first);
    }
  }

  /** A packet echoing the encoder's records decodes, at every revision, to exactly their messages with their
      stamps, and every byte of it is consumed. */
  lemma EchoRoundTrip(prefix: u8, ms: seq<CanMsg>, ts: seq<Ticks>, rev: nat)
    requires |ms| == |ts| < 0x100 && AllLegal(ms) && forall i :: 0 <= i < |ts| ==> (ts[i].Word? <==> i == 0)
    ensures var s := [prefix, |ms|] + EchoedRecords(ms, ts, rev);
            var (rxs, pos, err) := DecodePacket(s, |s|, rev);
            && err == 0 && pos == |s| && |rxs| == |ms|
            && forall i :: 0 <= i < |ms| ==> rxs[i] == Can(Delivered(ms[i], rev), ts[i])
  {
    hide DecodePacket, Delivered, DeliveredAll, AllBytes, AllRx, Timed, EchoedRecords;
    EchoesAreItems(ms, ts, rev, true);
    PacketRoundTrip(prefix, Echoes(ms, rev), ts, rev);
  }

  // ---------------------------------------------------------------- the wire format by example

  /** A standard frame with one byte at two revisions, a self-received one, an extended and a remote one. */
  lemma RecordExamples(data: seq<u8>)
    requires |data| == 64 && data[0] == 0xAA
    ensures Record(CanMsg(0x123, false, false, false, 1, data), 28) == [0x01, 0x60, 0x24, 0xAA]
    ensures Record(CanMsg(0x123, false, false, true, 1, data), 28) == [0x01, 0x60, 0x24, 0xAA]
    ensures Record(CanMsg(0x123, false, false, true, 1, data), 41) == [0x01, 0x61, 0x24, 0xAA, 0x80]
    ensures Record(CanMsg(0x1234_5678, true, false, false, 1, data), 41) == [0x21, 0xC0, 0xB3, 0xA2, 0x91, 0xAA]
    ensures Record(CanMsg(0x7FF, false, true, false, 8, data), 41) == [0x18, 0xE0, 0xFF]
  {
    assert data[..1] == [0xAA];
  }

  /** A telegram of one standard frame: type, count, record, and the counter in the last byte. */
  lemma TelegramExample(bytes: seq<u8>, data: seq<u8>, counter: u8)
    requires |data| == 64 && data[0] == 0xAA
    requires IsTelegram(bytes, [CanMsg(0x123, false, false, false, 1, data)], counter, 28)
    ensures |bytes| == 64 && bytes[..6] == [2, 1, 0x01, 0x60, 0x24, 0xAA] && bytes[63] == counter
  {
    hide Record;
    RecordExamples(data);
    var m := CanMsg(0x123, false, false, false, 1, data);
    assert [m][..0] == [] && [] + Record(m, 28) == Record(m, 28);
    assert Records([m], 28) == Record(m, 28);
    assert bytes[..6] == bytes[..2] + bytes[2..6];
  }
}
