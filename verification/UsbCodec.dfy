/** The PCAN-USB wire format: records encoded into 64-byte telegrams (pcan_usb_EncodeMessage), filled one
    after the other by pcan_usb_write. */
module UsbCodec {
  import opened Common
  import opened Words
  import opened Fifo

  const PACKET_SIZE := 64
  const HIGH_WATER := PACKET_SIZE - 14

  /** A CAN message as far as the wire format carries it. */
  datatype CanMsg = CanMsg(id: u32, ext: bool, rtr: bool, slf: bool, len: u16, data: seq<u8>)

  /** What pcanfd_send_msg lets into the write FIFO of a CAN 2.0 channel. */
  predicate Sendable(m: CanMsg) { m.len <= 8 && |m.data| == 64 }

  // ---------------------------------------------------------------- one record

  /** Self-receive needs firmware revision 41. */
  function Downgraded(m: CanMsg, rev: nat): CanMsg {
    if rev < 41 then m.(slf := false) else m
  }

  function Bit(b: bool): u8 { if b then 1 else 0 }

  function StatusLen(m: CanMsg): u8 {
    m.len % 16 + Bit(m.rtr) * 0x10 + Bit(m.ext) * 0x20
  }

  /** The shifted identifier with the self-receive flag in its free lowest bit, low byte first. */
  function IdWord(m: CanMsg): u32 {
    U32(m.id * (if m.ext then 8 else 32)) / 8 * 8 + Bit(m.slf)
  }

  function IdBytes(m: CanMsg): seq<u8> {
    var v := IdWord(m);
    if m.ext then [v % 0x100, v / 0x100 % 0x100, v / 0x100 / 0x100 % 0x100, v / 0x100 / 0x100 / 0x100]
    else [v % 0x100, v / 0x100 % 0x100]
  }

  function DataBytes(m: CanMsg): seq<u8>
    requires Sendable(m)
  {
    if m.rtr then [] else m.data[..m.len]
  }

  function Tail(m: CanMsg): seq<u8>
    requires Sendable(m)
  {
    DataBytes(m) + (if m.slf then [0x80] else [])
  }

  function Record(m: CanMsg, rev: nat): (r: seq<u8>)
    requires Sendable(m)
    ensures 3 <= |r| <= 14
  {
    var d := Downgraded(m, rev);
    [StatusLen(d)] + IdBytes(d) + Tail(d)
  }

  predicate AllSendable(ms: seq<CanMsg>) { forall i :: 0 <= i < |ms| ==> Sendable(ms[i]) }

  function Records(ms: seq<CanMsg>, rev: nat): seq<u8>
    requires AllSendable(ms)
    decreases |ms|
  {
    if ms == [] then [] else Records(ms[..|ms| - 1], rev) + Record(ms[|ms| - 1], rev)
  }

  // ---------------------------------------------------------------- telegrams

  /** k messages are taken from the queue: one more is started as long as fewer than 50 bytes are used. */
  ghost predicate Greedy(items: seq<CanMsg>, k: nat, rev: nat)
    requires AllSendable(items)
  {
    && k <= |items|
    && (forall j :: 0 <= j < k ==> 2 + |Records(items[..j], rev)| < HIGH_WATER)
    && (k < |items| ==> 2 + |Records(items[..k], rev)| >= HIGH_WATER)
  }

  /** A telegram carrying the messages ms and the given telegram counter. */
  ghost predicate IsTelegram(bytes: seq<u8>, ms: seq<CanMsg>, counter: u8, rev: nat) {
    && |bytes| == PACKET_SIZE && ms != [] && AllSendable(ms)
    && bytes[0] == 2 && bytes[1] == |ms|
    && (var body := Records(ms, rev); 2 + |body| < PACKET_SIZE && bytes[2..2 + |body|] == body)
    && bytes[PACKET_SIZE - 1] == counter
  }

  /** Whole telegrams, one per group of messages, with consecutive counters mod 256. */
  ghost predicate IsStream(bytes: seq<u8>, groups: seq<seq<CanMsg>>, counter: nat, rev: nat) {
    && |bytes| == PACKET_SIZE * |groups|
    && forall j :: 0 <= j < |groups| ==>
         IsTelegram(bytes[PACKET_SIZE * j..PACKET_SIZE * j + PACKET_SIZE], groups[j], U8(counter + j), rev)
  }

  lemma StreamSnoc(bytes: seq<u8>, groups: seq<seq<CanMsg>>, counter: nat, rev: nat, t: seq<u8>, g: seq<CanMsg>)
    requires IsStream(bytes, groups, counter, rev) && IsTelegram(t, g, U8(counter + |groups|), rev)
    ensures IsStream(bytes + t, groups + [g], counter, rev)
  {
    TelegramLength(t, g, U8(counter + |groups|), rev);
    hide IsTelegram;
    forall j | 0 <= j <= |groups|
      ensures IsTelegram((bytes + t)[PACKET_SIZE * j..PACKET_SIZE * j + PACKET_SIZE], (groups + [g])[j], U8(counter + j), rev)
    {
      if j < |groups| {
        assert (bytes + t)[PACKET_SIZE * j..PACKET_SIZE * j + PACKET_SIZE] == bytes[PACKET_SIZE * j..PACKET_SIZE * j + PACKET_SIZE];
      } else {
        assert (bytes + t)[PACKET_SIZE * j..PACKET_SIZE * j + PACKET_SIZE] == t;
      }
    }
  }

  lemma TelegramLength(t: seq<u8>, g: seq<CanMsg>, counter: u8, rev: nat)
    requires IsTelegram(t, g, counter, rev)
    ensures |t| == PACKET_SIZE
  {
  }

  lemma GroupsSnoc<T>(groups: seq<seq<T>>, g: seq<T>, rest: seq<T>)
    ensures Concat(groups + [g]) + rest == Concat(groups) + (g + rest)
  {
    ConcatSnoc(groups, g);
  }

  lemma CounterByte(x: nat)
    ensures U8(U32(x)) == U8(x)
  {
  }

  /** Each record has at least 3 bytes, and one that starts below the high-water mark ends before the
      last byte of the telegram, which is the counter's. */
  lemma {:induction false} GreedyFits(items: seq<CanMsg>, k: nat, rev: nat)
    requires AllSendable(items) && k <= |items|
    requires forall j :: 0 <= j < k ==> 2 + |Records(items[..j], rev)| < HIGH_WATER
    ensures 3 * k <= |Records(items[..k], rev)| <= PACKET_SIZE - 3 && k <= 20
    decreases k
  {
    if k > 0 {
      GreedyFits(items, k - 1, rev);
      assert items[..k][..k - 1] == items[..k - 1];
      assert 2 + |Records(items[..k - 1], rev)| < HIGH_WATER;
    }
  }

  /** The USB port of a channel. */
  class UsbPort {
    const writeFifo: FifoManager<CanMsg>
    const buffer: array<u8>
    const rev: nat
    var telegramCount: u32
    var engine: Engine

    constructor (writeFifo: FifoManager<CanMsg>, buffer: array<u8>, rev: nat)
      ensures this.writeFifo == writeFifo && this.buffer == buffer && this.rev == rev && telegramCount == 0 && engine == Stopped
    {
      this.writeFifo, this.buffer, this.rev := writeFifo, buffer, rev;
      telegramCount, engine := 0, Stopped;
    }

    ghost predicate Valid()
      reads this, writeFifo, writeFifo.slots
    {
      && writeFifo.Valid() && buffer as object != writeFifo.slots
      && AllSendable(writeFifo.Contents())
      && buffer.Length % PACKET_SIZE == 0
    }

    /** The buffer from `end` on is as it was. */
    twostate predicate Untouched(end: nat)
      reads buffer
    {
      forall i :: end <= i < buffer.Length ==> buffer[i] == old(buffer[i])
    }

    /** `*ptr++ = b`. */
    method PutByte(ptr: nat, b: u8) returns (end: nat)
      requires ptr < buffer.Length
      modifies buffer
      ensures end == ptr + 1
      ensures buffer[..end] == old(buffer[..ptr]) + [b] && Untouched(end)
    {
      buffer[ptr] := b;
      end := ptr + 1;
    }

    /** Writes one record at ptr. */
    method PutRecord(ptr: nat, m: CanMsg) returns (end: nat)
      requires Sendable(m) && ptr + 14 <= buffer.Length
      modifies buffer
      ensures end == ptr + |Record(m, rev)|
      ensures buffer[..end] == old(buffer[..ptr]) + Record(m, rev) && Untouched(end)
    {
      hide StatusLen, IdWord;
      ghost var before := buffer[..ptr];
      var d := Downgraded(m, rev);
      end := PutByte(ptr, StatusLen(d));
      var id := IdBytes(d);
      var i := 0;
      while i < |id|
        invariant 0 <= i <= |id| && end == ptr + 1 + i
        invariant buffer[..end] == before + ([StatusLen(d)] + id[..i]) && Untouched(end)
      {
        end := PutByte(end, id[i]);
        Snoc(before, [StatusLen(d)], id, i);
        i := i + 1;
      }
      assert id[..i] == id;
      ghost var head := [StatusLen(d)] + IdBytes(d);
      if !d.rtr {
        var j := 0;
        while j < d.len
          invariant 0 <= j <= d.len && end == ptr + |head| + j
          invariant buffer[..end] == before + (head + d.data[..j]) && Untouched(end)
        {
          end := PutByte(end, d.data[j]);
          Snoc(before, head, d.data, j);
          j := j + 1;
        }
      }
      assert buffer[..end] == before + (head + DataBytes(d));
      if d.slf {
        end := PutByte(end, 0x80);
      }
      assert before + (head + DataBytes(d)) + [0x80] == before + (head + (DataBytes(d) + [0x80]));
      assert DataBytes(d) + [] == DataBytes(d);
      assert buffer[..end] == before + (head + Tail(d));
      assert head + Tail(d) == Record(m, rev);
    }

    /** Fills the telegram at `base` from the write FIFO. k is the number of messages taken. */
    method EncodeMessage(base: nat) returns (err: int, dataLength: nat, ghost k: nat)
      requires Valid() && base + PACKET_SIZE <= buffer.Length
      modifies writeFifo, buffer, this`telegramCount
      ensures Valid()
      ensures Greedy(old(writeFifo.Contents()), k, rev) && writeFifo.Contents() == old(writeFifo.Contents())[k..]
      ensures buffer[..base] == old(buffer[..base])
      ensures if k == 0 then dataLength == 0 && telegramCount == old(telegramCount)
              else dataLength == PACKET_SIZE && telegramCount == U32(old(telegramCount) + 1)
      ensures k > 0 ==> IsTelegram(buffer[base..base + PACKET_SIZE], old(writeFifo.Contents())[..k], U8(old(telegramCount)), rev)
      ensures err == if 2 + |Records(old(writeFifo.Contents())[..k], rev)| < HIGH_WATER then -ENODATA else 0
    {
      hide FifoManager.Valid, FifoManager.Contents, Records, Sendable, Greedy;
      ghost var items := writeFifo.Contents();
      buffer[base] := 2;
      ghost var front := buffer[..base + 2];
      var ptr, count;
      err, ptr, count, k := FillRecords(base);
      AtMostTwenty(items, k, rev);
      if ptr - base > 2 {
        dataLength := PACKET_SIZE;
        FinishTelegram(base, count, Records(items[..k], rev), front);
      } else {
        dataLength := 0;
        assert buffer[..base] == front[..base];
        buffer[base + 1] := 0;
      }
    }

    /** Takes messages from the FIFO while there is room for one of any size. */
    method FillRecords(base: nat) returns (err: int, ptr: nat, count: nat, ghost k: nat)
      requires Valid() && base + PACKET_SIZE <= buffer.Length
      modifies writeFifo, buffer
      ensures Valid() && count == k
      ensures Greedy(old(writeFifo.Contents()), k, rev) && writeFifo.Contents() == old(writeFifo.Contents())[k..]
      ensures ptr == base + 2 + |Records(old(writeFifo.Contents())[..k], rev)| < base + PACKET_SIZE
      ensures buffer[..ptr] == old(buffer[..base + 2]) + Records(old(writeFifo.Contents())[..k], rev)
      ensures err == if ptr - base < HIGH_WATER then -ENODATA else 0
    {
      hide Record, Records, Sendable, FifoManager.Valid, FifoManager.Contents;
      ghost var items, front := writeFifo.Contents(), buffer[..base + 2];
      k, err, count, ptr := 0, 0, 0, base + 2;
      assert items[..0] == [] && items[0..] == items;
      RecordsNil(rev);
      while err == 0 && ptr - base < HIGH_WATER
        invariant writeFifo.Valid() && count == k <= |items|
        invariant writeFifo.Contents() == items[k..]
        invariant ptr == base + 2 + |Records(items[..k], rev)| < base + PACKET_SIZE
        invariant forall j :: 0 <= j < k ==> 2 + |Records(items[..j], rev)| < HIGH_WATER
        invariant buffer[..ptr] == front + Records(items[..k], rev)
        invariant err == 0 || (k == |items| && ptr - base < HIGH_WATER && err == -ENODATA)
        decreases |items| - k, err == 0
      {
        var reply := writeFifo.Get();
        if reply.Code? {
          err := reply.err;
        } else {
          assert reply.item == items[k];
          RecordsSnoc(items, k, rev, front);
          ptr := PutRecord(ptr, reply.item);
          count, k := count + 1, k + 1;
        }
      }
    }

    /** One USB request: telegrams are encoded until the FIFO or the buffer is exhausted, then submitted.
        urbErr is what the USB stack answers to the submission. */
    method Write(urbErr: int) returns (err: int, size: nat, ghost groups: seq<seq<CanMsg>>)
      requires Valid() && buffer.Length > 0
      modifies this, writeFifo, buffer
      ensures Valid() && size <= buffer.Length
      ensures IsStream(buffer[..size], groups, old(telegramCount), rev)
      ensures Concat(groups) + writeFifo.Contents() == old(writeFifo.Contents())
      ensures size < buffer.Length ==> writeFifo.Contents() == []
      ensures telegramCount == U32(old(telegramCount) + |groups|)
      ensures if size == 0 then err == -ENODATA && engine == Stopped
              else err == urbErr && engine == if urbErr == 0 || urbErr == -EBUSY then Started else Stopped
    {
      hide FifoManager.Valid, FifoManager.Contents, Records, Sendable, Greedy, IsTelegram, IsStream, U32, Concat;
      ghost var items, counter := writeFifo.Contents(), telegramCount;
      groups, size, err := [], 0, 0;
      StreamStart(buffer[..0], counter, rev, items);
      FitsU32(counter);
      while err == 0 && size < buffer.Length
        invariant Valid() && size <= buffer.Length && size % PACKET_SIZE == 0
        invariant IsStream(buffer[..size], groups, counter, rev) && size == PACKET_SIZE * |groups|
        invariant Concat(groups) + writeFifo.Contents() == items
        invariant telegramCount == U32(counter + |groups|)
        invariant err == 0 || (err == -ENODATA && writeFifo.Contents() == [])
        invariant engine == old(engine)
        decreases buffer.Length - size, err == 0
      {
        ghost var rest, stream := writeFifo.Contents(), buffer[..size];
        var dataLength;
        ghost var k;
        err, dataLength, k := EncodeMessage(size);
        EncodeOutcome(rest, k, rev);
        if k > 0 {
          CounterByte(counter + |groups|);
          U32Sum(counter + |groups|, 1);
          assert buffer[..size + PACKET_SIZE] == stream + buffer[size..size + PACKET_SIZE];
          StreamSnoc(stream, groups, counter, rev, buffer[size..size + PACKET_SIZE], rest[..k]);
          GroupsSnoc(groups, rest[..k], rest[k..]);
          groups := groups + [rest[..k]];
        }
        if err >= 0 {
          size := size + PACKET_SIZE;
        } else {
          size := size + dataLength;
        }
      }
      if size > 0 {
        engine := Started;
        err := urbErr;
      }
      if err != 0 && err != -EBUSY {
        engine := Stopped;
      }
    }

    /** The telegram counter goes into the last byte, the number of messages into the second one. */
    method FinishTelegram(base: nat, count: u8, ghost body: seq<u8>, ghost front: seq<u8>)
      requires base + PACKET_SIZE <= buffer.Length && 2 + |body| < PACKET_SIZE && |front| == base + 2
      requires buffer[..base + 2 + |body|] == front + body
      modifies buffer, this`telegramCount
      ensures telegramCount == U32(old(telegramCount) + 1)
      ensures buffer[..base] == front[..base]
      ensures var t := buffer[base..base + PACKET_SIZE];
              && t[0] == front[base] && t[1] == count && t[2..2 + |body|] == body
              && t[PACKET_SIZE - 1] == U8(old(telegramCount))
    {
      ghost var n := base + 2 + |body|;
      buffer[base + PACKET_SIZE - 1] := U8(telegramCount);
      telegramCount := U32(telegramCount + 1);
      assert buffer[..n] == front + body;
      buffer[base + 1] := count;
      assert buffer[..n] == (front + body)[base + 1 := count] == front[base + 1 := count] + body;
      assert buffer[..base] == buffer[..n][..base] == front[..base];
      var t := buffer[base..base + PACKET_SIZE];
      assert t[2..2 + |body|] == buffer[..n][base + 2..] == body;
      assert t[0] == buffer[..n][base];
    }
  }

  lemma StreamStart(bytes: seq<u8>, counter: nat, rev: nat, items: seq<CanMsg>)
    requires bytes == []
    ensures IsStream(bytes, [], counter, rev) && Concat<CanMsg>([]) + items == items
  {
  }

  /** The encoder stops short of the high-water mark only when the queue is exhausted. */
  lemma EncodeOutcome(items: seq<CanMsg>, k: nat, rev: nat)
    requires AllSendable(items) && Greedy(items, k, rev)
    ensures k <= |items| && items[..k] + items[k..] == items
    ensures 2 + |Records(items[..k], rev)| < HIGH_WATER ==> items[k..] == []
    ensures k == 0 ==> 2 + |Records(items[..k], rev)| < HIGH_WATER
  {
  }

  /** As long as the queue is not exhausted a telegram has at least 50 of its 64 bytes in use, and never is a
      byte of a record in the last one. */
  lemma WellFilled(items: seq<CanMsg>, k: nat, rev: nat)
    requires AllSendable(items) && Greedy(items, k, rev)
    ensures k < |items| ==> 50 <= 2 + |Records(items[..k], rev)|
    ensures 2 + |Records(items[..k], rev)| <= 63 && k <= 20
  {
    AtMostTwenty(items, k, rev);
  }

  lemma AtMostTwenty(items: seq<CanMsg>, k: nat, rev: nat)
    requires AllSendable(items) && Greedy(items, k, rev)
    ensures k <= |items| && k <= 20
    ensures 3 * k <= |Records(items[..k], rev)| <= PACKET_SIZE - 3 && (k == 0 ==> Records(items[..k], rev) == [])
  {
    GreedyFits(items, k, rev);
  }

  lemma RecordsNil(rev: nat)
    ensures Records([], rev) == []
  {
  }

  lemma RecordsSnoc(items: seq<CanMsg>, k: nat, rev: nat, front: seq<u8>)
    requires AllSendable(items) && k < |items|
    ensures front + Records(items[..k], rev) + Record(items[k], rev) == front + Records(items[..k + 1], rev)
    ensures |Records(items[..k + 1], rev)| == |Records(items[..k], rev)| + |Record(items[k], rev)|
  {
    assert items[..k + 1][..k] == items[..k];
  }

  lemma Snoc<T>(a: seq<T>, b: seq<T>, c: seq<T>, i: nat)
    requires i < |c|
    ensures a + (b + c[..i]) + [c[i]] == a + (b + c[..i + 1])
  {
  }
}
