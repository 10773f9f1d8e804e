/** The ring buffers between the interrupt side and the tasks (pcan_fifo.c). */
module Fifo {
  import opened Common
  import opened Words

  // ---------------------------------------------------------------- the queue a ring stands for

  datatype Queue<T> = Queue(items: seq<T>, total: u32)

  datatype Op<T> = Reset | Put(x: T) | Get | Peek

  /** An operation returns an error code and, for a successful Get or Peek, the item. */
  datatype Reply<T> = Code(err: int) | Item(item: T)

  function Apply<T>(capacity: nat, q: Queue<T>, op: Op<T>): (Queue<T>, Reply<T>) {
    match op
    case Reset => (Queue([], 0), Code(0))
    case Put(x) =>
      if |q.items| < capacity then (Queue(q.items + [x], U32(q.total + 1)), Code(|q.items|))
      else (q, Code(-ENOSPC))
    case Get =>
      if |q.items| > 0 then (q.(items := q.items[1..]), Item(q.items[0])) else (q, Code(-ENODATA))
    case Peek =>
      if |q.items| > 0 then (q, Item(q.items[0])) else (q, Code(-ENODATA))
  }

  /** State after a run of operations, the items it put in and the items it got out. */
  datatype Trace<T> = Trace(q: Queue<T>, accepted: seq<T>, delivered: seq<T>)

  function Extend<T>(capacity: nat, t: Trace<T>, op: Op<T>): Trace<T> {
    var (after, reply) := Apply(capacity, t.q, op);
    Trace(after,
          if op.Put? && reply.err >= 0 then t.accepted + [op.x] else t.accepted,
          if op.Get? && reply.Item? then t.delivered + [reply.item] else t.delivered)
  }

  function Run<T>(capacity: nat, q: Queue<T>, ops: seq<Op<T>>): Trace<T>
    decreases |ops|
  {
    if ops == [] then Trace(q, [], []) else Extend(capacity, Run(capacity, q, ops[..|ops| - 1]), ops[|ops| - 1])
  }

  /** First in, first out over every run: nothing is lost, duplicated or reordered, the capacity is
      respected, and dwTotal counts the accepted items modulo 2^32. */
  lemma {:induction false} RunConserves<T>(capacity: nat, q: Queue<T>, ops: seq<Op<T>>)
    requires |q.items| <= capacity && Reset !in ops
    ensures Conserved(capacity, q, Run(capacity, q, ops))
    decreases |ops|
  {
    if ops != [] {
      var op := ops[|ops| - 1];
      assert op in ops;
      RunConserves(capacity, q, ops[..|ops| - 1]);
      ExtendConserves(capacity, q, Run(capacity, q, ops[..|ops| - 1]), op);
    }
  }

  ghost predicate Conserved<T>(capacity: nat, q: Queue<T>, t: Trace<T>) {
    && t.delivered + t.q.items == q.items + t.accepted
    && |t.q.items| <= capacity
    && t.q.total == U32(q.total + |t.accepted|)
  }

  lemma ExtendConserves<T>(capacity: nat, q: Queue<T>, t: Trace<T>, op: Op<T>)
    requires Conserved(capacity, q, t) && op != Reset
    ensures Conserved(capacity, q, Extend(capacity, t, op))
  {
    hide U32;
    U32Sum(q.total + |t.accepted|, 1);
    if op.Put? {
      assert t.delivered + (t.q.items + [op.x]) == (t.delivered + t.q.items) + [op.x];
      assert q.items + (t.accepted + [op.x]) == (q.items + t.accepted) + [op.x];
    } else if t.q.items != [] {
      assert t.delivered + [t.q.items[0]] + t.q.items[1..] == t.delivered + t.q.items;
    }
  }

  /** A run may be split anywhere. */
  lemma {:induction false} RunAppend<T>(capacity: nat, q: Queue<T>, a: seq<Op<T>>, b: seq<Op<T>>)
    ensures var (t, u) := (Run(capacity, q, a), Run(capacity, Run(capacity, q, a).q, b));
            Run(capacity, q, a + b) == Trace(u.q, t.accepted + u.accepted, t.delivered + u.delivered)
    decreases |b|
  {
    hide Apply;
    if b == [] {
      assert a + b == a;
    } else {
      RunAppend(capacity, q, a, b[..|b| - 1]);
      assert (a + b)[..|a + b| - 1] == a + b[..|b| - 1];
    }
  }

  /** A reset empties the queue and its counter: what is stored, delivered and counted afterwards comes from
      the operations behind it alone. */
  lemma ResetStartsOver<T>(capacity: nat, q: Queue<T>, ops: seq<Op<T>>, i: nat)
    requires |q.items| <= capacity && i < |ops| && ops[i] == Reset && Reset !in ops[i + 1..]
    ensures var (before, after, whole) :=
              (Run(capacity, q, ops[..i]), Run(capacity, Queue([], 0), ops[i + 1..]), Run(capacity, q, ops));
            && whole.q == after.q
            && whole.accepted == before.accepted + after.accepted && whole.delivered == before.delivered + after.delivered
            && after.delivered + whole.q.items == after.accepted && |whole.q.items| <= capacity
            && whole.q.total == U32(|after.accepted|)
  {
    var t := Run(capacity, q, ops[..i]);
    var tail := [Op<T>.Reset] + ops[i + 1..];
    assert ops == ops[..i] + tail;
    RunAppend(capacity, q, ops[..i], tail);
    RunAppend(capacity, t.q, [Op<T>.Reset], ops[i + 1..]);
    ResetAlone(capacity, t.q);
    RunConserves(capacity, Queue([], 0), ops[i + 1..]);
    var after := Run(capacity, Queue([], 0), ops[i + 1..]);
    assert [] + after.accepted == after.accepted && [] + after.delivered == after.delivered;
    assert after.delivered + after.q.items == [] + after.accepted;
  }

  lemma ResetAlone<T>(capacity: nat, q: Queue<T>)
    ensures Run(capacity, q, [Op<T>.Reset]) == Trace(Queue([], 0), [], [])
  {
    assert [Op<T>.Reset][..0] == [];
    assert Run(capacity, q, []) == Trace(q, [], []);
  }

  /** What each operation answers: a put the number of items before it, or -ENOSPC exactly when the queue is
      full; a get the oldest item, or -ENODATA exactly when there is none; a peek what a get would, without
      taking it. */
  lemma Replies<T>(capacity: nat, q: Queue<T>, x: T)
    ensures var (q', reply) := Apply(capacity, q, Put(x));
            if |q.items| >= capacity then reply == Code(-28) && q' == q else reply == Code(|q.items|) && |q'.items| == |q.items| + 1
    ensures var (q', reply) := Apply(capacity, q, Get);
            if q.items == [] then reply == Code(-61) && q' == q else reply == Item(q.items[0]) && |q'.items| == |q.items| - 1
    ensures Apply(capacity, q, Peek) == (q, Apply(capacity, q, Get).1)
    ensures Apply(capacity, q, Reset) == (Queue([], 0), Code(0))
  {
  }

  // ---------------------------------------------------------------- walking back

  /** What a callback does to the item it visits: the item it leaves there and its return code. */
  type Callback<!T> = T -> (T, int)

  /** Visit from newest to oldest until the callback returns a non-zero code. */
  function WalkBack<T>(s: seq<T>, pf: Callback<T>): (r: (seq<T>, int))
    ensures |r.0| == |s|
    decreases |s|
  {
    if s == [] then (s, 0)
    else
      var (x, err) := pf(s[|s| - 1]);
      if err != 0 then (s[..|s| - 1] + [x], err)
      else var (front, err') := WalkBack(s[..|s| - 1], pf); (front + [x], err')
  }

  /** Exactly the k newest items are visited: each is replaced by what the callback leaves, every code
      but the last one is zero, and fewer than all are visited only after a non-zero code. */
  lemma {:induction false} WalkBackVisits<T>(s: seq<T>, pf: Callback<T>) returns (k: nat)
    ensures k <= |s|
    ensures var (s', err) := WalkBack(s, pf);
            && s'[..|s| - k] == s[..|s| - k]
            && (forall i :: |s| - k <= i < |s| ==> s'[i] == pf(s[i]).0)
            && (forall i :: |s| - k < i < |s| ==> pf(s[i]).1 == 0)
            && (k > 0 ==> pf(s[|s| - k]).1 == err)
            && (k < |s| ==> k > 0 && err != 0)
    decreases |s|
  {
    if s == [] {
      k := 0;
    } else if pf(s[|s| - 1]).1 != 0 {
      k := 1;
    } else {
      var front := s[..|s| - 1];
      var j := WalkBackVisits(front, pf);
      var (front', err) := WalkBack(front, pf);
      var (s', err') := WalkBack(s, pf);
      assert s' == front' + [pf(s[|s| - 1]).0];
      k := j + 1;
      assert s'[..|s| - k] == front'[..|front| - j] == front[..|front| - j] == s[..|s| - k];
    }
  }

  // ---------------------------------------------------------------- the ring

  /** wStepSize as computed by pcan_fifo_init. */
  function StepSize(bufferBegin: nat, bufferEnd: nat, nCount: nat): nat
    requires nCount > 1 && bufferBegin <= bufferEnd
  {
    (bufferEnd - bufferBegin) / (nCount - 1)
  }

  /** FIFO_MANAGER. The byte addresses r and w move by wStepSize between the address of the first item
      and the address of the last one; `slots` is the memory they point into. */
  class FifoManager<T> {
    const bufferBegin: nat
    const bufferEnd: nat
    const wStepSize: nat
    const nCount: nat
    const slots: array<T>
    var nStored: nat
    var dwTotal: u32
    var r: nat
    var w: nat

    ghost predicate IsSlot(p: nat, i: nat) {
      i < nCount && p == bufferBegin + i * wStepSize
    }

    function SlotOf(p: nat): nat
      requires wStepSize > 0 && p >= bufferBegin
    {
      (p - bufferBegin) / wStepSize
    }

    /** Two addresses of one ring have the same order as their slots. */
    lemma SlotAddress(p: nat, i: nat)
      requires wStepSize > 0 && IsSlot(p, i) && bufferEnd == bufferBegin + (nCount - 1) * wStepSize
      ensures p >= bufferBegin && SlotOf(p) == i
      ensures p < bufferEnd <==> i < nCount - 1
      ensures p == bufferBegin <==> i == 0
      ensures p < bufferEnd ==> IsSlot(p + wStepSize, i + 1)
      ensures i > 0 ==> p - wStepSize >= bufferBegin && IsSlot(p - wStepSize, i - 1)
    {
      assert (i + 1) * wStepSize == i * wStepSize + wStepSize;
      assert (i - 1) * wStepSize == i * wStepSize - wStepSize;
      QuotientAtMost(i * wStepSize, wStepSize, i);
      QuotientAtLeast(i * wStepSize, wStepSize, i);
      if i < nCount - 1 {
        MulMonotone(i + 1, nCount - 1, wStepSize);
      }
      if i > 0 {
        MulMonotone(1, i, wStepSize);
      }
    }

    /** The address of the item before the one at p. */
    function StepBack(p: nat): nat
      requires p == bufferBegin || p >= wStepSize
    {
      if p == bufferBegin then bufferEnd else p - wStepSize
    }

    lemma StepBackSlot(p: nat, i: nat)
      requires wStepSize > 0 && bufferEnd == bufferBegin + (nCount - 1) * wStepSize
      requires i < 2 * nCount - 1 && IsSlot(p, Wrap(i + 1))
      ensures p == bufferBegin || p >= wStepSize
      ensures var p' := StepBack(p); p' >= bufferBegin && SlotOf(p') == Wrap(i) && IsSlot(p', Wrap(i))
    {
      SlotAddress(p, Wrap(i + 1));
      SlotAddress(StepBack(p), Wrap(i));
    }

    ghost predicate Valid()
      reads this
    {
      && nCount > 1 && wStepSize > 0 && slots.Length == nCount
      && bufferEnd == bufferBegin + (nCount - 1) * wStepSize
      && nStored <= nCount
      && r >= bufferBegin && IsSlot(r, SlotOf(r))
      && w >= bufferBegin && IsSlot(w, SlotOf(w))
      && SlotOf(w) == Wrap(SlotOf(r) + nStored)
    }

    function Wrap(i: nat): nat { if i < nCount then i else i - nCount }

    /** The stored items, oldest first. */
    ghost function Contents(): (s: seq<T>)
      requires Valid()
      reads this, slots
      ensures |s| == nStored
    {
      Unroll(slots[..], SlotOf(r), nStored)
    }

    ghost function Abstract(): Queue<T>
      requires Valid()
      reads this, slots
    {
      Queue(Contents(), dwTotal)
    }

    /** pcan_fifo_init for a ring of nCount items starting at bufferBegin, the last one at bufferEnd. */
    constructor (slots: array<T>, bufferBegin: nat, bufferEnd: nat, nCount: nat)
      requires nCount > 1 && slots.Length == nCount && bufferBegin < bufferEnd
      requires (bufferEnd - bufferBegin) % (nCount - 1) == 0
      ensures Valid() && Abstract() == Queue([], 0) && this.nCount == nCount && this.slots == slots
    {
      this.slots := slots;
      this.nCount := nCount;
      this.bufferBegin := bufferBegin;
      this.bufferEnd := bufferEnd;
      this.wStepSize := StepSize(bufferBegin, bufferEnd, nCount);
      this.nStored := 0;
      this.dwTotal := 0;
      this.r := bufferBegin;
      this.w := bufferBegin;
      new;
      assert wStepSize * (nCount - 1) == bufferEnd - bufferBegin;
      assert wStepSize > 0;
      SlotAddress(bufferBegin, 0);
    }

    method Reset() returns (err: int)
      requires Valid()
      modifies this
      ensures Valid() && (Abstract(), Code(err)) == Apply(nCount, old(Abstract()), Op.Reset)
    {
      dwTotal := 0;
      nStored := 0;
      r := bufferBegin;
      w := bufferBegin;
      SlotAddress(bufferBegin, 0);
      return 0;
    }

    method Put(x: T) returns (err: int)
      requires Valid()
      modifies this, slots
      ensures Valid() && (Abstract(), Code(err)) == Apply(nCount, old(Abstract()), Op.Put(x))
    {
      hide SlotOf, Unroll;
      if nStored < nCount {
        ghost var (first, next, before) := (SlotOf(r), SlotOf(w), slots[..]);
        SlotAddress(w, SlotOf(w));
        slots[SlotOf(w)] := x;
        err := nStored;
        nStored := nStored + 1;
        dwTotal := U32(dwTotal + 1);
        if w < bufferEnd {
          w := w + wStepSize;
          SlotAddress(w, next + 1);
        } else {
          w := bufferBegin;
          SlotAddress(w, 0);
        }
        UnrollPut(before, first, nStored - 1, x);
      } else {
        err := -ENOSPC;
      }
    }

    method Get() returns (reply: Reply<T>)
      requires Valid()
      modifies this
      ensures Valid() && (Abstract(), reply) == Apply(nCount, old(Abstract()), Op.Get)
    {
      hide SlotOf, Unroll;
      if nStored > 0 {
        ghost var first := SlotOf(r);
        SlotAddress(r, SlotOf(r));
        reply := Item(slots[SlotOf(r)]);
        nStored := nStored - 1;
        if r < bufferEnd {
          r := r + wStepSize;
          SlotAddress(r, first + 1);
        } else {
          r := bufferBegin;
          SlotAddress(r, 0);
        }
        UnrollGet(slots[..], first, nStored + 1);
      } else {
        reply := Code(-ENODATA);
      }
    }

    method Peek() returns (reply: Reply<T>)
      requires Valid()
      ensures (Abstract(), reply) == Apply(nCount, Abstract(), Op.Peek)
    {
      if nStored > 0 {
        SlotAddress(r, SlotOf(r));
        reply := Item(slots[SlotOf(r)]);
      } else {
        reply := Code(-ENODATA);
      }
    }

    /** Hands the item at address p, the k-th stored one, to the callback. */
    method CallBack(p: nat, ghost k: nat, pf: Callback<T>) returns (code: int)
      requires Valid() && k < nStored
      requires p >= bufferBegin && IsSlot(p, SlotOf(p)) && SlotOf(p) == Wrap(SlotOf(r) + k)
      modifies slots
      ensures Valid() && |Contents()| == |old(Contents())|
      ensures (Contents(), code) == (old(Contents())[k := pf(old(Contents())[k]).0], pf(old(Contents())[k]).1)
    {
      hide SlotOf, Unroll;
      ghost var mem := slots[..];
      assert slots[SlotOf(p)] == Contents()[k];
      var (x, err) := pf(slots[SlotOf(p)]);
      slots[SlotOf(p)] := x;
      assert slots[..] == mem[SlotOf(p) := x];
      UnrollSet(mem, SlotOf(r), nStored, k, x);
      code := err;
    }

    /** Visits the stored items from the newest to the oldest, across the wrap. */
    method ForeachBack(pf: Callback<T>) returns (err: int)
      requires Valid()
      modifies slots
      ensures Valid() && (Contents(), err) == WalkBack(old(Contents()), pf)
    {
      hide SlotOf, Unroll, WalkBack, WalkedTo, StepBack, Contents, Wrap;
      err := 0;
      var p := w;
      var i := 0;
      ghost var before, tail := Contents(), [];
      ghost var whole := WalkBack(before, pf);
      WalkStart(before, pf);
      while i < nStored
        invariant 0 <= i <= nStored && err == 0
        invariant p >= bufferBegin && IsSlot(p, Wrap(SlotOf(r) + nStored - i))
        invariant Contents() == before[..nStored - i] + tail
        invariant WalkedTo(whole, before, pf, nStored - i, tail)
      {
        ghost var m := nStored - i;
        StepBackSlot(p, SlotOf(r) + m - 1);
        p := StepBack(p);
        assert Contents()[m - 1] == before[m - 1];
        var code := CallBack(p, m - 1, pf);
        TailGrows(before, m, tail, pf(before[m - 1]).0);
        WalkStep(whole, before, pf, m, tail);
        tail := [pf(before[m - 1]).0] + tail;
        i := i + 1;
        if code != 0 {
          return code;
        }
      }
      WalkEnd(whole, before, pf, tail);
    }
  }

  /** The m oldest items remain to be visited; the others have become `tail`. */
  ghost predicate WalkedTo<T>(whole: (seq<T>, int), s: seq<T>, pf: Callback<T>, m: nat, tail: seq<T>)
    requires m <= |s|
  {
    var (front, err) := WalkBack(s[..m], pf);
    whole == (front + tail, err)
  }

  lemma WalkStart<T>(s: seq<T>, pf: Callback<T>)
    ensures WalkedTo(WalkBack(s, pf), s, pf, |s|, []) && s[..|s|] + [] == s
  {
    assert s[..|s|] == s && WalkBack(s, pf).0 + [] == WalkBack(s, pf).0;
  }

  lemma WalkStep<T>(whole: (seq<T>, int), s: seq<T>, pf: Callback<T>, m: nat, tail: seq<T>)
    requires 0 < m <= |s| && WalkedTo(whole, s, pf, m, tail)
    ensures var (x, err) := pf(s[m - 1]);
            if err != 0 then whole == (s[..m - 1] + ([x] + tail), err)
            else WalkedTo(whole, s, pf, m - 1, [x] + tail)
  {
    assert s[..m][..m - 1] == s[..m - 1];
    var x := pf(s[m - 1]).0;
    var front := if pf(s[m - 1]).1 != 0 then s[..m - 1] else WalkBack(s[..m - 1], pf).0;
    assert front + [x] + tail == front + ([x] + tail);
  }

  lemma TailGrows<T>(s: seq<T>, m: nat, tail: seq<T>, x: T)
    requires 0 < m <= |s|
    ensures (s[..m] + tail)[m - 1 := x] == s[..m - 1] + ([x] + tail)
  {
  }

  lemma WalkEnd<T>(whole: (seq<T>, int), s: seq<T>, pf: Callback<T>, tail: seq<T>)
    requires WalkedTo(whole, s, pf, 0, tail)
    ensures whole == (tail, 0) && s[..0] + tail == tail
  {
    assert s[..0] == [] && [] + tail == tail;
  }

  // ---------------------------------------------------------------- unrolling a ring

  /** n consecutive slots of a ring, starting at `first` and wrapping at the end of the memory. */
  ghost function Unroll<T>(mem: seq<T>, first: nat, n: nat): (s: seq<T>)
    requires first < |mem| && n <= |mem|
    ensures |s| == n
    ensures forall i :: 0 <= i < n ==>
              s[i] == if first + i < |mem| then mem[first + i] else mem[first + i - |mem|]
  {
    if first + n <= |mem| then mem[first..first + n] else mem[first..] + mem[..first + n - |mem|]
  }

  lemma UnrollPut<T>(mem: seq<T>, first: nat, n: nat, x: T)
    requires first < |mem| && n < |mem|
    ensures var at := if first + n < |mem| then first + n else first + n - |mem|;
            Unroll(mem[at := x], first, n + 1) == Unroll(mem, first, n) + [x]
  {
  }

  lemma UnrollGet<T>(mem: seq<T>, first: nat, n: nat)
    requires first < |mem| && 0 < n <= |mem|
    ensures var next := if first + 1 < |mem| then first + 1 else 0;
            Unroll(mem, next, n - 1) == Unroll(mem, first, n)[1..]
  {
  }

  lemma UnrollSet<T>(mem: seq<T>, first: nat, n: nat, k: nat, x: T)
    requires first < |mem| && k < n <= |mem|
    ensures var at := if first + k < |mem| then first + k else first + k - |mem|;
            Unroll(mem[at := x], first, n) == Unroll(mem, first, n)[k := x]
  {
  }
}
