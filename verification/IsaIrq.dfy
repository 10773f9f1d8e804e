/** Shared interrupts of ISA devices: grouping by interrupt level and polling of one group (the variant of
    pcan_isa.c built with PCAN_HANDLE_IRQ_SHARING). */
module IsaIrq {
  import opened Words

  const ISA_ISR_LOOP_MAX := 100

  /** A device with the anchor it owns; my_anchor names the device whose anchor it belongs to. */
  class Device {
    const isIsa: bool
    const wIrq: nat
    var myAnchor: Device?
    var sameIrqItems: seq<Device>
    var sameIrqCount: nat

    /** init_same_irq_list. */
    constructor (isIsa: bool, irq: nat)
      ensures this.isIsa == isIsa && wIrq == irq && Unlinked()
    {
      this.isIsa, wIrq := isIsa, irq;
      myAnchor, sameIrqItems, sameIrqCount := null, [], 0;
    }

    predicate Unlinked()
      reads this
    {
      myAnchor == null && sameIrqItems == [] && sameIrqCount == 0
    }

    /** Joins the list of an anchor at its end. */
    method Join(anchor: Device)
      modifies this`myAnchor, anchor`sameIrqItems, anchor`sameIrqCount
      ensures myAnchor == anchor
      ensures anchor.sameIrqItems == old(anchor.sameIrqItems) + [this]
      ensures anchor.sameIrqCount == old(anchor.sameIrqCount) + 1
    {
      myAnchor := anchor;
      anchor.sameIrqCount := anchor.sameIrqCount + 1;
      anchor.sameIrqItems := anchor.sameIrqItems + [this];
    }
  }

  // ---------------------------------------------------------------- grouping

  predicate Member(d: Device, irq: nat) { d.isIsa && d.wIrq == irq }

  /** The ISA devices on an interrupt level, in list order. */
  function Class(devs: seq<Device>, irq: nat): (c: seq<Device>)
    ensures (forall d :: d in c ==> d in devs && Member(d, irq)) && (forall d :: d in devs && Member(d, irq) ==> d in c)
    decreases |devs|
  {
    if devs == [] then []
    else
      var last := devs[|devs| - 1];
      var c := Class(devs[..|devs| - 1], irq);
      if Member(last, irq) then c + [last] else c
  }

  /** The first of them. */
  function Lead(devs: seq<Device>, irq: nat): Device? {
    var c := Class(devs, irq);
    if c == [] then null else c[0]
  }

  lemma ClassSnoc(devs: seq<Device>, d: Device, irq: nat)
    ensures Class(devs + [d], irq) == if Member(d, irq) then Class(devs, irq) + [d] else Class(devs, irq)
    ensures Lead(devs + [d], irq) == if Lead(devs, irq) == null && Member(d, irq) then d else Lead(devs, irq)
  {
    assert (devs + [d])[..|devs|] == devs;
  }

  predicate Distinct(devs: seq<Device>) {
    forall i, j :: 0 <= i < j < |devs| ==> devs[i] != devs[j]
  }

  /** The fields of every device once the levels of the devices in `seen` have been dealt with. */
  ghost predicate Grouped(devs: seq<Device>, seen: seq<Device>)
    reads devs
  {
    forall d :: d in devs ==> d.myAnchor == AnchorOf(d, seen) && d.sameIrqItems == ItemsOf(d, devs, seen) && d.sameIrqCount == |d.sameIrqItems|
  }

  function AnchorOf(d: Device, seen: seq<Device>): Device? { if d.isIsa then Lead(seen, d.wIrq) else null }

  function ItemsOf(d: Device, devs: seq<Device>, seen: seq<Device>): seq<Device> {
    if AnchorOf(d, seen) == d then Class(devs, d.wIrq) else []
  }

  /** The same in the middle of the inner loop: od leads its level, whose devices in `upTo` have joined. */
  ghost predicate Joining(devs: seq<Device>, seen: seq<Device>, od: Device, upTo: seq<Device>)
    reads devs
  {
    forall d :: d in devs ==> JoiningAt(d, devs, seen, od, upTo)
  }

  ghost predicate JoiningAt(d: Device, devs: seq<Device>, seen: seq<Device>, od: Device, upTo: seq<Device>)
    reads d
  {
    && d.sameIrqCount == |d.sameIrqItems|
    && if Member(d, od.wIrq) then
         && d.myAnchor == (if d in upTo then od else null)
         && d.sameIrqItems == (if d == od then Class(upTo, od.wIrq) else [])
       else d.myAnchor == AnchorOf(d, seen) && d.sameIrqItems == ItemsOf(d, devs, seen)
  }

  /** If od is the first of its level, nobody on that level has been touched. */
  lemma LevelUntouched(devs: seq<Device>, o: nat)
    requires o < |devs| && Grouped(devs, devs[..o]) && devs[o].isIsa && devs[o].myAnchor == null
    ensures Lead(devs[..o], devs[o].wIrq) == null
    ensures forall d :: d in devs && Member(d, devs[o].wIrq) ==> d !in devs[..o] && d.Unlinked()
  {
    assert AnchorOf(devs[o], devs[..o]) == null;
    assert Class(devs[..o], devs[o].wIrq) == [];
  }

  lemma AllJoined(devs: seq<Device>, seen: seq<Device>, od: Device)
    requires Joining(devs, seen, od, devs) && od.isIsa && Lead(seen, od.wIrq) == null
    ensures Grouped(devs, seen + [od])
  {
    hide Class;
    forall d | d in devs
      ensures d.myAnchor == AnchorOf(d, seen + [od]) && d.sameIrqItems == ItemsOf(d, devs, seen + [od])
    {
      ClassSnoc(seen, od, d.wIrq);
    }
  }

  /** The first device of its level joins its own anchor. */
  method LeadLevel(devs: seq<Device>, o: nat)
    requires o < |devs| && Distinct(devs) && Grouped(devs, devs[..o])
    requires devs[o].isIsa && devs[o].myAnchor == null
    modifies devs
    ensures Joining(devs, devs[..o], devs[o], devs[..o + 1]) && Lead(devs[..o], devs[o].wIrq) == null
  {
    hide Class, Lead, AnchorOf, ItemsOf;
    var od := devs[o];
    LevelUntouched(devs, o);
    od.Join(od);
    assert devs[..o + 1] == devs[..o] + [od];
    NoneYet(devs[..o], od);
    forall d | d in devs
      ensures JoiningAt(d, devs, devs[..o], od, devs[..o + 1])
    {
      assert d == od || (d.myAnchor == old(d.myAnchor) && d.sameIrqItems == old(d.sameIrqItems));
    }
  }

  /** One round of the inner loop. */
  method JoinOne(devs: seq<Device>, ghost seen: seq<Device>, od: Device, i: nat)
    requires i < |devs| && Distinct(devs) && od in devs[..i] && od.isIsa
    requires Joining(devs, seen, od, devs[..i])
    modifies devs
    ensures Joining(devs, seen, od, devs[..i + 1])
  {
    hide Class, Lead, AnchorOf, ItemsOf;
    var id := devs[i];
    assert devs[..i + 1] == devs[..i] + [id] && id !in devs[..i] && od in devs && id in devs;
    ClassSnoc(devs[..i], id, od.wIrq);
    assert JoiningAt(id, devs, seen, od, devs[..i]) && JoiningAt(od, devs, seen, od, devs[..i]);
    if id.isIsa && id.myAnchor == null && id.wIrq == od.wIrq {
      id.Join(od);
    }
    forall d | d in devs
      ensures JoiningAt(d, devs, seen, od, devs[..i + 1])
    {
      assert old(JoiningAt(d, devs, seen, od, devs[..i]));
      assert d in devs[..i + 1] <==> d in devs[..i] || d == id;
    }
  }

  /** Joins every device on the level of devs[o] to the anchor of devs[o]. */
  method JoinSameLevel(devs: seq<Device>, o: nat)
    requires o < |devs| && Distinct(devs) && Grouped(devs, devs[..o])
    requires devs[o].isIsa && devs[o].myAnchor == null
    modifies devs
    ensures Grouped(devs, devs[..o + 1])
  {
    hide Joining, Grouped, Lead;
    LeadLevel(devs, o);
    var i := o + 1;
    while i < |devs|
      invariant o < i <= |devs|
      invariant Joining(devs, devs[..o], devs[o], devs[..i])
    {
      JoinOne(devs, devs[..o], devs[o], i);
      i := i + 1;
    }
    assert devs[..i] == devs && devs[..o + 1] == devs[..o] + [devs[o]];
    AllJoined(devs, devs[..o], devs[o]);
  }

  lemma NoneYet(seen: seq<Device>, od: Device)
    requires od.isIsa && Lead(seen, od.wIrq) == null
    ensures Class(seen + [od], od.wIrq) == [od]
  {
    ClassSnoc(seen, od, od.wIrq);
  }

  /** pcan_create_isa_shared_irq_lists. */
  method CreateIsaSharedIrqLists(devs: seq<Device>)
    requires Distinct(devs) && forall d :: d in devs ==> d.Unlinked()
    modifies devs
    ensures Grouped(devs, devs)
  {
    hide Class, Lead, AnchorOf, ItemsOf, Grouped;
    NothingGrouped(devs);
    var o := 0;
    assert devs[..o] == [];
    while o < |devs|
      invariant 0 <= o <= |devs|
      invariant Grouped(devs, devs[..o])
    {
      if devs[o].isIsa && devs[o].myAnchor == null {
        JoinSameLevel(devs, o);
      } else {
        assert devs[..o + 1] == devs[..o] + [devs[o]];
        StepOver(devs, devs[..o], devs[o]);
      }
      o := o + 1;
    }
    assert devs[..o] == devs;
  }

  lemma NothingGrouped(devs: seq<Device>)
    requires forall d :: d in devs ==> d.Unlinked()
    ensures Grouped(devs, [])
  {
  }

  /** A device of another kind, or one whose level has its group already, changes nothing. */
  lemma StepOver(devs: seq<Device>, seen: seq<Device>, od: Device)
    requires Grouped(devs, seen) && od in devs && (!od.isIsa || od.myAnchor != null)
    ensures Grouped(devs, seen + [od])
  {
    hide Class;
    assert od.isIsa ==> Lead(seen, od.wIrq) != null;
    forall d | d in devs
      ensures AnchorOf(d, seen + [od]) == AnchorOf(d, seen)
    {
      ClassSnoc(seen, od, d.wIrq);
    }
  }

  lemma {:induction false} ClassDistinct(devs: seq<Device>, irq: nat)
    requires Distinct(devs)
    ensures Distinct(Class(devs, irq))
    decreases |devs|
  {
    if devs != [] {
      ClassDistinct(devs[..|devs| - 1], irq);
    }
  }

  /** What the grouping means: two ISA devices share an anchor exactly when they share the level; the anchor
      belongs to one of them, and its list holds exactly the devices of the level. */
  lemma GroupsAreLevels(devs: seq<Device>, a: Device, b: Device)
    requires Distinct(devs) && Grouped(devs, devs) && a in devs && b in devs && a.isIsa && b.isIsa
    ensures a.myAnchor == b.myAnchor <==> a.wIrq == b.wIrq
    ensures a.myAnchor != null && a.myAnchor in devs && Member(a.myAnchor, a.wIrq)
    ensures var items := a.myAnchor.sameIrqItems;
            && items == Class(devs, a.wIrq) && a.myAnchor.sameIrqCount == |items| && Distinct(items)
            && a in items && (b in items <==> a.wIrq == b.wIrq)
  {
    var c := Class(devs, a.wIrq);
    ClassDistinct(devs, a.wIrq);
    assert a in c && b in Class(devs, b.wIrq);
    assert c[0] in c;
    assert Class(devs, b.wIrq)[0] in Class(devs, b.wIrq);
  }

  // ---------------------------------------------------------------- polling

  /** What the controller handler reports the k-th time a device of the group is polled: had it work? */
  type Work = nat -> bool

  /** The last n polls found no work. */
  predicate Quiet(work: Work, polls: nat, n: nat) {
    n <= polls && forall k: nat :: polls - n <= k < polls ==> !work(k)
  }

  /** The circle of items has one place for the list head, which is stepped over. */
  lemma NextInCircle(k: nat, n: nat)
    requires n > 0
    ensures (k + 1) % n == if k % n == n - 1 then 0 else k % n + 1
  {
    var q, r := k / n, k % n;
    assert k == q * n + r;
    if r == n - 1 {
      assert (q + 1) * n == q * n + n;
      Digits(q + 1, 0, n);
    } else {
      Digits(q, r + 1, n);
    }
  }

  /** Polled one after the other, starting again at the first. */
  predicate InTurn(polled: seq<Device>, items: seq<Device>) {
    forall k :: 0 <= k < |polled| ==> items != [] && polled[k] == items[k % |items|]
  }

  lemma InTurnSnoc(polled: seq<Device>, items: seq<Device>)
    requires InTurn(polled, items) && items != []
    ensures InTurn(polled + [items[|polled| % |items|]], items)
  {
  }

  /** pcan_isa_irqhandler: polls the devices of an anchor in turn, round and round, until as many polls in a
      row as the group has devices found no work. It stops at the first such point, or else after 101 polls. */
  method IrqHandler(anchor: Device, work: Work) returns (ret: int, polled: seq<Device>)
    requires anchor.sameIrqCount == |anchor.sameIrqItems|
    ensures var n := anchor.sameIrqCount;
            && |polled| <= 101
            && InTurn(polled, anchor.sameIrqItems)
            && (|polled| < 101 ==> Quiet(work, |polled|, n))
            && (forall k: nat :: k < |polled| ==> !Quiet(work, k, n))
    ensures ret == if exists k: nat :: k < |polled| && work(k) then 1 else 0
  {
    var n := anchor.sameIrqCount;
    ret, polled := 0, [];
    var loopCount, stopCount := 0, ISA_ISR_LOOP_MAX;
    var ptr := 0;
    while loopCount < n
      invariant 0 <= ptr <= n && 0 <= loopCount <= n && loopCount <= |polled| && |polled| == ISA_ISR_LOOP_MAX - stopCount
      invariant stopCount >= 0
      invariant n > 0 ==> |polled| % n == if ptr == n then 0 else ptr
      invariant InTurn(polled, anchor.sameIrqItems)
      invariant forall k: nat :: |polled| - loopCount <= k < |polled| ==> !work(k)
      invariant loopCount < |polled| ==> work(|polled| - loopCount - 1)
      invariant forall k: nat :: k < |polled| ==> !Quiet(work, k, n)
      invariant ret == if exists k: nat :: k < |polled| && work(k) then 1 else 0
      decreases stopCount, n - loopCount, if ptr == n then 1 else 0
    {
      if ptr != n {
        var dev := anchor.sameIrqItems[ptr];
        var k := |polled|;
        assert !Quiet(work, k, n);
        NextInCircle(k, n);
        InTurnSnoc(polled, anchor.sameIrqItems);
        polled := polled + [dev];
        if !work(k) {
          loopCount := loopCount + 1;
        } else {
          ret := 1;
          loopCount := 0;
        }
        if stopCount == 0 {
          break;
        }
        stopCount := stopCount - 1;
        ptr := ptr + 1;
      } else {
        ptr := 0;
      }
    }
  }

  /** n polls in a row visit every one of n devices exactly once. */
  lemma CircleCovers(polls: nat, n: nat, d: nat)
    requires d < n <= polls
    ensures exists k: nat :: polls - n <= k < polls && k % n == d
    ensures forall k: nat, l: nat :: polls - n <= k < l < polls ==> k % n != l % n
  {
    var base := polls - n;
    var q, r := base / n, base % n;
    assert base == q * n + r;
    assert (q + 1) * n == q * n + n;
    if d < r {
      Digits(q + 1, d, n);
      assert ((q + 1) * n + d) % n == d;
    } else {
      Digits(q, d, n);
      assert (q * n + d) % n == d;
    }
    forall k: nat, l: nat | base <= k < l < polls
      ensures k % n != l % n
    {
      DifferentPlaces(k, l, n);
    }
  }

  lemma DifferentPlaces(k: nat, l: nat, n: nat)
    requires 0 < n && k < l < k + n
    ensures k % n != l % n
  {
    if k % n == l % n {
      assert l - k == (l / n - k / n) * n;
      if l / n - k / n >= 1 {
        MulMonotone(1, l / n - k / n, n);
      } else {
        MulMonotone(l / n - k / n, 0, n);
      }
    }
  }

  /** When the handler leaves before its limit, every device of the group has been polled without work since
      the last poll that found any. */
  lemma LeftIdle(work: Work, polls: nat, n: nat, d: nat)
    requires Quiet(work, polls, n) && d < n
    ensures exists k: nat :: k < polls && k % n == d && forall l: nat :: k <= l < polls ==> !work(l)
  {
    CircleCovers(polls, n, d);
    var k: nat :| polls - n <= k < polls && k % n == d;
    assert forall l: nat :: k <= l < polls ==> !work(l);
  }
}
