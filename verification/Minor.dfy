/** Allocation of minor numbers (pcan_find_free_minor). */
module Minor {
  import opened Common
  import opened Words

  class Device {
    var nMinor: int

    constructor (minor: int)
      ensures nMinor == minor
    {
      nMinor := minor;
    }
  }

  /** The minors in use, leaving one device out of account. */
  function Used(devs: seq<Device>, pdev: Device?): set<int>
    reads devs
  {
    set i: nat | i < |devs| && devs[i] != pdev :: devs[i].nMinor
  }

  /** All minors of an interval. */
  predicate AllUsed(used: set<int>, from: int, until: int) {
    forall m :: from <= m < until ==> m in used
  }

  function Interval(from: int, n: nat): (s: set<int>)
    ensures |s| == n && forall m :: m in s <==> from <= m < from + n
  {
    if n == 0 then {} else Interval(from, n - 1) + {from + n - 1}
  }

  lemma {:induction false} SubsetCount<T>(a: set<T>, b: set<T>)
    requires a <= b
    ensures |a| <= |b|
    decreases |a|
  {
    if a != {} {
      var x :| x in a;
      SubsetCount(a - {x}, b - {x});
    }
  }

  /** More minors than devices cannot all be taken. */
  lemma PigeonHole(used: set<int>, from: int, n: nat)
    requires AllUsed(used, from, from + n)
    ensures n <= |used|
  {
    SubsetCount(Interval(from, n), used);
  }

  /** No more minors are in use than there are devices. */
  lemma {:induction false} UsedCount(devs: seq<Device>, pdev: Device?)
    ensures |Used(devs, pdev)| <= |devs|
    decreases |devs|
  {
    if devs != [] {
      var front, last := devs[..|devs| - 1], devs[|devs| - 1];
      UsedCount(front, pdev);
      var all := Used(front, pdev) + {last.nMinor};
      forall m | m in Used(devs, pdev)
        ensures m in all
      {
        var i: nat :| i < |devs| && devs[i] != pdev && devs[i].nMinor == m;
        if i < |front| {
          assert front[i] == devs[i];
        }
      }
      SubsetCount(Used(devs, pdev), all);
      assert |all| <= |Used(front, pdev)| + 1;
    } else {
      assert Used(devs, pdev) == {};
    }
  }

  /** Searches upwards from `from`, or from zero if that is negative. The outcome is the least free minor, and
      it lies at most as many places up as there are devices. The range has an end only if `until` lies above
      `from`; the search fails exactly when it has one and every minor up to there is taken. Minor zero is
      tried even if the range ends below it. */
  method FindFreeMinor(devs: seq<Device>, pdev: Device?, from: int, until: int) returns (minor: int)
    ensures var used, start, end := Used(devs, pdev), Max(from, 0), Max(until, Max(from, 0));
            if until > from && AllUsed(used, start, end + 1) then minor == -ENODEV
            else && start <= minor <= start + |devs| && minor !in used && AllUsed(used, start, minor)
                 && (until > from ==> minor <= end)
  {
    ghost var used := Used(devs, pdev);
    ghost var start := Max(from, 0);
    UsedCount(devs, pdev);
    minor := if from >= 0 then from else 0;
    while true
      invariant start <= minor && AllUsed(used, start, minor)
      invariant until > from ==> minor <= Max(until, start)
      decreases start + |used| - minor
    {
      var found := false;
      var i := 0;
      while i < |devs| && !found
        invariant 0 <= i <= |devs|
        invariant found <==> exists j: nat :: j < i && devs[j] != pdev && devs[j].nMinor == minor
      {
        if devs[i] != pdev && devs[i].nMinor == minor {
          found := true;
        }
        i := i + 1;
      }
      PigeonHole(used, start, minor - start);
      assert found <==> minor in used;
      if !found {
        break;
      }
      PigeonHole(used, start, minor - start + 1);
      minor := minor + 1;
      if until > from && minor > until {
        minor := -ENODEV;
        break;
      }
    }
  }
}
