/** The allocation preflight: will the file fit in one contiguous run once its old space is free? */
module Preflight {
  import opened Extents

  const SECTOR_BYTES: int := 256

  function SectorsFor(size: nat): nat {
    (size + SECTOR_BYTES - 1) / SECTOR_BYTES
  }

  /** Sectors `first .. first + length` are all available. */
  ghost predicate Run(xs: seq<Extent>, first: int, length: nat) {
    forall s :: first <= s < first + length ==> Covered(xs, s)
  }

  ghost predicate SomeRun(xs: seq<Extent>, length: nat) {
    exists first :: Run(xs, first, length)
  }

  /** The free extents, and the file's own extent when it has one, as sector intervals. */
  function Available(free: seq<(nat, nat)>, oldStart: nat, oldSize: nat): (xs: seq<Extent>)
    ensures forall x :: x in xs ==> 0 <= x.start <= x.end
  {
    var extents := seq(|free|, i requires 0 <= i < |free| => Extent(free[i].0 / SECTOR_BYTES,
        free[i].0 / SECTOR_BYTES + free[i].1 / SECTOR_BYTES, ""));
    if SectorsFor(oldSize) == 0 then extents else extents + [Extent(oldStart, oldStart + SectorsFor(oldSize), "")]
  }

  // ---- the coalescing loop ----------------------------------------------------------------------

  /** `start..end` is the last maximal run of the first extents; `largest` bounds all runs before it. */
  ghost predicate Coalesced(prefix: seq<Extent>, start: int, end: int, largest: nat) {
    && 0 <= start <= end
    && (forall s :: start <= s < end ==> Covered(prefix, s))
    && (forall s :: s >= end ==> !Covered(prefix, s))
    && !Covered(prefix, start - 1)
    && (forall f: int, n: nat :: f + n <= start && Run(prefix, f, n) ==> n <= largest)
    && SomeRun(prefix, largest)
  }

  lemma CoveredSnocAll(prefix: seq<Extent>, x: Extent, next: seq<Extent>)
    requires next == prefix + [x]
    ensures forall s :: Covered(next, s) <==> Covered(prefix, s) || x.Holds(s)
  {
  }

  function Max(a: int, b: int): int {
    if a >= b then a else b
  }

  /** Every run lies before the last maximal run or inside it. */
  lemma RunIsBounded(prefix: seq<Extent>, start: int, end: int, largest: nat, first: int, length: nat)
    requires Coalesced(prefix, start, end, largest) && Run(prefix, first, length)
    ensures length <= Max(largest, end - start)
  {
    assert length > 0 ==> Covered(prefix, first + length - 1);
    assert first <= start - 1 < first + length ==> Covered(prefix, start - 1);
  }

  lemma LongestRunExists(prefix: seq<Extent>, start: int, end: int, largest: nat)
    requires Coalesced(prefix, start, end, largest)
    ensures SomeRun(prefix, Max(largest, end - start))
  {
    assert Run(prefix, start, end - start);
  }

  /** The next extent touches the open run: the run grows. */
  lemma Extend(prefix: seq<Extent>, x: Extent, next: seq<Extent>, start: int, end: int, largest: nat)
    requires next == prefix + [x]
    requires Coalesced(prefix, start, end, largest) && start <= x.start <= end && x.start <= x.end
    ensures Coalesced(next, start, Max(end, x.end), largest)
  {
    CoveredSnocAll(prefix, x, next);
    forall f: int, n: nat | f + n <= start && Run(next, f, n)
      ensures n <= largest
    {
      forall s | f <= s < f + n
        ensures Covered(prefix, s)
      {
        assert Covered(next, s);
      }
      assert Run(prefix, f, n);
    }
    var f :| Run(prefix, f, largest);
    assert Run(next, f, largest);
  }

  /** The next extent starts past the open run: the run is closed and a new one opened. */
  lemma Reopen(prefix: seq<Extent>, x: Extent, next: seq<Extent>, start: int, end: int, largest: nat)
    requires next == prefix + [x]
    requires Coalesced(prefix, start, end, largest) && end < x.start <= x.end
    ensures Coalesced(next, x.start, x.end, Max(largest, end - start))
  {
    CoveredSnocAll(prefix, x, next);
    forall f: int, n: nat | f + n <= x.start && Run(next, f, n)
      ensures n <= Max(largest, end - start)
    {
      forall s | f <= s < f + n
        ensures Covered(prefix, s)
      {
        assert Covered(next, s);
      }
      assert Run(prefix, f, n);
      RunIsBounded(prefix, start, end, largest, f, n);
    }
    LongestRunExists(prefix, start, end, largest);
    var f :| Run(prefix, f, Max(largest, end - start));
    assert Run(next, f, Max(largest, end - start));
  }

  lemma Open(x: Extent)
    requires 0 <= x.start <= x.end
    ensures Coalesced([x], x.start, x.end, 0)
  {
    CoveredSnocAll([], x, [x]);
    assert [x] == [] + [x];
    assert Run([x], 0, 0);
    forall f: int, n: nat | f + n <= x.start && Run([x], f, n)
      ensures n <= 0
    {
      assert n > 0 ==> Covered([x], f);
    }
  }

  /** `largest` is the length of the longest contiguous run of available sectors. */
  method LargestRun(extents: seq<Extent>) returns (largest: nat)
    requires forall x :: x in extents ==> 0 <= x.start <= x.end
    ensures SomeRun(extents, largest)
    ensures forall first: int, length: nat :: Run(extents, first, length) ==> length <= largest
  {
    hide Coalesced, Run, SomeRun, Covered, Sort;
    largest := 0;
    var currentStart, currentEnd := -1, -1;
    var ordered := Sort(ByStartThenEnd, extents);
    SortSorted(ByStartThenEnd, extents);
    for i := 0 to |ordered|
      invariant i == 0 ==> currentStart < 0 && largest == 0
      invariant i > 0 ==> currentStart >= 0 && Coalesced(ordered[..i], currentStart, currentEnd, largest)
                          && currentStart <= ordered[i - 1].start
    {
      var start, end := ordered[i].start, ordered[i].end;
      assert ordered[i] in extents;
      assert ordered[..i + 1] == ordered[..i] + [ordered[i]];
      assert i > 0 ==> LessEq(ByStartThenEnd, ordered[i - 1], ordered[i]);
      if currentStart < 0 || start > currentEnd {
        if currentStart >= 0 {
          Reopen(ordered[..i], ordered[i], ordered[..i + 1], currentStart, currentEnd, largest);
          largest := Max(largest, currentEnd - currentStart);
        } else {
          Open(ordered[i]);
          assert ordered[..i + 1] == [ordered[i]];
        }
        currentStart, currentEnd := start, end;
      } else {
        Extend(ordered[..i], ordered[i], ordered[..i + 1], currentStart, currentEnd, largest);
        currentEnd := Max(currentEnd, end);
      }
    }
    assert ordered[..|ordered|] == ordered;
    ghost var before := largest;
    if currentStart >= 0 {
      largest := Max(largest, currentEnd - currentStart);
    }
    LongestAtEnd(extents, ordered, currentStart, currentEnd, before, largest);
  }

  lemma LongestAtEnd(extents: seq<Extent>, ordered: seq<Extent>, start: int, end: int, before: nat, largest: nat)
    requires forall x :: x in ordered <==> x in extents
    requires ordered == [] ==> before == 0 && largest == 0
    requires ordered != [] ==> Coalesced(ordered, start, end, before) && largest == Max(before, end - start)
    ensures SomeRun(extents, largest)
    ensures forall first: int, length: nat :: Run(extents, first, length) ==> length <= largest
  {
    assert forall s :: Covered(ordered, s) <==> Covered(extents, s);
    if ordered == [] {
      assert Run(extents, 0, 0);
      forall first: int, length: nat | Run(extents, first, length)
        ensures length <= 0
      {
        assert length > 0 ==> Covered(extents, first);
      }
    } else {
      LongestRunExists(ordered, start, end, before);
      var f :| Run(ordered, f, largest);
      assert Run(extents, f, largest);
      forall first: int, length: nat | Run(extents, first, length)
        ensures length <= largest
      {
        assert Run(ordered, first, length);
        RunIsBounded(ordered, start, end, before, first, length);
      }
    }
  }

  /** The sector is wholly inside a free extent, or holds part of the file's old contents. */
  ghost predicate Usable(free: seq<(nat, nat)>, oldStart: nat, oldSize: nat, s: int) {
    || (exists k :: 0 <= k < |free| && InEntry(free[k], s))
    || (oldStart <= s && (s - oldStart) * 256 < oldSize)
  }

  predicate InEntry(entry: (nat, nat), s: int) {
    entry.0 / 256 <= s < entry.0 / 256 + entry.1 / 256
  }

  lemma AvailableIsUsable(free: seq<(nat, nat)>, oldStart: nat, oldSize: nat, s: int)
    ensures Covered(Available(free, oldStart, oldSize), s) <==> Usable(free, oldStart, oldSize, s)
  {
    var xs := Available(free, oldStart, oldSize);
    forall k | 0 <= k < |free|
      ensures xs[k].Holds(s) <==> InEntry(free[k], s)
      ensures xs[k] in xs
    {
    }
    if SectorsFor(oldSize) > 0 {
      assert xs[|free|] in xs && xs[|free|].Holds(s) <==> oldStart <= s && (s - oldStart) * 256 < oldSize;
    }
    if x :| x in xs && x.Holds(s) {
      var k :| 0 <= k < |xs| && xs[k] == x;
    }
  }

  /** A new size fits if, from some sector on, every sector its bytes would reach is usable. */
  ghost predicate Fits(free: seq<(nat, nat)>, oldStart: nat, oldSize: nat, newSize: nat) {
    exists first: int :: FitsAt(free, oldStart, oldSize, newSize, first)
  }

  ghost predicate FitsAt(free: seq<(nat, nat)>, oldStart: nat, oldSize: nat, newSize: nat, first: int) {
    forall s :: first <= s && (s - first) * 256 < newSize ==> Usable(free, oldStart, oldSize, s)
  }

  lemma RunIsFit(free: seq<(nat, nat)>, oldStart: nat, oldSize: nat, newSize: nat)
    ensures SomeRun(Available(free, oldStart, oldSize), SectorsFor(newSize)) <==> Fits(free, oldStart, oldSize, newSize)
  {
    var xs := Available(free, oldStart, oldSize);
    hide Available, Usable;
    forall first: int
      ensures Run(xs, first, SectorsFor(newSize)) <==> FitsAt(free, oldStart, oldSize, newSize, first)
    {
      forall s
        ensures Covered(xs, s) <==> Usable(free, oldStart, oldSize, s)
        ensures first <= s < first + SectorsFor(newSize) <==> first <= s && (s - first) * 256 < newSize
      {
        AvailableIsUsable(free, oldStart, oldSize, s);
      }
    }
  }

  /** The preflight passes exactly when the new contents need no sector at all or the free space
      together with the file's old allocation holds a contiguous run of the sectors they need. */
  method PreflightFileSize(free: seq<(nat, nat)>, oldStart: nat, oldSize: nat, newSize: nat) returns (accepted: bool)
    ensures accepted <==> newSize == 0 || SomeRun(Available(free, oldStart, oldSize), SectorsFor(newSize))
    ensures accepted <==> newSize == 0 || Fits(free, oldStart, oldSize, newSize)
  {
    RunIsFit(free, oldStart, oldSize, newSize);
    var required := SectorsFor(newSize);
    if required == 0 {
      return true;
    }
    var largest := LargestRun(Available(free, oldStart, oldSize));
    accepted := required <= largest;
    if accepted {
      var xs := Available(free, oldStart, oldSize);
      ghost var f :| Run(xs, f, largest);
      assert Run(xs, f, required);
    }
  }
}
