/** The three interval sweeps of the integrity report. */
module Sweeps {
  import opened Extents

  /** Two owners claiming sectors `first..last`, both ends included. */
  datatype Overlap = Overlap(first: int, last: int, firstOwner: string, secondOwner: string)

  /** Some pair of distinct list positions shares a sector. */
  ghost predicate SelfOverlapping(xs: seq<Extent>) {
    exists s :: Depth(xs, s) >= 2
  }

  ghost predicate AllNonEmpty(xs: seq<Extent>) {
    forall x :: x in xs ==> x.start < x.end
  }

  /** Positions `i` and `j` hold the two extents reported, and both hold every sector of the range. */
  ghost predicate ClaimedBy(xs: seq<Extent>, o: Overlap, i: int, j: int) {
    && 0 <= i < |xs| && 0 <= j < |xs| && i != j
    && xs[i].owner == o.firstOwner && xs[j].owner == o.secondOwner
    && forall s :: o.first <= s <= o.last ==> xs[i].Holds(s) && xs[j].Holds(s)
  }

  /** The reported range lies in two different extents of the list, those of the owners named. */
  ghost predicate TrueOverlap(xs: seq<Extent>, o: Overlap) {
    o.first <= o.last && exists i, j :: ClaimedBy(xs, o, i, j)
  }

  lemma OverlapIsDeep(xs: seq<Extent>, o: Overlap)
    requires TrueOverlap(xs, o)
    ensures SelfOverlapping(xs)
  {
    var i, j :| ClaimedBy(xs, o, i, j);
    assert SharedBy(xs, if i < j then i else j, if i < j then j else i, o.first);
    DepthPair(xs, o.first);
  }

  function Dropped(a: seq<Extent>, i: nat): seq<Extent>
    requires i < |a|
  {
    a[..i] + a[i + 1..]
  }

  lemma DroppedIsRest(a: seq<Extent>, i: nat)
    requires i < |a|
    ensures multiset(Dropped(a, i)) == multiset(a) - multiset{a[i]}
  {
    assert a == a[..i] + [a[i]] + a[i + 1..];
  }

  lemma InDropped(a: seq<Extent>, i: nat, j: nat)
    requires i < |a| && j < |a| && i != j
    ensures a[j] in Dropped(a, i)
  {
  }

  /** Two positions of a list have their counterparts in any rearrangement of it. */
  lemma Relocated(a: seq<Extent>, b: seq<Extent>, i: nat, j: nat) returns (p: nat, q: nat)
    requires multiset(a) == multiset(b) && i < |a| && j < |a| && i != j
    ensures p < |b| && q < |b| && p != q && b[p] == a[i] && b[q] == a[j]
  {
    hide Dropped;
    assert a[i] in multiset(b);
    p :| p < |b| && b[p] == a[i];
    DroppedIsRest(a, i);
    DroppedIsRest(b, p);
    InDropped(a, i, j);
    assert a[j] in multiset(Dropped(b, p));
    q := Elsewhere(b, p, a[j]);
  }

  lemma Elsewhere(b: seq<Extent>, p: nat, x: Extent) returns (q: nat)
    requires p < |b| && x in Dropped(b, p)
    ensures q < |b| && q != p && b[q] == x
  {
    var k: nat :| k < |Dropped(b, p)| && Dropped(b, p)[k] == x;
    q := if k < p then k else k + 1;
  }

  lemma OverlapRelocated(a: seq<Extent>, b: seq<Extent>, o: Overlap)
    requires multiset(a) == multiset(b) && TrueOverlap(a, o)
    ensures TrueOverlap(b, o)
  {
    var i, j :| ClaimedBy(a, o, i, j);
    var p, q := Relocated(a, b, i, j);
    assert ClaimedBy(b, o, p, q);
  }

  lemma DisjointIsShallow(xs: seq<Extent>)
    requires Chained(xs)
    ensures !SelfOverlapping(xs)
  {
    forall s
      ensures Depth(xs, s) < 2
    {
      DepthPair(xs, s);
      assert forall i, j :: 0 <= i < j < |xs| ==> !SharedBy(xs, i, j, s);
    }
  }

  /** Each extent ends before every later one starts. */
  ghost predicate Chained(xs: seq<Extent>) {
    forall j, k :: 0 <= j < k < |xs| ==> xs[j].end <= xs[k].start
  }

  lemma OverlapSweepEnd(xs: seq<Extent>, ordered: seq<Extent>, findings: seq<Overlap>)
    requires ordered == Sort(ByStartThenEnd, xs)
    requires findings == [] ==> Chained(ordered)
    requires forall o :: o in findings ==> TrueOverlap(ordered, o)
    ensures findings == [] <==> !SelfOverlapping(xs)
    ensures forall o :: o in findings ==> TrueOverlap(xs, o)
  {
    forall o | o in findings
      ensures TrueOverlap(xs, o)
    {
      OverlapRelocated(ordered, xs, o);
    }
    if findings == [] {
      DisjointIsShallow(ordered);
      forall s
        ensures Depth(ordered, s) == Depth(xs, s)
      {
        SortDepth(ByStartThenEnd, xs, s);
      }
    } else {
      OverlapIsDeep(xs, findings[0]);
    }
  }

  /** `f` is the position, among the first `i`, of an extent reaching furthest. */
  ghost predicate Furthest(xs: seq<Extent>, i: int, f: int) {
    0 <= f < i <= |xs| && forall k :: 0 <= k < i ==> xs[k].end <= xs[f].end
  }

  ghost predicate ChainedUpTo(xs: seq<Extent>, i: int) {
    0 <= i <= |xs| && forall j, k :: 0 <= j < k < i ==> xs[j].end <= xs[k].start
  }

  lemma OverlapStep(xs: seq<Extent>, i: int, f: int)
    requires Furthest(xs, i, f) && i < |xs|
    ensures Furthest(xs, i + 1, if xs[i].end > xs[f].end then i else f)
    ensures ChainedUpTo(xs, i) && xs[f].end <= xs[i].start ==> ChainedUpTo(xs, i + 1)
  {
  }

  lemma OverlapReported(xs: seq<Extent>, i: int, f: int, o: Overlap)
    requires Furthest(xs, i, f) && i < |xs| && Sorted(ByStartThenEnd, xs)
    requires xs[i].start < xs[i].end && xs[i].start < xs[f].end
    requires o.firstOwner == xs[f].owner && o.secondOwner == xs[i].owner
    requires o.first == xs[i].start && o.last == (if xs[i].end <= xs[f].end then xs[i].end else xs[f].end) - 1
    ensures TrueOverlap(xs, o)
  {
    assert LessEq(ByStartThenEnd, xs[f], xs[i]);
    assert ClaimedBy(xs, o, f, i);
  }

  /** The single-list sweep: silent exactly when no sector is claimed twice, and every range it
      reports lies in two extents of the list, those of the owners it names. */
  method OverlapFindings(extents: seq<Extent>) returns (findings: seq<Overlap>)
    requires AllNonEmpty(extents)
    ensures findings == [] <==> !SelfOverlapping(extents)
    ensures forall o :: o in findings ==> TrueOverlap(extents, o)
  {
    findings := [];
    var ordered := Sort(ByStartThenEnd, extents);
    SortSorted(ByStartThenEnd, extents);
    if ordered == [] {
      OverlapSweepEnd(extents, ordered, findings);
      return;
    }
    var furthest := ordered[0];
    ghost var f := 0;
    for i := 1 to |ordered|
      invariant Furthest(ordered, i, f) && ordered[f] == furthest
      invariant forall o :: o in findings ==> TrueOverlap(ordered, o)
      invariant findings == [] ==> ChainedUpTo(ordered, i)
    {
      var current := ordered[i];
      assert current in extents;
      OverlapStep(ordered, i, f);
      if current.start < furthest.end {
        var last := (if current.end <= furthest.end then current.end else furthest.end) - 1;
        var o := Overlap(current.start, last, furthest.owner, current.owner);
        OverlapReported(ordered, i, f, o);
        findings := findings + [o];
      }
      if current.end > furthest.end {
        furthest, f := current, i;
      }
    }
    OverlapSweepEnd(extents, ordered, findings);
  }

  ghost predicate CrossOverlapping(used: seq<Extent>, free: seq<Extent>) {
    exists s :: Covered(used, s) && Covered(free, s)
  }

  /** The reported range lies in one used extent, the one named, and in one free extent. */
  ghost predicate TrueCrossOverlap(used: seq<Extent>, free: seq<Extent>, o: Overlap) {
    o.first <= o.last &&
    exists u, f :: u in used && f in free && o.firstOwner == u.owner && o.secondOwner == f.owner &&
                   forall s :: o.first <= s <= o.last ==> u.Holds(s) && f.Holds(s)
  }

  ghost predicate Apart(u: Extent, f: Extent) {
    forall s :: !(u.Holds(s) && f.Holds(s))
  }

  /** Every extent before position `i` is apart from the whole other list, and likewise before `j`. */
  ghost predicate NothingMissed(used: seq<Extent>, free: seq<Extent>, i: nat, j: nat)
  {
    forall a, b :: 0 <= a < |used| && 0 <= b < |free| && (a < i || b < j) ==> Apart(used[a], free[b])
  }

  /** Dropping the extent that ends first is safe once the two heads are apart. */
  lemma DropUsed(used: seq<Extent>, free: seq<Extent>, i: nat, j: nat)
    requires i < |used| && j < |free| && Sorted(ByStart, free)
    requires NothingMissed(used, free, i, j)
    requires Apart(used[i], free[j]) && used[i].end <= free[j].end
    ensures NothingMissed(used, free, i + 1, j)
  {
  }

  lemma DropFree(used: seq<Extent>, free: seq<Extent>, i: nat, j: nat)
    requires i < |used| && j < |free| && Sorted(ByStart, used)
    requires NothingMissed(used, free, i, j)
    requires Apart(used[i], free[j]) && free[j].end < used[i].end
    ensures NothingMissed(used, free, i, j + 1)
  {
  }

  /** With one list used up nothing is left to compare. */
  lemma NothingMissedAtEnd(used: seq<Extent>, free: seq<Extent>, usedOrdered: seq<Extent>, freeOrdered: seq<Extent>,
      i: nat, j: nat)
    requires NothingMissed(usedOrdered, freeOrdered, i, j)
    requires i >= |usedOrdered| || j >= |freeOrdered|
    requires (forall x :: x in used ==> x in usedOrdered) && (forall x :: x in free ==> x in freeOrdered)
    ensures !CrossOverlapping(used, free)
  {
  }

  lemma ReportedCrossOverlap(used: seq<Extent>, free: seq<Extent>, u: Extent, f: Extent, o: Overlap)
    requires u in used && f in free && o.firstOwner == u.owner && o.secondOwner == f.owner
    requires o.first <= o.last && u.start <= o.first && f.start <= o.first && o.last < u.end && o.last < f.end
    ensures TrueCrossOverlap(used, free, o) && CrossOverlapping(used, free)
  {
    assert u.Holds(o.first) && f.Holds(o.first);
    assert Covered(used, o.first) && Covered(free, o.first);
  }

  /** The two-pointer sweep misses nothing although it drops the extent that ends first, and it
      needs no assumption on either list: not disjointness within it, not even nonempty extents. */
  method CrossOverlapFindings(used: seq<Extent>, free: seq<Extent>) returns (findings: seq<Overlap>)
    ensures findings == [] <==> !CrossOverlapping(used, free)
    ensures forall o :: o in findings ==> TrueCrossOverlap(used, free, o)
  {
    findings := [];
    var usedOrdered, freeOrdered := Sort(ByStart, used), Sort(ByStart, free);
    SortSorted(ByStart, used);
    SortSorted(ByStart, free);
    var i, j := 0, 0;
    while i < |usedOrdered| && j < |freeOrdered|
      invariant 0 <= i <= |usedOrdered| && 0 <= j <= |freeOrdered|
      invariant findings == [] ==> NothingMissed(usedOrdered, freeOrdered, i, j)
      invariant findings != [] ==> CrossOverlapping(used, free)
      invariant forall o :: o in findings ==> TrueCrossOverlap(used, free, o)
      decreases |usedOrdered| - i + |freeOrdered| - j
    {
      var u, f := usedOrdered[i], freeOrdered[j];
      assert u in used && f in free;
      var start := if u.start >= f.start then u.start else f.start;
      var end := if u.end <= f.end then u.end else f.end;
      if start < end {
        var o := Overlap(start, end - 1, u.owner, f.owner);
        ReportedCrossOverlap(used, free, u, f, o);
        findings := findings + [o];
      }
      if u.end <= f.end {
        if findings == [] { DropUsed(usedOrdered, freeOrdered, i, j); }
        i := i + 1;
      } else {
        if findings == [] { DropFree(usedOrdered, freeOrdered, i, j); }
        j := j + 1;
      }
    }
    if findings == [] {
      NothingMissedAtEnd(used, free, usedOrdered, freeOrdered, i, j);
    }
  }

  // ---- gaps -------------------------------------------------------------------------------------

  /** Sectors `first..end`, the end excluded. */
  datatype Range = Range(first: int, end: int) {
    predicate Holds(sector: int) {
      first <= sector < end
    }
  }

  ghost predicate InSomeRange(ranges: seq<Range>, s: int) {
    exists r :: r in ranges && r.Holds(s)
  }

  ghost predicate ExactComplement(xs: seq<Extent>, total: nat, ranges: seq<Range>) {
    forall s :: InSomeRange(ranges, s) <==> 0 <= s < total && !Covered(xs, s)
  }

  ghost predicate StartsPastTotal(xs: seq<Extent>, total: nat) {
    exists x :: x in xs && x.start > total
  }

  lemma InSomeRangeAppend(ranges: seq<Range>, r: Range, s: int)
    ensures InSomeRange(ranges + [r], s) <==> InSomeRange(ranges, s) || r.Holds(s)
  {
  }

  /** Sector `s` is held by one of the first `i` extents. */
  ghost predicate Passed(xs: seq<Extent>, i: int, s: int) {
    exists k :: 0 <= k < i && k < |xs| && xs[k].Holds(s)
  }

  /** What the sweep knows of sector `s` before it looks at extent `i`. */
  ghost predicate SweptAt(xs: seq<Extent>, i: nat, cursor: int, ranges: seq<Range>, total: nat, s: int) {
    && (Passed(xs, i, s) && 0 <= s < total ==> s < cursor)
    && (0 <= s < cursor ==> InSomeRange(ranges, s) || Passed(xs, i, s))
    && (InSomeRange(ranges, s) && s < total ==> 0 <= s && !Passed(xs, |xs|, s))
  }

  function NextCursor(x: Extent, cursor: int, total: nat): int {
    var end := if x.end <= total then x.end else total;
    if end > cursor then end else cursor
  }

  function NextRanges(x: Extent, cursor: int, ranges: seq<Range>): seq<Range> {
    var start := if x.start >= 0 then x.start else 0;
    if start > cursor then ranges + [Range(cursor, start)] else ranges
  }

  lemma SweepStep(xs: seq<Extent>, i: nat, cursor: int, ranges: seq<Range>, total: nat, s: int)
    requires i < |xs| && Sorted(ByStart, xs) && 0 <= cursor <= total
    requires SweptAt(xs, i, cursor, ranges, total, s)
    ensures SweptAt(xs, i + 1, NextCursor(xs[i], cursor, total), NextRanges(xs[i], cursor, ranges), total, s)
  {
    var x := xs[i];
    var start := if x.start >= 0 then x.start else 0;
    assert Passed(xs, i + 1, s) <==> Passed(xs, i, s) || x.Holds(s);
    if start > cursor {
      InSomeRangeAppend(ranges, Range(cursor, start), s);
      if cursor <= s < start && Passed(xs, |xs|, s) {
        var k :| 0 <= k < |xs| && xs[k].Holds(s);
        assert k < i || k == i || LessEq(ByStart, xs[i], xs[k]);
        assert k < i;
        assert Passed(xs, i, s);
      }
    }
  }

  lemma SweepStepEverywhere(xs: seq<Extent>, i: nat, next: nat, cursor: int, ranges: seq<Range>, total: nat)
    requires next == i + 1 <= |xs| && Sorted(ByStart, xs) && 0 <= cursor <= total
    requires forall s :: SweptAt(xs, i, cursor, ranges, total, s)
    ensures forall s :: SweptAt(xs, next, NextCursor(xs[i], cursor, total), NextRanges(xs[i], cursor, ranges), total, s)
  {
    var cursor', ranges' := NextCursor(xs[i], cursor, total), NextRanges(xs[i], cursor, ranges);
    forall s
      ensures SweptAt(xs, next, cursor', ranges', total, s)
    {
      assert SweptAt(xs, i, cursor, ranges, total, s);
      SweepStep(xs, i, cursor, ranges, total, s);
    }
  }

  ghost predicate PastTotal(xs: seq<Extent>, i: nat, total: nat) {
    exists k :: 0 <= k < i && k < |xs| && xs[k].start > total
  }

  ghost predicate SomeBeyond(ranges: seq<Range>, total: nat) {
    exists r :: r in ranges && r.end > total
  }

  lemma BeyondStep(xs: seq<Extent>, i: nat, cursor: int, ranges: seq<Range>, total: nat)
    requires i < |xs| && 0 <= cursor <= total
    requires PastTotal(xs, i, total) <==> SomeBeyond(ranges, total)
    requires forall r :: r in ranges ==> 0 <= r.first < r.end
    ensures PastTotal(xs, i + 1, total) <==> SomeBeyond(NextRanges(xs[i], cursor, ranges), total)
    ensures forall r :: r in NextRanges(xs[i], cursor, ranges) ==> 0 <= r.first < r.end
  {
  }

  /** After the last extent, every uncovered sector below the total is in a range or behind the cursor. */
  lemma SweepEnd(xs: seq<Extent>, ordered: seq<Extent>, cursor: int, swept: seq<Range>, total: nat, ranges: seq<Range>)
    requires forall x :: x in xs <==> x in ordered
    requires forall s :: SweptAt(ordered, |ordered|, cursor, swept, total, s)
    requires 0 <= cursor <= total
    requires ranges == if cursor < total then swept + [Range(cursor, total)] else swept
    ensures forall s :: InSomeRange(ranges, s) <==> InSomeRange(swept, s) || cursor <= s < total
    ensures forall s :: 0 <= s < total ==> (InSomeRange(ranges, s) <==> !Covered(xs, s))
  {
    forall s
      ensures InSomeRange(ranges, s) <==> InSomeRange(swept, s) || cursor <= s < total
      ensures 0 <= s < total ==> (InSomeRange(ranges, s) <==> !Covered(xs, s))
    {
      InSomeRangeAppend(swept, Range(cursor, total), s);
      PassedIsCovered(xs, ordered, s);
      assert SweptAt(ordered, |ordered|, cursor, swept, total, s);
    }
  }

  lemma PassedIsCovered(xs: seq<Extent>, ordered: seq<Extent>, s: int)
    requires forall x :: x in xs <==> x in ordered
    ensures Passed(ordered, |ordered|, s) <==> Covered(xs, s)
  {
  }

  /** The ranges are the complement of the cover exactly when no extent starts past the total; when
      one does, some range reaches beyond the disc.  Either way a hole inside the disc is reported. */
  method GapRanges(extents: seq<Extent>, total: nat) returns (ranges: seq<Range>)
    ensures ExactComplement(extents, total, ranges) <==> !StartsPastTotal(extents, total)
    ensures forall s :: 0 <= s < total ==> (InSomeRange(ranges, s) <==> !Covered(extents, s))
    ensures forall r :: r in ranges ==> 0 <= r.first < r.end
  {
    ranges := [];
    var cursor := 0;
    var ordered := Sort(ByStart, extents);
    SortSorted(ByStart, extents);
    for i := 0 to |ordered|
      invariant 0 <= cursor <= total
      invariant forall r :: r in ranges ==> 0 <= r.first < r.end
      invariant forall s :: SweptAt(ordered, i, cursor, ranges, total, s)
      invariant PastTotal(ordered, i, total) <==> SomeBeyond(ranges, total)
    {
      SweepStepEverywhere(ordered, i, i + 1, cursor, ranges, total);
      ghost var cursor', ranges' := NextCursor(ordered[i], cursor, total), NextRanges(ordered[i], cursor, ranges);
      BeyondStep(ordered, i, cursor, ranges, total);
      var extent := ordered[i];
      var start := if extent.start >= 0 then extent.start else 0;
      var end := if extent.end <= total then extent.end else total;
      if start > cursor {
        ranges := ranges + [Range(cursor, start)];
      }
      if end > cursor {
        cursor := end;
      }
      assert cursor == cursor' && ranges == ranges';
    }
    ghost var swept := ranges;
    if cursor < total {
      ranges := ranges + [Range(cursor, total)];
    }
    SweepEnd(extents, ordered, cursor, swept, total, ranges);
    PastTotalIsBeyond(extents, ordered, total, swept, ranges);
  }

  lemma PastTotalIsBeyond(xs: seq<Extent>, ordered: seq<Extent>, total: nat, swept: seq<Range>, ranges: seq<Range>)
    requires forall x :: x in xs <==> x in ordered
    requires PastTotal(ordered, |ordered|, total) <==> SomeBeyond(swept, total)
    requires forall r :: r in swept ==> 0 <= r.first < r.end
    requires forall s :: InSomeRange(swept, s) ==> InSomeRange(ranges, s)
    requires forall s :: s >= total && InSomeRange(ranges, s) ==> InSomeRange(swept, s)
    ensures StartsPastTotal(xs, total) <==> exists s :: s >= total && InSomeRange(ranges, s)
    ensures forall s :: InSomeRange(swept, s) ==> s >= 0
  {
    if StartsPastTotal(xs, total) {
      var x :| x in xs && x.start > total;
      assert x in ordered;
      var r :| r in swept && r.end > total;
      assert r.Holds(r.end - 1);
      assert InSomeRange(ranges, r.end - 1);
    }
    if s :| s >= total && InSomeRange(ranges, s) {
      assert InSomeRange(swept, s);
      var r :| r in swept && r.Holds(s);
      var k :| 0 <= k < |ordered| && ordered[k].start > total;
      assert ordered[k] in xs;
    }
  }
}
