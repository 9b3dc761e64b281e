/** Half-open sector intervals, the sort both sweeps start from, and coverage counting. */
module Extents {

  /** Sectors `start..end`, the end excluded, claimed by `owner`. */
  datatype Extent = Extent(start: int, end: int, owner: string) {
    predicate Holds(sector: int) {
      start <= sector < end
    }

    function Length(): int {
      end - start
    }
  }

  datatype SortKey = ByStart | ByStartThenEnd

  predicate LessEq(key: SortKey, a: Extent, b: Extent) {
    a.start < b.start || (a.start == b.start && (key == ByStart || a.end <= b.end))
  }

  ghost predicate Sorted(key: SortKey, xs: seq<Extent>) {
    forall i, j :: 0 <= i < j < |xs| ==> LessEq(key, xs[i], xs[j])
  }

  /** Stable insertion: `x` goes behind every element it does not precede. */
  function Insert(key: SortKey, xs: seq<Extent>, x: Extent): (r: seq<Extent>)
    ensures multiset(r) == multiset(xs) + multiset{x}
  {
    if xs == [] || LessEq(key, xs[|xs| - 1], x) then
      xs + [x]
    else
      var r := Insert(key, xs[..|xs| - 1], x) + [xs[|xs| - 1]];
      assert xs == xs[..|xs| - 1] + [xs[|xs| - 1]];
      r
  }

  function Sort(key: SortKey, xs: seq<Extent>): (r: seq<Extent>)
    ensures multiset(r) == multiset(xs)
  {
    if xs == [] then []
    else
      assert xs == xs[..|xs| - 1] + [xs[|xs| - 1]];
      Insert(key, Sort(key, xs[..|xs| - 1]), xs[|xs| - 1])
  }

  lemma {:induction false} InsertSorted(key: SortKey, xs: seq<Extent>, x: Extent)
    requires Sorted(key, xs)
    ensures Sorted(key, Insert(key, xs, x))
  {
    if xs != [] && !LessEq(key, xs[|xs| - 1], x) {
      var front, last := xs[..|xs| - 1], xs[|xs| - 1];
      InsertSorted(key, front, x);
      var r := Insert(key, front, x);
      forall i | 0 <= i < |r|
        ensures LessEq(key, r[i], last)
      {
        assert r[i] in multiset(r);
        assert r[i] in multiset(front) || r[i] == x;
      }
    }
  }

  lemma {:induction false} SortSorted(key: SortKey, xs: seq<Extent>)
    ensures Sorted(key, Sort(key, xs))
    ensures |Sort(key, xs)| == |xs|
    ensures forall x :: x in Sort(key, xs) <==> x in xs
  {
    if xs != [] {
      SortSorted(key, xs[..|xs| - 1]);
      InsertSorted(key, Sort(key, xs[..|xs| - 1]), xs[|xs| - 1]);
    }
    var r := Sort(key, xs);
    assert |multiset(r)| == |multiset(xs)|;
    forall x
      ensures x in r <==> x in xs
    {
      assert x in r <==> x in multiset(r);
      assert x in xs <==> x in multiset(xs);
    }
  }

  // ---- coverage -------------------------------------------------------------------------------

  ghost predicate Covered(xs: seq<Extent>, sector: int) {
    exists x :: x in xs && x.Holds(sector)
  }

  /** How many of the extents hold a sector, an extent listed twice counting twice. */
  ghost function Depth(xs: seq<Extent>, sector: int): nat {
    if xs == [] then 0
    else (if xs[0].Holds(sector) then 1 else 0) + Depth(xs[1..], sector)
  }

  function TotalLength(xs: seq<Extent>): int {
    if xs == [] then 0 else xs[0].Length() + TotalLength(xs[1..])
  }

  lemma {:induction false} DepthAppend(xs: seq<Extent>, ys: seq<Extent>, sector: int)
    ensures Depth(xs + ys, sector) == Depth(xs, sector) + Depth(ys, sector)
  {
    if xs == [] {
      assert xs + ys == ys;
    } else {
      assert (xs + ys)[1..] == xs[1..] + ys;
      DepthAppend(xs[1..], ys, sector);
    }
  }

  lemma {:induction false} DepthPositive(xs: seq<Extent>, sector: int)
    ensures Depth(xs, sector) > 0 <==> Covered(xs, sector)
  {
    if xs != [] {
      DepthPositive(xs[1..], sector);
      if Covered(xs, sector) {
        var x :| x in xs && x.Holds(sector);
        assert x == xs[0] || x in xs[1..];
      }
      if Covered(xs[1..], sector) {
        var x :| x in xs[1..] && x.Holds(sector);
        assert x in xs;
      }
    }
  }

  ghost predicate SharedBy(xs: seq<Extent>, i: int, j: int, sector: int)
    requires 0 <= i < j < |xs|
  {
    xs[i].Holds(sector) && xs[j].Holds(sector)
  }

  lemma {:induction false} DepthPair(xs: seq<Extent>, sector: int)
    ensures Depth(xs, sector) >= 2 <==> exists i, j :: 0 <= i < j < |xs| && SharedBy(xs, i, j, sector)
  {
    if xs != [] {
      DepthPair(xs[1..], sector);
      DepthPositive(xs[1..], sector);
      if Depth(xs, sector) >= 2 {
        if Depth(xs[1..], sector) >= 2 {
          var i, j :| 0 <= i < j < |xs[1..]| && SharedBy(xs[1..], i, j, sector);
          assert SharedBy(xs, i + 1, j + 1, sector);
        } else {
          var x :| x in xs[1..] && x.Holds(sector);
          var j :| 0 <= j < |xs[1..]| && xs[1..][j] == x;
          assert SharedBy(xs, 0, j + 1, sector);
        }
      }
      if i, j :| 0 <= i < j < |xs| && SharedBy(xs, i, j, sector) {
        assert xs[1..][j - 1] == xs[j];
        if i == 0 {
          assert xs[j] in xs[1..];
        } else {
          assert SharedBy(xs[1..], i - 1, j - 1, sector);
        }
      }
    }
  }

  lemma DepthLast(xs: seq<Extent>, x: Extent, sector: int)
    ensures Depth(xs + [x], sector) == Depth(xs, sector) + if x.Holds(sector) then 1 else 0
  {
    DepthAppend(xs, [x], sector);
    assert [x][1..] == [];
    assert Depth([x], sector) == if x.Holds(sector) then 1 else 0;
  }

  lemma {:induction false} InsertDepth(key: SortKey, xs: seq<Extent>, x: Extent, sector: int)
    ensures Depth(Insert(key, xs, x), sector) == Depth(xs + [x], sector)
  {
    DepthLast(xs, x, sector);
    if xs != [] && !LessEq(key, xs[|xs| - 1], x) {
      var front, last := xs[..|xs| - 1], xs[|xs| - 1];
      InsertDepth(key, front, x, sector);
      DepthLast(front, x, sector);
      DepthLast(Insert(key, front, x), last, sector);
      DepthLast(front, last, sector);
      assert xs == front + [last];
    }
  }

  lemma {:induction false} SortDepth(key: SortKey, xs: seq<Extent>, sector: int)
    ensures Depth(Sort(key, xs), sector) == Depth(xs, sector)
  {
    if xs != [] {
      var front, last := xs[..|xs| - 1], xs[|xs| - 1];
      SortDepth(key, front, sector);
      InsertDepth(key, Sort(key, front), last, sector);
      DepthLast(Sort(key, front), last, sector);
      DepthLast(front, last, sector);
      assert xs == front + [last];
    }
  }

  // ---- counting the sectors of a cover both ways ------------------------------------------------

  /** The summed depth of sectors 0..n. */
  ghost function DepthSum(xs: seq<Extent>, n: nat): nat {
    if n == 0 then 0 else DepthSum(xs, n - 1) + Depth(xs, n - 1)
  }

  lemma {:induction false} DepthSumSplit(xs: seq<Extent>, n: nat)
    requires xs != []
    ensures DepthSum(xs, n) == DepthSum([xs[0]], n) + DepthSum(xs[1..], n)
  {
    if n > 0 {
      DepthSumSplit(xs, n - 1);
      assert [xs[0]][1..] == [];
      assert Depth([xs[0]], n - 1) == if xs[0].Holds(n - 1) then 1 else 0;
    }
  }

  lemma {:induction false} DepthSumSingle(x: Extent, n: nat)
    requires 0 <= x.start <= x.end
    ensures DepthSum([x], n) == if n <= x.start then 0 else if n <= x.end then n - x.start else x.Length()
  {
    if n > 0 {
      DepthSumSingle(x, n - 1);
      assert [x][1..] == [];
      assert Depth([x], n - 1) == if x.Holds(n - 1) then 1 else 0;
    }
  }

  /** Double counting: summing over sectors or over extents gives the same number. */
  lemma {:induction false} LengthIsDepthSum(xs: seq<Extent>, n: nat)
    requires forall x :: x in xs ==> 0 <= x.start <= x.end <= n
    ensures TotalLength(xs) == DepthSum(xs, n)
  {
    if xs == [] {
      DepthSumEmpty(n);
    } else {
      LengthIsDepthSum(xs[1..], n);
      DepthSumSplit(xs, n);
      DepthSumSingle(xs[0], n);
    }
  }

  lemma {:induction false} DepthSumEmpty(n: nat)
    ensures DepthSum([], n) == 0
  {
    if n > 0 {
      DepthSumEmpty(n - 1);
    }
  }

  /** Extents inside 0..n that hold every sector exactly once have exactly n sectors between them. */
  lemma {:induction false} ExactCoverLength(xs: seq<Extent>, n: nat)
    requires forall x :: x in xs ==> 0 <= x.start <= x.end <= n
    requires forall s :: 0 <= s < n ==> Depth(xs, s) == 1
    ensures TotalLength(xs) == n
  {
    LengthIsDepthSum(xs, n);
    DepthSumOnes(xs, n, n);
  }

  lemma {:induction false} DepthSumOnes(xs: seq<Extent>, k: nat, n: nat)
    requires k <= n && forall s :: 0 <= s < n ==> Depth(xs, s) == 1
    ensures DepthSum(xs, k) == k
  {
    if k > 0 {
      DepthSumOnes(xs, k - 1, n);
    }
  }

  lemma {:induction false} TotalLengthAppend(xs: seq<Extent>, ys: seq<Extent>)
    ensures TotalLength(xs + ys) == TotalLength(xs) + TotalLength(ys)
  {
    if xs == [] {
      assert xs + ys == ys;
    } else {
      assert (xs + ys)[1..] == xs[1..] + ys;
      TotalLengthAppend(xs[1..], ys);
    }
  }
}
