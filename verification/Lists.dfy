/** Lists of numbers, without repetition where the source keeps them as ordered dictionaries. */
module Lists {

  ghost predicate Distinct(xs: seq<nat>) {
    forall i, j :: 0 <= i < j < |xs| ==> xs[i] != xs[j]
  }

  function Without(xs: seq<nat>, gone: nat): (r: seq<nat>)
    ensures forall x :: x in r <==> x in xs && x != gone
    ensures gone !in xs ==> r == xs
  {
    if xs == [] then []
    else (if xs[0] == gone then [] else [xs[0]]) + Without(xs[1..], gone)
  }

  lemma {:induction false} WithoutDistinct(xs: seq<nat>, gone: nat)
    requires Distinct(xs)
    ensures Distinct(Without(xs, gone))
    ensures |Without(xs, gone)| == |xs| - if gone in xs then 1 else 0
  {
    if xs != [] {
      WithoutDistinct(xs[1..], gone);
      var rest := Without(xs[1..], gone);
      assert xs[0] !in xs[1..];
      assert xs[0] !in rest;
    }
  }

  /** `b` is `a` with the one occurrence of `x`, if any, cut out. */
  ghost predicate CutOut(a: seq<nat>, x: nat, b: seq<nat>) {
    if x in a then exists k :: 0 <= k < |a| && a[k] == x && b == a[..k] + a[k + 1..] else b == a
  }

  lemma {:induction false} WithoutCutsOut(xs: seq<nat>, gone: nat)
    requires Distinct(xs)
    ensures CutOut(xs, gone, Without(xs, gone))
  {
    if gone in xs {
      var rest := xs[1..];
      if xs[0] == gone {
        assert gone !in rest;
        assert xs[0] == gone && Without(xs, gone) == xs[..0] + xs[1..];
      } else {
        WithoutCutsOut(rest, gone);
        var k :| 0 <= k < |rest| && rest[k] == gone && Without(rest, gone) == rest[..k] + rest[k + 1..];
        assert xs[k + 1] == gone && Without(xs, gone) == xs[..k + 1] + xs[k + 2..];
      }
    }
  }
}
