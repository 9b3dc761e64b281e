/** Dotted Acorn paths and the component lists they stand for. */
module Paths {

  predicate DotFree(name: string) {
    '.' !in name
  }

  ghost predicate AllDotFree(names: seq<string>) {
    forall n :: n in names ==> DotFree(n)
  }

  function Child(path: string, name: string): string {
    path + "." + name
  }

  function Join(names: seq<string>): string {
    if names == [] then "" else if |names| == 1 then names[0] else Child(Join(names[..|names| - 1]), names[|names| - 1])
  }

  function Split(path: string): (names: seq<string>)
    ensures names != []
  {
    if path == "" then [""]
    else
      var rest := Split(path[1..]);
      if path[0] == '.' then [""] + rest else [[path[0]] + rest[0]] + rest[1..]
  }

  lemma {:induction false} SplitDotFree(name: string)
    requires DotFree(name)
    ensures Split(name) == [name]
  {
    if name != "" {
      SplitDotFree(name[1..]);
      assert name == [name[0]] + name[1..];
    }
  }

  /** A dot always separates: splitting distributes over it whatever stands on either side. */
  lemma {:induction false} SplitChild(path: string, rest: string)
    ensures Split(Child(path, rest)) == Split(path) + Split(rest)
  {
    var whole := Child(path, rest);
    if path == "" {
      assert whole[1..] == rest;
    } else {
      assert whole[0] == path[0];
      assert whole[1..] == Child(path[1..], rest);
      SplitChild(path[1..], rest);
    }
  }

  lemma {:induction false} SplitJoin(names: seq<string>)
    requires names != [] && AllDotFree(names)
    ensures Split(Join(names)) == names
  {
    if |names| == 1 {
      SplitDotFree(names[0]);
    } else {
      var front, last := names[..|names| - 1], names[|names| - 1];
      SplitJoin(front);
      SplitChild(Join(front), last);
      SplitDotFree(last);
      assert names == front + [last];
    }
  }

  lemma {:induction false} JoinExtends(above: seq<string>, below: seq<string>)
    requires above != [] && above < below
    ensures Join(above) + "." <= Join(below)
  {
    var front := below[..|below| - 1];
    if front != above {
      assert above < front;
      JoinExtends(above, front);
    }
  }

  function ToLower(c: char): char {
    if 'A' <= c <= 'Z' then c - 'A' + 'a' else c
  }

  /** Case folding of the 7-bit names Acorn filing systems store. */
  function Fold(name: string): string {
    seq(|name|, i requires 0 <= i < |name| => ToLower(name[i]))
  }

  /** Two characters are the same letter, perhaps of different case, or the same character. */
  predicate SameLetter(a: char, b: char) {
    || a == b
    || ('A' <= a <= 'Z' && b as int == a as int + 32)
    || ('A' <= b <= 'Z' && a as int == b as int + 32)
  }

  /** Folded names agree exactly if the names do regardless of case. */
  lemma FoldedAlike(a: string, b: string)
    ensures Fold(a) == Fold(b) <==> |a| == |b| && forall k :: 0 <= k < |a| ==> SameLetter(a[k], b[k])
  {
    if Fold(a) == Fold(b) {
      forall k | 0 <= k < |a|
        ensures SameLetter(a[k], b[k])
      {
        assert Fold(a)[k] == Fold(b)[k];
      }
    }
  }
}
