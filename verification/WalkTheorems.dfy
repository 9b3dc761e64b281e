/** What the catalogue walk guarantees on any finite directory graph. */
module WalkTheorems {
  import opened Options
  import opened Extents
  import opened Paths
  import opened DirectoryWalk

  // ---- an independent notion of what can be reached ----------------------------------------------

  /** The sector of the directory reached by following entry positions from a list of entries. */
  ghost function Reach(c: Catalogue, entries: seq<Entry>, route: seq<nat>): Option<int>
    decreases |route|
  {
    if route == [] || route[0] >= |entries| || !entries[route[0]].isDirectory then None
    else
      var start := entries[route[0]].start;
      if |route| == 1 then Some(start)
      else if start !in c.dirs then None
      else Reach(c, c.dirs[start].entries, route[1..])
  }

  /** The directory sector at the end of a route from the root. */
  ghost function DirectoryAt(c: Catalogue, route: seq<nat>): Option<int>
    requires ROOT_SECTOR in c.dirs
  {
    if route == [] then Some(ROOT_SECTOR) else Reach(c, c.dirs[ROOT_SECTOR].entries, route)
  }

  /** No directory is reached twice, and every reachable one can be read. */
  ghost predicate IsReadableTree(c: Catalogue)
    requires ROOT_SECTOR in c.dirs
  {
    && (forall r :: DirectoryAt(c, r).Some? ==> DirectoryAt(c, r).value in c.dirs)
    && (forall p, q :: DirectoryAt(c, p).Some? && DirectoryAt(c, p) == DirectoryAt(c, q) ==> p == q)
  }

  predicate Structural(code: Code) {
    code == Cycle || code == Unreadable
  }

  ghost predicate Clean(st: State) {
    forall f :: f in st.findings ==> !Structural(f.code)
  }

  // ---- everything the walk builds only grows -----------------------------------------------------

  ghost predicate Grows(a: State, b: State) {
    a.findings <= b.findings && a.visits <= b.visits && a.used <= b.used && a.attempts <= b.attempts && a.seen <= b.seen
  }

  lemma {:induction false} WalkGrows(c: Catalogue, sector: int, names: seq<string>, entries: seq<Entry>, st: State)
    ensures Grows(st, WalkEntries(c, sector, names, entries, st))
    decreases c.dirs.Keys - st.seen, |entries|
  {
    if entries != [] {
      var next := Visited(c, sector, names, entries[0], st);
      assert c.dirs.Keys - next.seen <= c.dirs.Keys - st.seen;
      VisitGrows(c, sector, names, entries[0], st);
      WalkGrows(c, sector, names, entries[1..], next);
    }
  }

  /** The state in which the walk enters a directory it has not seen. */
  ghost function Entered(c: Catalogue, sector: int, names: seq<string>, e: Entry, st: State): State
  {
    Note(c, sector, names, e, st).(seen := st.seen + {e.start}, attempts := st.attempts + [e.start])
  }

  ghost predicate Descends(c: Catalogue, e: Entry, st: State) {
    e.isDirectory && e.start !in st.seen && e.start in c.dirs
  }

  lemma EnteredIsSmaller(c: Catalogue, sector: int, names: seq<string>, e: Entry, st: State)
    requires Descends(c, e, st)
    ensures c.dirs.Keys - Entered(c, sector, names, e, st).seen < c.dirs.Keys - st.seen
    ensures Visited(c, sector, names, e, st) ==
            WalkEntries(c, e.start, names + [e.name], c.dirs[e.start].entries, Entered(c, sector, names, e, st))
  {
  }

  lemma {:induction false} VisitGrows(c: Catalogue, sector: int, names: seq<string>, e: Entry, st: State)
    ensures Grows(st, Visited(c, sector, names, e, st))
    ensures Visit(sector, names, e) in Visited(c, sector, names, e, st).visits
    decreases c.dirs.Keys - st.seen, 0
  {
    assert Visit(sector, names, e) in Note(c, sector, names, e, st).visits;
    if Descends(c, e, st) {
      EnteredIsSmaller(c, sector, names, e, st);
      WalkGrows(c, e.start, names + [e.name], c.dirs[e.start].entries, Entered(c, sector, names, e, st));
    }
  }

  lemma CleanEarlier(a: State, b: State)
    requires Grows(a, b) && Clean(b)
    ensures Clean(a)
  {
  }

  // ---- no sector is read twice -------------------------------------------------------------------

  ghost predicate ReadOnce(st: State) {
    && (forall s :: s in st.attempts <==> s in st.seen)
    && (forall i, j :: 0 <= i < j < |st.attempts| ==> st.attempts[i] != st.attempts[j])
  }

  lemma {:induction false} WalkReadsOnce(c: Catalogue, sector: int, names: seq<string>, entries: seq<Entry>, st: State)
    requires ReadOnce(st)
    ensures ReadOnce(WalkEntries(c, sector, names, entries, st))
    decreases c.dirs.Keys - st.seen, |entries|
  {
    if entries != [] {
      var next := Visited(c, sector, names, entries[0], st);
      assert c.dirs.Keys - next.seen <= c.dirs.Keys - st.seen;
      VisitReadsOnce(c, sector, names, entries[0], st);
      WalkReadsOnce(c, sector, names, entries[1..], next);
    }
  }

  lemma {:induction false} VisitReadsOnce(c: Catalogue, sector: int, names: seq<string>, e: Entry, st: State)
    requires ReadOnce(st)
    ensures ReadOnce(Visited(c, sector, names, e, st))
    decreases c.dirs.Keys - st.seen, 0
  {
    if e.isDirectory && e.start !in st.seen {
      var entered := Entered(c, sector, names, e, st);
      assert ReadOnce(entered);
      if e.start in c.dirs {
        EnteredIsSmaller(c, sector, names, e, st);
        WalkReadsOnce(c, e.start, names + [e.name], c.dirs[e.start].entries, entered);
      }
    }
  }

  /** Each directory sector is read at most once, cyclic graph or not. */
  lemma EachSectorReadOnce(c: Catalogue)
    requires ROOT_SECTOR in c.dirs
    ensures forall i, j :: 0 <= i < j < |Walk(c).attempts| ==> Walk(c).attempts[i] != Walk(c).attempts[j]
  {
    WalkReadsOnce(c, ROOT_SECTOR, ["$"], c.dirs[ROOT_SECTOR].entries, START);
  }

  // ---- every reachable entry is examined ---------------------------------------------------------

  ghost predicate Examined(st: State, sector: int, e: Entry) {
    exists v :: v in st.visits && v.sector == sector && v.entry == e
  }

  ghost predicate AllExamined(c: Catalogue, st: State, sector: int)
    requires sector in c.dirs
  {
    forall e :: e in c.dirs[sector].entries ==> Examined(st, sector, e)
  }

  lemma ExaminedLater(a: State, b: State, sector: int, e: Entry)
    requires Grows(a, b) && Examined(a, sector, e)
    ensures Examined(b, sector, e)
  {
  }

  lemma {:induction false} WalkExamines(c: Catalogue, sector: int, names: seq<string>, entries: seq<Entry>, st: State)
    ensures forall e :: e in entries ==> Examined(WalkEntries(c, sector, names, entries, st), sector, e)
    ensures forall s :: s in WalkEntries(c, sector, names, entries, st).seen - st.seen && s in c.dirs ==>
                          AllExamined(c, WalkEntries(c, sector, names, entries, st), s)
    decreases c.dirs.Keys - st.seen, |entries|
  {
    if entries != [] {
      var next := Visited(c, sector, names, entries[0], st);
      var r := WalkEntries(c, sector, names, entries, st);
      assert c.dirs.Keys - next.seen <= c.dirs.Keys - st.seen;
      VisitExamines(c, sector, names, entries[0], st);
      WalkExamines(c, sector, names, entries[1..], next);
      WalkGrows(c, sector, names, entries[1..], next);
      forall s | s in r.seen - st.seen && s in c.dirs
        ensures AllExamined(c, r, s)
      {
        forall e | e in c.dirs[s].entries && s in next.seen
          ensures Examined(r, s, e)
        {
          ExaminedLater(next, r, s, e);
        }
      }
      ExaminedLater(next, r, sector, entries[0]);
      assert forall e :: e in entries ==> e == entries[0] || e in entries[1..];
    }
  }

  lemma {:induction false} VisitExamines(c: Catalogue, sector: int, names: seq<string>, e: Entry, st: State)
    ensures Examined(Visited(c, sector, names, e, st), sector, e)
    ensures forall s :: s in Visited(c, sector, names, e, st).seen - st.seen && s in c.dirs ==>
                          AllExamined(c, Visited(c, sector, names, e, st), s)
    decreases c.dirs.Keys - st.seen, 0
  {
    VisitGrows(c, sector, names, e, st);
    if Descends(c, e, st) {
      EnteredIsSmaller(c, sector, names, e, st);
      WalkExamines(c, e.start, names + [e.name], c.dirs[e.start].entries, Entered(c, sector, names, e, st));
    }
  }

  /** An examined directory entry leaves its sector seen. */
  ghost predicate TargetsSeen(st: State) {
    forall v :: v in st.visits && v.entry.isDirectory ==> v.entry.start in st.seen
  }

  lemma {:induction false} WalkSeesTargets(c: Catalogue, sector: int, names: seq<string>, entries: seq<Entry>,
      st: State)
    requires TargetsSeen(st)
    ensures TargetsSeen(WalkEntries(c, sector, names, entries, st))
    decreases c.dirs.Keys - st.seen, |entries|
  {
    if entries != [] {
      var e := entries[0];
      var next := Visited(c, sector, names, e, st);
      assert c.dirs.Keys - next.seen <= c.dirs.Keys - st.seen;
      if Descends(c, e, st) {
        EnteredIsSmaller(c, sector, names, e, st);
        WalkSeesTargets(c, e.start, names + [e.name], c.dirs[e.start].entries, Entered(c, sector, names, e, st));
      }
      WalkSeesTargets(c, sector, names, entries[1..], next);
    }
  }

  lemma {:induction false} ReachIsSeen(c: Catalogue, entries: seq<Entry>, sector: int, st: State, route: seq<nat>)
    requires TargetsSeen(st)
    requires forall s :: s in st.seen && s in c.dirs ==> AllExamined(c, st, s)
    requires forall e :: e in entries ==> Examined(st, sector, e)
    requires Reach(c, entries, route).Some?
    ensures Reach(c, entries, route).value in st.seen
    decreases |route|
  {
    var e := entries[route[0]];
    assert Examined(st, sector, e);
    if |route| > 1 {
      ReachIsSeen(c, c.dirs[e.start].entries, e.start, st, route[1..]);
    }
  }

  /** Whatever the graph, cyclic and aliased ones included, every entry of every directory that can
      be reached from the root is examined. */
  lemma EveryReachableEntryExamined(c: Catalogue, route: seq<nat>)
    requires ROOT_SECTOR in c.dirs
    requires DirectoryAt(c, route).Some? && DirectoryAt(c, route).value in c.dirs
    ensures AllExamined(c, Walk(c), DirectoryAt(c, route).value)
  {
    var root := c.dirs[ROOT_SECTOR].entries;
    WalkExamines(c, ROOT_SECTOR, ["$"], root, START);
    WalkSeesTargets(c, ROOT_SECTOR, ["$"], root, START);
    if route != [] {
      ReachIsSeen(c, root, ROOT_SECTOR, Walk(c), route);
    }
  }

  // ---- silence means the graph is a tree, and only then -------------------------------------------

  function Shifted(route: seq<nat>): seq<nat>
    requires route != [] && route[0] > 0
  {
    [route[0] - 1] + route[1..]
  }

  lemma ReachShifted(c: Catalogue, entries: seq<Entry>, route: seq<nat>)
    requires entries != [] && route != [] && route[0] > 0
    ensures Reach(c, entries, route) == Reach(c, entries[1..], Shifted(route))
  {
  }

  /** In a clean walk what a route reaches is newly seen, and readable. */
  lemma {:induction false} ReachFresh(c: Catalogue, sector: int, names: seq<string>, entries: seq<Entry>, st: State,
      route: seq<nat>)
    requires Clean(WalkEntries(c, sector, names, entries, st))
    requires Reach(c, entries, route).Some?
    ensures Reach(c, entries, route).value in WalkEntries(c, sector, names, entries, st).seen - st.seen
    ensures Reach(c, entries, route).value in c.dirs
    decreases |route|, route[0]
  {
    var e := entries[0];
    var next := Visited(c, sector, names, e, st);
    WalkGrows(c, sector, names, entries[1..], next);
    CleanEarlier(next, WalkEntries(c, sector, names, entries, st));
    if route[0] == 0 {
      CleanDescends(c, sector, names, e, st);
      EnteredIsSmaller(c, sector, names, e, st);
      WalkGrows(c, e.start, names + [e.name], c.dirs[e.start].entries, Entered(c, sector, names, e, st));
      if |route| > 1 {
        ReachFresh(c, e.start, names + [e.name], c.dirs[e.start].entries, Entered(c, sector, names, e, st), route[1..]);
      }
    } else {
      ReachShifted(c, entries, route);
      ReachFresh(c, sector, names, entries[1..], next, Shifted(route));
    }
  }

  lemma CleanDescends(c: Catalogue, sector: int, names: seq<string>, e: Entry, st: State)
    requires e.isDirectory && Clean(Visited(c, sector, names, e, st))
    ensures Descends(c, e, st)
  {
  }

  lemma {:induction false} ReachInjective(c: Catalogue, sector: int, names: seq<string>, entries: seq<Entry>,
      st: State, p: seq<nat>, q: seq<nat>)
    requires Clean(WalkEntries(c, sector, names, entries, st))
    requires Reach(c, entries, p).Some? && Reach(c, entries, p) == Reach(c, entries, q)
    ensures p == q
    decreases |p|, p[0]
  {
    var e := entries[0];
    var next := Visited(c, sector, names, e, st);
    WalkGrows(c, sector, names, entries[1..], next);
    CleanEarlier(next, WalkEntries(c, sector, names, entries, st));
    ReachSide(c, sector, names, entries, st, p);
    ReachSide(c, sector, names, entries, st, q);
    if p[0] == 0 {
      CleanDescends(c, sector, names, e, st);
      EnteredIsSmaller(c, sector, names, e, st);
      if |p| > 1 && |q| > 1 {
        ReachInjective(c, e.start, names + [e.name], c.dirs[e.start].entries, Entered(c, sector, names, e, st),
          p[1..], q[1..]);
        assert p == [p[0]] + p[1..] && q == [q[0]] + q[1..];
      }
    } else {
      ReachShifted(c, entries, p);
      ReachShifted(c, entries, q);
      ReachInjective(c, sector, names, entries[1..], next, Shifted(p), Shifted(q));
      assert p == [Shifted(p)[0] + 1] + Shifted(p)[1..] && q == [Shifted(q)[0] + 1] + Shifted(q)[1..];
    }
  }

  /** Which of the three disjoint parts of the newly seen sectors a route ends in. */
  lemma ReachSide(c: Catalogue, sector: int, names: seq<string>, entries: seq<Entry>, st: State, p: seq<nat>)
    requires Clean(WalkEntries(c, sector, names, entries, st))
    requires Reach(c, entries, p).Some?
    ensures p[0] == 0 <==> Reach(c, entries, p).value in Visited(c, sector, names, entries[0], st).seen
    ensures p[0] == 0 ==> (|p| == 1 <==> Reach(c, entries, p).value == entries[0].start)
  {
    var e := entries[0];
    var next := Visited(c, sector, names, e, st);
    WalkGrows(c, sector, names, entries[1..], next);
    CleanEarlier(next, WalkEntries(c, sector, names, entries, st));
    if p[0] == 0 {
      CleanDescends(c, sector, names, e, st);
      EnteredIsSmaller(c, sector, names, e, st);
      var entered := Entered(c, sector, names, e, st);
      WalkGrows(c, e.start, names + [e.name], c.dirs[e.start].entries, entered);
      if |p| > 1 {
        ReachFresh(c, e.start, names + [e.name], c.dirs[e.start].entries, entered, p[1..]);
      }
    } else {
      ReachShifted(c, entries, p);
      ReachFresh(c, sector, names, entries[1..], next, Shifted(p));
    }
  }

  /** Every newly seen sector is at the end of some route. */
  lemma {:induction false} SeenHasRoute(c: Catalogue, sector: int, names: seq<string>, entries: seq<Entry>, st: State,
      s: int)
    returns (route: seq<nat>)
    requires s in WalkEntries(c, sector, names, entries, st).seen - st.seen
    ensures Reach(c, entries, route) == Some(s)
    ensures s in Visited(c, sector, names, entries[0], st).seen ==> route[0] == 0
    decreases c.dirs.Keys - st.seen, |entries|
  {
    var e := entries[0];
    var next := Visited(c, sector, names, e, st);
    assert c.dirs.Keys - next.seen <= c.dirs.Keys - st.seen;
    if s in next.seen {
      if s == e.start {
        route := [0];
      } else {
        EnteredIsSmaller(c, sector, names, e, st);
        var inner := SeenHasRoute(c, e.start, names + [e.name], c.dirs[e.start].entries,
          Entered(c, sector, names, e, st), s);
        route := [0] + inner;
        assert route[1..] == inner;
      }
    } else {
      var later := SeenHasRoute(c, sector, names, entries[1..], next, s);
      route := [later[0] + 1] + later[1..];
      assert Shifted(route) == later;
      ReachShifted(c, entries, route);
    }
  }

  /** All routes from here are readable, lead to unseen sectors, and never meet. */
  ghost predicate FreshTree(c: Catalogue, entries: seq<Entry>, st: State) {
    && (forall r :: Reach(c, entries, r).Some? ==>
          Reach(c, entries, r).value in c.dirs && Reach(c, entries, r).value !in st.seen)
    && (forall p, q :: Reach(c, entries, p).Some? && Reach(c, entries, p) == Reach(c, entries, q) ==> p == q)
  }

  lemma FreshTreeBelow(c: Catalogue, sector: int, names: seq<string>, entries: seq<Entry>, st: State)
    requires entries != [] && entries[0].isDirectory && FreshTree(c, entries, st)
    ensures Descends(c, entries[0], st)
    ensures FreshTree(c, c.dirs[entries[0].start].entries, Entered(c, sector, names, entries[0], st))
  {
    var e := entries[0];
    assert Reach(c, entries, [0]) == Some(e.start);
    var below := c.dirs[e.start].entries;
    forall r | Reach(c, below, r).Some?
      ensures Reach(c, entries, [0] + r) == Reach(c, below, r) && [0] + r != [0]
    {
      assert ([0] + r)[1..] == r;
    }
    forall p, q | Reach(c, below, p).Some? && Reach(c, below, p) == Reach(c, below, q)
      ensures p == q
    {
      assert Reach(c, entries, [0] + p) == Reach(c, entries, [0] + q);
      assert p == ([0] + p)[1..] && q == ([0] + q)[1..];
    }
  }

  /** A route past the first entry, and the same route with that entry put before it. */
  function Lengthened(route: seq<nat>): seq<nat>
    requires route != []
  {
    [route[0] + 1] + route[1..]
  }

  lemma ReachLengthened(c: Catalogue, entries: seq<Entry>, route: seq<nat>)
    requires entries != [] && Reach(c, entries[1..], route).Some?
    ensures Reach(c, entries, Lengthened(route)) == Reach(c, entries[1..], route)
    ensures Shifted(Lengthened(route)) == route
  {
    ReachShifted(c, entries, Lengthened(route));
  }

  lemma FreshAfter(c: Catalogue, sector: int, names: seq<string>, entries: seq<Entry>, st: State, route: seq<nat>)
    requires entries != [] && FreshTree(c, entries, st) && Reach(c, entries[1..], route).Some?
    ensures Reach(c, entries[1..], route).value in c.dirs
    ensures Reach(c, entries[1..], route).value !in Visited(c, sector, names, entries[0], st).seen
  {
    hide Visited, WalkEntries;
    ReachLengthened(c, entries, route);
    var next, s := Visited(c, sector, names, entries[0], st), Reach(c, entries[1..], route).value;
    if s in next.seen {
      SeenLater(c, sector, names, entries, st, s);
      var other := SeenHasRoute(c, sector, names, entries, st, s);
      assert false;
    }
  }

  lemma SeenLater(c: Catalogue, sector: int, names: seq<string>, entries: seq<Entry>, st: State, s: int)
    requires entries != [] && s in Visited(c, sector, names, entries[0], st).seen
    ensures s in WalkEntries(c, sector, names, entries, st).seen
  {
    WalkGrows(c, sector, names, entries[1..], Visited(c, sector, names, entries[0], st));
  }

  lemma FreshTreeAfter(c: Catalogue, sector: int, names: seq<string>, entries: seq<Entry>, st: State)
    requires entries != [] && FreshTree(c, entries, st)
    ensures FreshTree(c, entries[1..], Visited(c, sector, names, entries[0], st))
  {
    hide Visited, Reach;
    forall r | Reach(c, entries[1..], r).Some?
      ensures Reach(c, entries[1..], r).value in c.dirs
      ensures Reach(c, entries[1..], r).value !in Visited(c, sector, names, entries[0], st).seen
    {
      FreshAfter(c, sector, names, entries, st, r);
    }
    forall p, q | Reach(c, entries[1..], p).Some? && Reach(c, entries[1..], p) == Reach(c, entries[1..], q)
      ensures p == q
    {
      RouteNonEmpty(c, entries[1..], p);
      RouteNonEmpty(c, entries[1..], q);
      ReachLengthened(c, entries, p);
      ReachLengthened(c, entries, q);
      assert Lengthened(p) == Lengthened(q);
      assert p == Shifted(Lengthened(p)) && q == Shifted(Lengthened(q));
    }
  }

  lemma RouteNonEmpty(c: Catalogue, entries: seq<Entry>, route: seq<nat>)
    requires Reach(c, entries, route).Some?
    ensures route != []
  {
  }

  lemma {:induction false} TreeIsClean(c: Catalogue, sector: int, names: seq<string>, entries: seq<Entry>, st: State)
    requires FreshTree(c, entries, st) && Clean(st)
    ensures Clean(WalkEntries(c, sector, names, entries, st))
    decreases c.dirs.Keys - st.seen, |entries|
  {
    if entries != [] {
      var e := entries[0];
      var next := Visited(c, sector, names, e, st);
      assert c.dirs.Keys - next.seen <= c.dirs.Keys - st.seen;
      assert Clean(Note(c, sector, names, e, st));
      if e.isDirectory {
        FreshTreeBelow(c, sector, names, entries, st);
        EnteredIsSmaller(c, sector, names, e, st);
        TreeIsClean(c, e.start, names + [e.name], c.dirs[e.start].entries, Entered(c, sector, names, e, st));
      }
      FreshTreeAfter(c, sector, names, entries, st);
      TreeIsClean(c, sector, names, entries[1..], next);
    }
  }

  /** The walk reports neither a cycle nor an unreadable directory exactly when the directories
      reachable from the root form a readable tree. */
  lemma CleanExactlyWhenTree(c: Catalogue)
    requires ROOT_SECTOR in c.dirs
    ensures Clean(Walk(c)) <==> IsReadableTree(c)
  {
    var root := c.dirs[ROOT_SECTOR].entries;
    if Clean(Walk(c)) {
      forall r | DirectoryAt(c, r).Some?
        ensures DirectoryAt(c, r).value in c.dirs
        ensures r != [] ==> DirectoryAt(c, r).value != ROOT_SECTOR
      {
        if r != [] {
          ReachFresh(c, ROOT_SECTOR, ["$"], root, START, r);
        }
      }
      forall p, q | DirectoryAt(c, p).Some? && DirectoryAt(c, p) == DirectoryAt(c, q)
        ensures p == q
      {
        if p != [] && q != [] {
          ReachInjective(c, ROOT_SECTOR, ["$"], root, START, p, q);
        }
      }
    }
    if IsReadableTree(c) {
      forall r | Reach(c, root, r).Some?
        ensures Reach(c, root, r).value in c.dirs && Reach(c, root, r).value !in START.seen
      {
        assert DirectoryAt(c, r) == Reach(c, root, r);
        assert DirectoryAt(c, []) == Some(ROOT_SECTOR);
        assert Reach(c, root, []) == None;
      }
      forall p, q | Reach(c, root, p).Some? && Reach(c, root, p) == Reach(c, root, q)
        ensures p == q
      {
        assert DirectoryAt(c, p) == DirectoryAt(c, q);
      }
      TreeIsClean(c, ROOT_SECTOR, ["$"], root, START);
    }
  }

  // ---- the walk's output is determined by what it examined ----------------------------------------

  ghost function UsedOf(c: Catalogue, visits: seq<Visit>): seq<Extent> {
    if visits == [] then []
    else
      var last := visits[|visits| - 1];
      UsedOf(c, visits[..|visits| - 1]) + EntryExtent(c, last.names, last.entry)
  }

  ghost predicate Warns(c: Catalogue, v: Visit, f: Finding) {
    EntryWarning(c, v.entry) == [f.code] && f.path == Child(Join(v.names), v.entry.name)
  }

  /** The used list concatenates the extents of the examined entries, in order, and the repairable
      warnings are exactly those the examined entries earn. */
  ghost predicate Recorded(c: Catalogue, st: State) {
    && st.used == START.used + UsedOf(c, st.visits)
    && (forall f :: f in st.findings && !Structural(f.code) <==> exists v :: v in st.visits && Warns(c, v, f))
  }

  lemma NoteRecorded(c: Catalogue, sector: int, names: seq<string>, e: Entry, st: State)
    requires Recorded(c, st)
    ensures Recorded(c, Note(c, sector, names, e, st))
  {
    var noted, v := Note(c, sector, names, e, st), Visit(sector, names, e);
    assert noted.visits[..|noted.visits| - 1] == st.visits;
    assert START.used + (UsedOf(c, st.visits) + EntryExtent(c, names, e)) == noted.used;
    assert v in noted.visits && forall u :: u in st.visits ==> u in noted.visits;
    forall f
      ensures f in noted.findings && !Structural(f.code) <==> exists u :: u in noted.visits && Warns(c, u, f)
    {
      assert f in noted.findings && !Structural(f.code) <==>
               (f in st.findings && !Structural(f.code)) || Warns(c, v, f);
      if u :| u in noted.visits && Warns(c, u, f) {
        assert u in st.visits || u == v;
      }
    }
  }

  lemma StructuralRecorded(c: Catalogue, st: State, r: State, f: Finding)
    requires Recorded(c, st) && Structural(f.code)
    requires r.used == st.used && r.visits == st.visits
             && (r.findings == st.findings || r.findings == st.findings + [f])
    ensures Recorded(c, r)
  {
  }

  lemma {:induction false} WalkRecorded(c: Catalogue, sector: int, names: seq<string>, entries: seq<Entry>, st: State)
    requires Recorded(c, st)
    ensures Recorded(c, WalkEntries(c, sector, names, entries, st))
    decreases c.dirs.Keys - st.seen, |entries|
  {
    if entries != [] {
      var e := entries[0];
      var next := Visited(c, sector, names, e, st);
      assert c.dirs.Keys - next.seen <= c.dirs.Keys - st.seen;
      var noted := Note(c, sector, names, e, st);
      NoteRecorded(c, sector, names, e, st);
      var path := Child(Join(names), e.name);
      if Descends(c, e, st) {
        EnteredIsSmaller(c, sector, names, e, st);
        var entered := Entered(c, sector, names, e, st);
        StructuralRecorded(c, noted, entered, Finding(Cycle, path));
        WalkRecorded(c, e.start, names + [e.name], c.dirs[e.start].entries, entered);
      } else {
        StructuralRecorded(c, noted, next, Finding(if e.start in st.seen then Cycle else Unreadable, path));
      }
      WalkRecorded(c, sector, names, entries[1..], next);
    }
  }

  lemma WalkOutputIsVisits(c: Catalogue)
    requires ROOT_SECTOR in c.dirs
    ensures Recorded(c, Walk(c))
  {
    assert START.used + UsedOf(c, []) == START.used;
    WalkRecorded(c, ROOT_SECTOR, ["$"], c.dirs[ROOT_SECTOR].entries, START);
  }

  // ---- where the examined entries are ---------------------------------------------------------------

  /** The names along a route from a list of entries. */
  ghost function NamesAlong(c: Catalogue, entries: seq<Entry>, route: seq<nat>): seq<string>
    requires Reach(c, entries, route).Some?
    decreases |route|
  {
    var e := entries[route[0]];
    [e.name] + if |route| == 1 then [] else NamesAlong(c, c.dirs[e.start].entries, route[1..])
  }

  /** The names from the root down to a directory, the root's own first. */
  ghost function NamesTo(c: Catalogue, route: seq<nat>): seq<string>
    requires ROOT_SECTOR in c.dirs && DirectoryAt(c, route).Some?
  {
    ["$"] + if route == [] then [] else NamesAlong(c, c.dirs[ROOT_SECTOR].entries, route)
  }

  /** Entry `e` is in the readable directory that a route leads to. */
  ghost predicate HeldAt(c: Catalogue, route: seq<nat>, e: Entry)
    requires ROOT_SECTOR in c.dirs
  {
    DirectoryAt(c, route).Some? && DirectoryAt(c, route).value in c.dirs
    && e in c.dirs[DirectoryAt(c, route).value].entries
  }

  /** An entry that can be reached from the root under this dotted path. */
  ghost predicate ReachableAs(c: Catalogue, e: Entry, path: string)
    requires ROOT_SECTOR in c.dirs
  {
    exists route :: HeldAt(c, route, e) && path == Join(NamesTo(c, route)) + "." + e.name
  }

  /** A visit of this directory, or of one that some route from it leads to. */
  ghost predicate Traced(c: Catalogue, sector: int, names: seq<string>, entries: seq<Entry>, v: Visit) {
    || (v.sector == sector && v.names == names && v.entry in entries)
    || exists route :: TracedBy(c, names, entries, v, route)
  }

  ghost predicate TracedBy(c: Catalogue, names: seq<string>, entries: seq<Entry>, v: Visit, route: seq<nat>) {
    && Reach(c, entries, route) == Some(v.sector) && v.sector in c.dirs && v.entry in c.dirs[v.sector].entries
    && v.names == names + NamesAlong(c, entries, route)
  }

  lemma TracedBelow(c: Catalogue, sector: int, names: seq<string>, entries: seq<Entry>, v: Visit)
    requires entries != [] && entries[0].isDirectory && entries[0].start in c.dirs
    requires var e := entries[0]; Traced(c, e.start, names + [e.name], c.dirs[e.start].entries, v)
    ensures Traced(c, sector, names, entries, v)
  {
    var e := entries[0];
    var below := c.dirs[e.start].entries;
    if v.sector == e.start && v.names == names + [e.name] && v.entry in below {
      assert TracedBy(c, names, entries, v, [0]);
    } else {
      var route :| TracedBy(c, names + [e.name], below, v, route);
      var whole := [0] + route;
      assert whole[1..] == route;
      assert NamesAlong(c, entries, whole) == [e.name] + NamesAlong(c, below, route);
      assert names + [e.name] + NamesAlong(c, below, route) == names + ([e.name] + NamesAlong(c, below, route));
      assert TracedBy(c, names, entries, v, whole);
    }
  }

  lemma TracedAfter(c: Catalogue, sector: int, names: seq<string>, entries: seq<Entry>, v: Visit)
    requires entries != [] && Traced(c, sector, names, entries[1..], v)
    ensures Traced(c, sector, names, entries, v)
  {
    if !(v.sector == sector && v.names == names && v.entry in entries[1..]) {
      var route :| TracedBy(c, names, entries[1..], v, route);
      var whole := [route[0] + 1] + route[1..];
      assert Shifted(whole) == route;
      ReachShifted(c, entries, whole);
      assert NamesAlong(c, entries, whole) == NamesAlong(c, entries[1..], route);
      assert TracedBy(c, names, entries, v, whole);
    }
  }

  lemma {:induction false} WalkTraces(c: Catalogue, sector: int, names: seq<string>, entries: seq<Entry>, st: State,
      v: Visit)
    requires v in WalkEntries(c, sector, names, entries, st).visits && v !in st.visits
    ensures Traced(c, sector, names, entries, v)
    decreases c.dirs.Keys - st.seen, |entries|
  {
    var e := entries[0];
    var next := Visited(c, sector, names, e, st);
    assert c.dirs.Keys - next.seen <= c.dirs.Keys - st.seen;
    if v in next.visits {
      if v != Visit(sector, names, e) {
        EnteredIsSmaller(c, sector, names, e, st);
        WalkTraces(c, e.start, names + [e.name], c.dirs[e.start].entries, Entered(c, sector, names, e, st), v);
        TracedBelow(c, sector, names, entries, v);
      }
    } else {
      WalkTraces(c, sector, names, entries[1..], next, v);
      TracedAfter(c, sector, names, entries, v);
    }
  }

  /** Every visit is of an entry that some route leads to, under the names along it. */
  lemma VisitHasRoute(c: Catalogue, v: Visit) returns (route: seq<nat>)
    requires ROOT_SECTOR in c.dirs && v in Walk(c).visits
    ensures HeldAt(c, route, v.entry) && DirectoryAt(c, route) == Some(v.sector) && v.names == NamesTo(c, route)
  {
    var root := c.dirs[ROOT_SECTOR].entries;
    WalkTraces(c, ROOT_SECTOR, ["$"], root, START, v);
    if v.sector == ROOT_SECTOR && v.names == ["$"] && v.entry in root {
      route := [];
    } else {
      route :| TracedBy(c, ["$"], root, v, route);
    }
  }

  /** A warning is reported only for an entry that can be reached under its path and deserves it: a directory
      whose length is not that of a directory, or an empty file that claims a place. */
  lemma WarningsAreDeserved(c: Catalogue, path: string)
    requires ROOT_SECTOR in c.dirs
    ensures Finding(LengthUnusual, path) in Walk(c).findings ==>
              exists e :: ReachableAs(c, e, path) && e.isDirectory && e.length != c.dirBytes
    ensures Finding(EmptyHasExtent, path) in Walk(c).findings ==>
              exists e :: ReachableAs(c, e, path) && !e.isDirectory && e.length == 0 && e.start != 0
  {
    WalkOutputIsVisits(c);
    forall code | code in {LengthUnusual, EmptyHasExtent} && Finding(code, path) in Walk(c).findings
      ensures exists e :: ReachableAs(c, e, path) && EntryWarning(c, e) == [code]
    {
      var v :| v in Walk(c).visits && Warns(c, v, Finding(code, path));
      var route := VisitHasRoute(c, v);
      assert ReachableAs(c, v.entry, path);
    }
  }

  /** Whatever the graph, each entry that deserves a warning and can be reached has one, under a path by which
      it can be reached; on a readable tree, under every such path. */
  lemma DeservedIsWarned(c: Catalogue, route: seq<nat>, e: Entry)
    requires ROOT_SECTOR in c.dirs && HeldAt(c, route, e)
    ensures e.isDirectory && e.length != c.dirBytes ==>
              exists path :: ReachableAs(c, e, path) && Finding(LengthUnusual, path) in Walk(c).findings
    ensures !e.isDirectory && e.length == 0 && e.start != 0 ==>
              exists path :: ReachableAs(c, e, path) && Finding(EmptyHasExtent, path) in Walk(c).findings
    ensures IsReadableTree(c) ==> var path := Join(NamesTo(c, route)) + "." + e.name;
              && (e.isDirectory && e.length != c.dirBytes ==> Finding(LengthUnusual, path) in Walk(c).findings)
              && (!e.isDirectory && e.length == 0 && e.start != 0 ==>
                    Finding(EmptyHasExtent, path) in Walk(c).findings)
  {
    WalkOutputIsVisits(c);
    EveryReachableEntryExamined(c, route);
    assert Examined(Walk(c), DirectoryAt(c, route).value, e);
    var v :| v in Walk(c).visits && v.sector == DirectoryAt(c, route).value && v.entry == e;
    var other := VisitHasRoute(c, v);
    var path := Join(v.names) + "." + e.name;
    assert ReachableAs(c, e, path);
    if EntryWarning(c, e) != [] {
      assert Warns(c, v, Finding(EntryWarning(c, e)[0], path));
    }
    if IsReadableTree(c) {
      assert other == route;
    }
  }

  /** The sectors from `x.start` to `x.end` are those of this entry: as many as a directory has, or as few as
      hold the file. */
  ghost predicate ExtentOf(c: Catalogue, e: Entry, x: Extent) {
    && x.start == e.start
    && (e.isDirectory ==> x.end == e.start + c.dirSectors)
    && (!e.isDirectory ==> e.length > 0 && (x.end - x.start - 1) * 256 < e.length <= (x.end - x.start) * 256)
  }

  lemma {:induction false} ExtentsOfVisits(c: Catalogue, visits: seq<Visit>, x: Extent)
    ensures x in UsedOf(c, visits) <==>
              exists v :: v in visits && ExtentOf(c, v.entry, x) && x.owner == Join(v.names) + "." + v.entry.name
  {
    if visits != [] {
      var front, last := visits[..|visits| - 1], visits[|visits| - 1];
      ExtentsOfVisits(c, front, x);
      assert forall v :: v in visits <==> v in front || v == last;
      assert x in EntryExtent(c, last.names, last.entry) <==>
               ExtentOf(c, last.entry, x) && x.owner == Join(last.names) + "." + last.entry.name;
    }
  }

  /** Beyond the map and the root, the used extents are those of the entries that can be reached. */
  lemma ExtentsAreOfEntries(c: Catalogue, x: Extent)
    requires ROOT_SECTOR in c.dirs
    ensures x in Walk(c).used ==>
              x == Extent(0, 2, "ADFS free-space map") || x == Extent(2, 7, "$")
              || exists e :: ReachableAs(c, e, x.owner) && ExtentOf(c, e, x)
    ensures IsReadableTree(c) ==>
              forall e :: ReachableAs(c, e, x.owner) && ExtentOf(c, e, x) ==> x in Walk(c).used
  {
    WalkOutputIsVisits(c);
    ExtentsOfVisits(c, Walk(c).visits, x);
    if x in UsedOf(c, Walk(c).visits) {
      var v :| v in Walk(c).visits && ExtentOf(c, v.entry, x) && x.owner == Join(v.names) + "." + v.entry.name;
      var route := VisitHasRoute(c, v);
      assert ReachableAs(c, v.entry, x.owner);
    }
    forall e | IsReadableTree(c) && ReachableAs(c, e, x.owner) && ExtentOf(c, e, x)
      ensures x in Walk(c).used
    {
      var route :| HeldAt(c, route, e) && x.owner == Join(NamesTo(c, route)) + "." + e.name;
      var v := RouteHasVisit(c, route, e);
    }
  }

  /** On a readable tree every entry a route leads to is visited under the names along it. */
  lemma RouteHasVisit(c: Catalogue, route: seq<nat>, e: Entry) returns (v: Visit)
    requires ROOT_SECTOR in c.dirs && IsReadableTree(c) && HeldAt(c, route, e)
    ensures v in Walk(c).visits && v.entry == e && v.names == NamesTo(c, route)
  {
    EveryReachableEntryExamined(c, route);
    assert Examined(Walk(c), DirectoryAt(c, route).value, e);
    v :| v in Walk(c).visits && v.sector == DirectoryAt(c, route).value && v.entry == e;
    var other := VisitHasRoute(c, v);
    assert DirectoryAt(c, other) == DirectoryAt(c, route);
  }

  /** Each structural finding is about an examined directory entry, under its path: one met before, or one whose
      sector holds no readable directory. */
  ghost predicate Blamed(c: Catalogue, st: State) {
    forall f :: f in st.findings && Structural(f.code) ==> exists v :: v in st.visits && Blames(c, v, f)
  }

  ghost predicate Blames(c: Catalogue, v: Visit, f: Finding) {
    v.entry.isDirectory && f.path == Join(v.names) + "." + v.entry.name
    && (f.code == Unreadable ==> v.entry.start !in c.dirs)
  }

  lemma BlamedNext(c: Catalogue, sector: int, names: seq<string>, e: Entry, st: State)
    requires Blamed(c, st)
    ensures Blamed(c, Note(c, sector, names, e, st)) && Blamed(c, Entered(c, sector, names, e, st))
    ensures !Descends(c, e, st) ==> Blamed(c, Visited(c, sector, names, e, st))
  {
    var noted, v := Note(c, sector, names, e, st), Visit(sector, names, e);
    assert forall u :: u in st.visits ==> u in noted.visits;
    assert v in noted.visits;
    assert forall f :: f in noted.findings && Structural(f.code) ==> f in st.findings;
    if e.isDirectory && !Descends(c, e, st) {
      var f := Finding(if e.start in st.seen then Cycle else Unreadable, Child(Join(names), e.name));
      assert Blames(c, v, f);
    }
  }

  lemma {:induction false} WalkBlames(c: Catalogue, sector: int, names: seq<string>, entries: seq<Entry>, st: State)
    requires Blamed(c, st)
    ensures Blamed(c, WalkEntries(c, sector, names, entries, st))
    decreases c.dirs.Keys - st.seen, |entries|
  {
    if entries != [] {
      var e := entries[0];
      var next := Visited(c, sector, names, e, st);
      assert c.dirs.Keys - next.seen <= c.dirs.Keys - st.seen;
      BlamedNext(c, sector, names, e, st);
      if Descends(c, e, st) {
        EnteredIsSmaller(c, sector, names, e, st);
        WalkBlames(c, e.start, names + [e.name], c.dirs[e.start].entries, Entered(c, sector, names, e, st));
      }
      WalkBlames(c, sector, names, entries[1..], next);
    }
  }

  /** So such a finding names a directory that can be reached under its path. */
  lemma StructuralIsReachable(c: Catalogue, f: Finding)
    requires ROOT_SECTOR in c.dirs && f in Walk(c).findings && Structural(f.code)
    ensures exists e :: ReachableAs(c, e, f.path) && e.isDirectory && (f.code == Unreadable ==> e.start !in c.dirs)
  {
    WalkBlames(c, ROOT_SECTOR, ["$"], c.dirs[ROOT_SECTOR].entries, START);
    var v :| v in Walk(c).visits && Blames(c, v, f);
    var route := VisitHasRoute(c, v);
    assert ReachableAs(c, v.entry, f.path);
  }
}
