/** The two catalogue repairs: what they rewrite, and the walk of the rewritten catalogue. */
module CatalogueRepair {
  import opened Options
  import opened Paths
  import opened DirectoryWalk
  import opened WalkTheorems

  datatype Repair = ClearEmptyFiles | NormaliseLengths

  function Target(repair: Repair): Code {
    match repair
    case ClearEmptyFiles => EmptyHasExtent
    case NormaliseLengths => LengthUnusual
  }

  /** Whether an entry is of the kind the repair expects to find. */
  predicate Eligible(repair: Repair, e: Entry) {
    match repair
    case ClearEmptyFiles => !e.isDirectory && e.length == 0
    case NormaliseLengths => e.isDirectory
  }

  function Fixed(repair: Repair, c: Catalogue, e: Entry): Entry {
    match repair
    case ClearEmptyFiles => e.(start := 0)
    case NormaliseLengths => e.(length := c.dirBytes)
  }

  predicate NeedsFix(repair: Repair, c: Catalogue, e: Entry) {
    EntryWarning(c, e) == [Target(repair)]
  }

  function FixedIf(repair: Repair, c: Catalogue, e: Entry, selected: bool): Entry {
    if selected then Fixed(repair, c, e) else e
  }

  function NeedsOnly(repair: Repair, c: Catalogue, e: Entry): Entry {
    FixedIf(repair, c, e, NeedsFix(repair, c, e))
  }

  function FixEntries(repair: Repair, c: Catalogue, entries: seq<Entry>): seq<Entry> {
    seq(|entries|, i requires 0 <= i < |entries| => NeedsOnly(repair, c, entries[i]))
  }

  // ---- the walk of a repaired catalogue ------------------------------------------------------------

  /** Same structure, same geometry, and every directory of `sectors` with its faulty entries fixed. */
  ghost predicate RepairedOn(repair: Repair, c: Catalogue, c': Catalogue, sectors: set<int>) {
    && c'.dirSectors == c.dirSectors && c'.dirBytes == c.dirBytes
    && c'.dirs.Keys == c.dirs.Keys
    && forall s :: s in sectors && s in c.dirs ==> c'.dirs[s].entries == FixEntries(repair, c, c.dirs[s].entries)
  }

  /** The states agree except that the repaired findings are gone. */
  ghost predicate Cured(repair: Repair, st: State, st': State) {
    && st'.used == st.used && st'.seen == st.seen
    && forall f :: f in st'.findings <==> f in st.findings && f.code != Target(repair)
  }

  lemma NoteCured(repair: Repair, c: Catalogue, c': Catalogue, sector: int, names: seq<string>, e: Entry, st: State,
      st': State)
    requires Cured(repair, st, st') && c'.dirSectors == c.dirSectors && c'.dirBytes == c.dirBytes
    ensures Cured(repair, Note(c, sector, names, e, st), Note(c', sector, names, NeedsOnly(repair, c, e), st'))
  {
  }

  lemma {:induction false} WalkCured(repair: Repair, c: Catalogue, c': Catalogue, sector: int, names: seq<string>,
      entries: seq<Entry>, st: State, st': State)
    requires Cured(repair, st, st')
    requires RepairedOn(repair, c, c', WalkEntries(c, sector, names, entries, st).seen)
    ensures Cured(repair, WalkEntries(c, sector, names, entries, st), WalkEntries(c', sector, names,
              FixEntries(repair, c, entries), st'))
    decreases c.dirs.Keys - st.seen, |entries|
  {
    if entries != [] {
      var e, e' := entries[0], NeedsOnly(repair, c, entries[0]);
      var next, next' := Visited(c, sector, names, e, st), Visited(c', sector, names, e', st');
      assert c.dirs.Keys - next.seen <= c.dirs.Keys - st.seen;
      assert FixEntries(repair, c, entries)[0] == e' && FixEntries(repair, c, entries)[1..] == FixEntries(repair, c,
          entries[1..]);
      WalkGrows(c, sector, names, entries[1..], next);
      VisitCured(repair, c, c', sector, names, e, st, st');
      WalkCured(repair, c, c', sector, names, entries[1..], next, next');
    }
  }

  lemma {:induction false} VisitCured(repair: Repair, c: Catalogue, c': Catalogue, sector: int, names: seq<string>,
      e: Entry, st: State, st': State)
    requires Cured(repair, st, st')
    requires RepairedOn(repair, c, c', Visited(c, sector, names, e, st).seen)
    ensures Cured(repair, Visited(c, sector, names, e, st), Visited(c', sector, names, NeedsOnly(repair, c, e), st'))
    decreases c.dirs.Keys - st.seen, 0
  {
    var e' := NeedsOnly(repair, c, e);
    assert e'.isDirectory == e.isDirectory && e'.name == e.name && (e.isDirectory ==> e'.start == e.start);
    NoteCured(repair, c, c', sector, names, e, st, st');
    if Descends(c, e, st) {
      EnteredIsSmaller(c, sector, names, e, st);
      EnteredIsSmaller(c', sector, names, e', st');
      var entered := Entered(c, sector, names, e, st);
      WalkGrows(c, e.start, names + [e.name], c.dirs[e.start].entries, entered);
      WalkCured(repair, c, c', e.start, names + [e.name], c.dirs[e.start].entries, entered,
        Entered(c', sector, names, e', st'));
    }
  }

  /** Fixing the faulty entries of every visited directory leaves all extents, the shape of the tree
      and every other finding as they were, and removes exactly the repaired findings. */
  lemma RepairCuresWalk(repair: Repair, c: Catalogue, c': Catalogue)
    requires ROOT_SECTOR in c.dirs
    requires RepairedOn(repair, c, c', Walk(c).seen)
    ensures Cured(repair, Walk(c), Walk(c'))
  {
    var root := c.dirs[ROOT_SECTOR].entries;
    WalkGrows(c, ROOT_SECTOR, ["$"], root, START);
    WalkCured(repair, c, c', ROOT_SECTOR, ["$"], root, START, START);
  }

  // ---- from reported paths back to entries ----------------------------------------------------------

  function FindEntry(entries: seq<Entry>, folded: string): Option<Entry> {
    if entries == [] then None
    else if Fold(entries[0].name) == folded then Some(entries[0])
    else FindEntry(entries[1..], folded)
  }

  /** Oaknut's path resolution: names are matched regardless of case. */
  function Resolve(c: Catalogue, names: seq<string>): Option<int>
    decreases |names|
  {
    if names == [] then None
    else if |names| == 1 then (if names[0] == "$" && ROOT_SECTOR in c.dirs then Some(ROOT_SECTOR) else None)
    else
      var parent := Resolve(c, names[..|names| - 1]);
      if parent.None? || parent.value !in c.dirs then None
      else
        var e := FindEntry(c.dirs[parent.value].entries, Fold(names[|names| - 1]));
        if e.Some? && e.value.isDirectory && e.value.start in c.dirs then Some(e.value.start) else None
  }

  ghost predicate DistinctNames(entries: seq<Entry>) {
    && (forall e :: e in entries ==> DotFree(e.name))
    && (forall i, j :: 0 <= i < j < |entries| ==> Fold(entries[i].name) != Fold(entries[j].name))
  }

  /** Names hold no dot and are distinct within each directory, letter case ignored. */
  ghost predicate WellNamed(c: Catalogue) {
    forall s :: s in c.dirs ==> DistinctNames(c.dirs[s].entries)
  }

  lemma {:induction false} FindsEntry(entries: seq<Entry>, e: Entry)
    requires DistinctNames(entries) && e in entries
    ensures FindEntry(entries, Fold(e.name)) == Some(e)
  {
    var i :| 0 <= i < |entries| && entries[i] == e;
    if i > 0 {
      assert entries[1..][i - 1] == e;
      forall a, b | 0 <= a < b < |entries[1..]|
        ensures Fold(entries[1..][a].name) != Fold(entries[1..][b].name)
      {
        assert Fold(entries[a + 1].name) != Fold(entries[b + 1].name);
      }
      FindsEntry(entries[1..], e);
    }
  }

  lemma SameNameSameEntry(entries: seq<Entry>, a: Entry, b: Entry)
    requires DistinctNames(entries) && a in entries && b in entries && Fold(a.name) == Fold(b.name)
    ensures a == b
  {
  }

  /** A visit's components resolve to the directory it was made in. */
  ghost predicate VisitResolves(c: Catalogue, st: State, v: Visit) {
    && AllDotFree(v.names) && v.names != []
    && Resolve(c, v.names) == Some(v.sector)
    && v.sector in c.dirs && v.sector in st.seen
    && v.entry in c.dirs[v.sector].entries
  }

  ghost predicate AllResolve(c: Catalogue, st: State) {
    forall v :: v in st.visits ==> VisitResolves(c, st, v)
  }

  ghost predicate AtDirectory(c: Catalogue, sector: int, names: seq<string>, st: State) {
    AllDotFree(names) && names != [] && Resolve(c, names) == Some(sector) && sector in c.dirs && sector in st.seen
  }

  lemma AtChild(c: Catalogue, sector: int, names: seq<string>, e: Entry, st: State)
    requires WellNamed(c) && AtDirectory(c, sector, names, st) && e in c.dirs[sector].entries && Descends(c, e, st)
    ensures AtDirectory(c, e.start, names + [e.name], Entered(c, sector, names, e, st))
  {
    var below := names + [e.name];
    assert below[..|below| - 1] == names;
    FindsEntry(c.dirs[sector].entries, e);
  }

  lemma {:induction false} WalkResolves(c: Catalogue, sector: int, names: seq<string>, entries: seq<Entry>, st: State)
    requires WellNamed(c) && AtDirectory(c, sector, names, st) && AllResolve(c, st)
    requires forall e :: e in entries ==> e in c.dirs[sector].entries
    ensures AllResolve(c, WalkEntries(c, sector, names, entries, st))
    decreases c.dirs.Keys - st.seen, |entries|
  {
    if entries != [] {
      var e := entries[0];
      var next := Visited(c, sector, names, e, st);
      assert c.dirs.Keys - next.seen <= c.dirs.Keys - st.seen;
      assert AllResolve(c, Note(c, sector, names, e, st));
      if Descends(c, e, st) {
        EnteredIsSmaller(c, sector, names, e, st);
        AtChild(c, sector, names, e, st);
        WalkResolves(c, e.start, names + [e.name], c.dirs[e.start].entries, Entered(c, sector, names, e, st));
      }
      assert AllResolve(c, next);
      WalkResolves(c, sector, names, entries[1..], next);
    }
  }

  /** The paths the walk reports under one code. */
  ghost function WarnPaths(c: Catalogue, code: Code): set<string>
    requires ROOT_SECTOR in c.dirs
  {
    set f | f in Walk(c).findings && f.code == code :: f.path
  }

  function LastName(path: string): string {
    Split(path)[|Split(path)| - 1]
  }

  function ParentOf(c: Catalogue, path: string): Option<int> {
    Resolve(c, Split(path)[..|Split(path)| - 1])
  }

  /** The folded names a set of paths selects inside the directory at sector `s`. */
  function NamesAt(c: Catalogue, paths: set<string>, s: int): set<string> {
    set p | p in paths && ParentOf(c, p) == Some(s) :: Fold(LastName(p))
  }

  ghost predicate TargetsValid(repair: Repair, c: Catalogue, paths: set<string>) {
    && (forall p :: p in paths ==> ParentOf(c, p).Some? && ParentOf(c, p).value in c.dirs)
    && (forall s, e :: s in c.dirs && e in c.dirs[s].entries && Fold(e.name) in NamesAt(c, paths, s) ==>
          Eligible(repair, e))
    && (forall s, n :: s in c.dirs && n in NamesAt(c, paths, s) ==>
          exists e :: e in c.dirs[s].entries && Fold(e.name) == n)
  }

  /** A reported path names its visit: same parent directory, same last component. */
  lemma VisitPath(c: Catalogue, st: State, v: Visit)
    requires VisitResolves(c, st, v) && DotFree(v.entry.name)
    ensures ParentOf(c, Child(Join(v.names), v.entry.name)) == Some(v.sector)
    ensures LastName(Child(Join(v.names), v.entry.name)) == v.entry.name
  {
    SplitChild(Join(v.names), v.entry.name);
    SplitJoin(v.names);
    SplitDotFree(v.entry.name);
    assert (v.names + [v.entry.name])[..|v.names|] == v.names;
  }

  lemma WarnedVisit(c: Catalogue, repair: Repair, path: string) returns (v: Visit)
    requires ROOT_SECTOR in c.dirs && WellNamed(c) && path in WarnPaths(c, Target(repair))
    ensures v in Walk(c).visits && NeedsFix(repair, c, v.entry)
    ensures VisitResolves(c, Walk(c), v)
    ensures ParentOf(c, path) == Some(v.sector) && LastName(path) == v.entry.name
  {
    WalkOutputIsVisits(c);
    WalkVisitsResolve(c);
    var f :| f in Walk(c).findings && f.code == Target(repair) && f.path == path;
    v :| v in Walk(c).visits && Warns(c, v, f);
    VisitPath(c, Walk(c), v);
  }

  lemma WalkVisitsResolve(c: Catalogue)
    requires ROOT_SECTOR in c.dirs && WellNamed(c)
    ensures AllResolve(c, Walk(c))
  {
    WalkResolves(c, ROOT_SECTOR, ["$"], c.dirs[ROOT_SECTOR].entries, START);
  }

  /** Conversely a faulty entry of a visited directory is among the reported paths. */
  lemma FaultIsReported(c: Catalogue, repair: Repair, s: int, e: Entry)
    requires ROOT_SECTOR in c.dirs && WellNamed(c)
    requires s in Walk(c).seen && s in c.dirs && e in c.dirs[s].entries && NeedsFix(repair, c, e)
    ensures Fold(e.name) in NamesAt(c, WarnPaths(c, Target(repair)), s)
  {
    WalkOutputIsVisits(c);
    WalkVisitsResolve(c);
    WalkExamines(c, ROOT_SECTOR, ["$"], c.dirs[ROOT_SECTOR].entries, START);
    assert AllExamined(c, Walk(c), s);
    var v :| v in Walk(c).visits && v.sector == s && v.entry == e;
    VisitPath(c, Walk(c), v);
    var f := Finding(Target(repair), Child(Join(v.names), e.name));
    assert Warns(c, v, f);
    assert f in Walk(c).findings && f.path in WarnPaths(c, Target(repair));
  }

  /** In a visited directory the reported names select exactly the faulty entries; in any other
      directory they select nothing. */
  lemma NamesSelectFaults(c: Catalogue, repair: Repair, s: int, e: Entry)
    requires ROOT_SECTOR in c.dirs && WellNamed(c) && s in c.dirs && e in c.dirs[s].entries
    ensures Fold(e.name) in NamesAt(c, WarnPaths(c, Target(repair)), s) <==> s in Walk(c).seen && NeedsFix(repair, c, e)
  {
    var paths := WarnPaths(c, Target(repair));
    if Fold(e.name) in NamesAt(c, paths, s) {
      var p :| p in paths && ParentOf(c, p) == Some(s) && Fold(LastName(p)) == Fold(e.name);
      var v := WarnedVisit(c, repair, p);
      SameNameSameEntry(c.dirs[s].entries, e, v.entry);
    }
    if s in Walk(c).seen && NeedsFix(repair, c, e) {
      FaultIsReported(c, repair, s, e);
    }
  }

  lemma ReportedTargetsValid(c: Catalogue, repair: Repair)
    requires ROOT_SECTOR in c.dirs && WellNamed(c)
    ensures TargetsValid(repair, c, WarnPaths(c, Target(repair)))
  {
    var paths := WarnPaths(c, Target(repair));
    forall p | p in paths
      ensures ParentOf(c, p).Some? && ParentOf(c, p).value in c.dirs
    {
      var v := WarnedVisit(c, repair, p);
    }
    forall s, e | s in c.dirs && e in c.dirs[s].entries && Fold(e.name) in NamesAt(c, paths, s)
      ensures Eligible(repair, e)
    {
      NamesSelectFaults(c, repair, s, e);
    }
    forall s, n | s in c.dirs && n in NamesAt(c, paths, s)
      ensures exists e :: e in c.dirs[s].entries && Fold(e.name) == n
    {
      var p :| p in paths && ParentOf(c, p) == Some(s) && Fold(LastName(p)) == n;
      var v := WarnedVisit(c, repair, p);
    }
  }

  // ---- the rewrite itself ---------------------------------------------------------------------------

  function Rewritten(repair: Repair, c: Catalogue, entries: seq<Entry>, names: set<string>): seq<Entry> {
    seq(|entries|, i requires 0 <= i < |entries| => FixedIf(repair, c, entries[i], Fold(entries[i].name) in names))
  }

  /** Every directory in which a path is selected gets its entries rewritten and its sequence number
      advanced; every other directory is kept. */
  ghost function RewrittenCatalogue(repair: Repair, c: Catalogue, paths: set<string>): Catalogue {
    c.(dirs := map s | s in c.dirs ::
         if NamesAt(c, paths, s) == {} then c.dirs[s]
         else Directory(Rewritten(repair, c, c.dirs[s].entries, NamesAt(c, paths, s)), (c.dirs[s].sequence + 1) % 256))
  }

  /** Nothing of an entry has changed but a directory's length, to that of a directory, or the place claimed by an
      empty file, given up. */
  predicate Kept(c: Catalogue, e: Entry, e': Entry) {
    && e'.name == e.name && e'.isDirectory == e.isDirectory
    && (e.isDirectory ==> e'.start == e.start && (e'.length == e.length || e'.length == c.dirBytes))
    && (!e.isDirectory ==> e'.length == e.length && (e'.start == e.start || (e.length == 0 && e'.start == 0)))
  }

  /** The same directories with the same entries in the same order, each kept as above. */
  ghost predicate Refitted(c: Catalogue, c': Catalogue) {
    && c'.dirSectors == c.dirSectors && c'.dirBytes == c.dirBytes
    && (forall s :: s in c.dirs <==> s in c'.dirs)
    && forall s :: s in c.dirs ==>
         && |c'.dirs[s].entries| == |c.dirs[s].entries|
         && forall k :: 0 <= k < |c.dirs[s].entries| ==> Kept(c, c.dirs[s].entries[k], c'.dirs[s].entries[k])
  }

  lemma RefittedTwice(a: Catalogue, b: Catalogue, c: Catalogue)
    requires Refitted(a, b) && Refitted(b, c)
    ensures Refitted(a, c)
  {
  }

  /** A rewrite of fit targets refits the catalogue. */
  lemma RewriteRefits(repair: Repair, c: Catalogue, paths: set<string>)
    requires TargetsValid(repair, c, paths)
    ensures Refitted(c, RewrittenCatalogue(repair, c, paths))
  {
    hide ParentOf, LastName, NamesAt;
    forall s, k | s in c.dirs && 0 <= k < |c.dirs[s].entries|
      ensures Kept(c, c.dirs[s].entries[k], RewrittenCatalogue(repair, c, paths).dirs[s].entries[k])
    {
      assert c.dirs[s].entries[k] in c.dirs[s].entries;
    }
  }

  /** Each directory that holds a target has its one-byte sequence number advanced, round from 255 to 0, and
      every other directory is as it was. */
  lemma RewriteNumbers(repair: Repair, c: Catalogue, paths: set<string>, s: int)
    requires s in c.dirs
    ensures var was, now := c.dirs[s], RewrittenCatalogue(repair, c, paths).dirs[s];
            if exists p :: p in paths && ParentOf(c, p) == Some(s)
            then
              && (was.sequence < 255 ==> now.sequence == was.sequence + 1)
              && (was.sequence == 255 ==> now.sequence == 0)
            else now == was
  {
    hide ParentOf, LastName, Rewritten;
    if p :| p in paths && ParentOf(c, p) == Some(s) {
      assert Fold(LastName(p)) in NamesAt(c, paths, s);
    }
  }

  /** What each repair fixes, in plain terms. */
  lemma NeedsFixMeans(repair: Repair, c: Catalogue, e: Entry)
    ensures NeedsFix(repair, c, e) <==>
              if repair == NormaliseLengths then e.isDirectory && e.length != c.dirBytes
              else !e.isDirectory && e.length == 0 && e.start != 0
    ensures NeedsFix(repair, c, e) ==>
              Fixed(repair, c, e) == if repair == NormaliseLengths then e.(length := c.dirBytes) else e.(start := 0)
  {
  }

  lemma RewriteFixesAt(repair: Repair, c: Catalogue, s: int)
    requires ROOT_SECTOR in c.dirs && WellNamed(c) && s in c.dirs
    ensures var d' := RewrittenCatalogue(repair, c, WarnPaths(c, Target(repair))).dirs[s];
            && (s in Walk(c).seen ==> d'.entries == FixEntries(repair, c, c.dirs[s].entries))
            && (s !in Walk(c).seen ==> d' == c.dirs[s])
            && DistinctNames(d'.entries)
  {
    var paths := WarnPaths(c, Target(repair));
    var entries := c.dirs[s].entries;
    forall i | 0 <= i < |entries|
      ensures Fold(entries[i].name) in NamesAt(c, paths, s) <==> s in Walk(c).seen && NeedsFix(repair, c, entries[i])
    {
      NamesSelectFaults(c, repair, s, entries[i]);
    }
    RewrittenNames(repair, c, entries, NamesAt(c, paths, s));
    if s !in Walk(c).seen {
      NothingSelected(c, repair, s);
    }
  }

  /** Rewriting at the reported paths fixes every visited directory and touches no other. */
  lemma RewriteFixes(repair: Repair, c: Catalogue)
    requires ROOT_SECTOR in c.dirs && WellNamed(c)
    ensures RepairedOn(repair, c, RewrittenCatalogue(repair, c, WarnPaths(c, Target(repair))), Walk(c).seen)
    ensures forall s :: s in c.dirs && s !in Walk(c).seen ==>
              RewrittenCatalogue(repair, c, WarnPaths(c, Target(repair))).dirs[s] == c.dirs[s]
    ensures WellNamed(RewrittenCatalogue(repair, c, WarnPaths(c, Target(repair))))
  {
    forall s | s in c.dirs {
      RewriteFixesAt(repair, c, s);
    }
  }

  lemma RewrittenNames(repair: Repair, c: Catalogue, entries: seq<Entry>, names: set<string>)
    requires DistinctNames(entries)
    ensures DistinctNames(Rewritten(repair, c, entries, names))
  {
  }

  lemma NothingSelected(c: Catalogue, repair: Repair, s: int)
    requires ROOT_SECTOR in c.dirs && WellNamed(c) && s in c.dirs && s !in Walk(c).seen
    ensures NamesAt(c, WarnPaths(c, Target(repair)), s) == {}
  {
    var paths := WarnPaths(c, Target(repair));
    forall p | p in paths
      ensures ParentOf(c, p) != Some(s)
    {
      var v := WarnedVisit(c, repair, p);
    }
  }
}
