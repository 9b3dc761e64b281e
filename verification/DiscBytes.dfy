/** Where catalogue repairs may write on a sound disc: the map and the directories with something to
    repair, which no file, free sector or other directory shares a byte with. */
module DiscBytes {
  import opened Extents
  import opened Validation
  import opened Walks = DirectoryWalk
  import opened WalkTheorems
  import Transactions

  const MAP_SECTORS: nat := 2
  /** The walk claims sectors 2..7 for the root, so directories of at most five sectors are presumed. */
  const ROOT_DIRECTORY_SECTORS: nat := 5

  /** The directory at `s` holds an entry that earns a repairable warning. */
  ghost predicate Faulty(c: Catalogue, s: int) {
    s in c.dirs && exists e :: e in c.dirs[s].entries && EntryWarning(c, e) != []
  }

  /** In plain terms: a directory entry of the wrong length, or an empty file that claims a place. */
  lemma FaultyMeans(c: Catalogue, s: int)
    ensures Faulty(c, s) <==>
              s in c.dirs && exists e :: && e in c.dirs[s].entries
                                         && (e.isDirectory ==> e.length != c.dirBytes)
                                         && (!e.isDirectory ==> e.length == 0 && e.start != 0)
  {
    if s in c.dirs {
      forall e | e in c.dirs[s].entries
        ensures EntryWarning(c, e) != [] <==>
                  if e.isDirectory then e.length != c.dirBytes else e.length == 0 && e.start != 0
      {
      }
    }
  }

  predicate InDirectory(c: Catalogue, s: int, sector: int) {
    s <= sector < s + c.dirSectors
  }

  /** The sectors a plan may change. */
  ghost predicate Touchable(c: Catalogue, sector: int)
    requires ROOT_SECTOR in c.dirs
  {
    0 <= sector < MAP_SECTORS || exists s :: s in Walk(c).seen && Faulty(c, s) && InDirectory(c, s, sector)
  }

  /** `b` extends `a` and agrees with it wherever a plan may not write. */
  ghost predicate Preserved(c: Catalogue, a: seq<Transactions.byte>, b: seq<Transactions.byte>)
    requires ROOT_SECTOR in c.dirs
  {
    |a| <= |b| && forall p: nat :: p < |a| && !Touchable(c, p / Transactions.SECTOR_BYTES) ==> a[p] == b[p]
  }

  lemma PreservedTwice(c: Catalogue, x: seq<Transactions.byte>, y: seq<Transactions.byte>, z: seq<Transactions.byte>)
    requires ROOT_SECTOR in c.dirs && Preserved(c, x, y) && Preserved(c, y, z)
    ensures Preserved(c, x, z)
  {
  }

  // ---- one claim per sector ------------------------------------------------------------------------------

  predicate Claims(c: Catalogue, e: Entry, sector: int) {
    e.start <= sector < e.start + if e.isDirectory then c.dirSectors else Sectors(e.length)
  }

  lemma ClaimIsExtent(c: Catalogue, names: seq<string>, e: Entry, sector: int)
    ensures Depth(EntryExtent(c, names, e), sector) == if Claims(c, e, sector) then 1 else 0
  {
  }

  lemma {:induction false} OneClaim(c: Catalogue, visits: seq<Visit>, i: nat, sector: int)
    requires i < |visits| && Claims(c, visits[i].entry, sector)
    ensures Depth(UsedOf(c, visits), sector) >= 1
  {
    var front, last := visits[..|visits| - 1], visits[|visits| - 1];
    DepthAppend(UsedOf(c, front), EntryExtent(c, last.names, last.entry), sector);
    ClaimIsExtent(c, last.names, last.entry, sector);
    if i < |front| {
      OneClaim(c, front, i, sector);
    }
  }

  lemma {:induction false} TwoClaims(c: Catalogue, visits: seq<Visit>, i: nat, j: nat, sector: int)
    requires i < j < |visits| && Claims(c, visits[i].entry, sector) && Claims(c, visits[j].entry, sector)
    ensures Depth(UsedOf(c, visits), sector) >= 2
  {
    var front, last := visits[..|visits| - 1], visits[|visits| - 1];
    DepthAppend(UsedOf(c, front), EntryExtent(c, last.names, last.entry), sector);
    ClaimIsExtent(c, last.names, last.entry, sector);
    if j < |front| {
      TwoClaims(c, front, i, j, sector);
    } else {
      OneClaim(c, front, i, sector);
    }
  }

  lemma FixedClaims(sector: int)
    ensures Depth(START.used, sector) == if 0 <= sector < 7 then 1 else 0
  {
    var xs := START.used;
    var root := [Extent(2, 7, "$")];
    assert xs[1..] == root && root[1..] == [];
    assert Depth(root, sector) == if 2 <= sector < 7 then 1 else 0;
  }

  /** On a sound disc a sector some entry claims is claimed by that entry alone. */
  lemma ClaimedOnce(d: Disc, i: nat, sector: int)
    requires Sound(d) && i < |Walk(d.catalogue).visits|
             && Claims(d.catalogue, Walk(d.catalogue).visits[i].entry, sector)
    ensures 7 <= sector < d.adfsSectors && !Covered(FreeExtents(d.freeEntries), sector)
    ensures var visits := Walk(d.catalogue).visits;
            forall j :: 0 <= j < |visits| && Claims(d.catalogue, visits[j].entry, sector) ==> j == i
  {
    var c, visits := d.catalogue, Walk(d.catalogue).visits;
    WalkOutputIsVisits(c);
    DepthAppend(START.used, UsedOf(c, visits), sector);
    FixedClaims(sector);
    OneClaim(c, visits, i, sector);
    InsideTotal(UsedExtents(d), d.adfsSectors, sector);
    DepthPositive(FreeExtents(d.freeEntries), sector);
    forall j | 0 <= j < |visits| && Claims(c, visits[j].entry, sector)
      ensures j == i
    {
      if j < i {
        TwoClaims(c, visits, j, i, sector);
      } else if i < j {
        TwoClaims(c, visits, i, j, sector);
      }
    }
  }

  lemma InsideTotal(xs: seq<Extent>, total: nat, sector: int)
    requires InRange(xs, total) && Depth(xs, sector) > 0
    ensures 0 <= sector < total
  {
  }

  // ---- every directory the walk entered is claimed --------------------------------------------------------

  /** Each directory seen is the root or the target of an examined entry. */
  ghost predicate Known(st: State) {
    forall s :: s in st.seen ==>
      s == ROOT_SECTOR || exists v :: v in st.visits && v.entry.isDirectory && v.entry.start == s
  }

  lemma KnownLater(a: State, b: State)
    requires Known(a) && a.visits <= b.visits && b.seen == a.seen
    ensures Known(b)
  {
  }

  lemma EnteredIsKnown(c: Catalogue, sector: int, names: seq<string>, e: Entry, st: State)
    requires Known(st) && e.isDirectory
    ensures Known(Entered(c, sector, names, e, st))
  {
  }

  lemma {:induction false} WalkKnows(c: Catalogue, sector: int, names: seq<string>, entries: seq<Entry>, st: State)
    requires Known(st)
    ensures Known(WalkEntries(c, sector, names, entries, st))
    decreases c.dirs.Keys - st.seen, |entries|
  {
    if entries != [] {
      var next := Visited(c, sector, names, entries[0], st);
      assert c.dirs.Keys - next.seen <= c.dirs.Keys - st.seen;
      VisitKnows(c, sector, names, entries[0], st);
      WalkKnows(c, sector, names, entries[1..], next);
    }
  }

  lemma {:induction false} VisitKnows(c: Catalogue, sector: int, names: seq<string>, e: Entry, st: State)
    requires Known(st)
    ensures Known(Visited(c, sector, names, e, st))
    decreases c.dirs.Keys - st.seen, 0
  {
    var noted := Note(c, sector, names, e, st);
    KnownLater(st, noted);
    if e.isDirectory && e.start !in st.seen {
      var entered := Entered(c, sector, names, e, st);
      EnteredIsKnown(c, sector, names, e, st);
      if e.start in c.dirs {
        EnteredIsSmaller(c, sector, names, e, st);
        WalkKnows(c, e.start, names + [e.name], c.dirs[e.start].entries, entered);
      }
    }
  }

  /** A sector of a directory the walk entered is the root's, or claimed by an entry for that directory. */
  lemma DirectoryIsClaimed(c: Catalogue, s: int, sector: int) returns (i: int)
    requires ROOT_SECTOR in c.dirs && s in Walk(c).seen && InDirectory(c, s, sector)
    ensures s == ROOT_SECTOR ==> i == -1
    ensures s != ROOT_SECTOR ==>
              0 <= i < |Walk(c).visits| && Walk(c).visits[i].entry.isDirectory && Walk(c).visits[i].entry.start == s
              && Claims(c, Walk(c).visits[i].entry, sector)
  {
    i := -1;
    if s != ROOT_SECTOR {
      WalkKnows(c, ROOT_SECTOR, ["$"], c.dirs[ROOT_SECTOR].entries, START);
      var v :| v in Walk(c).visits && v.entry.isDirectory && v.entry.start == s;
      i :| 0 <= i < |Walk(c).visits| && Walk(c).visits[i] == v;
    }
  }

  // ---- what a plan cannot change ------------------------------------------------------------------------------

  /** No byte of a file the walk examined may be changed. */
  lemma FilesAreUntouchable(d: Disc, v: Visit, sector: int)
    requires Sound(d) && d.catalogue.dirSectors <= ROOT_DIRECTORY_SECTORS
    requires v in Walk(d.catalogue).visits && !v.entry.isDirectory && Claims(d.catalogue, v.entry, sector)
    ensures !Touchable(d.catalogue, sector) && 7 <= sector < d.adfsSectors
  {
    var c, visits := d.catalogue, Walk(d.catalogue).visits;
    var i :| 0 <= i < |visits| && visits[i] == v;
    ClaimedOnce(d, i, sector);
    forall s | s in Walk(c).seen && InDirectory(c, s, sector)
      ensures false
    {
      var j := DirectoryIsClaimed(c, s, sector);
    }
  }

  /** Nor a free sector. */
  lemma FreeIsUntouchable(d: Disc, sector: int)
    requires Sound(d) && d.catalogue.dirSectors <= ROOT_DIRECTORY_SECTORS
    requires Covered(FreeExtents(d.freeEntries), sector)
    ensures !Touchable(d.catalogue, sector)
  {
    var c := d.catalogue;
    WalkOutputIsVisits(c);
    DepthAppend(START.used, UsedOf(c, Walk(c).visits), sector);
    FixedClaims(sector);
    DepthPositive(FreeExtents(d.freeEntries), sector);
    InsideTotal(FreeExtents(d.freeEntries), d.adfsSectors, sector);
    forall s | s in Walk(c).seen && InDirectory(c, s, sector)
      ensures false
    {
      var j := DirectoryIsClaimed(c, s, sector);
      if j >= 0 {
        ClaimedOnce(d, j, sector);
      }
    }
  }

  /** Nor a sector outside the ADFS area. */
  lemma OutsideIsUntouchable(d: Disc, sector: int)
    requires Sound(d) && d.catalogue.dirSectors <= ROOT_DIRECTORY_SECTORS && d.adfsSectors <= sector
    ensures !Touchable(d.catalogue, sector)
  {
    var c := d.catalogue;
    RootIsInside(d);
    forall s | s in Walk(c).seen && InDirectory(c, s, sector)
      ensures false
    {
      var j := DirectoryIsClaimed(c, s, sector);
      if j >= 0 {
        ClaimedOnce(d, j, sector);
      }
    }
  }

  lemma RootIsInside(d: Disc)
    requires Sound(d)
    ensures d.adfsSectors >= 7
  {
    var c := d.catalogue;
    WalkOutputIsVisits(c);
    DepthAppend(START.used, UsedOf(c, Walk(c).visits), 6);
    FixedClaims(6);
    InsideTotal(UsedExtents(d), d.adfsSectors, 6);
  }

  /** Nor a directory without a repairable entry. */
  lemma SoundDirectoriesAreUntouchable(d: Disc, s: int, sector: int)
    requires Sound(d) && 0 < d.catalogue.dirSectors <= ROOT_DIRECTORY_SECTORS
    requires s in Walk(d.catalogue).seen && !Faulty(d.catalogue, s) && InDirectory(d.catalogue, s, sector)
    ensures !Touchable(d.catalogue, sector)
  {
    var c := d.catalogue;
    var i := DirectoryIsClaimed(c, s, sector);
    if i >= 0 {
      ClaimedOnce(d, i, sector);
    }
    forall t | t in Walk(c).seen && Faulty(c, t) && InDirectory(c, t, sector)
      ensures false
    {
      var j := DirectoryIsClaimed(c, t, sector);
      if j >= 0 {
        ClaimedOnce(d, j, sector);
      }
    }
  }
}
