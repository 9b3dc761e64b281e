/** Applying a low-risk repair plan to an image, and the check that the plan worked. */
module Repair {
  import opened Options
  import opened Validation
  import Walks = DirectoryWalk
  import WalkTheorems
  import opened Catalogues = CatalogueRepair
  import opened Plans = RepairPlan
  import Paths
  import opened Sets
  import opened DiscBytes
  import Transactions

  type byte = Transactions.byte

  datatype Outcome =
    | NothingToRepair
    | NotEligible
    | NotOpened
    | ActionFailed(how: ActionResult)
    | PostValidationFailed
    | CloseFailed
    | Completed

  /** How one repair action ends: done; refused for its targets; undone after a fault; with the session
      latched; or with an exception that neither undid it nor latched. */
  datatype ActionResult = Applied | Refused | RolledBack | Latched | Escaped

  function CodeOf(repair: Catalogues.Repair): Code {
    match repair
    case ClearEmptyFiles => EmptyHasExtent
    case NormaliseLengths => DirectoryLengthUnusual
  }

  /** The validated image below an open repair session: what it describes, its bytes, and the latch. */
  class RepairSession {
    var disc: Disc
    var data: seq<byte>
    var failed: bool

    constructor (d: Disc, data: seq<byte>)
      ensures disc == d && this.data == data && !failed
    {
      disc, this.data, failed := d, data, false;
    }

    /** Group the paths by the directory they resolve to. */
    method GroupPaths(paths: set<string>) returns (ok: bool, grouped: map<int, set<string>>)
      ensures ok <==> AllResolved(disc.catalogue, paths)
      ensures ok ==> Grouping(disc.catalogue, paths, grouped)
    {
      var c := disc.catalogue;
      grouped, ok := map[], true;
      var remaining, done := paths, {};
      while remaining != {}
        invariant done + remaining == paths
        invariant AllResolved(c, done) && Grouping(c, done, grouped)
        decreases |remaining|
      {
        var p :| p in remaining;
        var parent := ParentOf(c, p);
        if parent.None? || parent.value !in c.dirs {
          ok := false;
          return;
        }
        var names := if parent.value in grouped then grouped[parent.value] else {};
        GroupingStep(c, done, p, parent.value, grouped);
        grouped := grouped[parent.value := names + {Paths.Fold(LastName(p))}];
        MoveOne(done, remaining, p);
        remaining, done := remaining - {p}, done + {p};
      }
      assert done == paths;
    }

    /** Rebuild one directory's entries; fails on an ineligible or missing target. */
    method RepairEntries(repair: Catalogues.Repair, entries: seq<Walks.Entry>, names: set<string>) returns (ok: bool,
        repaired: seq<Walks.Entry>)
      ensures ok <==> EntriesValid(repair, entries, names)
      ensures ok ==> repaired == Rewritten(repair, disc.catalogue, entries, names)
    {
      var c := disc.catalogue;
      repaired, ok := [], true;
      var matched: set<string> := {};
      for i := 0 to |entries|
        invariant |repaired| == i
        invariant forall k :: 0 <= k < i ==>
                    repaired[k] == FixedIf(repair, c, entries[k], Paths.Fold(entries[k].name) in names)
        invariant forall k :: 0 <= k < i && Paths.Fold(entries[k].name) in names ==> Eligible(repair, entries[k])
        invariant forall n :: n in matched <==> n in names && exists k :: 0 <= k < i && Paths.Fold(entries[k].name) == n
      {
        var entry := entries[i];
        var key := Paths.Fold(entry.name);
        if key !in names {
          repaired := repaired + [entry];
        } else {
          matched := matched + {key};
          if !Eligible(repair, entry) {
            assert entry in entries;
            ok := false;
            return;
          }
          repaired := repaired + [Fixed(repair, c, entry)];
        }
      }
      ok := matched == names;
      AllMatched(entries, names, matched);
    }

    /** The catalogue library writes one directory back: its own sectors and no others. */
    method WriteDirectory(bytes: seq<byte>, s: int) returns (r: seq<byte>)
      ensures |r| == |bytes|
      ensures forall p :: 0 <= p < |r| && !InDirectory(disc.catalogue, s, p / SECTOR_BYTES) ==> r[p] == bytes[p]
    {
      var encoded: seq<byte> := *;
      var c := disc.catalogue;
      r := if |encoded| != |bytes| then bytes
           else seq(|bytes|, p requires 0 <= p < |bytes| =>
                  if InDirectory(c, s, p / SECTOR_BYTES) then encoded[p] else bytes[p]);
    }

    /** Rebuild and write every selected directory, or stop at the first whose targets do not fit. */
    method RewriteDirectories(repair: Catalogues.Repair, ghost paths: set<string>, grouped: map<int, set<string>>)
      returns (ok: bool, dirs: map<int, Walks.Directory>, bytes: seq<byte>)
      requires GroupedBySector(disc.catalogue, paths, grouped)
      ensures ok <==> forall s :: s in grouped ==> SectorValid(repair, disc.catalogue, paths, s)
      ensures ok ==> dirs == RewrittenCatalogue(repair, disc.catalogue, paths).dirs
      ensures Confined(disc.catalogue, paths, data, bytes)
    {
      hide SectorValid, RewrittenCatalogue, NamesAt;
      var c := disc.catalogue;
      dirs, bytes, ok := c.dirs, data, true;
      var remaining := grouped.Keys;
      ghost var done: set<int> := {};
      while remaining != {}
        invariant done + remaining == grouped.Keys
        invariant forall s :: s in done ==> SectorValid(repair, c, paths, s)
        invariant PartlyRewritten(repair, c, paths, done, dirs)
        invariant Confined(c, paths, data, bytes)
        decreases |remaining|
      {
        EmptyOrHasInt(remaining);
        var s :| s in remaining;
        var fine, repaired := RepairEntries(repair, c.dirs[s].entries, grouped[s]);
        ValidNames(repair, c, paths, s);
        if !fine {
          assert !SectorValid(repair, c, paths, s);
          ok := false;
          return;
        }
        RewriteOne(repair, c, paths, done, s, dirs);
        dirs := dirs[s := Walks.Directory(repaired, (c.dirs[s].sequence + 1) % 256)];
        var before := bytes;
        bytes := WriteDirectory(before, s);
        ConfinedStep(c, paths, data, before, bytes, s);
        MoveOne(done, remaining, s);
        remaining, done := remaining - {s}, done + {s};
      }
      assert done == grouped.Keys;
      FullyRewritten(repair, c, paths, grouped, dirs);
    }

    /** The bookkeeping of a committed mutation: the cycle number and checksums of the map. */
    method RefreshMap(bytes: seq<byte>) returns (r: seq<byte>)
      ensures |r| == |bytes|
      ensures forall p :: 0 <= p < |r| && p / SECTOR_BYTES >= MAP_SECTORS ==> r[p] == bytes[p]
    {
      var bookkeeping: seq<byte> := *;
      r := if |bookkeeping| != |bytes| then bytes
           else seq(|bytes|, p requires 0 <= p < |bytes| =>
                   if p / SECTOR_BYTES < MAP_SECTORS then bookkeeping[p] else bytes[p]);
    }

    /** A stopped mutation that is not undone leaves anything in the places it may write. */
    method Damage(ghost paths: set<string>, bytes: seq<byte>)
      requires Confined(disc.catalogue, paths, data, bytes)
      modifies this`disc, this`data
      ensures Confined(old(disc).catalogue, paths, old(data), data) && disc == old(disc).(catalogue := disc.catalogue)
    {
      var refreshed := RefreshMap(bytes);
      ConfinedMap(disc.catalogue, paths, data, bytes, refreshed);
      var left: Walks.Catalogue := *;
      data, disc := refreshed, disc.(catalogue := left);
    }

    /** One catalogue repair as a single guarded mutation. Without a fault it is refused exactly when its
        targets do not fit; whatever happens it writes nothing but the map and the selected directories. */
    method ApplyCatalogueRepair(repair: Catalogues.Repair, paths: set<string>) returns (r: ActionResult)
      modifies this
      ensures !old(failed) && paths != {} && TargetsValid(repair, old(disc.catalogue), paths) ==> !r.Refused?
      ensures r.Applied? || r.RolledBack? ==>
                !old(failed) && !failed && paths != {} && TargetsValid(repair, old(disc.catalogue), paths)
      ensures r.Applied? ==> disc == old(disc).(catalogue := RewrittenCatalogue(repair, old(disc.catalogue), paths))
      ensures r.Refused? || r.RolledBack? ==> disc == old(disc) && data == old(data) && failed == old(failed)
      ensures r.Latched? ==> failed
      ensures r.Escaped? ==> failed == old(failed)
      ensures Confined(old(disc).catalogue, paths, old(data), data) && disc == old(disc).(catalogue := disc.catalogue)
    {
      hide TargetsValid, Confined, SectorValid, RewrittenCatalogue, NamesAt, Grouping;
      NothingChanged(disc.catalogue, paths, data);
      if paths == {} || failed {
        return Refused;
      }
      var foreign: bool, fault: ActionResult := *, *;
      if foreign {
        failed := true;
        return Latched;
      }
      var c := disc.catalogue;
      var fine, dirs, bytes := false, c.dirs, data;
      var resolved, grouped := GroupPaths(paths);
      if resolved {
        GroupsAreDirectories(c, paths, grouped);
        fine, dirs, bytes := RewriteDirectories(repair, paths, grouped);
        ValidBySector(repair, c, paths, grouped);
      }
      UnresolvedIsInvalid(repair, c, paths);
      if fault.Latched? || fault.Escaped? {
        Damage(paths, bytes);
        failed := fault.Latched?;
        return fault;
      }
      if !fine {
        return Refused;
      }
      if fault.RolledBack? {
        return RolledBack;
      }
      var refreshed := RefreshMap(bytes);
      ConfinedMap(c, paths, data, bytes, refreshed);
      data, disc := refreshed, disc.(catalogue := c.(dirs := dirs));
      RewrittenIs(repair, c, paths, dirs);
      return Applied;
    }

    predicate MayPad()
      reads this
    {
      disc.datBytes == disc.adfsSectors * SECTOR_BYTES && disc.datBytes < disc.Capacity()
    }

    /** Extend a DAT that stops exactly at the ADFS boundary to its DSC capacity. On every path the size
        is the old one or the new one: new if done, old if refused or rolled back, and otherwise either
        the session is latched or an interrupt got out. Asking where it is not allowed latches. */
    method PadReservedTail() returns (r: ActionResult)
      requires |data| == disc.datBytes
      modifies this
      ensures data == old(data) || (old(MayPad()) && data == Padded(old(data), old(disc).Capacity()))
      ensures disc == old(disc).(datBytes := |data|)
      ensures r.Applied? ==> old(MayPad()) && data == Padded(old(data), old(disc).Capacity()) && !old(failed)
      ensures r.Refused? || r.RolledBack? ==> data == old(data)
      ensures r.Refused? <==> old(failed)
      ensures r.RolledBack? ==> old(MayPad())
      ensures failed <==> old(failed) || r.Latched?
      ensures !old(failed) && !old(MayPad()) ==> r.Latched? && data == old(data)
    {
      if failed {
        return Refused;
      }
      var foreign: bool := *;
      if foreign || !MayPad() {
        failed := true;
        return Latched;
      }
      var original := data;
      var fails: bool, grown: bool := *, *;
      if !fails || grown {
        data := Padded(data, disc.Capacity());
        disc := disc.(datBytes := disc.Capacity());
      }
      if !fails {
        return Applied;
      }
      var interrupted: bool := *;
      if interrupted {
        return Escaped;
      }
      r := ShrinkBack(original);
    }

    /** Take the growth back. If that fails the session latches, unless it is interrupted. */
    method ShrinkBack(original: seq<byte>) returns (r: ActionResult)
      requires !failed && original <= data && |data| == disc.datBytes
      modifies this
      ensures data == old(data) || data == original
      ensures disc == old(disc).(datBytes := |data|)
      ensures r.RolledBack? || r.Latched? || r.Escaped?
      ensures r.RolledBack? ==> data == original
      ensures failed <==> r.Latched?
    {
      var shrunk: bool, verified: bool, interrupted: bool := *, *, *;
      if shrunk {
        data := original;
        disc := disc.(datBytes := |original|);
        if verified {
          return RolledBack;
        }
      }
      if interrupted {
        return Escaped;
      }
      failed := true;
      return Latched;
    }
  }

  /** The file system fills a grown file with zeros. */
  function Padded(data: seq<byte>, size: nat): (r: seq<byte>)
    ensures |data| <= size ==> |r| == size && data <= r && forall k :: |data| <= k < size ==> r[k] == 0
    ensures |data| > size ==> r == data
  {
    if |data| <= size then data + seq(size - |data|, _ => 0) else data
  }

  // ---- where a repair writes --------------------------------------------------------------------------------

  /** The sectors a repair of these paths may write. */
  ghost predicate Selected(c: Walks.Catalogue, paths: set<string>, sector: int) {
    sector < MAP_SECTORS || exists s :: s in c.dirs && NamesAt(c, paths, s) != {} && InDirectory(c, s, sector)
  }

  ghost predicate Confined(c: Walks.Catalogue, paths: set<string>, a: seq<byte>, b: seq<byte>) {
    |a| == |b| && forall p :: 0 <= p < |a| && !Selected(c, paths, p / SECTOR_BYTES) ==> a[p] == b[p]
  }

  lemma NothingChanged(c: Walks.Catalogue, paths: set<string>, a: seq<byte>)
    ensures Confined(c, paths, a, a)
  {
  }

  lemma ConfinedStep(c: Walks.Catalogue, paths: set<string>, a: seq<byte>, b: seq<byte>, e: seq<byte>, s: int)
    requires Confined(c, paths, a, b) && s in c.dirs && NamesAt(c, paths, s) != {} && |e| == |b|
    requires forall p :: 0 <= p < |b| && !InDirectory(c, s, p / SECTOR_BYTES) ==> e[p] == b[p]
    ensures Confined(c, paths, a, e)
  {
  }

  lemma ConfinedMap(c: Walks.Catalogue, paths: set<string>, a: seq<byte>, b: seq<byte>, e: seq<byte>)
    requires Confined(c, paths, a, b) && |e| == |b|
    requires forall p :: 0 <= p < |b| && p / SECTOR_BYTES >= MAP_SECTORS ==> e[p] == b[p]
    ensures Confined(c, paths, a, e)
  {
  }

  lemma ValidNames(repair: Catalogues.Repair, c: Walks.Catalogue, paths: set<string>, s: int)
    requires s in c.dirs
    ensures SectorValid(repair, c, paths, s) <==> EntriesValid(repair, c.dirs[s].entries, NamesAt(c, paths, s))
  {
  }

  lemma UnresolvedIsInvalid(repair: Catalogues.Repair, c: Walks.Catalogue, paths: set<string>)
    ensures TargetsValid(repair, c, paths) ==> AllResolved(c, paths)
  {
  }

  lemma RewrittenIs(repair: Catalogues.Repair, c: Walks.Catalogue, paths: set<string>, dirs: map<int, Walks.Directory>)
    requires dirs == RewrittenCatalogue(repair, c, paths).dirs
    ensures c.(dirs := dirs) == RewrittenCatalogue(repair, c, paths)
  {
  }

  /** The paths of a report select directories with something to repair, and no others. */
  lemma SelectedIsTouchable(c: Walks.Catalogue, repair: Catalogues.Repair, sector: nat)
    requires Walks.ROOT_SECTOR in c.dirs && WellNamed(c) && Selected(c, WarnPaths(c, Target(repair)), sector)
    ensures Touchable(c, sector)
  {
    var paths := WarnPaths(c, Target(repair));
    if sector >= MAP_SECTORS {
      var s :| s in c.dirs && NamesAt(c, paths, s) != {} && InDirectory(c, s, sector);
      ReportedTargetsValid(c, repair);
      var n :| n in NamesAt(c, paths, s);
      var e :| e in c.dirs[s].entries && Paths.Fold(e.name) == n;
      NamesSelectFaults(c, repair, s, e);
      assert Faulty(c, s);
    }
  }

  /** A rewrite leaves no directory with something to repair that had nothing before. */
  lemma RewrittenIsNoWorse(repair: Catalogues.Repair, c: Walks.Catalogue, s: int)
    requires Walks.ROOT_SECTOR in c.dirs && WellNamed(c)
    ensures Faulty(RewrittenCatalogue(repair, c, WarnPaths(c, Target(repair))), s) ==> Faulty(c, s)
  {
    var paths := WarnPaths(c, Target(repair));
    var c' := RewrittenCatalogue(repair, c, paths);
    if Faulty(c', s) {
      var e' :| e' in c'.dirs[s].entries && Walks.EntryWarning(c', e') != [];
      var k :| 0 <= k < |c'.dirs[s].entries| && c'.dirs[s].entries[k] == e';
      var e := c.dirs[s].entries[k];
      ReportedTargetsValid(c, repair);
      assert e in c.dirs[s].entries;
      assert e' == e || Walks.EntryWarning(c, e) != [] by {
        NamesSelectFaults(c, repair, s, e);
      }
    }
  }

  /** Every selected entry is of the expected kind and every selected name is there. */
  ghost predicate EntriesValid(repair: Catalogues.Repair, entries: seq<Walks.Entry>, names: set<string>) {
    && (forall e :: e in entries && Paths.Fold(e.name) in names ==> Eligible(repair, e))
    && (forall n :: n in names ==> exists e :: e in entries && Paths.Fold(e.name) == n)
  }

  ghost predicate SectorValid(repair: Catalogues.Repair, c: Walks.Catalogue, paths: set<string>, s: int)
    requires s in c.dirs
  {
    EntriesValid(repair, c.dirs[s].entries, NamesAt(c, paths, s))
  }

  ghost predicate AllResolved(c: Walks.Catalogue, paths: set<string>) {
    forall p :: p in paths ==> ParentOf(c, p).Some? && ParentOf(c, p).value in c.dirs
  }

  /** Grouping of paths by parent directory, empty groups left out. */
  ghost predicate Grouping(c: Walks.Catalogue, paths: set<string>, grouped: map<int, set<string>>) {
    forall s :: if s in grouped then grouped[s] == NamesAt(c, paths, s) && grouped[s] != {}
              else NamesAt(c, paths, s) == {}
  }

  lemma GroupingStep(c: Walks.Catalogue, done: set<string>, p: string, parent: int, grouped: map<int, set<string>>)
    requires Grouping(c, done, grouped) && ParentOf(c, p) == Some(parent)
    ensures Grouping(c, done + {p}, grouped[parent := (if parent in grouped then grouped[parent] else {})
              + {Paths.Fold(LastName(p))}])
  {
  }

  ghost predicate GroupedBySector(c: Walks.Catalogue, paths: set<string>, grouped: map<int, set<string>>) {
    Grouping(c, paths, grouped) && forall s :: s in grouped ==> s in c.dirs
  }

  ghost predicate PartlyRewritten(repair: Catalogues.Repair, c: Walks.Catalogue, paths: set<string>,
      sectors: set<int>, dirs: map<int, Walks.Directory>) {
    && dirs.Keys == c.dirs.Keys
    && forall s :: s in c.dirs ==> dirs[s] == if s in sectors then RewrittenCatalogue(repair, c, paths).dirs[s]
                                            else c.dirs[s]
  }

  lemma RewriteOne(repair: Catalogues.Repair, c: Walks.Catalogue, paths: set<string>, done: set<int>, s: int,
      dirs: map<int, Walks.Directory>)
    requires PartlyRewritten(repair, c, paths, done, dirs) && s in c.dirs && NamesAt(c, paths, s) != {}
    ensures PartlyRewritten(repair, c, paths, done + {s},
              dirs[s := Walks.Directory(Rewritten(repair, c, c.dirs[s].entries, NamesAt(c, paths, s)),
                  (c.dirs[s].sequence + 1) % 256)])
  {
  }

  lemma FullyRewritten(repair: Catalogues.Repair, c: Walks.Catalogue, paths: set<string>,
      grouped: map<int, set<string>>, dirs: map<int, Walks.Directory>)
    requires GroupedBySector(c, paths, grouped) && PartlyRewritten(repair, c, paths, grouped.Keys, dirs)
    ensures dirs == RewrittenCatalogue(repair, c, paths).dirs
  {
  }

  lemma ValidBySector(repair: Catalogues.Repair, c: Walks.Catalogue, paths: set<string>, grouped: map<int, set<string>>)
    requires AllResolved(c, paths)
    requires GroupedBySector(c, paths, grouped)
    ensures TargetsValid(repair, c, paths) <==> forall s :: s in grouped ==> SectorValid(repair, c, paths, s)
  {
  }

  lemma GroupsAreDirectories(c: Walks.Catalogue, paths: set<string>, grouped: map<int, set<string>>)
    requires AllResolved(c, paths) && Grouping(c, paths, grouped)
    ensures forall s :: s in grouped ==> s in c.dirs
  {
  }

  lemma AllMatched(entries: seq<Walks.Entry>, names: set<string>, matched: set<string>)
    requires forall n :: n in matched <==>
               n in names && exists k :: 0 <= k < |entries| && Paths.Fold(entries[k].name) == n
    ensures matched == names <==> forall n :: n in names ==> exists e :: e in entries && Paths.Fold(e.name) == n
  {
  }

  // ---- one action at a time ---------------------------------------------------------------------------

  function ActionOf(repair: Catalogues.Repair): Action {
    match repair
    case ClearEmptyFiles => ClearEmptyFileExtents
    case NormaliseLengths => NormaliseDirectoryLengths
  }

  ghost function NotesWithout(notes: set<Finding>, code: Code): set<Finding> {
    set n | n in notes && n.code != code
  }

  lemma LiftedCodes(repair: Catalogues.Repair, f: Walks.Finding)
    requires !WalkTheorems.Structural(f.code)
    ensures f.code == Target(repair) <==> Lift(f).code == CodeOf(repair)
    ensures Lift(f).path == f.path
  {
  }

  lemma CuredNotes(d: Disc, d': Disc, repair: Catalogues.Repair)
    requires d.RootReadable() && d'.RootReadable() && Cured(repair, Walks.Walk(d.catalogue), Walks.Walk(d'.catalogue))
    ensures WalkNotes(d') == NotesWithout(WalkNotes(d), CodeOf(repair))
  {
  }

  /** A catalogue repair of a sound disc keeps it sound, keeps every extent, and removes exactly the
      findings it was planned for. */
  lemma RepairKeepsSound(d: Disc, repair: Catalogues.Repair)
    requires Sound(d) && WellNamed(d.catalogue)
    ensures var d' := d.(catalogue := RewrittenCatalogue(repair, d.catalogue, WarnPaths(d.catalogue, Target(repair))));
            && Sound(d') && WellNamed(d'.catalogue)
            && UsedExtents(d') == UsedExtents(d) && Walks.Walk(d'.catalogue).seen == Walks.Walk(d.catalogue).seen
            && WalkNotes(d') == NotesWithout(WalkNotes(d), CodeOf(repair))
            && GeometryNotes(d') == GeometryNotes(d)
  {
    var c := d.catalogue;
    var c' := RewrittenCatalogue(repair, c, WarnPaths(c, Target(repair)));
    RewriteFixes(repair, c);
    RepairCuresWalk(repair, c, c');
    WalkTheorems.CleanExactlyWhenTree(c);
    WalkTheorems.CleanExactlyWhenTree(c');
    CuredNotes(d, d.(catalogue := c'), repair);
  }

  /** Padding a sound disc that lacks its tail keeps it sound and removes only the tail warning. */
  lemma PadKeepsSound(d: Disc)
    requires Sound(d) && d.MissingTail()
    ensures d.datBytes == d.adfsSectors * SECTOR_BYTES
    ensures var d' := d.(datBytes := d.Capacity());
            Sound(d') && UsedExtents(d') == UsedExtents(d) && WalkNotes(d') == WalkNotes(d) && !d'.MissingTail()
  {
  }

  // ---- the plan of a safe report -----------------------------------------------------------------------

  ghost predicate SafeFindings(d: Disc, findings: seq<Finding>) {
    Sound(d) && !HasFatal(findings) && NonFatal(findings) == GeometryNotes(d) + WalkNotes(d)
  }

  lemma SafeMembership(d: Disc, findings: seq<Finding>, f: Finding)
    requires SafeFindings(d, findings)
    ensures f in findings <==> f in GeometryNotes(d) || f in WalkNotes(d)
  {
    hide Sound, GeometryNotes, WalkNotes;
    assert f in findings ==> f in NonFatal(findings);
  }

  lemma NotePath(d: Disc, n: Finding)
    requires n in WalkNotes(d)
    ensures n.path != "" && n.severity == Warning && n.code in {DirectoryLengthUnusual, EmptyHasExtent}
  {
    var f :| f in Walks.Walk(d.catalogue).findings && !WalkTheorems.Structural(f.code) && n == Lift(f);
    WalkTheorems.WalkOutputIsVisits(d.catalogue);
    var v :| v in Walks.Walk(d.catalogue).visits && WalkTheorems.Warns(d.catalogue, v, f);
    assert |f.path| >= 1;
  }

  /** The findings of a safe report: the two tail notes and the repairable warnings. */
  lemma SafeCodes(d: Disc, findings: seq<Finding>, f: Finding)
    requires SafeFindings(d, findings) && f in findings
    ensures f.code == DatMissingReservedTail ==> d.MissingTail()
    ensures f.code != DatMissingReservedTail && f.code != ReservedTail ==>
              f in WalkNotes(d) && (f.code == DirectoryLengthUnusual || f.code == EmptyHasExtent)
  {
    hide Sound, WalkNotes, NonFatal, HasFatal;
    SafeMembership(d, findings, f);
    if f in WalkNotes(d) {
      NotePath(d, f);
    }
  }

  lemma AddressedIsNote(d: Disc, findings: seq<Finding>, repair: Catalogues.Repair, n: Finding)
    requires SafeFindings(d, findings)
    ensures n in findings && Addresses(ActionOf(repair), n) <==> n in WalkNotes(d) && n.code == CodeOf(repair)
  {
    hide SafeFindings, WalkNotes;
    SafeMembership(d, findings, n);
    if n in findings {
      SafeCodes(d, findings, n);
    }
  }

  /** The paths planned for a repair are exactly the paths the walk warned about. */
  lemma PlannedPaths(d: Disc, findings: seq<Finding>, repair: Catalogues.Repair)
    requires SafeFindings(d, findings)
    ensures PathsFor(findings, ActionOf(repair)) == WarnPaths(d.catalogue, Target(repair))
  {
    NotesAreWarnings(d, repair);
    forall p
      ensures p in PathsFor(findings, ActionOf(repair)) <==> p in WarnPaths(d.catalogue, Target(repair))
    {
      if p in PathsFor(findings, ActionOf(repair)) {
        var n :| n in findings && Addresses(ActionOf(repair), n) && n.path == p;
        AddressedIsNote(d, findings, repair, n);
      }
      if p in WarnPaths(d.catalogue, Target(repair)) {
        var n :| n in WalkNotes(d) && n.code == CodeOf(repair) && n.path == p;
        AddressedIsNote(d, findings, repair, n);
        NotePath(d, n);
      }
    }
  }

  lemma PlannedCodes(d: Disc, findings: seq<Finding>, repair: Catalogues.Repair)
    requires SafeFindings(d, findings)
    ensures CodesFor(findings, ActionOf(repair)) != {} <==> exists n :: n in WalkNotes(d) && n.code == CodeOf(repair)
  {
    if n :| n in WalkNotes(d) && n.code == CodeOf(repair) {
      AddressedIsNote(d, findings, repair, n);
      assert n.code in CodesFor(findings, ActionOf(repair));
    }
    if CodesFor(findings, ActionOf(repair)) != {} {
      var code :| code in CodesFor(findings, ActionOf(repair));
      var n :| n in findings && Addresses(ActionOf(repair), n) && n.code == code;
      AddressedIsNote(d, findings, repair, n);
    }
  }

  lemma PlannedNonEmpty(d: Disc, findings: seq<Finding>, repair: Catalogues.Repair)
    requires SafeFindings(d, findings) && CodesFor(findings, ActionOf(repair)) != {}
    ensures WarnPaths(d.catalogue, Target(repair)) != {}
  {
    PlannedCodes(d, findings, repair);
    var n :| n in WalkNotes(d) && n.code == CodeOf(repair);
    NotesAreWarnings(d, repair);
    assert n.path in WarnPaths(d.catalogue, Target(repair));
  }

  ghost predicate Planned(findings: seq<Finding>, p: PlannedAction) {
    && p.template == TemplateOf(p.template.action)
    && p.codes == CodesFor(findings, p.template.action) != {}
    && p.paths == PathsFor(findings, p.template.action)
  }

  ghost predicate DistinctActions(order: seq<Action>) {
    forall i, j :: 0 <= i < j < |order| ==> order[i] != order[j]
  }

  lemma {:induction false} PlanIsPlanned(findings: seq<Finding>, order: seq<Action>)
    ensures forall p :: p in PlanFrom(findings, order) ==> Planned(findings, p) && p.template.action in order
  {
    if order != [] {
      PlanIsPlanned(findings, order[1..]);
    }
  }

  lemma {:induction false} PlanIsComplete(findings: seq<Finding>, order: seq<Action>, a: Action)
    requires a in order && CodesFor(findings, a) != {}
    ensures exists p :: p in PlanFrom(findings, order) && p.template.action == a
  {
    var plan, rest := PlanFrom(findings, order), PlanFrom(findings, order[1..]);
    if a == order[0] {
      assert plan[0] in plan;
    } else {
      PlanIsComplete(findings, order[1..], a);
      var p :| p in rest && p.template.action == a;
      assert p in plan;
    }
  }

  lemma {:induction false} PlanIsDistinct(findings: seq<Finding>, order: seq<Action>, i: int, j: int)
    requires DistinctActions(order) && 0 <= i < j < |PlanFrom(findings, order)|
    ensures PlanFrom(findings, order)[i].template.action != PlanFrom(findings, order)[j].template.action
  {
    hide CodesFor, PathsFor;
    var plan, rest := PlanFrom(findings, order), PlanFrom(findings, order[1..]);
    if CodesFor(findings, order[0]) == {} {
      assert plan == rest;
      PlanIsDistinct(findings, order[1..], i, j);
    } else {
      assert plan[1..] == rest && plan[j] == rest[j - 1];
      if i == 0 {
        PlanIsPlanned(findings, order[1..]);
        assert rest[j - 1] in rest;
        var k :| 0 <= k < |order[1..]| && order[1..][k] == rest[j - 1].template.action;
        assert order[k + 1] == order[1..][k];
      } else {
        PlanIsDistinct(findings, order[1..], i - 1, j - 1);
      }
    }
  }

  lemma NoteIsLowRisk(d: Disc, findings: seq<Finding>, p: PlannedAction)
    requires SafeFindings(d, findings) && Planned(findings, p)
    ensures Supported(p.template)
    ensures p.template.action == PadReservedTail ==> d.MissingTail()
  {
    var code :| code in p.codes;
    var f :| f in findings && Addresses(p.template.action, f) && f.code == code;
    SafeCodes(d, findings, f);
  }

  lemma TailIsPlanned(d: Disc, findings: seq<Finding>)
    requires SafeFindings(d, findings) && d.MissingTail()
    ensures CodesFor(findings, PadReservedTail) != {}
  {
    SafeMembership(d, findings, TAIL_WARNING);
    assert Addresses(PadReservedTail, TAIL_WARNING);
    assert DatMissingReservedTail in CodesFor(findings, PadReservedTail);
  }

  // ---- the whole application ------------------------------------------------------------------------------

  /** How the disc stands once the actions in `done` have been carried out. */
  ghost predicate Progress(d0: Disc, d: Disc, done: set<Action>) {
    && Sound(d0) && Sound(d) && WellNamed(d.catalogue)
    && UsedExtents(d) == UsedExtents(d0)
    && d.freeEntries == d0.freeEntries && d.adfsSectors == d0.adfsSectors && d.geometrySectors == d0.geometrySectors
    && d.catalogue.dirSectors == d0.catalogue.dirSectors
    && Walks.Walk(d.catalogue).seen == Walks.Walk(d0.catalogue).seen
    && (forall s :: Faulty(d.catalogue, s) ==> Faulty(d0.catalogue, s))
    && (d.MissingTail() <==> d0.MissingTail() && PadReservedTail !in done)
    && (forall n :: n in WalkNotes(d) <==> n in WalkNotes(d0) && !Handled(done, n))
    && Refitted(d0.catalogue, d.catalogue)
  }

  lemma SameNotesSamePaths(d0: Disc, d: Disc, done: set<Action>, repair: Catalogues.Repair)
    requires Progress(d0, d, done) && ActionOf(repair) !in done
    ensures WarnPaths(d.catalogue, Target(repair)) == WarnPaths(d0.catalogue, Target(repair))
  {
    forall n: Finding | n.code == CodeOf(repair)
      ensures n in WalkNotes(d) <==> n in WalkNotes(d0)
    {
      assert forall r :: n.code == CodeOf(r) ==> r == repair;
    }
    NotesAreWarnings(d, repair);
    NotesAreWarnings(d0, repair);
  }

  lemma NotesAreWarnings(d: Disc, repair: Catalogues.Repair)
    requires d.RootReadable()
    ensures forall p :: p in WarnPaths(d.catalogue, Target(repair)) <==>
              exists n :: n in WalkNotes(d) && n.code == CodeOf(repair) && n.path == p
  {
    var found := Walks.Walk(d.catalogue).findings;
    forall p
      ensures p in WarnPaths(d.catalogue, Target(repair)) <==>
                exists n :: n in WalkNotes(d) && n.code == CodeOf(repair) && n.path == p
    {
      if p in WarnPaths(d.catalogue, Target(repair)) {
        var f :| f in found && f.code == Target(repair) && f.path == p;
        LiftedCodes(repair, f);
        assert Lift(f) in WalkNotes(d);
      }
      if n :| n in WalkNotes(d) && n.code == CodeOf(repair) && n.path == p {
        var f :| f in found && !WalkTheorems.Structural(f.code) && n == Lift(f);
        LiftedCodes(repair, f);
      }
    }
  }

  ghost predicate Handled(done: set<Action>, n: Finding) {
    exists r: Catalogues.Repair :: ActionOf(r) in done && n.code == CodeOf(r)
  }

  lemma HandledStep(done: set<Action>, n: Finding, repair: Catalogues.Repair)
    ensures Handled(done + {ActionOf(repair)}, n) <==> Handled(done, n) || n.code == CodeOf(repair)
  {
  }

  lemma RepairProgress(d0: Disc, d: Disc, done: set<Action>, repair: Catalogues.Repair)
    requires Progress(d0, d, done)
    ensures Progress(d0, d.(catalogue := RewrittenCatalogue(repair, d.catalogue, WarnPaths(d.catalogue,
              Target(repair)))), done + {ActionOf(repair)})
  {
    RepairKeepsSound(d, repair);
    var d' := d.(catalogue := RewrittenCatalogue(repair, d.catalogue, WarnPaths(d.catalogue, Target(repair))));
    ReportedTargetsValid(d.catalogue, repair);
    RewriteRefits(repair, d.catalogue, WarnPaths(d.catalogue, Target(repair)));
    RefittedTwice(d0.catalogue, d.catalogue, d'.catalogue);
    forall s | Faulty(d'.catalogue, s)
      ensures Faulty(d0.catalogue, s)
    {
      RewrittenIsNoWorse(repair, d.catalogue, s);
    }
    forall n
      ensures n in WalkNotes(d') <==> n in WalkNotes(d0) && !Handled(done + {ActionOf(repair)}, n)
    {
      HandledStep(done, n, repair);
      assert n in WalkNotes(d') <==> n in NotesWithout(WalkNotes(d), CodeOf(repair));
    }
  }

  lemma PadProgress(d0: Disc, d: Disc, done: set<Action>)
    requires Progress(d0, d, done) && d.MissingTail()
    ensures Progress(d0, d.(datBytes := d.Capacity()), done + {PadReservedTail})
    ensures d.datBytes == d.adfsSectors * SECTOR_BYTES
  {
    PadKeepsSound(d);
    assert forall r :: ActionOf(r) in done + {PadReservedTail} <==> ActionOf(r) in done;
    assert forall n :: Handled(done + {PadReservedTail}, n) <==> Handled(done, n);
  }

  /** Carry out one planned action. None can be refused on a disc that stands as `Progress` says, and
      whatever happens to it no byte changes where the plan may not write. */
  method ApplyAction(session: RepairSession, planned: PlannedAction, ghost d0: Disc, ghost findings: seq<Finding>,
      ghost done: set<Action>) returns (r: ActionResult)
    requires SafeFindings(d0, findings) && Planned(findings, planned) && !session.failed
    requires Progress(d0, session.disc, done) && planned.template.action !in done
             && |session.data| == session.disc.datBytes
    modifies session
    ensures !r.Refused? && (session.failed <==> r.Latched?) && |session.data| == session.disc.datBytes
    ensures r.Applied? ==> Progress(d0, session.disc, done + {planned.template.action})
    ensures r.RolledBack? ==> session.disc == old(session.disc) && session.data == old(session.data)
    ensures Preserved(d0.catalogue, old(session.data), session.data)
  {
    hide Progress, Sound, Confined, Preserved;
    NoteIsLowRisk(d0, findings, planned);
    ghost var data := session.data;
    var action := planned.template.action;
    ProgressBasics(d0, session.disc, done);
    if action == PadReservedTail {
      PadProgress(d0, session.disc, done);
      r := session.PadReservedTail();
      PaddedIsPreserved(d0.catalogue, data, session.data);
    } else {
      var repair := if action == ClearEmptyFileExtents then ClearEmptyFiles else NormaliseLengths;
      CataloguePlan(d0, session.disc, findings, done, planned, repair);
      ghost var d := session.disc;
      r := session.ApplyCatalogueRepair(repair, planned.paths);
      ConfinedIsPreserved(d0, d, done, repair, data, session.data);
    }
  }

  lemma ProgressBasics(d0: Disc, d: Disc, done: set<Action>)
    requires Progress(d0, d, done)
    ensures d0.RootReadable() && (d0.MissingTail() && PadReservedTail !in done ==> d.MissingTail())
    ensures d.MissingTail() ==> d.datBytes == d.adfsSectors * SECTOR_BYTES && d.datBytes < d.Capacity()
  {
  }

  lemma PaddedIsPreserved(c: Walks.Catalogue, a: seq<byte>, b: seq<byte>)
    requires Walks.ROOT_SECTOR in c.dirs && a <= b
    ensures Preserved(c, a, b)
  {
  }

  /** What a planned repair may write is what the original report found to repair. */
  lemma ConfinedIsPreserved(d0: Disc, d: Disc, done: set<Action>, repair: Catalogues.Repair, a: seq<byte>, b: seq<byte>)
    requires Progress(d0, d, done) && Confined(d.catalogue, WarnPaths(d.catalogue, Target(repair)), a, b)
    ensures |a| == |b| && d0.RootReadable() && Preserved(d0.catalogue, a, b)
  {
    forall p: nat | p < |a| && !Touchable(d0.catalogue, p / SECTOR_BYTES)
      ensures a[p] == b[p]
    {
      if Selected(d.catalogue, WarnPaths(d.catalogue, Target(repair)), p / SECTOR_BYTES) {
        SelectedIsTouchable(d.catalogue, repair, p / SECTOR_BYTES);
      }
    }
  }

  lemma CataloguePlan(d0: Disc, d: Disc, findings: seq<Finding>, done: set<Action>, planned: PlannedAction,
      repair: Catalogues.Repair)
    requires SafeFindings(d0, findings) && Planned(findings, planned) && planned.template.action == ActionOf(repair)
    requires Progress(d0, d, done) && ActionOf(repair) !in done
    ensures planned.paths == WarnPaths(d.catalogue, Target(repair)) != {}
    ensures TargetsValid(repair, d.catalogue, planned.paths)
    ensures Progress(d0, d.(catalogue := RewrittenCatalogue(repair, d.catalogue, planned.paths)),
                     done + {ActionOf(repair)})
  {
    PlannedPaths(d0, findings, repair);
    PlannedNonEmpty(d0, findings, repair);
    SameNotesSamePaths(d0, d, done, repair);
    ReportedTargetsValid(d.catalogue, repair);
    RepairProgress(d0, d, done, repair);
  }

  lemma NoteIsHandled(d0: Disc, findings: seq<Finding>, done: set<Action>, n: Finding)
    requires SafeFindings(d0, findings) && n in WalkNotes(d0)
    requires forall r: Catalogues.Repair :: CodesFor(findings, ActionOf(r)) != {} ==> ActionOf(r) in done
    ensures Handled(done, n)
  {
    NotePath(d0, n);
    var repair := if n.code == EmptyHasExtent then ClearEmptyFiles else NormaliseLengths;
    PlannedCodes(d0, findings, repair);
    assert ActionOf(repair) in done && n.code == CodeOf(repair);
  }

  /** With every planned action done nothing repairable is left. */
  lemma NothingLeft(d0: Disc, d: Disc, findings: seq<Finding>, done: set<Action>)
    requires SafeFindings(d0, findings) && Progress(d0, d, done)
    requires forall r: Catalogues.Repair :: CodesFor(findings, ActionOf(r)) != {} ==> ActionOf(r) in done
    requires CodesFor(findings, PadReservedTail) != {} ==> PadReservedTail in done
    ensures WalkNotes(d) == {} && !d.MissingTail()
  {
    if d0.MissingTail() {
      TailIsPlanned(d0, findings);
    }
    forall n | n in WalkNotes(d0)
      ensures n !in WalkNotes(d)
    {
      NoteIsHandled(d0, findings, done, n);
    }
  }

  lemma PlannedDone(findings: seq<Finding>, actions: seq<PlannedAction>, done: set<Action>)
    requires actions == PlanFrom(findings, PLAN_ORDER)
    requires forall p :: p in actions ==> p.template.action in done
    ensures forall r: Catalogues.Repair :: CodesFor(findings, ActionOf(r)) != {} ==> ActionOf(r) in done
    ensures CodesFor(findings, PadReservedTail) != {} ==> PadReservedTail in done
  {
    assert PLAN_ORDER[0] == ActionOf(ClearEmptyFiles) && PLAN_ORDER[1] == ActionOf(NormaliseLengths)
        && PLAN_ORDER[2] == PadReservedTail;
    forall a | a in {ClearEmptyFileExtents, NormaliseDirectoryLengths, PadReservedTail} && CodesFor(findings, a) != {}
      ensures a in done
    {
      PlanIsComplete(findings, PLAN_ORDER, a);
    }
  }

  ghost function Executed(actions: seq<PlannedAction>, n: nat): set<Action>
    requires n <= |actions|
  {
    set k | 0 <= k < n :: actions[k].template.action
  }

  lemma PlanOrderDistinct()
    ensures DistinctActions(PLAN_ORDER)
  {
  }

  lemma ExecutedStep(actions: seq<PlannedAction>, i: nat)
    requires i < |actions|
    ensures Executed(actions, i + 1) == Executed(actions, i) + {actions[i].template.action}
  {
  }

  lemma NotYetExecuted(findings: seq<Finding>, order: seq<Action>, actions: seq<PlannedAction>, i: nat)
    requires DistinctActions(order) && actions == PlanFrom(findings, order) && i < |actions|
    ensures Planned(findings, actions[i])
    ensures actions[i].template.action !in Executed(actions, i)
  {
    PlanIsPlanned(findings, order);
    assert actions[i] in actions;
    forall k | 0 <= k < i
      ensures actions[k].template.action != actions[i].template.action
    {
      PlanIsDistinct(findings, order, k, i);
    }
  }

  /** Carry out the actions in order, up to the first that does not finish: `n` of them did. */
  method ApplyActions(session: RepairSession, actions: seq<PlannedAction>, ghost d0: Disc, ghost findings: seq<Finding>)
    returns (r: ActionResult, n: nat)
    requires SafeFindings(d0, findings) && actions == PlanFrom(findings, PLAN_ORDER) && !session.failed
    requires Progress(d0, session.disc, {}) && |session.data| == session.disc.datBytes
    modifies session
    ensures d0.RootReadable() && Preserved(d0.catalogue, old(session.data), session.data)
    ensures !r.Refused? && n <= |actions| && (r.Applied? <==> n == |actions|)
    ensures r.Applied? || r.RolledBack? ==> Progress(d0, session.disc, Executed(actions, n))
    ensures (session.failed <==> r.Latched?) && |session.data| == session.disc.datBytes
  {
    hide Progress, Sound, Preserved, PlanFrom, Planned;
    assert Executed(actions, 0) == {};
    PlanOrderDistinct();
    ProgressBasics(d0, session.disc, {});
    PaddedIsPreserved(d0.catalogue, session.data, session.data);
    n := 0;
    while n < |actions|
      invariant n <= |actions| && Progress(d0, session.disc, Executed(actions, n)) && !session.failed
      invariant |session.data| == session.disc.datBytes && Preserved(d0.catalogue, old(session.data), session.data)
    {
      NotYetExecuted(findings, PLAN_ORDER, actions, n);
      ExecutedStep(actions, n);
      ghost var before := session.data;
      r := ApplyAction(session, actions[n], d0, findings, Executed(actions, n));
      PreservedTwice(d0.catalogue, old(session.data), before, session.data);
      if !r.Applied? {
        return;
      }
      n := n + 1;
    }
    r := Applied;
  }

  /** Every entry that can be reached is a directory of the right length, a file with contents, or an empty file
      that claims no place. */
  ghost predicate NothingFaulty(c: Walks.Catalogue) {
    Walks.ROOT_SECTOR in c.dirs &&
    forall route, e :: WalkTheorems.HeldAt(c, route, e) ==>
      (e.isDirectory ==> e.length == c.dirBytes) && (!e.isDirectory && e.length == 0 ==> e.start == 0)
  }

  lemma NoNotesNoFaults(d: Disc)
    requires d.RootReadable() && WalkNotes(d) == {}
    ensures NothingFaulty(d.catalogue)
  {
    var c := d.catalogue;
    forall route, e | WalkTheorems.HeldAt(c, route, e)
      ensures (e.isDirectory ==> e.length == c.dirBytes) && (!e.isDirectory && e.length == 0 ==> e.start == 0)
    {
      WalkTheorems.DeservedIsWarned(c, route, e);
      forall path
        ensures Walks.Finding(Walks.LengthUnusual, path) !in Walks.Walk(c).findings
        ensures Walks.Finding(Walks.EmptyHasExtent, path) !in Walks.Walk(c).findings
      {
        assert Lift(Walks.Finding(Walks.LengthUnusual, path)) !in WalkNotes(d);
        assert Lift(Walks.Finding(Walks.EmptyHasExtent, path)) !in WalkNotes(d);
      }
    }
  }

  /** A sound disc with nothing left to repair: its extents those of `d0`, and of its entries nothing changed
      but the lengths of directories and the places of empty files. */
  ghost predicate Repaired(d0: Disc, d: Disc) {
    && Sound(d) && WalkNotes(d) == {} && !d.MissingTail()
    && UsedExtents(d) == UsedExtents(d0) && d.freeEntries == d0.freeEntries
    && d.adfsSectors == d0.adfsSectors && d.geometrySectors == d0.geometrySectors
    && d.datBytes == d.Capacity() && d.catalogue.dirSectors == d0.catalogue.dirSectors
    && NothingFaulty(d.catalogue) && Refitted(d0.catalogue, d.catalogue)
  }

  /** A plan stopped by a fault: never for its targets, and if the fault was rolled back the disc is still
      sound, with its extents; if not, the session is latched or an exception got past both guards. */
  ghost predicate Stopped(d0: Disc, d: Disc, failed: bool, how: ActionResult) {
    match how
    case RolledBack =>
      Sound(d) && UsedExtents(d) == UsedExtents(d0) && d.freeEntries == d0.freeEntries && !failed
      && Refitted(d0.catalogue, d.catalogue)
    case Latched => failed
    case Escaped => !failed
    case _ => false
  }

  lemma AllExecuted(d0: Disc, d: Disc, findings: seq<Finding>, actions: seq<PlannedAction>)
    requires SafeFindings(d0, findings) && actions == PlanFrom(findings, PLAN_ORDER)
    requires Progress(d0, d, Executed(actions, |actions|))
    ensures Repaired(d0, d)
  {
    forall p | p in actions
      ensures p.template.action in Executed(actions, |actions|)
    {
      var k :| 0 <= k < |actions| && actions[k] == p;
    }
    PlannedDone(findings, actions, Executed(actions, |actions|));
    NothingLeft(d0, d, findings, Executed(actions, |actions|));
    NoNotesNoFaults(d);
  }

  /** Everything from the opened session to its close. */
  method ApplySupported(session: RepairSession, plan: Plan) returns (outcome: Outcome, final: Report)
    requires session.disc.catalogue.dirSectors > 0 && WellNamed(session.disc.catalogue) && !session.failed
    requires SafeFindings(session.disc, plan.report.findings)
             && plan.actions == PlanFrom(plan.report.findings, PLAN_ORDER)
    requires |session.data| == session.disc.datBytes
    modifies session
    ensures outcome == Completed || outcome == CloseFailed || outcome.ActionFailed?
    ensures outcome.ActionFailed? ==> Stopped(old(session.disc), session.disc, session.failed, outcome.how)
    ensures old(session.disc).RootReadable() && Preserved(old(session.disc).catalogue, old(session.data), session.data)
    ensures !outcome.ActionFailed? ==>
              && Repaired(old(session.disc), session.disc) && |session.data| == session.disc.datBytes
              && NonFatal(final.findings) == GeometryNotes(session.disc)
              && final.used == UsedExtents(session.disc) && final.free == FreeExtents(session.disc.freeEntries)
  {
    ghost var d0, findings := session.disc, plan.report.findings;
    ProgressStart(d0);
    var r, n := ApplyActions(session, plan.actions, d0, findings);
    if !r.Applied? {
      return ActionFailed(r), plan.report;
    }
    AllExecuted(d0, session.disc, findings, plan.actions);
    final := ValidateOpenMount(session.disc);
    NoneRemaining(d0, session.disc, plan, final);
    var remaining := set f | f in final.findings && PlannedCode(plan, f.code) :: f.code;
    if HasFatal(final.findings) || remaining != {} {
      return PostValidationFailed, final;
    }
    var closed: bool := *;
    outcome := if closed then Completed else CloseFailed;
  }

  lemma ProgressStart(d: Disc)
    requires Sound(d) && WellNamed(d.catalogue)
    ensures Progress(d, d, {})
  {
  }

  /** Applying a plan finds nothing to do, refuses, fails to open or is stopped by a fault, or leaves a
      sound disc that claims and frees the same sectors with nothing repairable left. No planned action
      can be refused, the closing validation cannot find anything it was planned to remove, and whatever
      happens no byte changes outside the map and the directories with something to repair. */
  method ApplyRepairs(session: RepairSession) returns (outcome: Outcome, final: Report)
    requires session.disc.catalogue.dirSectors > 0 && WellNamed(session.disc.catalogue) && !session.failed
    requires |session.data| == session.disc.datBytes
    modifies session
    ensures outcome != PostValidationFailed
    ensures outcome == NothingToRepair || outcome == NotEligible <==>
              !(Sound(old(session.disc)) && (WalkNotes(old(session.disc)) != {} || old(session.disc).MissingTail()))
    ensures outcome == NothingToRepair || outcome == NotEligible || outcome == NotOpened ==>
              session.disc == old(session.disc) && session.data == old(session.data)
    ensures outcome.ActionFailed? ==> Stopped(old(session.disc), session.disc, session.failed, outcome.how)
    ensures outcome == Completed || outcome == CloseFailed ==>
              && Repaired(old(session.disc), session.disc) && |session.data| == session.disc.datBytes
              && NonFatal(final.findings) == GeometryNotes(session.disc)
              && final.used == UsedExtents(old(session.disc))
              && final.free == FreeExtents(old(session.disc).freeEntries)
    ensures Sound(old(session.disc)) ==> Preserved(old(session.disc).catalogue, old(session.data), session.data)
  {
    var report := ValidateOpenMount(session.disc);
    var plan := PlanRepairs(report);
    SupportedPlan(session.disc, report, plan);
    if session.disc.RootReadable() {
      PaddedIsPreserved(session.disc.catalogue, session.data, session.data);
    }
    if plan.Clean() {
      return NothingToRepair, report;
    }
    if !plan.ApplicationSupported() {
      return NotEligible, report;
    }
    var opens: bool := *;
    if !opens {
      return NotOpened, report;
    }
    outcome, final := ApplySupported(session, plan);
  }

  /** So every file the walk examined keeps all its bytes through any plan, finished or not. */
  lemma FilesKeepTheirBytes(d: Disc, v: Walks.Visit, a: seq<byte>, b: seq<byte>)
    requires Sound(d) && d.catalogue.dirSectors <= ROOT_DIRECTORY_SECTORS && |a| == d.datBytes
    requires v in Walks.Walk(d.catalogue).visits && !v.entry.isDirectory
    requires Preserved(d.catalogue, a, b)
    ensures 0 < v.entry.length ==>
              0 <= v.entry.start * SECTOR_BYTES && v.entry.start * SECTOR_BYTES + v.entry.length <= |a|
    ensures 0 < v.entry.length ==>
              a[v.entry.start * SECTOR_BYTES..v.entry.start * SECTOR_BYTES + v.entry.length]
              == b[v.entry.start * SECTOR_BYTES..v.entry.start * SECTOR_BYTES + v.entry.length]
  {
    var start, length := v.entry.start * SECTOR_BYTES, v.entry.length;
    if length > 0 {
      FileByteIsKept(d, v, a, b, start);
      FileByteIsKept(d, v, a, b, start + length - 1);
      forall p | start <= p < start + length
        ensures 0 <= p < |a| && a[p] == b[p]
      {
        FileByteIsKept(d, v, a, b, p);
      }
      assert a[start..start + length] == b[start..start + length];
    }
  }

  lemma FileByteIsKept(d: Disc, v: Walks.Visit, a: seq<byte>, b: seq<byte>, p: int)
    requires Sound(d) && d.catalogue.dirSectors <= ROOT_DIRECTORY_SECTORS && |a| == d.datBytes
    requires v in Walks.Walk(d.catalogue).visits && !v.entry.isDirectory && Preserved(d.catalogue, a, b)
    requires v.entry.start * SECTOR_BYTES <= p < v.entry.start * SECTOR_BYTES + v.entry.length
    ensures 0 <= p < |a| && a[p] == b[p]
  {
    SectorOfFile(v.entry, p);
    FilesAreUntouchable(d, v, p / SECTOR_BYTES);
    assert d.adfsSectors * SECTOR_BYTES <= d.datBytes;
  }

  lemma SectorOfFile(e: Walks.Entry, p: int)
    requires !e.isDirectory && e.start * SECTOR_BYTES <= p < e.start * SECTOR_BYTES + e.length
    ensures e.start <= p / SECTOR_BYTES < e.start + Walks.Sectors(e.length)
  {
  }

  predicate PlannedCode(plan: Plan, code: Code) {
    exists i :: 0 <= i < |plan.actions| && code in plan.actions[i].codes
  }

  /** A plan is applied exactly when the disc is sound and something repairable was found. */
  lemma SupportedPlan(d: Disc, report: Report, plan: Plan)
    requires report.SafeForWrite() <==> Sound(d)
    requires NonFatal(report.findings) == GeometryNotes(d) + WalkNotes(d)
    requires plan == Plan(report, PlanFrom(report.findings, PLAN_ORDER))
    ensures plan.ApplicationSupported() <==> Sound(d) && (WalkNotes(d) != {} || d.MissingTail())
    ensures plan.ApplicationSupported() ==> SafeFindings(d, report.findings)
    ensures plan.Clean() ==> WalkNotes(d) == {} && !d.MissingTail()
  {
    var findings := report.findings;
    if SafeFindings(d, findings) {
      PlanIsPlanned(findings, PLAN_ORDER);
      forall i | 0 <= i < |plan.actions|
        ensures Supported(plan.actions[i].template)
      {
        NoteIsLowRisk(d, findings, plan.actions[i]);
      }
      SomethingPlanned(d, findings, plan);
    }
    if plan.Clean() {
      assert NonFatal(findings) == {};
      assert d.MissingTail() ==> TAIL_WARNING in GeometryNotes(d);
    }
  }

  lemma SomethingPlanned(d: Disc, findings: seq<Finding>, plan: Plan)
    requires SafeFindings(d, findings) && plan.actions == PlanFrom(findings, PLAN_ORDER)
    ensures plan.actions != [] <==> WalkNotes(d) != {} || d.MissingTail()
  {
    var done := set p | p in plan.actions :: p.template.action;
    PlannedDone(findings, plan.actions, done);
    if d.MissingTail() {
      TailIsPlanned(d, findings);
      assert PadReservedTail in done;
    }
    if n :| n in WalkNotes(d) {
      NoteIsHandled(d, findings, done, n);
    }
    if plan.actions != [] {
      var p := plan.actions[0];
      PlanIsPlanned(findings, PLAN_ORDER);
      assert p in plan.actions && Planned(findings, p);
      NoteIsLowRisk(d, findings, p);
      if !d.MissingTail() {
        var repair := if p.template.action == ClearEmptyFileExtents then ClearEmptyFiles else NormaliseLengths;
        assert p.template.action == ActionOf(repair);
        PlannedCodes(d, findings, repair);
      }
    }
  }

  lemma AdviceIsNeverPlanned(findings: seq<Finding>, order: seq<Action>, plan: Plan)
    requires plan.actions == PlanFrom(findings, order)
    ensures !PlannedCode(plan, ReservedTail)
  {
    PlanIsPlanned(findings, order);
    forall i | 0 <= i < |plan.actions|
      ensures ReservedTail !in plan.actions[i].codes
    {
      assert plan.actions[i] in plan.actions;
    }
  }

  lemma NoneRemaining(d0: Disc, d: Disc, plan: Plan, final: Report)
    requires plan.actions == PlanFrom(plan.report.findings, PLAN_ORDER)
    requires WalkNotes(d) == {} && !d.MissingTail()
    requires !HasFatal(final.findings) && NonFatal(final.findings) == GeometryNotes(d) + WalkNotes(d)
    ensures forall f :: f in final.findings ==> !PlannedCode(plan, f.code)
  {
    AdviceIsNeverPlanned(plan.report.findings, PLAN_ORDER, plan);
    forall f | f in final.findings
      ensures !PlannedCode(plan, f.code)
    {
      assert f in NonFatal(final.findings);
      assert f == TAIL_ADVICE;
    }
  }
}
