/** The integrity report of an old-map ADFS image, and what its silence proves. */
module Validation {
  import opened Decimals
  import opened Extents
  import Paths
  import opened Sweeps
  import Walks = DirectoryWalk
  import WalkTheorems

  const SECTOR_BYTES: int := 256
  const FIRST_ALLOCATABLE: int := 7

  datatype Severity = Fatal | Warning | Advice

  datatype Code =
    | DatUnaligned | DatShort | DatOversized | DatMissingReservedTail
    | MapExceedsDat | MapExceedsDsc | ReservedTail
    | Structure
    | FreeEmpty | FreeOutOfRange | FreeUnreadable | FreeOverlap | FreeUsedOverlap | Unaccounted
    | DirectoryLengthUnusual | DirectoryCycle | DirectoryUnreadable | RootUnreadable
    | EmptyHasExtent
    | UsedOutOfRange | UsedOverlap

  datatype Finding = Finding(severity: Severity, code: Code, path: string)

  /** What validation reads: sizes, the map's free list in bytes, the number of problems Oaknut's own
      checks report, and the catalogue. */
  datatype Disc = Disc(
    datBytes: nat,
    geometrySectors: nat,
    adfsSectors: nat,
    structureProblems: nat,
    freeEntries: seq<(nat, nat)>,
    freeReadable: bool,
    catalogue: Walks.Catalogue)
  {
    function Capacity(): nat {
      geometrySectors * SECTOR_BYTES
    }

    /** The DAT stops exactly at the ADFS boundary, short of the DSC capacity. */
    predicate MissingTail() {
      datBytes < Capacity() && datBytes % SECTOR_BYTES == 0 && datBytes / SECTOR_BYTES == adfsSectors < geometrySectors
    }

    predicate RootReadable() {
      Walks.ROOT_SECTOR in catalogue.dirs
    }
  }

  datatype Report = Report(used: seq<Extent>, free: seq<Extent>, findings: seq<Finding>) {
    predicate SafeForWrite() {
      !HasFatal(findings)
    }

    function UsedSectors(): int {
      TotalLength(used)
    }

    function FreeSectors(): int {
      TotalLength(free)
    }
  }

  predicate HasFatal(findings: seq<Finding>) {
    exists f :: f in findings && f.severity == Fatal
  }

  /** The findings a report may carry and still be safe for writing. */
  function NonFatal(findings: seq<Finding>): set<Finding> {
    set f | f in findings && f.severity != Fatal
  }

  lemma FindingsAppend(a: seq<Finding>, b: seq<Finding>)
    ensures HasFatal(a + b) <==> HasFatal(a) || HasFatal(b)
    ensures NonFatal(a + b) == NonFatal(a) + NonFatal(b)
  {
  }

  // ---- geometry ---------------------------------------------------------------------------------

  const TAIL_WARNING: Finding := Finding(Warning, DatMissingReservedTail, "")
  const TAIL_ADVICE: Finding := Finding(Advice, ReservedTail, "")

  ghost predicate GeometrySound(d: Disc) {
    && d.datBytes % SECTOR_BYTES == 0
    && (d.datBytes == d.Capacity() || d.MissingTail())
    && d.adfsSectors * SECTOR_BYTES <= d.datBytes
    && d.adfsSectors <= d.geometrySectors
  }

  ghost function GeometryNotes(d: Disc): set<Finding> {
    (if d.MissingTail() then {TAIL_WARNING} else {}) + (if d.adfsSectors < d.geometrySectors then {TAIL_ADVICE} else {})
  }

  /** Which geometry finding is reported when, from the sizes alone. */
  predicate GeometryFault(d: Disc, f: Finding) {
    var capacity := d.geometrySectors * 256;
    var ends := d.datBytes == d.adfsSectors * 256 && d.adfsSectors < d.geometrySectors;
    && f.path == ""
    && f.severity == (if f.code == DatMissingReservedTail then Warning else if f.code == ReservedTail then Advice
                      else Fatal)
    && match f.code
       case DatUnaligned => d.datBytes % 256 != 0
       case DatMissingReservedTail => ends
       case DatShort => d.datBytes < capacity && !ends
       case DatOversized => d.datBytes > capacity
       case MapExceedsDat => d.adfsSectors > d.datBytes / 256
       case MapExceedsDsc => d.adfsSectors > d.geometrySectors
       case ReservedTail => d.adfsSectors < d.geometrySectors
       case _ => false
  }

  lemma GeometryFaultsAreNotes(d: Disc, findings: seq<Finding>)
    requires forall f :: f in findings <==> GeometryFault(d, f)
    ensures HasFatal(findings) <==> !GeometrySound(d)
    ensures NonFatal(findings) == GeometryNotes(d)
  {
    assert GeometryFault(d, TAIL_WARNING) <==> d.MissingTail();
    assert GeometryFault(d, TAIL_ADVICE) <==> d.adfsSectors < d.geometrySectors;
    if !GeometrySound(d) {
      var code := if d.datBytes % 256 != 0 then DatUnaligned
                  else if d.datBytes > d.Capacity() then DatOversized
                  else if d.datBytes < d.Capacity() && !d.MissingTail() then DatShort
                  else if d.adfsSectors > d.geometrySectors then MapExceedsDsc else MapExceedsDat;
      assert GeometryFault(d, Finding(Fatal, code, ""));
    }
  }

  method GeometryFindings(d: Disc) returns (findings: seq<Finding>)
    ensures HasFatal(findings) <==> !GeometrySound(d)
    ensures NonFatal(findings) == GeometryNotes(d)
    ensures forall f :: f in findings <==> GeometryFault(d, f)
  {
    hide HasFatal, NonFatal, GeometryNotes, GeometrySound;
    findings := [];
    if d.datBytes % SECTOR_BYTES != 0 {
      findings := findings + [Finding(Fatal, DatUnaligned, "")];
    }
    if d.MissingTail() {
      findings := findings + [TAIL_WARNING];
    } else if d.datBytes < d.Capacity() {
      findings := findings + [Finding(Fatal, DatShort, "")];
    } else if d.datBytes > d.Capacity() {
      findings := findings + [Finding(Fatal, DatOversized, "")];
    }
    if d.adfsSectors > d.datBytes / SECTOR_BYTES {
      findings := findings + [Finding(Fatal, MapExceedsDat, "")];
    }
    if d.adfsSectors > d.geometrySectors {
      findings := findings + [Finding(Fatal, MapExceedsDsc, "")];
    } else if d.adfsSectors < d.geometrySectors {
      findings := findings + [TAIL_ADVICE];
    }
    GeometryFaultsAreNotes(d, findings);
  }

  // ---- the free list ------------------------------------------------------------------------------

  const FREE_ENTRY: string := "free-space entry "

  /** Free entries are told apart by their position in the map. */
  function FreeExtent(index: nat, entry: (nat, nat)): Extent {
    var start := entry.0 / SECTOR_BYTES;
    Extent(start, start + entry.1 / SECTOR_BYTES, FREE_ENTRY + Dec(index))
  }

  /** The free entries of at least one sector. */
  function FreeExtents(entries: seq<(nat, nat)>): (r: seq<Extent>)
    ensures AllNonEmpty(r)
  {
    if entries == [] then []
    else
      var n := |entries| - 1;
      var last := FreeExtent(n, entries[n]);
      FreeExtents(entries[..n]) + (if last.start < last.end then [last] else [])
  }

  lemma FreeOwnersDiffer(i: nat, j: nat)
    ensures FREE_ENTRY + Dec(i) == FREE_ENTRY + Dec(j) <==> i == j
  {
    ValueOfDec(i);
    ValueOfDec(j);
    assert (FREE_ENTRY + Dec(i))[|FREE_ENTRY|..] == Dec(i);
    assert (FREE_ENTRY + Dec(j))[|FREE_ENTRY|..] == Dec(j);
  }

  /** The positions in the map of the entries listed. */
  ghost function FreeIndices(entries: seq<(nat, nat)>): seq<nat> {
    if entries == [] then []
    else
      var n := |entries| - 1;
      FreeIndices(entries[..n]) + (if entries[n].1 / SECTOR_BYTES > 0 then [n] else [])
  }

  lemma {:induction false} FreeIndicesAre(entries: seq<(nat, nat)>)
    ensures |FreeIndices(entries)| == |FreeExtents(entries)|
    ensures forall k :: 0 <= k < |FreeIndices(entries)| ==>
              FreeIndices(entries)[k] < |entries|
              && FreeExtents(entries)[k] == FreeExtent(FreeIndices(entries)[k], entries[FreeIndices(entries)[k]])
    ensures forall j, k :: 0 <= j < k < |FreeIndices(entries)| ==> FreeIndices(entries)[j] < FreeIndices(entries)[k]
  {
    if entries != [] {
      FreeIndicesAre(entries[..|entries| - 1]);
    }
  }

  /** An overlap reported among the free entries names the two entries of the map that share the range. */
  lemma FreeOverlapNamesEntries(entries: seq<(nat, nat)>, o: Overlap) returns (i: nat, j: nat)
    requires TrueOverlap(FreeExtents(entries), o)
    ensures i < |entries| && j < |entries| && i != j
    ensures o.firstOwner == FREE_ENTRY + Dec(i) && o.secondOwner == FREE_ENTRY + Dec(j) && o.firstOwner != o.secondOwner
    ensures forall s :: o.first <= s <= o.last ==>
              FreeExtent(i, entries[i]).Holds(s) && FreeExtent(j, entries[j]).Holds(s)
  {
    FreeIndicesAre(entries);
    var xs := FreeExtents(entries);
    var p, q :| ClaimedBy(xs, o, p, q);
    i, j := FreeIndices(entries)[p], FreeIndices(entries)[q];
    FreeOwnersDiffer(i, j);
  }

  predicate FreeEntrySound(entry: (nat, nat), total: int) {
    var start, end := entry.0 / SECTOR_BYTES, entry.0 / SECTOR_BYTES + entry.1 / SECTOR_BYTES;
    start < end && FIRST_ALLOCATABLE <= start && end <= total
  }

  ghost predicate FreeListSound(d: Disc) {
    d.freeReadable && forall e :: e in d.freeEntries ==> FreeEntrySound(e, d.adfsSectors)
  }

  /** The free list has an entry of no whole sector. */
  ghost predicate SomeEmpty(entries: seq<(nat, nat)>) {
    exists k :: 0 <= k < |entries| && entries[k].1 < 256
  }

  /** It has another that begins before sector 7 or ends past the ADFS area. */
  ghost predicate SomeOutside(entries: seq<(nat, nat)>, total: int) {
    exists k :: 0 <= k < |entries| && Outside(entries[k], total)
  }

  predicate Outside(entry: (nat, nat), total: int) {
    entry.1 >= 256 && (entry.0 / 256 < 7 || entry.0 / 256 + entry.1 / 256 > total)
  }

  lemma SomeNext(entries: seq<(nat, nat)>, i: nat, total: int)
    requires i < |entries|
    ensures SomeEmpty(entries[..i + 1]) <==> SomeEmpty(entries[..i]) || entries[i].1 < 256
    ensures SomeOutside(entries[..i + 1], total) <==> SomeOutside(entries[..i], total) || Outside(entries[i], total)
  {
    hide Outside;
    var longer, shorter := entries[..i + 1], entries[..i];
    assert forall k :: 0 <= k < i ==> longer[k] == shorter[k];
    assert longer[i] == entries[i];
  }

  method FreeListFindings(d: Disc) returns (free: seq<Extent>, findings: seq<Finding>)
    ensures free == FreeExtents(d.freeEntries)
    ensures HasFatal(findings) <==> !FreeListSound(d)
    ensures NonFatal(findings) == {}
    ensures Finding(Fatal, FreeEmpty, "") in findings <==> SomeEmpty(d.freeEntries)
    ensures Finding(Fatal, FreeOutOfRange, "") in findings <==> SomeOutside(d.freeEntries, d.adfsSectors)
    ensures Finding(Fatal, FreeUnreadable, "") in findings <==> !d.freeReadable
    ensures forall f :: f in findings ==> f.path == "" && f.code in {FreeEmpty, FreeOutOfRange, FreeUnreadable}
  {
    hide Dec, SomeEmpty, SomeOutside;
    free, findings := [], [];
    NoneYet(d.adfsSectors);
    assert d.freeEntries[..0] == [];
    for i := 0 to |d.freeEntries|
      invariant free == FreeExtents(d.freeEntries[..i])
      invariant forall f :: f in findings ==>
                  f.severity == Fatal && f.path == "" && f.code in {FreeEmpty, FreeOutOfRange}
      invariant Finding(Fatal, FreeEmpty, "") in findings <==> SomeEmpty(d.freeEntries[..i])
      invariant Finding(Fatal, FreeOutOfRange, "") in findings <==> SomeOutside(d.freeEntries[..i], d.adfsSectors)
      invariant findings == [] <==> forall k :: 0 <= k < i ==> FreeEntrySound(d.freeEntries[k], d.adfsSectors)
    {
      SomeNext(d.freeEntries, i, d.adfsSectors);
      var extent := FreeExtent(i, d.freeEntries[i]);
      assert FreeEntrySound(d.freeEntries[i], d.adfsSectors)
          <==> extent.start < extent.end && FIRST_ALLOCATABLE <= extent.start && extent.end <= d.adfsSectors;
      assert d.freeEntries[..i + 1][..i] == d.freeEntries[..i];
      if extent.end - extent.start <= 0 {
        findings := findings + [Finding(Fatal, FreeEmpty, "")];
      } else {
        free := free + [extent];
        if extent.start < FIRST_ALLOCATABLE || extent.end > d.adfsSectors {
          findings := findings + [Finding(Fatal, FreeOutOfRange, "")];
        }
      }
    }
    assert d.freeEntries[..|d.freeEntries|] == d.freeEntries;
    if !d.freeReadable {
      findings := findings + [Finding(Fatal, FreeUnreadable, "")];
    }
    assert findings != [] ==> findings[0] in findings;
  }

  lemma NoneYet(total: int)
    ensures !SomeEmpty([]) && !SomeOutside([], total)
  {
  }

  // ---- the walk -----------------------------------------------------------------------------------

  function Lift(f: Walks.Finding): Finding {
    match f.code
    case LengthUnusual => Finding(Warning, DirectoryLengthUnusual, f.path)
    case EmptyHasExtent => Finding(Warning, EmptyHasExtent, f.path)
    case Cycle => Finding(Fatal, DirectoryCycle, f.path)
    case Unreadable => Finding(Fatal, DirectoryUnreadable, f.path)
  }

  ghost function UsedExtents(d: Disc): seq<Extent> {
    if d.RootReadable() then Walks.Walk(d.catalogue).used else Walks.START.used
  }

  ghost function WalkNotes(d: Disc): set<Finding> {
    if !d.RootReadable() then {}
    else set f | f in Walks.Walk(d.catalogue).findings && !WalkTheorems.Structural(f.code) :: Lift(f)
  }

  ghost predicate CatalogueSound(d: Disc) {
    d.RootReadable() && WalkTheorems.IsReadableTree(d.catalogue)
  }

  method WalkFindings(d: Disc) returns (used: seq<Extent>, findings: seq<Finding>)
    ensures used == UsedExtents(d)
    ensures HasFatal(findings) <==> !CatalogueSound(d)
    ensures NonFatal(findings) == WalkNotes(d)
  {
    var walker := new Walks.Walker(d.catalogue);
    if !d.RootReadable() {
      used, findings := walker.usedExtents, [Finding(Fatal, RootUnreadable, "$")];
      assert findings[0] in findings;
      return;
    }
    walker.WalkDirectory(Walks.ROOT_SECTOR, ["$"], d.catalogue.dirs[Walks.ROOT_SECTOR]);
    used := walker.usedExtents;
    var found := walker.findings;
    findings := seq(|found|, i requires 0 <= i < |found| => Lift(found[i]));
    WalkTheorems.CleanExactlyWhenTree(d.catalogue);
    LiftedFindings(found, findings);
  }

  lemma LiftedFindings(found: seq<Walks.Finding>, findings: seq<Finding>)
    requires |findings| == |found| && forall i :: 0 <= i < |found| ==> findings[i] == Lift(found[i])
    ensures HasFatal(findings) <==> exists f :: f in found && WalkTheorems.Structural(f.code)
    ensures NonFatal(findings) == set f | f in found && !WalkTheorems.Structural(f.code) :: Lift(f)
  {
  }

  // ---- extents --------------------------------------------------------------------------------------

  ghost predicate InRange(xs: seq<Extent>, total: nat) {
    forall x :: x in xs ==> 0 <= x.start < x.end <= total
  }

  /** The extent is empty or leaves the disc; it is reported under its owner's path, if it has one. */
  predicate StandsOut(x: Extent, total: nat, path: string) {
    && !(0 <= x.start < x.end <= total)
    && path == if x.owner == "" || x.owner[0] != '$' then "" else x.owner
  }

  method RangeFindings(used: seq<Extent>, total: nat) returns (findings: seq<Finding>)
    ensures HasFatal(findings) <==> !InRange(used, total)
    ensures NonFatal(findings) == {}
    ensures forall f :: f in findings ==>
              f.code == UsedOutOfRange && exists x :: x in used && StandsOut(x, total, f.path)
  {
    findings := [];
    for i := 0 to |used|
      invariant forall f :: f in findings ==> f.severity == Fatal
      invariant forall f :: f in findings ==>
                  f.code == UsedOutOfRange && exists x :: x in used && StandsOut(x, total, f.path)
      invariant findings == [] <==> forall k :: 0 <= k < i ==> 0 <= used[k].start < used[k].end <= total
    {
      var extent := used[i];
      if extent.start < 0 || extent.end > total || extent.start >= extent.end {
        assert extent in used && StandsOut(extent, total, OwnerPath(extent.owner));
        findings := findings + [Finding(Fatal, UsedOutOfRange, OwnerPath(extent.owner))];
      }
    }
    assert findings != [] ==> findings[0] in findings;
  }

  function OwnerPath(owner: string): string {
    if owner != "" && owner[0] == '$' then owner else ""
  }

  function Overlaps(code: Code, overlaps: seq<Overlap>): (r: seq<Finding>)
    ensures NonFatal(r) == {}
    ensures HasFatal(r) <==> overlaps != []
    ensures |r| == |overlaps| && forall f :: f in r ==> f.code == code
  {
    var r := seq(|overlaps|, i requires 0 <= i < |overlaps| =>
      Finding(Fatal, code, OwnerPath(if code == FreeUsedOverlap then overlaps[i].firstOwner
                                      else overlaps[i].secondOwner)));
    assert overlaps != [] ==> r[0] in r;
    r
  }

  /** Every sector below the total belongs to exactly one extent, used or free. */
  ghost predicate ExactPartition(used: seq<Extent>, free: seq<Extent>, total: nat) {
    && InRange(used, total)
    && InRange(free, total)
    && forall s :: 0 <= s < total ==> Depth(used, s) + Depth(free, s) == 1
  }

  /** Silence of all four sweeps over in-range extents is the same as an exact partition. */
  lemma SweepsSilent(used: seq<Extent>, free: seq<Extent>, total: nat)
    requires InRange(used, total) && InRange(free, total)
    ensures ExactPartition(used, free, total) <==>
            !SelfOverlapping(used) && !SelfOverlapping(free) && !CrossOverlapping(used, free) &&
            forall s :: 0 <= s < total ==> Covered(used + free, s)
  {
    forall s
      ensures Covered(used + free, s) <==> Depth(used, s) + Depth(free, s) > 0
      ensures Covered(used, s) <==> Depth(used, s) > 0
      ensures Covered(free, s) <==> Depth(free, s) > 0
      ensures Depth(used, s) > 0 || Depth(free, s) > 0 ==> 0 <= s < total
    {
      DepthAppend(used, free, s);
      DepthPositive(used + free, s);
      DepthPositive(used, s);
      DepthPositive(free, s);
    }
  }

  lemma PartitionCounts(used: seq<Extent>, free: seq<Extent>, total: nat)
    requires ExactPartition(used, free, total)
    ensures TotalLength(used) + TotalLength(free) == total
  {
    forall s | 0 <= s < total
      ensures Depth(used + free, s) == 1
    {
      DepthAppend(used, free, s);
    }
    ExactCoverLength(used + free, total);
    TotalLengthAppend(used, free);
  }

  // ---- the report -------------------------------------------------------------------------------------

  /** Everything a report without fatal findings vouches for. */
  ghost predicate Sound(d: Disc) {
    && GeometrySound(d)
    && d.structureProblems == 0
    && FreeListSound(d)
    && CatalogueSound(d)
    && ExactPartition(UsedExtents(d), FreeExtents(d.freeEntries), d.adfsSectors)
  }

  lemma FreeListInRange(d: Disc)
    requires FreeListSound(d)
    ensures InRange(FreeExtents(d.freeEntries), d.adfsSectors)
  {
    FreeIndicesAre(d.freeEntries);
    var xs, at := FreeExtents(d.freeEntries), FreeIndices(d.freeEntries);
    forall k | 0 <= k < |xs|
      ensures 0 <= xs[k].start < xs[k].end <= d.adfsSectors
    {
      assert FreeEntrySound(d.freeEntries[at[k]], d.adfsSectors);
    }
  }

  lemma UsedNonEmpty(d: Disc)
    requires d.catalogue.dirSectors > 0
    ensures AllNonEmpty(UsedExtents(d))
  {
    if d.RootReadable() {
      WalkTheorems.WalkOutputIsVisits(d.catalogue);
      VisitedNonEmpty(d.catalogue, Walks.Walk(d.catalogue).visits);
    }
  }

  lemma {:induction false} VisitedNonEmpty(c: Walks.Catalogue, visits: seq<Walks.Visit>)
    requires c.dirSectors > 0
    ensures AllNonEmpty(WalkTheorems.UsedOf(c, visits))
  {
    if visits != [] {
      VisitedNonEmpty(c, visits[..|visits| - 1]);
    }
  }

  ghost predicate HasCode(findings: seq<Finding>, code: Code) {
    exists f :: f in findings && f.code == code
  }

  lemma JoinedCodes(a: seq<Finding>, b: seq<Finding>, c: seq<Finding>, d: seq<Finding>)
    requires forall f :: f in a ==> f.code == UsedOverlap
    requires forall f :: f in b ==> f.code == FreeOverlap
    requires forall f :: f in c ==> f.code == FreeUsedOverlap
    requires forall f :: f in d ==> f.code == Unaccounted
    ensures var all := a + b + c + d;
            && (HasCode(all, UsedOverlap) <==> a != []) && (HasCode(all, FreeOverlap) <==> b != [])
            && (HasCode(all, FreeUsedOverlap) <==> c != []) && (HasCode(all, Unaccounted) <==> d != [])
            && forall f :: f in all ==> f.code in {UsedOverlap, FreeOverlap, FreeUsedOverlap, Unaccounted}
  {
    var all := a + b + c + d;
    assert forall f :: f in all <==> f in a || f in b || f in c || f in d;
    assert (a != [] ==> a[0] in all) && (b != [] ==> b[0] in all) && (c != [] ==> c[0] in all)
        && (d != [] ==> d[0] in all);
  }

  lemma AllFatal(a: seq<Finding>, b: seq<Finding>, c: seq<Finding>, d: seq<Finding>)
    requires NonFatal(a) == NonFatal(b) == NonFatal(c) == {} && forall f :: f in d ==> f.severity == Fatal
    ensures NonFatal(a + b + c + d) == {}
    ensures HasFatal(a + b + c + d) <==> HasFatal(a) || HasFatal(b) || HasFatal(c) || d != []
  {
    FindingsAppend(a, b);
    FindingsAppend(a + b, c);
    FindingsAppend(a + b + c, d);
    if d != [] {
      assert d[0] in d;
    }
  }

  method ExtentFindings(used: seq<Extent>, free: seq<Extent>, total: nat) returns (findings: seq<Finding>)
    requires AllNonEmpty(used) && AllNonEmpty(free)
    ensures NonFatal(findings) == {}
    ensures InRange(used, total) && InRange(free, total) ==>
              (HasFatal(findings) <==> !ExactPartition(used, free, total))
    ensures HasCode(findings, UsedOverlap) <==> SelfOverlapping(used)
    ensures HasCode(findings, FreeOverlap) <==> SelfOverlapping(free)
    ensures HasCode(findings, FreeUsedOverlap) <==> CrossOverlapping(used, free)
    ensures forall f :: f in findings ==> f.code in {UsedOverlap, FreeOverlap, FreeUsedOverlap, Unaccounted}
  {
    hide HasCode, SelfOverlapping, CrossOverlapping, HasFatal, NonFatal, ExactPartition;
    var usedOverlaps := OverlapFindings(used);
    var freeOverlaps := OverlapFindings(free);
    var crossOverlaps := CrossOverlapFindings(used, free);
    var gaps := GapRanges(used + free, total);
    var unaccounted := if gaps != [] then [Finding(Fatal, Unaccounted, "")] else [];
    var a, b, c := Overlaps(UsedOverlap, usedOverlaps), Overlaps(FreeOverlap, freeOverlaps),
        Overlaps(FreeUsedOverlap, crossOverlaps);
    findings := a + b + c + unaccounted;
    JoinedCodes(a, b, c, unaccounted);
    AllFatal(a, b, c, unaccounted);
    if InRange(used, total) && InRange(free, total) {
      SweepsSilent(used, free, total);
      GapsMeanUncovered(used + free, total, gaps);
    }
  }

  lemma GapsMeanUncovered(xs: seq<Extent>, total: nat, gaps: seq<Range>)
    requires InRange(xs, total)
    requires ExactComplement(xs, total, gaps) <==> !StartsPastTotal(xs, total)
    requires forall r :: r in gaps ==> 0 <= r.first < r.end
    ensures gaps == [] <==> forall s :: 0 <= s < total ==> Covered(xs, s)
  {
    assert ExactComplement(xs, total, gaps);
    if gaps != [] {
      assert gaps[0] in gaps && gaps[0].Holds(gaps[0].first);
      assert InSomeRange(gaps, gaps[0].first);
    }
    forall s | 0 <= s < total && gaps == []
      ensures Covered(xs, s)
    {
      assert !InSomeRange(gaps, s);
    }
  }

  function StructureFindings(problems: nat): (r: seq<Finding>)
    ensures HasFatal(r) <==> problems != 0
    ensures NonFatal(r) == {}
  {
    var r := seq(problems, _ => Finding(Fatal, Structure, ""));
    assert problems > 0 ==> r[0] in r;
    r
  }

  /** The two repairable warnings, in terms of the entries that can be reached. */
  lemma NotesMean(d: Disc, path: string)
    requires d.RootReadable()
    ensures var c := d.catalogue;
            var unusual := Finding(Warning, DirectoryLengthUnusual, path);
            var placed := Finding(Warning, EmptyHasExtent, path);
            && (unusual in WalkNotes(d) ==> LengthWrongAt(c, path))
            && (placed in WalkNotes(d) ==> EmptyPlacedAt(c, path))
            && (WalkTheorems.IsReadableTree(c) ==>
                  && (unusual in WalkNotes(d) <==> LengthWrongAt(c, path))
                  && (placed in WalkNotes(d) <==> EmptyPlacedAt(c, path)))
    ensures forall f :: f in WalkNotes(d) ==>
              f.severity == Warning && f.code in {DirectoryLengthUnusual, EmptyHasExtent}
  {
    var c := d.catalogue;
    LiftedWarnings(d, path);
    WalkTheorems.WarningsAreDeserved(c, path);
    if WalkTheorems.IsReadableTree(c) && LengthWrongAt(c, path) {
      var e :| WalkTheorems.ReachableAs(c, e, path) && e.isDirectory && e.length != c.dirBytes;
      ReachableIsWarned(c, e, path);
    }
    if WalkTheorems.IsReadableTree(c) && EmptyPlacedAt(c, path) {
      var e :| WalkTheorems.ReachableAs(c, e, path) && !e.isDirectory && e.length == 0 && e.start != 0;
      ReachableIsWarned(c, e, path);
    }
  }

  lemma ReachableIsWarned(c: Walks.Catalogue, e: Walks.Entry, path: string)
    requires Walks.ROOT_SECTOR in c.dirs && WalkTheorems.IsReadableTree(c) && WalkTheorems.ReachableAs(c, e, path)
    ensures e.isDirectory && e.length != c.dirBytes ==>
              Walks.Finding(Walks.LengthUnusual, path) in Walks.Walk(c).findings
    ensures !e.isDirectory && e.length == 0 && e.start != 0 ==>
              Walks.Finding(Walks.EmptyHasExtent, path) in Walks.Walk(c).findings
  {
    var route :| WalkTheorems.HeldAt(c, route, e) && path == Paths.Join(WalkTheorems.NamesTo(c, route)) + "." + e.name;
    WalkTheorems.DeservedIsWarned(c, route, e);
  }

  lemma LiftedWarnings(d: Disc, path: string)
    requires d.RootReadable()
    ensures Finding(Warning, DirectoryLengthUnusual, path) in WalkNotes(d)
            <==> Walks.Finding(Walks.LengthUnusual, path) in Walks.Walk(d.catalogue).findings
    ensures Finding(Warning, EmptyHasExtent, path) in WalkNotes(d)
            <==> Walks.Finding(Walks.EmptyHasExtent, path) in Walks.Walk(d.catalogue).findings
    ensures forall f :: f in WalkNotes(d) ==>
              f.severity == Warning && f.code in {DirectoryLengthUnusual, EmptyHasExtent}
  {
    var found := Walks.Walk(d.catalogue).findings;
    assert Walks.Finding(Walks.LengthUnusual, path) in found ==>
             Lift(Walks.Finding(Walks.LengthUnusual, path)) in WalkNotes(d);
    assert Walks.Finding(Walks.EmptyHasExtent, path) in found ==>
             Lift(Walks.Finding(Walks.EmptyHasExtent, path)) in WalkNotes(d);
  }

  /** A directory whose recorded length is not that of a directory can be reached as `path`. */
  ghost predicate LengthWrongAt(c: Walks.Catalogue, path: string)
    requires Walks.ROOT_SECTOR in c.dirs
  {
    exists e :: WalkTheorems.ReachableAs(c, e, path) && e.isDirectory && e.length != c.dirBytes
  }

  /** An empty file that claims a place can be reached as `path`. */
  ghost predicate EmptyPlacedAt(c: Walks.Catalogue, path: string)
    requires Walks.ROOT_SECTOR in c.dirs
  {
    exists e :: WalkTheorems.ReachableAs(c, e, path) && !e.isDirectory && e.length == 0 && e.start != 0
  }

  /** What a sound disc is, in plain numbers. */
  lemma SoundMeans(d: Disc)
    ensures Sound(d) <==>
              && d.datBytes % 256 == 0 && d.adfsSectors * 256 <= d.datBytes && d.adfsSectors <= d.geometrySectors
              && (d.datBytes == d.geometrySectors * 256 || d.datBytes == d.adfsSectors * 256)
              && d.structureProblems == 0 && d.freeReadable
              && (forall k :: 0 <= k < |d.freeEntries| ==>
                    && d.freeEntries[k].1 >= 256 && d.freeEntries[k].0 >= 1792
                    && d.freeEntries[k].0 / 256 + d.freeEntries[k].1 / 256 <= d.adfsSectors)
              && d.RootReadable() && WalkTheorems.IsReadableTree(d.catalogue)
              && ExactPartition(UsedExtents(d), FreeExtents(d.freeEntries), d.adfsSectors)
  {
    assert forall e: (nat, nat) :: FreeEntrySound(e, d.adfsSectors) <==>
               e.1 >= 256 && e.0 >= 1792 && e.0 / 256 + e.1 / 256 <= d.adfsSectors;
    assert forall k :: 0 <= k < |d.freeEntries| ==> d.freeEntries[k] in d.freeEntries;
    hide ExactPartition, FreeEntrySound;
  }

  /** The report is free of fatal findings exactly when the disc is sound, its used and free extents
      then add up to the ADFS size, and its remaining findings are exactly the repairable warnings of
      the examined entries and the notes about the reserved tail. */
  method ValidateOpenMount(d: Disc) returns (report: Report)
    requires d.catalogue.dirSectors > 0
    ensures report.SafeForWrite() <==> Sound(d)
    ensures NonFatal(report.findings) == GeometryNotes(d) + WalkNotes(d)
    ensures report.used == UsedExtents(d) && report.free == FreeExtents(d.freeEntries)
    ensures report.SafeForWrite() ==> report.UsedSectors() + report.FreeSectors() == d.adfsSectors
    ensures d.RootReadable() ==> forall p ::
              && (Finding(Warning, DirectoryLengthUnusual, p) in report.findings ==> LengthWrongAt(d.catalogue, p))
              && (Finding(Warning, EmptyHasExtent, p) in report.findings ==> EmptyPlacedAt(d.catalogue, p))
    ensures CatalogueSound(d) ==> forall p ::
              && (Finding(Warning, DirectoryLengthUnusual, p) in report.findings <==> LengthWrongAt(d.catalogue, p))
              && (Finding(Warning, EmptyHasExtent, p) in report.findings <==> EmptyPlacedAt(d.catalogue, p))
  {
    var geometry := GeometryFindings(d);
    var structure := StructureFindings(d.structureProblems);
    var free, freeList := FreeListFindings(d);
    var used, walk := WalkFindings(d);
    var range := RangeFindings(used, d.adfsSectors);
    UsedNonEmpty(d);
    var extents := ExtentFindings(used, free, d.adfsSectors);
    report := Report(used, free, geometry + structure + freeList + walk + range + extents);
    AppendAll(geometry, structure, freeList, walk, range, extents);
    WarningsAreNotes(d, report.findings);
    if FreeListSound(d) {
      FreeListInRange(d);
    }
    if Sound(d) {
      PartitionCounts(used, free, d.adfsSectors);
    }
  }

  lemma WarningsAreNotes(d: Disc, findings: seq<Finding>)
    requires NonFatal(findings) == GeometryNotes(d) + WalkNotes(d)
    ensures d.RootReadable() ==> forall p ::
              && (Finding(Warning, DirectoryLengthUnusual, p) in findings ==> LengthWrongAt(d.catalogue, p))
              && (Finding(Warning, EmptyHasExtent, p) in findings ==> EmptyPlacedAt(d.catalogue, p))
    ensures CatalogueSound(d) ==> forall p ::
              && (Finding(Warning, DirectoryLengthUnusual, p) in findings <==> LengthWrongAt(d.catalogue, p))
              && (Finding(Warning, EmptyHasExtent, p) in findings <==> EmptyPlacedAt(d.catalogue, p))
  {
    hide LengthWrongAt, EmptyPlacedAt, WalkNotes;
    if d.RootReadable() {
      forall p {:trigger LengthWrongAt(d.catalogue, p)} | true
        ensures Finding(Warning, DirectoryLengthUnusual, p) in findings
                <==> Finding(Warning, DirectoryLengthUnusual, p) in WalkNotes(d)
        ensures Finding(Warning, EmptyHasExtent, p) in findings
                <==> Finding(Warning, EmptyHasExtent, p) in WalkNotes(d)
        ensures Finding(Warning, DirectoryLengthUnusual, p) in WalkNotes(d) ==> LengthWrongAt(d.catalogue, p)
        ensures Finding(Warning, EmptyHasExtent, p) in WalkNotes(d) ==> EmptyPlacedAt(d.catalogue, p)
        ensures CatalogueSound(d) ==>
                  && (LengthWrongAt(d.catalogue, p) ==> Finding(Warning, DirectoryLengthUnusual, p) in WalkNotes(d))
                  && (EmptyPlacedAt(d.catalogue, p) ==> Finding(Warning, EmptyHasExtent, p) in WalkNotes(d))
      {
        NotesMean(d, p);
        assert Finding(Warning, DirectoryLengthUnusual, p) in findings
            <==> Finding(Warning, DirectoryLengthUnusual, p) in NonFatal(findings);
        assert Finding(Warning, EmptyHasExtent, p) in findings
            <==> Finding(Warning, EmptyHasExtent, p) in NonFatal(findings);
      }
    }
  }

  lemma AppendAll(a: seq<Finding>, b: seq<Finding>, c: seq<Finding>, d: seq<Finding>, e: seq<Finding>, f: seq<Finding>)
    ensures HasFatal(a + b + c + d + e + f) <==>
              HasFatal(a) || HasFatal(b) || HasFatal(c) || HasFatal(d) || HasFatal(e) || HasFatal(f)
    ensures NonFatal(a + b + c + d + e + f)
            == NonFatal(a) + NonFatal(b) + NonFatal(c) + NonFatal(d) + NonFatal(e) + NonFatal(f)
  {
  }
}
