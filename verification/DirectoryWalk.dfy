/** The catalogue walk of the integrity report, over a directory graph that may be cyclic. */
module DirectoryWalk {
  import opened Extents
  import opened Paths

  const SECTOR_BYTES: int := 256
  const ROOT_SECTOR: int := 2

  datatype Entry = Entry(name: string, isDirectory: bool, start: int, length: nat)

  datatype Directory = Directory(entries: seq<Entry>, sequence: nat)

  /** The directories that can be read, by sector; any other sector fails to parse. */
  datatype Catalogue = Catalogue(dirs: map<int, Directory>, dirSectors: int, dirBytes: nat)

  datatype Code =
    | LengthUnusual
    | Cycle
    | Unreadable
    | EmptyHasExtent

  datatype Finding = Finding(code: Code, path: string)

  /** One entry looked at: the sector and components of its directory, and the entry. */
  datatype Visit = Visit(sector: int, names: seq<string>, entry: Entry)

  /** `used`, `findings` and `seen` are what the walk builds; `attempts` and `visits` record what it
      attempted and examined. */
  datatype State = State(used: seq<Extent>, findings: seq<Finding>, seen: set<int>, attempts: seq<int>,
    visits: seq<Visit>)

  function Sectors(length: nat): nat {
    (length + SECTOR_BYTES - 1) / SECTOR_BYTES
  }

  /** The sectors an entry claims, if any. */
  function EntryExtent(c: Catalogue, names: seq<string>, e: Entry): seq<Extent>
  {
    var path := Child(Join(names), e.name);
    if e.isDirectory then [Extent(e.start, e.start + c.dirSectors, path)]
    else if Sectors(e.length) > 0 then [Extent(e.start, e.start + Sectors(e.length), path)]
    else []
  }

  /** The repairable warning an entry earns by itself, if any. */
  function EntryWarning(c: Catalogue, e: Entry): seq<Code> {
    if e.isDirectory && e.length != c.dirBytes then [LengthUnusual]
    else if !e.isDirectory && Sectors(e.length) == 0 && e.start != 0 then [EmptyHasExtent]
    else []
  }

  function Report(findings: seq<Finding>, codes: seq<Code>, path: string): seq<Finding> {
    if codes == [] then findings else findings + [Finding(codes[0], path)]
  }

  /** The bookkeeping for one entry, before any descent. */
  function Note(c: Catalogue, sector: int, names: seq<string>, e: Entry, st: State): State
  {
    st.(used := st.used + EntryExtent(c, names, e),
        findings := Report(st.findings, EntryWarning(c, e), Child(Join(names), e.name)),
        visits := st.visits + [Visit(sector, names, e)])
  }

  /** Walk a directory's remaining entries.  Every descent adds a readable sector to `seen`. */
  function WalkEntries(c: Catalogue, sector: int, names: seq<string>, entries: seq<Entry>, st: State): (r: State)
    ensures st.seen <= r.seen
    decreases c.dirs.Keys - st.seen, |entries|
  {
    if entries == [] then st
    else
      var next := Visited(c, sector, names, entries[0], st);
      assert c.dirs.Keys - next.seen <= c.dirs.Keys - st.seen;
      WalkEntries(c, sector, names, entries[1..], next)
  }

  function Visited(c: Catalogue, sector: int, names: seq<string>, e: Entry, st: State): (r: State)
    ensures st.seen <= r.seen
    decreases c.dirs.Keys - st.seen, 0
  {
    var noted := Note(c, sector, names, e, st);
    var path := Child(Join(names), e.name);
    if !e.isDirectory then noted
    else if e.start in st.seen then noted.(findings := noted.findings + [Finding(Cycle, path)])
    else
      var entered := noted.(seen := st.seen + {e.start}, attempts := st.attempts + [e.start]);
      if e.start !in c.dirs then entered.(findings := entered.findings + [Finding(Unreadable, path)])
      else
        assert e.start in c.dirs.Keys - st.seen && e.start !in c.dirs.Keys - entered.seen;
        WalkEntries(c, e.start, names + [e.name], c.dirs[e.start].entries, entered)
  }

  const START: State := State([Extent(0, 2, "ADFS free-space map"), Extent(2, 7, "$")], [],
    {ROOT_SECTOR}, [ROOT_SECTOR], [])

  /** The whole walk; `None`-like outcomes of an unreadable root are decided by the caller. */
  function Walk(c: Catalogue): State
    requires ROOT_SECTOR in c.dirs
  {
    WalkEntries(c, ROOT_SECTOR, ["$"], c.dirs[ROOT_SECTOR].entries, START)
  }

  // ---- the loop of the source, tied to the function ---------------------------------------------

  class Walker {
    const catalogue: Catalogue
    var usedExtents: seq<Extent>
    var findings: seq<Finding>
    var seenDirectories: set<int>
    ghost var attempts: seq<int>
    ghost var visits: seq<Visit>

    ghost function Current(): State
      reads this
    {
      State(usedExtents, findings, seenDirectories, attempts, visits)
    }

    constructor (c: Catalogue)
      ensures catalogue == c && Current() == START
    {
      catalogue := c;
      usedExtents := [Extent(0, 2, "ADFS free-space map"), Extent(2, 7, "$")];
      findings, seenDirectories := [], {ROOT_SECTOR};
      attempts, visits := [ROOT_SECTOR], [];
    }

    method WalkDirectory(sector: int, names: seq<string>, directory: Directory)
      modifies this
      ensures Current() == WalkEntries(catalogue, sector, names, directory.entries, old(Current()))
      decreases catalogue.dirs.Keys - seenDirectories, |directory.entries| + 1
    {
      var entries := directory.entries;
      ghost var start := Current();
      for i := 0 to |entries|
        invariant start.seen <= seenDirectories
        invariant WalkEntries(catalogue, sector, names, entries, start) == WalkEntries(catalogue, sector, names,
                  entries[i..], Current())
      {
        var entry := entries[i];
        ghost var before := Current();
        assert entries[i..][0] == entry && entries[i..][1..] == entries[i + 1..];
        assert catalogue.dirs.Keys - seenDirectories <= catalogue.dirs.Keys - start.seen;
        VisitEntry(sector, names, entry);
        assert Current() == Visited(catalogue, sector, names, entry, before);
      }
      assert entries[|entries|..] == [];
    }

    method VisitEntry(sector: int, names: seq<string>, entry: Entry)
      modifies this
      ensures Current() == Visited(catalogue, sector, names, entry, old(Current()))
      decreases catalogue.dirs.Keys - seenDirectories, 0
    {
      var path := Child(Join(names), entry.name);
      visits := visits + [Visit(sector, names, entry)];
      if entry.isDirectory {
        usedExtents := usedExtents + [Extent(entry.start, entry.start + catalogue.dirSectors, path)];
        if entry.length != catalogue.dirBytes {
          findings := findings + [Finding(LengthUnusual, path)];
        }
        if entry.start in seenDirectories {
          findings := findings + [Finding(Cycle, path)];
          return;
        }
        seenDirectories := seenDirectories + {entry.start};
        attempts := attempts + [entry.start];
        if entry.start !in catalogue.dirs {
          findings := findings + [Finding(Unreadable, path)];
          return;
        }
        assert entry.start in catalogue.dirs.Keys - old(seenDirectories)
               && entry.start !in catalogue.dirs.Keys - seenDirectories;
        assert catalogue.dirs.Keys - seenDirectories < catalogue.dirs.Keys - old(seenDirectories);
        WalkDirectory(entry.start, names + [entry.name], catalogue.dirs[entry.start]);
      } else {
        var sectors := (entry.length + SECTOR_BYTES - 1) / SECTOR_BYTES;
        if sectors != 0 {
          usedExtents := usedExtents + [Extent(entry.start, entry.start + sectors, path)];
        } else if entry.start != 0 {
          findings := findings + [Finding(EmptyHasExtent, path)];
        }
      }
    }
  }
}
