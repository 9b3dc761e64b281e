/** What a mounted catalogue lists, and what the index must say once the walk over it has ended. */
module Cataloguing {
  import opened Namespace
  import opened Paths

  datatype Entry = Entry(name: string, isDir: bool, size: nat, locked: bool)

  /** The entries at a path, in the order they are indexed.  Nothing keeps a catalogue from being endless: a
      directory may hold itself. */
  type Disc = string -> seq<Entry>

  ghost predicate DotFreeNames(disc: Disc) {
    forall path, e :: e in disc(path) ==> DotFree(e.name)
  }

  datatype Limits = Limits(maxDepth: nat, maxNodes: nat)

  ghost predicate DistinctNames(entries: seq<Entry>) {
    forall j, k :: 0 <= j < k < |entries| ==> entries[j].name != entries[k].name
  }

  /** The tree below a path ends within the limit, and no directory in it lists a name twice. */
  ghost predicate Shallow(disc: Disc, path: string, depth: nat, maxDepth: nat)
    decreases maxDepth + 1 - depth
  {
    && depth <= maxDepth
    && DistinctNames(disc(path))
    && forall e :: e in disc(path) && e.isDir ==> Shallow(disc, Child(path, e.name), depth + 1, maxDepth)
  }

  /** How many entries lie below a path, as deep as the limit goes. */
  ghost function Total(disc: Disc, path: string, depth: nat, maxDepth: nat): nat
    decreases maxDepth + 1 - depth, |disc(path)| + 1
  {
    if depth > maxDepth then 0 else TotalOf(disc, path, disc(path), depth, maxDepth)
  }

  ghost function Below(disc: Disc, path: string, e: Entry, depth: nat, maxDepth: nat): nat
    requires depth <= maxDepth
    decreases maxDepth + 1 - depth, 0
  {
    if e.isDir then Total(disc, Child(path, e.name), depth + 1, maxDepth) else 0
  }

  ghost function TotalOf(disc: Disc, path: string, entries: seq<Entry>, depth: nat, maxDepth: nat): nat
    requires depth <= maxDepth
    decreases maxDepth + 1 - depth, |entries|
  {
    if entries == [] then 0
    else
      var last := |entries| - 1;
      TotalOf(disc, path, entries[..last], depth, maxDepth) + 1 + Below(disc, path, entries[last], depth, maxDepth)
  }

  lemma TotalOfNext(disc: Disc, path: string, entries: seq<Entry>, k: nat, depth: nat, maxDepth: nat)
    requires k < |entries| && depth <= maxDepth
    ensures TotalOf(disc, path, entries[..k + 1], depth, maxDepth)
            == TotalOf(disc, path, entries[..k], depth, maxDepth) + 1 + Below(disc, path, entries[k], depth, maxDepth)
  {
    assert entries[..k + 1][..k] == entries[..k];
  }

  lemma {:induction false} TotalOfGrows(disc: Disc, path: string, entries: seq<Entry>, k: nat, depth: nat,
      maxDepth: nat)
    requires k <= |entries| && depth <= maxDepth
    ensures TotalOf(disc, path, entries[..k], depth, maxDepth) <= TotalOf(disc, path, entries, depth, maxDepth)
    decreases |entries| - k
  {
    if k == |entries| {
      assert entries[..k] == entries;
    } else {
      TotalOfNext(disc, path, entries, k, depth, maxDepth);
      TotalOfGrows(disc, path, entries, k + 1, depth, maxDepth);
    }
  }

  /** The catalogue can be indexed: shallow enough, few enough entries, and no name twice in a directory. */
  ghost predicate Indexable(disc: Disc, path: string, depth: nat, limits: Limits, known: nat) {
    && Shallow(disc, path, depth, limits.maxDepth)
    && (disc(path) != [] ==> known + Total(disc, path, depth, limits.maxDepth) <= limits.maxNodes)
  }

  /** What `Shallow` asks of the entries met so far. */
  ghost predicate AllShallow(disc: Disc, path: string, entries: seq<Entry>, depth: nat, maxDepth: nat) {
    && DistinctNames(entries)
    && forall e :: e in entries && e.isDir ==> Shallow(disc, Child(path, e.name), depth + 1, maxDepth)
  }

  /** Directories one inside the other, from a path down. */
  ghost predicate IsChain(disc: Disc, path: string, chain: seq<Entry>)
    decreases |chain|
  {
    chain == [] ||
    (chain[0] in disc(path) && chain[0].isDir && IsChain(disc, Child(path, chain[0].name), chain[1..]))
  }

  ghost function PathDown(path: string, chain: seq<Entry>): string
    decreases |chain|
  {
    if chain == [] then path else PathDown(Child(path, chain[0].name), chain[1..])
  }

  /** Shallow means that no chain of directories goes deeper than the limit, and that none of them leads to a
      directory with a name twice. */
  lemma {:induction false} ShallowMeans(disc: Disc, path: string, depth: nat, maxDepth: nat)
    requires depth <= maxDepth + 1
    ensures Shallow(disc, path, depth, maxDepth) <==>
              forall chain: seq<Entry> :: IsChain(disc, path, chain) ==>
                depth + |chain| <= maxDepth && DistinctNames(disc(PathDown(path, chain)))
    decreases maxDepth + 1 - depth
  {
    if depth > maxDepth {
      assert IsChain(disc, path, []);
    } else {
      forall e | e in disc(path) && e.isDir
        ensures Shallow(disc, Child(path, e.name), depth + 1, maxDepth)
                <==> ChainsFit(disc, Child(path, e.name), depth + 1, maxDepth)
      {
        ShallowMeans(disc, Child(path, e.name), depth + 1, maxDepth);
      }
      if Shallow(disc, path, depth, maxDepth) {
        ChainsOfShallow(disc, path, depth, maxDepth);
      } else {
        DeepHasChain(disc, path, depth, maxDepth);
      }
    }
  }

  lemma ChainsOfShallow(disc: Disc, path: string, depth: nat, maxDepth: nat)
    requires Shallow(disc, path, depth, maxDepth)
    requires forall e :: e in disc(path) && e.isDir ==> ChainsFit(disc, Child(path, e.name), depth + 1, maxDepth)
    ensures ChainsFit(disc, path, depth, maxDepth)
  {
    forall chain: seq<Entry> | IsChain(disc, path, chain)
      ensures depth + |chain| <= maxDepth && DistinctNames(disc(PathDown(path, chain)))
    {
      if chain != [] {
        assert ChainsFit(disc, Child(path, chain[0].name), depth + 1, maxDepth);
        assert IsChain(disc, Child(path, chain[0].name), chain[1..]);
      }
    }
  }

  ghost predicate ChainsFit(disc: Disc, path: string, depth: nat, maxDepth: nat) {
    forall chain: seq<Entry> :: IsChain(disc, path, chain) ==>
      depth + |chain| <= maxDepth && DistinctNames(disc(PathDown(path, chain)))
  }

  lemma DeepHasChain(disc: Disc, path: string, depth: nat, maxDepth: nat)
    requires depth <= maxDepth && !Shallow(disc, path, depth, maxDepth)
    requires forall e :: e in disc(path) && e.isDir && !Shallow(disc, Child(path, e.name), depth + 1, maxDepth) ==>
               !ChainsFit(disc, Child(path, e.name), depth + 1, maxDepth)
    ensures !ChainsFit(disc, path, depth, maxDepth)
  {
    hide DistinctNames;
    assert IsChain(disc, path, []) && PathDown(path, []) == path;
    if DistinctNames(disc(path)) {
      var e :| e in disc(path) && e.isDir && !Shallow(disc, Child(path, e.name), depth + 1, maxDepth);
      var chain: seq<Entry> :| IsChain(disc, Child(path, e.name), chain) &&
          !(depth + 1 + |chain| <= maxDepth && DistinctNames(disc(PathDown(Child(path, e.name), chain))));
      var longer := [e] + chain;
      assert longer[1..] == chain;
      assert IsChain(disc, path, longer) && PathDown(path, longer) == PathDown(Child(path, e.name), chain);
    }
  }

  lemma AllShallowNext(disc: Disc, path: string, entries: seq<Entry>, k: nat, depth: nat, maxDepth: nat)
    requires k < |entries| && AllShallow(disc, path, entries[..k], depth, maxDepth)
    requires forall j :: 0 <= j < k ==> entries[j].name != entries[k].name
    requires entries[k].isDir ==> Shallow(disc, Child(path, entries[k].name), depth + 1, maxDepth)
    ensures AllShallow(disc, path, entries[..k + 1], depth, maxDepth)
  {
    assert entries[..k + 1] == entries[..k] + [entries[k]];
  }

  lemma AllIndexed(disc: Disc, path: string, depth: nat, limits: Limits, known: nat)
    requires depth <= limits.maxDepth && AllShallow(disc, path, disc(path), depth, limits.maxDepth)
    requires disc(path) != [] ==>
               known + TotalOf(disc, path, disc(path), depth, limits.maxDepth) <= limits.maxNodes
    ensures Indexable(disc, path, depth, limits, known)
  {
  }

  /** With as many nodes as may be, one more entry is one too many. */
  lemma LimitReached(disc: Disc, path: string, k: nat, depth: nat, limits: Limits, known: nat)
    requires depth <= limits.maxDepth && k < |disc(path)|
    requires known + TotalOf(disc, path, disc(path)[..k], depth, limits.maxDepth) >= limits.maxNodes
    ensures !Indexable(disc, path, depth, limits, known)
  {
    TotalOfNext(disc, path, disc(path), k, depth, limits.maxDepth);
    TotalOfGrows(disc, path, disc(path), k + 1, depth, limits.maxDepth);
  }

  lemma NameTwice(disc: Disc, path: string, j: nat, k: nat, depth: nat, limits: Limits, known: nat)
    requires j < k < |disc(path)| && disc(path)[j].name == disc(path)[k].name
    ensures !Indexable(disc, path, depth, limits, known)
  {
  }

  /** A directory that cannot be indexed where it is met keeps the one above it from being indexed. */
  lemma InnerFails(disc: Disc, path: string, k: nat, depth: nat, limits: Limits, known: nat, met: nat)
    requires depth <= limits.maxDepth && k < |disc(path)| && disc(path)[k].isDir
    requires met == known + TotalOf(disc, path, disc(path)[..k], depth, limits.maxDepth) + 1
    requires !Indexable(disc, Child(path, disc(path)[k].name), depth + 1, limits, met)
    ensures !Indexable(disc, path, depth, limits, known)
  {
    TotalOfNext(disc, path, disc(path), k, depth, limits.maxDepth);
    TotalOfGrows(disc, path, disc(path), k + 1, depth, limits.maxDepth);
    assert disc(path)[k] in disc(path);
  }

  // ---- the index while the walk goes on ------------------------------------------------------------------------

  predicate Matches(node: Node, e: Entry) {
    node.name == e.name && node.isDir == e.isDir && node.size == e.size && node.locked == e.locked
  }

  ghost predicate ShowsOnly(ix: Index, d: nat, entries: seq<Entry>) {
    && d in ix.children && |ix.children[d]| == |entries|
    && forall k :: 0 <= k < |entries| ==>
         ix.children[d][k] in ix.nodes && Matches(ix.nodes[ix.children[d][k]], entries[k])
  }

  /** A directory of the index shows exactly the entries listed at its path, in their order. */
  ghost predicate Shows(ix: Index, d: nat, disc: Disc) {
    d in ix.nodes && ShowsOnly(ix, d, disc(ix.nodes[d].path))
  }

  /** Inodes are given out from one on without a gap. */
  ghost predicate Numbered(ix: Index) {
    |ix.nodes| + 1 == ix.next && ix.next - 1 in ix.nodes
  }

  /** The index with one more entry placed in a directory. */
  ghost function Placed(ix: Index, parent: nat, e: Entry): Index
    requires parent in ix.nodes && parent in ix.children && parent in ix.names
  {
    UpdateNode(AddNode(ix, parent, e.name, e.isDir, e.size), ix.next, e.size, e.locked)
  }

  /** Nothing that was in `a` changed, except what directory `parent` lists. */
  ghost predicate Grown(a: Index, b: Index, parent: nat) {
    && a.next <= b.next
    && (forall i :: i in a.nodes ==> i in b.nodes && b.nodes[i] == a.nodes[i])
    && a.children.Keys <= b.children.Keys && a.names.Keys <= b.names.Keys
    && (forall d :: d in a.children && d != parent ==> b.children[d] == a.children[d])
    && (forall d :: d in a.names && d != parent ==> b.names[d] == a.names[d])
  }

  lemma GrownTwice(a: Index, b: Index, c: Index, parent: nat, inner: nat)
    requires Grown(a, b, parent) && Grown(b, c, inner)
    requires inner == parent || (inner !in a.children && inner !in a.names)
    ensures Grown(a, c, parent)
  {
  }

  lemma PlacedKeys(ix: Index, parent: nat, e: Entry)
    requires parent in ix.nodes && parent in ix.children && parent in ix.names && ix.names.Keys == ix.children.Keys
    ensures var r := Placed(ix, parent, e);
            && r.children.Keys == ix.children.Keys + (if e.isDir then {ix.next} else {})
            && r.names.Keys == ix.names.Keys + (if e.isDir then {ix.next} else {})
            && (forall d :: d in ix.children && d != parent && d != ix.next ==> r.children[d] == ix.children[d])
            && (forall d :: d in ix.names && d != parent && d != ix.next ==> r.names[d] == ix.names[d])
  {
  }

  lemma PlacedGrows(ix: Index, parent: nat, e: Entry)
    requires parent in ix.nodes && parent in ix.children && parent in ix.names
    requires ix.next !in ix.nodes && ix.next !in ix.children && ix.names.Keys == ix.children.Keys
    ensures Grown(ix, Placed(ix, parent, e), parent)
    ensures var r := Placed(ix, parent, e);
            && r.nodes == ix.nodes[ix.next := Node(parent, e.name, Child(ix.nodes[parent].path, e.name), e.isDir,
                                                   e.size, e.locked)]
            && r.next == ix.next + 1
            && r.children == (if e.isDir then ix.children[parent := ix.children[parent] + [ix.next]][ix.next := []]
                              else ix.children[parent := ix.children[parent] + [ix.next]])
            && parent in r.names && r.names[parent] == ix.names[parent][e.name := ix.next]
            && (e.isDir ==> ix.next in r.names && r.names[ix.next] == map[])
            && r.names.Keys == r.children.Keys
  {
  }

  /** The dictionaries while directories are being walked: those of the index `full`, without the tables of
      the `active` directories, which are stored only when their walk ends. */
  ghost predicate Building(nodes: map<nat, Node>, children: map<nat, seq<nat>>, names: map<nat, map<string, nat>>,
      full: Index, active: set<nat>, disc: Disc)
  {
    && Tree(full) && Numbered(full)
    && nodes == full.nodes && active <= full.children.Keys
    && children == full.children - active && names == full.names - active
    && forall d :: d in full.children && d !in active ==> Shows(full, d, disc)
  }

  lemma PlacedKeepsTree(ix: Index, parent: nat, e: Entry)
    requires Tree(ix) && Directory(ix, parent) && DotFree(e.name) && e.name !in ix.names[parent]
    ensures Tree(Placed(ix, parent, e))
  {
    hide Agrees, Hangs, RootInPlace, AddNode, UpdateNode;
    AddKeepsTree(ix, parent, e.name, e.isDir, e.size);
    UpdateKeepsTree(AddNode(ix, parent, e.name, e.isDir, e.size), ix.next, e.size, e.locked);
  }

  lemma PlacedKeepsNumbers(ix: Index, parent: nat, e: Entry)
    requires Numbered(ix) && ix.next !in ix.nodes && ix.next !in ix.children && ix.names.Keys == ix.children.Keys
    requires parent in ix.nodes && parent in ix.children
    ensures Numbered(Placed(ix, parent, e)) && |Placed(ix, parent, e).nodes| == |ix.nodes| + 1
  {
    PlacedGrows(ix, parent, e);
    var r := Placed(ix, parent, e);
    assert r.nodes.Keys == ix.nodes.Keys + {ix.next};
    hide Placed;
  }

  lemma FreshInode(ix: Index)
    requires Tree(ix)
    ensures ix.next !in ix.nodes && ix.next !in ix.children && ix.next !in ix.names && ix.names.Keys == ix.children.Keys
    ensures ix.children.Keys <= ix.nodes.Keys
  {
    hide Agrees, Hangs, RootInPlace;
    assert forall d :: d in ix.children ==> Directory(ix, d);
  }

  /** What is stored already is untouched by placing an entry where nothing is stored yet. */
  lemma StoredTables<T>(stored: map<nat, T>, full: map<nat, T>, r: map<nat, T>, active: set<nat>, parent: nat, i: nat,
      isDir: bool)
    requires stored == full - active && parent in active && parent in full && i !in full
    requires r.Keys == full.Keys + (if isDir then {i} else {})
    requires forall d :: d in full && d != parent ==> r[d] == full[d]
    ensures stored == r - (if isDir then active + {i} else active)
  {
  }

  lemma PlacedShows(full: Index, active: set<nat>, disc: Disc, parent: nat, e: Entry, r: Index, d: nat)
    requires Grown(full, r, parent) && parent in active && r.children.Keys <= full.children.Keys + {full.next}
    requires forall g :: g in full.children && g !in active ==> Shows(full, g, disc)
    requires full.names.Keys == full.children.Keys
    requires d in r.children && d !in active && d != full.next
    ensures Shows(r, d, disc)
  {
    assert Shows(full, d, disc);
    GrownShowsOnly(full, r, parent, d, disc(full.nodes[d].path));
  }

  /** Placing an entry in the directory being walked, which if it is one itself is walked next. */
  lemma PlacedKeepsBuilding(nodes: map<nat, Node>, children: map<nat, seq<nat>>, names: map<nat, map<string, nat>>,
      full: Index, active: set<nat>, disc: Disc, parent: nat, e: Entry)
    requires Building(nodes, children, names, full, active, disc) && parent in active
    requires DotFree(e.name) && parent in full.names && parent in full.nodes && e.name !in full.names[parent]
    ensures var r, i := Placed(full, parent, e), full.next;
            Building(r.nodes, children, names, r, if e.isDir then active + {i} else active, disc)
  {
    hide Tree, Numbered, Shows, Placed, Grown;
    var r, i := Placed(full, parent, e), full.next;
    FreshInode(full);
    assert Directory(full, parent) by { TreeKinds(full, parent); }
    PlacedKeepsTree(full, parent, e);
    PlacedKeepsNumbers(full, parent, e);
    PlacedGrows(full, parent, e);
    PlacedKeys(full, parent, e);
    var walked := if e.isDir then active + {i} else active;
    StoredTables(children, full.children, r.children, active, parent, i, e.isDir);
    StoredTables(names, full.names, r.names, active, parent, i, e.isDir);
    forall d | d in r.children && d !in walked
      ensures Shows(r, d, disc)
    {
      PlacedShows(full, active, disc, parent, e, r, d);
    }
  }

  /** Once its tables are stored, a directory that shows its entries is no longer being walked. */
  lemma StoredKeepsBuilding(nodes: map<nat, Node>, children: map<nat, seq<nat>>, names: map<nat, map<string, nat>>,
      full: Index, active: set<nat>, disc: Disc, parent: nat)
    requires Building(nodes, children, names, full, active, disc) && parent in active
    requires Shows(full, parent, disc)
    ensures Building(nodes, children[parent := full.children[parent]], names[parent := full.names[parent]], full,
              active - {parent}, disc)
  {
    hide Tree, Numbered, Shows;
    assert full.names.Keys == full.children.Keys by { TreeKeys(full); }
  }

  lemma TreeKinds(ix: Index, d: nat)
    requires Tree(ix) && d in ix.children
    ensures Directory(ix, d)
  {
  }

  lemma TreeKeys(ix: Index)
    requires Tree(ix)
    ensures ix.names.Keys == ix.children.Keys
  {
  }

  /** The name table of the directory being walked knows exactly the names placed so far. */
  lemma TableKnowsNames(full: Index, parent: nat, entries: seq<Entry>, name: string)
    requires Tree(full) && ShowsOnly(full, parent, entries)
    ensures parent in full.names
    ensures name in full.names[parent] <==> exists j :: 0 <= j < |entries| && entries[j].name == name
  {
    assert Agrees(full, parent);
    var list, table := full.children[parent], full.names[parent];
    if name in table {
      assert table[name] in list;
      var j :| 0 <= j < |list| && list[j] == table[name];
      assert entries[j].name == name;
    }
    if j :| 0 <= j < |entries| && entries[j].name == name {
      assert list[j] in list;
    }
  }

  /** The index of a disc on which nothing has been listed yet. */
  function RootIndex(rootSize: nat): Index {
    Index(map[ROOT := Node(ROOT, "", "$", true, rootSize, false)], map[ROOT := []], map[ROOT := map[]], ROOT + 1)
  }

  lemma RootIsBuilding(disc: Disc, rootSize: nat)
    ensures Building(map[ROOT := Node(ROOT, "", "$", true, rootSize, false)], map[], map[], RootIndex(rootSize), {ROOT},
              disc)
    ensures ShowsOnly(RootIndex(rootSize), ROOT, []) && |RootIndex(rootSize).nodes| == 1
  {
    var full := RootIndex(rootSize);
    assert full.children - {ROOT} == map[] && full.names - {ROOT} == map[];
    assert |full.nodes| == 1;
  }

  lemma LessNothing<T>(m: map<nat, T>)
    ensures m - {} == m
  {
  }

  /** With no directory left to walk, the dictionaries are the whole index. */
  lemma BuiltIsCurrent(nodes: map<nat, Node>, children: map<nat, seq<nat>>, names: map<nat, map<string, nat>>,
      full: Index, disc: Disc, rootSize: nat)
    requires Building(nodes, children, names, full, {ROOT} - {ROOT}, disc) && Grown(RootIndex(rootSize), full, ROOT)
    ensures Index(nodes, children, names, |nodes| + 1) == full && |nodes| == |full.nodes|
    ensures ROOT in nodes && nodes[ROOT].size == rootSize
    ensures Tree(full) && forall d :: d in children ==> Shows(full, d, disc)
  {
    hide Tree, Shows;
    assert ROOT in RootIndex(rootSize).nodes;
    assert {ROOT} - {ROOT} == {};
    LessNothing(full.children);
    LessNothing(full.names);
  }

  /** The directory being walked shows one entry more. */
  lemma PlacedShowsMore(full: Index, parent: nat, entries: seq<Entry>, k: nat)
    requires k < |entries| && ShowsOnly(full, parent, entries[..k]) && parent in full.nodes && parent in full.names
    requires full.next !in full.nodes && full.next !in full.children && full.names.Keys == full.children.Keys
    ensures var r := Placed(full, parent, entries[k]);
            ShowsOnly(r, parent, entries[..k + 1]) && (entries[k].isDir ==> ShowsOnly(r, full.next, []))
  {
    hide Placed, Grown;
    PlacedGrows(full, parent, entries[k]);
    var r := Placed(full, parent, entries[k]);
    assert entries[..k + 1] == entries[..k] + [entries[k]];
    assert r.children[parent] == full.children[parent] + [full.next];
  }

  lemma GrownShowsOnly(a: Index, b: Index, inner: nat, d: nat, entries: seq<Entry>)
    requires Grown(a, b, inner) && ShowsOnly(a, d, entries) && d != inner && d in a.names
    ensures ShowsOnly(b, d, entries) && b.children[d] == a.children[d] && d in b.names && b.names[d] == a.names[d]
  {
  }

  /** The walk of directory `parent` has met the entries `shown`; `inodes` and `table` are what it will store. */
  ghost predicate Walking(nodes: map<nat, Node>, children: map<nat, seq<nat>>, names: map<nat, map<string, nat>>,
      before: Index, full: Index, active: set<nat>, disc: Disc, parent: nat, shown: seq<Entry>, inodes: seq<nat>,
      table: map<string, nat>)
  {
    && Building(nodes, children, names, full, active, disc)
    && Grown(before, full, parent) && ShowsOnly(full, parent, shown)
    && parent in active && parent in full.names && full.children[parent] == inodes && full.names[parent] == table
    && parent in before.nodes && parent in full.nodes && full.nodes[parent] == before.nodes[parent]
  }

  /** One turn of the walk: an entry with a new name is placed under the next inode.  A file needs nothing more. */
  lemma EntryPlaced(nodes: map<nat, Node>, children: map<nat, seq<nat>>, names: map<nat, map<string, nat>>,
      before: Index, full: Index, active: set<nat>, disc: Disc, parent: nat, entries: seq<Entry>, k: nat,
      inodes: seq<nat>, table: map<string, nat>)
    requires k < |entries| && DotFree(entries[k].name) && entries[k].name !in table
    requires Walking(nodes, children, names, before, full, active, disc, parent, entries[..k], inodes, table)
    ensures parent in full.nodes && parent in full.children && parent in full.names
    ensures |nodes| + 1 == full.next && full.next !in active && full.next != parent
    ensures full.next !in before.children && full.next !in before.names
    ensures var e, r := entries[k], Placed(full, parent, entries[k]);
            var node := Node(parent, e.name, Child(before.nodes[parent].path, e.name), e.isDir, e.size, e.locked);
            && nodes[full.next := node] == r.nodes && |r.nodes| == |full.nodes| + 1
            && Walking(r.nodes, children, names, before, r, if e.isDir then active + {full.next} else active, disc,
                 parent, entries[..k + 1], inodes + [full.next], table[e.name := full.next])
            && r.nodes[full.next] == node
            && (e.isDir ==> Building(r.nodes, children, names, r, active + {full.next}, disc))
            && (e.isDir ==> ShowsOnly(r, full.next, []) && full.next in r.names && r.names[full.next] == map[])
  {
    hide Placed, Tree, Shows;
    FreshInode(full);
    PlacedGrows(full, parent, entries[k]);
    PlacedKeepsNumbers(full, parent, entries[k]);
    PlacedShowsMore(full, parent, entries, k);
    PlacedKeepsBuilding(nodes, children, names, full, active, disc, parent, entries[k]);
    GrownTwice(before, full, Placed(full, parent, entries[k]), parent, parent);
  }

  /** A subdirectory walked in between leaves what is known of the one above it. */
  lemma InnerWalked(nodes: map<nat, Node>, children: map<nat, seq<nat>>, names: map<nat, map<string, nat>>,
      nodes': map<nat, Node>, children': map<nat, seq<nat>>, names': map<nat, map<string, nat>>,
      before: Index, r: Index, full: Index, active: set<nat>, disc: Disc, parent: nat, inner: nat, shown: seq<Entry>,
      inodes: seq<nat>, table: map<string, nat>)
    requires Walking(nodes, children, names, before, r, active + {inner}, disc, parent, shown, inodes, table)
    requires Building(nodes', children', names', full, active + {inner} - {inner}, disc) && Grown(r, full, inner)
    requires inner != parent && inner !in active && inner !in before.children && inner !in before.names
    ensures Walking(nodes', children', names', before, full, active, disc, parent, shown, inodes, table)
  {
    hide Tree, Shows, ShowsOnly;
    assert active + {inner} - {inner} == active;
    GrownTwice(before, r, full, parent, inner);
    GrownShowsOnly(r, full, inner, parent, shown);
  }

  lemma WalkStarts(nodes: map<nat, Node>, children: map<nat, seq<nat>>, names: map<nat, map<string, nat>>,
      before: Index, active: set<nat>, disc: Disc, parent: nat)
    requires Building(nodes, children, names, before, active, disc) && parent in active && parent in before.nodes
    requires ShowsOnly(before, parent, []) && parent in before.names && before.names[parent] == map[]
    ensures Walking(nodes, children, names, before, before, active, disc, parent, [], [], map[])
  {
    hide Tree, Shows;
    assert |before.children[parent]| == 0;
  }

  lemma WalkTable(nodes: map<nat, Node>, children: map<nat, seq<nat>>, names: map<nat, map<string, nat>>,
      before: Index, full: Index, active: set<nat>, disc: Disc, parent: nat, shown: seq<Entry>, inodes: seq<nat>,
      table: map<string, nat>, name: string)
    requires Walking(nodes, children, names, before, full, active, disc, parent, shown, inodes, table)
    ensures nodes == full.nodes
    ensures name in table <==> exists j :: 0 <= j < |shown| && shown[j].name == name
  {
    hide Tree, Shows, ShowsOnly, Grown;
    TableKnowsNames(full, parent, shown, name);
  }

  /** Once all its entries are shown, the tables of the directory are stored. */
  lemma WalkEnds(nodes: map<nat, Node>, children: map<nat, seq<nat>>, names: map<nat, map<string, nat>>,
      before: Index, full: Index, active: set<nat>, disc: Disc, parent: nat, inodes: seq<nat>, table: map<string, nat>)
    requires parent in before.nodes
    requires Walking(nodes, children, names, before, full, active, disc, parent, disc(before.nodes[parent].path),
               inodes, table)
    ensures Building(nodes, children[parent := inodes], names[parent := table], full, active - {parent}, disc)
    ensures Grown(before, full, parent)
  {
    hide Tree, ShowsOnly, Grown;
    StoredKeepsBuilding(nodes, children, names, full, active, disc, parent);
  }

  /** Folding keeps a path's length, so no path above another equals it. */
  lemma PathsGrow(above: set<string>, path: string, name: string)
    requires forall p :: p in above ==> |p| < |path|
    ensures Fold(path) !in above
    ensures forall p :: p in above + {Fold(path)} ==> |p| < |Child(path, name)|
  {
  }

  // ---- the walk's own bookkeeping ------------------------------------------------------------------------------

  lemma TooDeep(disc: Disc, path: string, depth: nat, limits: Limits, known: nat)
    requires depth > limits.maxDepth
    ensures !Indexable(disc, path, depth, limits, known)
  {
  }

  lemma NothingCounted(disc: Disc, path: string, depth: nat, maxDepth: nat)
    requires depth <= maxDepth
    ensures AllShallow(disc, path, [], depth, maxDepth) && TotalOf(disc, path, [], depth, maxDepth) == 0
  {
  }

  lemma EntryCounted(disc: Disc, path: string, entries: seq<Entry>, k: nat, depth: nat, limits: Limits, known: nat)
    requires k < |entries| && depth <= limits.maxDepth && known <= limits.maxNodes
    requires AllShallow(disc, path, entries[..k], depth, limits.maxDepth)
    requires forall j :: 0 <= j < k ==> entries[..k][j].name != entries[k].name
    requires entries[k].isDir ==> Indexable(disc, Child(path, entries[k].name), depth + 1, limits, known)
    ensures AllShallow(disc, path, entries[..k + 1], depth, limits.maxDepth)
    ensures known + Below(disc, path, entries[k], depth, limits.maxDepth) <= limits.maxNodes
  {
    forall j | 0 <= j < k
      ensures entries[j].name != entries[k].name
    {
      assert entries[..k][j] == entries[j];
    }
    AllShallowNext(disc, path, entries, k, depth, limits.maxDepth);
    if entries[k].isDir && disc(Child(path, entries[k].name)) == [] {
      NothingCounted(disc, Child(path, entries[k].name), depth + 1, limits.maxDepth);
    }
  }

  lemma AllCounted(disc: Disc, path: string, depth: nat, limits: Limits, known: nat, count: nat)
    requires depth <= limits.maxDepth && AllShallow(disc, path, disc(path), depth, limits.maxDepth)
    requires count == known + TotalOf(disc, path, disc(path), depth, limits.maxDepth)
    requires disc(path) != [] ==> count <= limits.maxNodes
    ensures Indexable(disc, path, depth, limits, known) && count == known + Total(disc, path, depth, limits.maxDepth)
  {
    AllIndexed(disc, path, depth, limits, known);
  }
}
