/** The mounted directory index: three dictionaries describing one rooted tree. */
module Namespace {
  import opened Options
  import opened Lists
  import opened Paths

  const ROOT: nat := 1
  const MAX_NAME: nat := 10

  datatype Node = Node(parent: nat, name: string, path: string, isDir: bool, size: nat, locked: bool)

  datatype Index = Index(nodes: map<nat, Node>, children: map<nat, seq<nat>>,
    names: map<nat, map<string, nat>>, next: nat)

  datatype Error =
    | BadName
    | AlreadyExists
    | NotFound
    | NoSuchParent
    | NotADirectory
    | IsADirectory
    | Locked
    | InsideItself
    | ImageRefused

  /** `Torn`: the image has committed an operation that the index could not follow. */
  datatype Result = Done(inode: nat) | Failed(error: Error) | Torn

  // ---- the tree the dictionaries must describe ---------------------------------------------------

  ghost predicate RootInPlace(ix: Index) {
    ROOT in ix.nodes && ix.nodes[ROOT].isDir && ix.nodes[ROOT].parent == ROOT && ix.nodes[ROOT].path == "$"
  }

  ghost predicate Directory(ix: Index, d: nat) {
    d in ix.nodes && ix.nodes[d].isDir
  }

  /** A directory's child list and name table list the same nodes, each once. */
  ghost predicate Listing(nodes: map<nat, Node>, d: nat, list: seq<nat>, table: map<string, nat>) {
    && Distinct(list)
    && (forall i :: i in list ==> i != ROOT && i in nodes && nodes[i].parent == d)
    && (forall n :: n in table ==> table[n] in list && nodes[table[n]].name == n)
    && (forall i :: i in list ==> nodes[i].name in table && table[nodes[i].name] == i)
  }

  ghost predicate Agrees(ix: Index, d: nat)
    requires d in ix.children && d in ix.names
  {
    Listing(ix.nodes, d, ix.children[d], ix.names[d])
  }

  /** A node other than the root hangs below a directory and its path says so. */
  ghost predicate Hangs(ix: Index, i: nat)
    requires i in ix.nodes
  {
    var p := ix.nodes[i].parent;
    && p in ix.nodes && p in ix.children && i in ix.children[p]
    && DotFree(ix.nodes[i].name)
    && ix.nodes[i].path == Child(ix.nodes[p].path, ix.nodes[i].name)
  }

  ghost predicate Tree(ix: Index) {
    && RootInPlace(ix)
    && (forall d :: d in ix.children <==> Directory(ix, d))
    && ix.names.Keys == ix.children.Keys
    && (forall d :: d in ix.children ==> Agrees(ix, d))
    && (forall i :: i in ix.nodes && i != ROOT ==> Hangs(ix, i))
    && (forall i :: i in ix.nodes ==> i < ix.next)
  }

  /** `a` lies on the parent chain of `i`, or is `i`. */
  ghost predicate AncestorOrSelf(ix: Index, a: nat, i: nat)
    requires Tree(ix) && i in ix.nodes
    decreases |ix.nodes[i].path|
  {
    i == a || (i != ROOT && (assert Hangs(ix, i); AncestorOrSelf(ix, a, ix.nodes[i].parent)))
  }

  // ---- paths tell the tree ------------------------------------------------------------------------

  /** The last dot of a path separates the parent's path from the name. */
  lemma LastDot(p: string, m: string, q: string, n: string)
    requires DotFree(m) && DotFree(n) && Child(p, m) == Child(q, n)
    ensures p == q && m == n
  {
    var whole := Child(p, m);
    assert whole[|p|] == '.' && whole[|q|] == '.';
    assert forall k :: |p| < k < |whole| ==> whole[k] == m[k - |p| - 1];
    assert forall k :: |q| < k < |whole| ==> whole[k] == n[k - |q| - 1];
    assert |p| == |q|;
    assert whole[..|p|] == p && whole[..|q|] == q;
    assert whole[|p| + 1..] == m && whole[|q| + 1..] == n;
  }

  lemma PathHasDot(ix: Index, i: nat)
    requires Tree(ix) && i in ix.nodes && i != ROOT
    ensures ix.nodes[i].path != "$"
  {
    assert Hangs(ix, i);
    assert |ix.nodes[i].path| >= 1;
    var p := ix.nodes[ix.nodes[i].parent].path;
    assert ix.nodes[i].path[|p|] == '.';
  }

  /** Two nodes with the same path are the same node. */
  lemma {:induction false} PathsAreUnique(ix: Index, i: nat, j: nat)
    requires Tree(ix) && i in ix.nodes && j in ix.nodes && ix.nodes[i].path == ix.nodes[j].path
    ensures i == j
    decreases |ix.nodes[i].path|
  {
    if i == ROOT || j == ROOT {
      if i != ROOT { PathHasDot(ix, i); }
      if j != ROOT { PathHasDot(ix, j); }
    } else {
      assert Hangs(ix, i) && Hangs(ix, j);
      var p, q := ix.nodes[i].parent, ix.nodes[j].parent;
      LastDot(ix.nodes[p].path, ix.nodes[i].name, ix.nodes[q].path, ix.nodes[j].name);
      PathsAreUnique(ix, p, q);
      assert Agrees(ix, p);
    }
  }

  /** A dotted prefix of a child's path ends at the parent or above it. */
  lemma PrefixOfChild(prefix: string, p: string, n: string)
    requires DotFree(n)
    ensures prefix + "." <= Child(p, n) <==> prefix == p || prefix + "." <= p
  {
    var dotted, whole := prefix + ".", Child(p, n);
    assert forall k :: |p| < k < |whole| ==> whole[k] == n[k - |p| - 1];
    if dotted <= whole {
      assert whole[|prefix|] == '.';
      assert |prefix| <= |p|;
      assert whole[..|prefix|] == prefix && whole[..|p|] == p;
      if |prefix| < |p| {
        assert p[|prefix|] == '.';
        assert p[..|prefix| + 1] == whole[..|prefix| + 1] == dotted;
      }
    }
    if dotted <= p {
      assert whole[..|dotted|] == p[..|dotted|];
    }
    if prefix == p {
      assert whole[..|dotted|] == dotted;
    }
  }

  /** Lying below a node is the same by parents as by path text. */
  lemma {:induction false} BelowByText(ix: Index, a: nat, i: nat)
    requires Tree(ix) && a in ix.nodes && i in ix.nodes
    ensures AncestorOrSelf(ix, a, i) <==> i == a || ix.nodes[a].path + "." <= ix.nodes[i].path
    ensures ix.nodes[a].path + "." <= ix.nodes[i].path ==> i != a
    decreases |ix.nodes[i].path|
  {
    if i != ROOT {
      assert Hangs(ix, i);
      var p := ix.nodes[i].parent;
      BelowByText(ix, a, p);
      PrefixOfChild(ix.nodes[a].path, ix.nodes[p].path, ix.nodes[i].name);
      if ix.nodes[a].path == ix.nodes[p].path {
        PathsAreUnique(ix, a, p);
      }
    } else if a != ROOT {
      PathHasDot(ix, a);
    }
  }

  // ---- looking up, adding and dropping -------------------------------------------------------------

  /** The first listed child whose name matches regardless of case. */
  function FirstFolded(ix: Index, inodes: seq<nat>, folded: string): Option<nat> {
    if inodes == [] then None
    else if inodes[0] in ix.nodes && Fold(ix.nodes[inodes[0]].name) == folded then Some(inodes[0])
    else FirstFolded(ix, inodes[1..], folded)
  }

  function Lookup(ix: Index, parent: nat, name: string): Option<nat> {
    if parent !in ix.names || parent !in ix.children then None
    else if name in ix.names[parent] then Some(ix.names[parent][name])
    else FirstFolded(ix, ix.children[parent], Fold(name))
  }

  lemma {:induction false} FirstFoldedIsListed(ix: Index, inodes: seq<nat>, folded: string)
    ensures var r := FirstFolded(ix, inodes, folded); r.Some? ==> r.value in inodes
  {
    if inodes != [] {
      FirstFoldedIsListed(ix, inodes[1..], folded);
    }
  }

  /** The first listed child whose name matches, or none does. */
  lemma {:induction false} FirstFoldedMatches(ix: Index, inodes: seq<nat>, folded: string)
    ensures match FirstFolded(ix, inodes, folded)
            case None => forall i :: i in inodes && i in ix.nodes ==> Fold(ix.nodes[i].name) != folded
            case Some(i) => exists k :: 0 <= k < |inodes| && inodes[k] == i && i in ix.nodes
                                        && Fold(ix.nodes[i].name) == folded
                                        && forall j :: 0 <= j < k && inodes[j] in ix.nodes ==>
                                             Fold(ix.nodes[inodes[j]].name) != folded
  {
    if inodes != [] && !(inodes[0] in ix.nodes && Fold(ix.nodes[inodes[0]].name) == folded) {
      FirstFoldedMatches(ix, inodes[1..], folded);
      var found := FirstFolded(ix, inodes[1..], folded);
      if found.Some? {
        var k :| 0 <= k < |inodes[1..]| && inodes[1..][k] == found.value
            && forall j :: 0 <= j < k && inodes[1..][j] in ix.nodes ==> Fold(ix.nodes[inodes[1..][j]].name) != folded;
        assert inodes[k + 1] == found.value;
        forall j | 0 <= j < k + 1 && inodes[j] in ix.nodes
          ensures Fold(ix.nodes[inodes[j]].name) != folded
        {
          assert j > 0 ==> inodes[1..][j - 1] == inodes[j];
        }
      }
    }
  }

  /** The child of exactly that name, else the first listed whose name is the same regardless of case; and
      nothing only if no child's name is. */
  lemma LookupMatches(ix: Index, parent: nat, name: string)
    requires Tree(ix)
    ensures match Lookup(ix, parent, name)
            case None => parent in ix.children ==>
                           forall i :: i in ix.children[parent] ==>
                             i in ix.nodes && ix.nodes[i].name != name && Fold(ix.nodes[i].name) != Fold(name)
            case Some(i) =>
              && i in ix.nodes && parent in ix.children && i in ix.children[parent]
              && (ix.nodes[i].name == name
                  || (Fold(ix.nodes[i].name) == Fold(name)
                      && forall j :: j in ix.children[parent] ==> j in ix.nodes && ix.nodes[j].name != name))
  {
    if parent in ix.children {
      assert Agrees(ix, parent);
      FirstFoldedMatches(ix, ix.children[parent], Fold(name));
    }
  }

  lemma LookupIsChild(ix: Index, parent: nat, name: string)
    requires Tree(ix)
    ensures var r := Lookup(ix, parent, name);
            r.Some? ==> parent in ix.children && r.value in ix.children[parent] && r.value in ix.nodes
                        && r.value != ROOT && ix.nodes[r.value].parent == parent
    ensures Lookup(ix, parent, name).None? && parent in ix.names ==> name !in ix.names[parent]
  {
    if parent in ix.children {
      assert Agrees(ix, parent);
      FirstFoldedIsListed(ix, ix.children[parent], Fold(name));
    }
  }

  predicate ValidName(name: string) {
    1 <= |name| <= MAX_NAME && forall c :: c in name ==> c as int < 128 && c !in {'\0', '.', ':', '\r'}
  }

  function AddNode(ix: Index, parent: nat, name: string, isDir: bool, size: nat): Index
    requires parent in ix.nodes && parent in ix.children && parent in ix.names
  {
    var i: nat := ix.next;
    var children := ix.children[parent := ix.children[parent] + [i]];
    var table: map<string, nat> := ix.names[parent][name := i];
    var names := ix.names[parent := table];
    Index(ix.nodes[i := Node(parent, name, Child(ix.nodes[parent].path, name), isDir, size, false)],
          if isDir then children[i := []] else children,
          if isDir then names[i := map[]] else names,
          i + 1)
  }

  function DropNode(ix: Index, i: nat): Index
    requires i in ix.nodes && ix.nodes[i].parent in ix.children && ix.nodes[i].parent in ix.names
  {
    var p := ix.nodes[i].parent;
    var table: map<string, nat> := ix.names[p] - {ix.nodes[i].name};
    Index(ix.nodes - {i},
          ix.children[p := Without(ix.children[p], i)] - {i},
          ix.names[p := table] - {i},
          ix.next)
  }

  // ---- how listings change ----------------------------------------------------------------------------

  lemma ListingFrame(nodes: map<nat, Node>, nodes': map<nat, Node>, d: nat, list: seq<nat>, table: map<string, nat>)
    requires Listing(nodes, d, list, table)
    requires forall i :: i in list ==> i in nodes' && nodes'[i].parent == d && nodes'[i].name == nodes[i].name
    ensures Listing(nodes', d, list, table)
  {
  }

  lemma ListingAdd(nodes: map<nat, Node>, nodes': map<nat, Node>, d: nat, list: seq<nat>, table: map<string, nat>,
      i: nat, name: string)
    requires Listing(nodes, d, list, table) && i !in list && i != ROOT && name !in table
    requires i in nodes' && nodes'[i].parent == d && nodes'[i].name == name
    requires forall j :: j in list ==> j in nodes' && nodes'[j].parent == d && nodes'[j].name == nodes[j].name
    ensures Listing(nodes', d, list + [i], table[name := i])
  {
  }

  lemma ListingDrop(nodes: map<nat, Node>, d: nat, list: seq<nat>, table: map<string, nat>, i: nat)
    requires Listing(nodes, d, list, table) && i in list
    ensures Listing(nodes, d, Without(list, i), table - {nodes[i].name})
    ensures nodes[i].name !in table - {nodes[i].name}
  {
    WithoutDistinct(list, i);
  }

  lemma AddKeepsListings(ix: Index, parent: nat, name: string, isDir: bool, size: nat, d: nat)
    requires Tree(ix) && Directory(ix, parent) && DotFree(name) && name !in ix.names[parent]
    requires d in AddNode(ix, parent, name, isDir, size).children
    ensures Agrees(AddNode(ix, parent, name, isDir, size), d)
  {
    var r, i := AddNode(ix, parent, name, isDir, size), ix.next;
    assert i !in ix.children;
    if d == parent {
      assert Agrees(ix, parent);
      ListingAdd(ix.nodes, r.nodes, parent, ix.children[parent], ix.names[parent], i, name);
    } else if d != i {
      assert Agrees(ix, d);
      ListingFrame(ix.nodes, r.nodes, d, ix.children[d], ix.names[d]);
    }
  }

  lemma AddKeepsHanging(ix: Index, parent: nat, name: string, isDir: bool, size: nat, i: nat)
    requires Tree(ix) && Directory(ix, parent) && DotFree(name)
    requires i in AddNode(ix, parent, name, isDir, size).nodes && i != ROOT
    ensures Hangs(AddNode(ix, parent, name, isDir, size), i)
  {
  }

  /** Adding a node leaves the root and the kinds, and gives exactly the directories their tables. */
  lemma AddKeepsShape(ix: Index, parent: nat, name: string, isDir: bool, size: nat)
    requires RootInPlace(ix) && Directory(ix, parent) && ix.names.Keys == ix.children.Keys && ix.next !in ix.nodes
    requires forall d :: d in ix.children <==> Directory(ix, d)
    ensures var r := AddNode(ix, parent, name, isDir, size);
            && RootInPlace(r) && r.names.Keys == r.children.Keys && r.nodes.Keys == ix.nodes.Keys + {ix.next}
            && forall d :: d in r.children <==> Directory(r, d)
  {
  }

  lemma AddKeepsTree(ix: Index, parent: nat, name: string, isDir: bool, size: nat)
    requires Tree(ix) && Directory(ix, parent) && DotFree(name) && name !in ix.names[parent]
    ensures Tree(AddNode(ix, parent, name, isDir, size))
  {
    hide Listing, Agrees, RootInPlace, Hangs;
    var r := AddNode(ix, parent, name, isDir, size);
    AddKeepsShape(ix, parent, name, isDir, size);
    forall d | d in r.children
      ensures Agrees(r, d)
    {
      AddKeepsListings(ix, parent, name, isDir, size, d);
    }
    forall i | i in r.nodes && i != ROOT
      ensures Hangs(r, i)
    {
      AddKeepsHanging(ix, parent, name, isDir, size, i);
    }
  }

  lemma DropKeepsListings(ix: Index, i: nat, d: nat)
    requires i in ix.nodes && Hangs(ix, i) && ix.nodes[i].parent in ix.names
    requires d != i && d in ix.children && d in ix.names && Agrees(ix, d)
    ensures Agrees(DropNode(ix, i), d)
  {
    var r, p := DropNode(ix, i), ix.nodes[i].parent;
    if d == p {
      var list, table := Without(ix.children[p], i), ix.names[p] - {ix.nodes[i].name};
      ListingDrop(ix.nodes, p, ix.children[p], ix.names[p], i);
      ListingFrame(ix.nodes, r.nodes, p, list, table);
    } else {
      ListingFrame(ix.nodes, r.nodes, d, ix.children[d], ix.names[d]);
    }
  }

  lemma DropKeepsHanging(ix: Index, i: nat, j: nat)
    requires i in ix.nodes && Hangs(ix, i) && ix.nodes[i].parent in ix.names
    requires j in ix.nodes && j != i && Hangs(ix, j) && ix.nodes[j].parent != i
    ensures j in DropNode(ix, i).nodes && Hangs(DropNode(ix, i), j)
  {
    var r, p := DropNode(ix, i), ix.nodes[j].parent;
    assert r.nodes[j] == ix.nodes[j] && r.nodes[p] == ix.nodes[p];
    assert j in ix.children[p];
  }

  /** Dropping a node leaves the root, the kinds, and the tables of the directories that are left. */
  lemma DropKeepsShape(ix: Index, i: nat)
    requires RootInPlace(ix) && i in ix.nodes && i != ROOT && Hangs(ix, i) && ix.names.Keys == ix.children.Keys
    requires forall d :: d in ix.children <==> Directory(ix, d)
    ensures var r := DropNode(ix, i);
            && RootInPlace(r) && r.names.Keys == r.children.Keys
            && r.children.Keys == ix.children.Keys - {i} && r.nodes.Keys == ix.nodes.Keys - {i}
            && forall d :: d in r.children <==> Directory(r, d)
  {
  }

  lemma DropKeepsTree(ix: Index, i: nat)
    requires Tree(ix) && i in ix.nodes && i != ROOT && Hangs(ix, i)
    requires i in ix.children ==> ix.children[i] == []
    ensures Tree(DropNode(ix, i))
  {
    hide Listing, Agrees, RootInPlace, Directory;
    var r := DropNode(ix, i);
    DropKeepsShape(ix, i);
    forall d | d in r.children
      ensures Agrees(r, d)
    {
      DropKeepsListings(ix, i, d);
    }
    forall j | j in r.nodes && j != ROOT
      ensures Hangs(r, j)
    {
      assert Hangs(ix, j);
      DropKeepsHanging(ix, i, j);
    }
  }

  // ---- updating a node's attributes -----------------------------------------------------------------------

  /** The node after a replacement of its contents or a change of its metadata. */
  function UpdateNode(ix: Index, i: nat, size: nat, locked: bool): Index {
    if i in ix.nodes then ix.(nodes := ix.nodes[i := ix.nodes[i].(size := size, locked := locked)]) else ix
  }

  lemma UpdateKeepsHanging(ix: Index, i: nat, size: nat, locked: bool, j: nat)
    requires j in ix.nodes && Hangs(ix, j)
    ensures Hangs(UpdateNode(ix, i, size, locked), j)
  {
  }

  lemma UpdateKeepsShape(ix: Index, i: nat, size: nat, locked: bool)
    requires RootInPlace(ix)
    ensures var r := UpdateNode(ix, i, size, locked);
            RootInPlace(r) && r.nodes.Keys == ix.nodes.Keys && forall d :: Directory(ix, d) <==> Directory(r, d)
  {
  }

  lemma UpdateKeepsTree(ix: Index, i: nat, size: nat, locked: bool)
    requires Tree(ix)
    ensures Tree(UpdateNode(ix, i, size, locked)) && InodesKept(ix, UpdateNode(ix, i, size, locked))
    ensures var r := UpdateNode(ix, i, size, locked);
            && r.children == ix.children && r.names == ix.names && r.next == ix.next && r.nodes.Keys == ix.nodes.Keys
            && (i in ix.nodes ==> r.nodes[i] == ix.nodes[i].(size := size, locked := locked))
            && forall j :: j in ix.nodes && j != i ==> r.nodes[j] == ix.nodes[j]
  {
    hide Listing, Hangs, RootInPlace;
    var r := UpdateNode(ix, i, size, locked);
    UpdateKeepsShape(ix, i, size, locked);
    forall d | d in r.children
      ensures Agrees(r, d)
    {
      assert Agrees(ix, d);
      ListingFrameWhole(ix.nodes, r.nodes, d, ix.children[d], ix.names[d]);
    }
    forall j | j in r.nodes && j != ROOT
      ensures Hangs(r, j)
    {
      UpdateKeepsHanging(ix, i, size, locked, j);
    }
  }

  lemma ListingFrameWhole(nodes: map<nat, Node>, nodes': map<nat, Node>, d: nat, list: seq<nat>,
      table: map<string, nat>)
    requires Listing(nodes, d, list, table)
    requires forall i :: i in nodes ==> i in nodes' && nodes'[i].parent == nodes[i].parent
                                        && nodes'[i].name == nodes[i].name
    ensures Listing(nodes', d, list, table)
  {
  }

  // ---- renaming ----------------------------------------------------------------------------------------

  /** The loop over all nodes: every path below the old one moves with it. */
  function Reroot(nodes: map<nat, Node>, oldPath: string, newPath: string): map<nat, Node> {
    map i | i in nodes :: RerootNode(nodes[i], oldPath, newPath)
  }

  function RerootNode(node: Node, oldPath: string, newPath: string): Node {
    if oldPath + "." <= node.path then node.(path := newPath + node.path[|oldPath|..]) else node
  }

  /** The index after the image has renamed node `i`, any destination already dropped. */
  function MoveNode(ix: Index, i: nat, newParent: nat, name: string): Index
    requires i in ix.nodes && ix.nodes[i].parent in ix.children && ix.nodes[i].parent in ix.names
    requires newParent in ix.nodes && newParent in ix.children && newParent in ix.names
  {
    var node := ix.nodes[i];
    var newPath := Child(ix.nodes[newParent].path, name);
    var dropped: map<string, nat> := ix.names[node.parent] - {node.name};
    var children := ix.children[node.parent := Without(ix.children[node.parent], i)];
    var names := ix.names[node.parent := dropped];
    var added: map<string, nat> := names[newParent][name := i];
    Index(Reroot(ix.nodes[i := node.(parent := newParent, name := name, path := newPath)], node.path, newPath),
          children[newParent := children[newParent] + [i]],
          names[newParent := added],
          ix.next)
  }

  /** What a rename needs: the target directory is outside the subtree, and the name is free there. */
  ghost predicate Movable(ix: Index, i: nat, newParent: nat, name: string) {
    && Tree(ix)
    && i in ix.nodes && i != ROOT && Hangs(ix, i)
    && Directory(ix, newParent) && !AncestorOrSelf(ix, i, newParent)
    && DotFree(name)
    && (name in ix.names[newParent] ==> ix.names[newParent][name] == i)
  }

  /** The path a node has after the move, by parents: moved nodes swap the prefix, others keep theirs. */
  ghost function MovedPath(ix: Index, i: nat, newPath: string, j: nat): string
    requires Tree(ix) && i in ix.nodes && j in ix.nodes
  {
    if j == i then newPath
    else if AncestorOrSelf(ix, i, j) then (BelowByText(ix, i, j); newPath + ix.nodes[j].path[|ix.nodes[i].path|..])
    else ix.nodes[j].path
  }

  lemma MovePaths(ix: Index, i: nat, newParent: nat, name: string, j: nat)
    requires Movable(ix, i, newParent, name) && j in ix.nodes
    ensures var r := MoveNode(ix, i, newParent, name); var newPath := Child(ix.nodes[newParent].path, name);
            j in r.nodes && r.nodes[j].path == MovedPath(ix, i, newPath, j)
    ensures j != i ==> MoveNode(ix, i, newParent, name).nodes[j] == ix.nodes[j].(path := MoveNode(ix, i, newParent,
              name).nodes[j].path)
  {
    var newPath := Child(ix.nodes[newParent].path, name);
    BelowByText(ix, i, j);
    BelowByText(ix, i, newParent);
    PrefixOfChild(ix.nodes[i].path, ix.nodes[newParent].path, name);
    if ix.nodes[i].path == ix.nodes[newParent].path {
      PathsAreUnique(ix, i, newParent);
    }
  }

  /** Swapping the front of a path leaves its last component alone. */
  lemma Regraft(newPath: string, cut: nat, p: string, n: string)
    requires cut <= |p|
    ensures newPath + Child(p, n)[cut..] == Child(newPath + p[cut..], n)
  {
  }

  lemma MovedPathBelow(ix: Index, i: nat, newPath: string, j: nat)
    requires Tree(ix) && i in ix.nodes && j in ix.nodes && AncestorOrSelf(ix, i, j)
    ensures |ix.nodes[i].path| <= |ix.nodes[j].path|
    ensures MovedPath(ix, i, newPath, j) == newPath + ix.nodes[j].path[|ix.nodes[i].path|..]
  {
    BelowByText(ix, i, j);
  }

  lemma AncestorOfChild(ix: Index, i: nat, j: nat)
    requires Tree(ix) && i in ix.nodes && j in ix.nodes && j != ROOT && j != i
    ensures Hangs(ix, j)
    ensures AncestorOrSelf(ix, i, j) <==> AncestorOrSelf(ix, i, ix.nodes[j].parent)
  {
    assert Hangs(ix, j);
  }

  /** Children move along with their parents. */
  lemma MovedChildPath(ix: Index, i: nat, newPath: string, j: nat)
    requires Tree(ix) && i in ix.nodes && j in ix.nodes && j != ROOT && j != i
    ensures Hangs(ix, j)
    ensures MovedPath(ix, i, newPath, j) == Child(MovedPath(ix, i, newPath, ix.nodes[j].parent), ix.nodes[j].name)
  {
    AncestorOfChild(ix, i, j);
    var p := ix.nodes[j].parent;
    if AncestorOrSelf(ix, i, p) {
      MovedPathBelow(ix, i, newPath, j);
      MovedPathBelow(ix, i, newPath, p);
      Regraft(newPath, |ix.nodes[i].path|, ix.nodes[p].path, ix.nodes[j].name);
    }
  }

  lemma MoveKeepsMembership(ix: Index, i: nat, newParent: nat, name: string, j: nat)
    requires i in ix.nodes && ix.nodes[i].parent in ix.children && ix.nodes[i].parent in ix.names
    requires newParent in ix.nodes && newParent in ix.children && newParent in ix.names
    requires j in ix.nodes && ix.nodes[j].parent in ix.children && j in ix.children[ix.nodes[j].parent]
    ensures var r := MoveNode(ix, i, newParent, name); var p := if j == i then newParent else ix.nodes[j].parent;
            p in r.children && j in r.children[p]
  {
  }

  lemma MoveKeepsHanging(ix: Index, i: nat, newParent: nat, name: string, j: nat)
    requires Movable(ix, i, newParent, name) && j in ix.nodes && j != ROOT
    ensures Hangs(MoveNode(ix, i, newParent, name), j)
  {
    assert Hangs(ix, j);
    MovePaths(ix, i, newParent, name, j);
    MoveKeepsMembership(ix, i, newParent, name, j);
    if j == i {
      MovePaths(ix, i, newParent, name, newParent);
    } else {
      MovedChildPath(ix, i, Child(ix.nodes[newParent].path, name), j);
      MovePaths(ix, i, newParent, name, ix.nodes[j].parent);
    }
  }

  /** A directory's listing with node `i` taken out. */
  lemma ListingWithout(ix: Index, i: nat, d: nat) returns (list: seq<nat>, table: map<string, nat>)
    requires i in ix.nodes && ix.nodes[i].parent in ix.children && i in ix.children[ix.nodes[i].parent]
    requires d in ix.children && d in ix.names && Agrees(ix, d)
    requires ix.nodes[i].parent != d ==> i !in ix.children[d]
    ensures Listing(ix.nodes, d, list, table) && i !in list
    ensures forall j :: j in list ==> j in ix.children[d]
    ensures if d == ix.nodes[i].parent then list == Without(ix.children[d], i)
            && table == ix.names[d] - {ix.nodes[i].name}
            else list == ix.children[d] && table == ix.names[d]
  {
    list, table := ix.children[d], ix.names[d];
    if d == ix.nodes[i].parent {
      list, table := Without(ix.children[d], i), ix.names[d] - {ix.nodes[i].name};
      ListingDrop(ix.nodes, d, ix.children[d], ix.names[d], i);
    }
  }

  lemma MovedNodesKeepNames(ix: Index, i: nat, newParent: nat, name: string, j: nat)
    requires Movable(ix, i, newParent, name) && j in ix.nodes
    ensures var r := MoveNode(ix, i, newParent, name);
            && j in r.nodes
            && (j != i ==> r.nodes[j].parent == ix.nodes[j].parent && r.nodes[j].name == ix.nodes[j].name)
            && (j == i ==> r.nodes[j].parent == newParent && r.nodes[j].name == name)
  {
    MovePaths(ix, i, newParent, name, j);
  }

  lemma MoveKeepsListings(ix: Index, i: nat, newParent: nat, name: string, d: nat)
    requires Movable(ix, i, newParent, name) && d in ix.children
    ensures Agrees(MoveNode(ix, i, newParent, name), d)
  {
    var r := MoveNode(ix, i, newParent, name);
    assert Agrees(ix, d);
    var list, table := ListingWithout(ix, i, d);
    forall j | j in list
      ensures j in r.nodes && r.nodes[j].parent == d && r.nodes[j].name == ix.nodes[j].name
    {
      MovedNodesKeepNames(ix, i, newParent, name, j);
    }
    MovedNodesKeepNames(ix, i, newParent, name, i);
    MovedListing(ix, i, newParent, name, d, list, table, r);
  }

  lemma MovedListing(ix: Index, i: nat, newParent: nat, name: string, d: nat, list: seq<nat>, table: map<string, nat>,
      r: Index)
    requires i in ix.nodes && ix.nodes[i].parent in ix.children && ix.nodes[i].parent in ix.names
    requires newParent in ix.nodes && newParent in ix.children && newParent in ix.names
    requires r == MoveNode(ix, i, newParent, name) && d in ix.children && d in ix.names && i != ROOT
    requires Listing(ix.nodes, d, list, table) && i !in list
    requires if d == ix.nodes[i].parent then list == Without(ix.children[d], i)
             && table == ix.names[d] - {ix.nodes[i].name}
             else list == ix.children[d] && table == ix.names[d]
    requires forall j :: j in list ==> j in r.nodes && r.nodes[j].parent == d && r.nodes[j].name == ix.nodes[j].name
    requires i in r.nodes && r.nodes[i].parent == newParent && r.nodes[i].name == name
    requires d == newParent ==> name !in table
    ensures d in r.children && d in r.names && Agrees(r, d)
  {
    if d == newParent {
      ListingAdd(ix.nodes, r.nodes, d, list, table, i, name);
    } else {
      ListingFrame(ix.nodes, r.nodes, d, list, table);
    }
  }

  lemma MoveKeepsRoot(ix: Index, i: nat, newParent: nat, name: string)
    requires Movable(ix, i, newParent, name)
    ensures RootInPlace(MoveNode(ix, i, newParent, name))
  {
    MovePaths(ix, i, newParent, name, ROOT);
    BelowByText(ix, i, ROOT);
  }

  lemma MoveKeepsKinds(ix: Index, i: nat, newParent: nat, name: string)
    requires i in ix.nodes && ix.nodes[i].parent in ix.children && ix.nodes[i].parent in ix.names
    requires newParent in ix.nodes && newParent in ix.children && newParent in ix.names
    ensures var r := MoveNode(ix, i, newParent, name);
            && r.nodes.Keys == ix.nodes.Keys && r.children.Keys == ix.children.Keys
                && r.names.Keys == ix.names.Keys && r.next == ix.next
            && forall j :: j in ix.nodes ==> r.nodes[j].isDir == ix.nodes[j].isDir
  {
  }

  lemma MoveKeepsTree(ix: Index, i: nat, newParent: nat, name: string)
    requires Movable(ix, i, newParent, name)
    ensures Tree(MoveNode(ix, i, newParent, name))
  {
    var r := MoveNode(ix, i, newParent, name);
    MoveKeepsKinds(ix, i, newParent, name);
    MoveKeepsRoot(ix, i, newParent, name);
    assert forall d :: d in r.children <==> Directory(r, d) by {
      assert forall d :: Directory(ix, d) <==> Directory(r, d);
    }
    forall d | d in r.children
      ensures Agrees(r, d)
    {
      MoveKeepsListings(ix, i, newParent, name, d);
    }
    forall j | j in r.nodes && j != ROOT
      ensures Hangs(r, j)
    {
      MoveKeepsHanging(ix, i, newParent, name, j);
    }
  }

  // ---- the operations -------------------------------------------------------------------------------------

  datatype Operation =
    | Create(parent: nat, name: string, size: nat)
    | MakeDirectory(parent: nat, name: string)
    | Remove(parent: nat, name: string, directory: bool)
    | Rename(oldParent: nat, oldName: string, newParent: nat, newName: string)

  /** Why an addition is refused before the image is touched, in the source's order of checks. */
  function RefuseAdd(ix: Index, parent: nat, name: string): Option<Error> {
    if !ValidName(name) then Some(BadName)
    else if Lookup(ix, parent, name).Some? then Some(AlreadyExists)
    else if parent !in ix.nodes then Some(NoSuchParent)
    else if !ix.nodes[parent].isDir then Some(NotADirectory)
    else None
  }

  function RefuseRemove(ix: Index, parent: nat, name: string, directory: bool): Option<Error> {
    var found := Lookup(ix, parent, name);
    if found.None? || found.value !in ix.nodes then Some(NotFound)
    else if ix.nodes[found.value].isDir && !directory then Some(IsADirectory)
    else if !ix.nodes[found.value].isDir && directory then Some(NotADirectory)
    else None
  }

  function RefuseRename(ix: Index, oldParent: nat, oldName: string, newParent: nat, newName: string): Option<Error>
    requires Tree(ix)
  {
    var found := Lookup(ix, oldParent, oldName);
    if found.None? || found.value !in ix.nodes then Some(NotFound)
    else
      var node := ix.nodes[found.value];
      if node.locked then Some(Locked)
      else if newParent !in ix.nodes then (if !node.isDir && !ValidName(newName) then Some(BadName)
            else Some(NoSuchParent))
      else if node.isDir && Under(ix, found.value, newParent) then Some(InsideItself)
      else if !ValidName(newName) then Some(BadName)
      else if !ix.nodes[newParent].isDir then Some(NotADirectory)
      else
        var destination := Lookup(ix, newParent, newName);
        if destination.None? || destination == found || destination.value !in ix.nodes then None
        else if ix.nodes[destination.value].locked then Some(Locked)
        else if ix.nodes[destination.value].isDir && !node.isDir then Some(IsADirectory)
        else if !ix.nodes[destination.value].isDir && node.isDir then Some(NotADirectory)
        else None
  }

  /** The ancestor check by path text, equal to the parent chain on a tree. */
  function Under(ix: Index, a: nat, i: nat): (r: bool)
    requires Tree(ix) && a in ix.nodes && i in ix.nodes
    ensures r <==> AncestorOrSelf(ix, a, i)
  {
    BelowByText(ix, a, i);
    i == a || ix.nodes[a].path + "." <= ix.nodes[i].path
  }

  /** The image never removes a directory that still has entries. */
  predicate ImageRemoves(ix: Index, i: nat, imageOk: bool) {
    imageOk && (i in ix.children ==> ix.children[i] == [])
  }

  /** One operation; `imageOk` says whether the image mutation, where one is attempted, commits, and
      `joinOk` whether the path of a new node can then still be formed. */
  function Apply(ix: Index, op: Operation, imageOk: bool, joinOk: bool): (Index, Result)
    requires Tree(ix)
  {
    match op
    case Create(parent, name, size) => ApplyAdd(ix, parent, name, false, size, imageOk, joinOk)
    case MakeDirectory(parent, name) => ApplyAdd(ix, parent, name, true, 0, imageOk, joinOk)
    case Remove(parent, name, directory) => ApplyRemove(ix, parent, name, directory, imageOk)
    case Rename(oldParent, oldName, newParent, newName) =>
      ApplyRename(ix, oldParent, oldName, newParent, newName, imageOk)
  }

  function ApplyRemove(ix: Index, parent: nat, name: string, directory: bool, imageOk: bool): (Index, Result)
    requires Tree(ix)
  {
    var refused := RefuseRemove(ix, parent, name, directory);
    if refused.Some? then (ix, Failed(refused.value))
    else
      LookupIsChild(ix, parent, name);
      var i := Lookup(ix, parent, name).value;
      if !ImageRemoves(ix, i, imageOk) then (ix, Failed(ImageRefused)) else (DropNode(ix, i), Done(i))
  }

  /** Whether the image part of a rename commits: a replaced destination is removed first. */
  predicate ImageRenames(ix: Index, destination: Option<nat>, imageOk: bool) {
    if destination.Some? then ImageRemoves(ix, destination.value, imageOk) else imageOk
  }

  function ApplyRename(ix: Index, oldParent: nat, oldName: string, newParent: nat, newName: string,
      imageOk: bool): (Index, Result)
    requires Tree(ix)
  {
    var refused := RefuseRename(ix, oldParent, oldName, newParent, newName);
    if refused.Some? then (ix, Failed(refused.value))
    else
      var found, destination := Lookup(ix, oldParent, oldName), Lookup(ix, newParent, newName);
      if destination == found then (ix, Done(found.value))
      else if !ImageRenames(ix, destination, imageOk) then (ix, Failed(ImageRefused))
      else
        RenameIsMovable(ix, oldParent, oldName, newParent, newName);
        (MoveNode(if destination.Some? then DropNode(ix, destination.value) else ix, found.value, newParent,
            newName), Done(found.value))
  }

  /** All that a failed addition leaves of itself: an inode number has been used up. */
  function SkipInode(ix: Index): Index {
    ix.(next := ix.next + 1)
  }

  function ApplyAdd(ix: Index, parent: nat, name: string, isDir: bool, size: nat, imageOk: bool,
      joinOk: bool): (Index, Result)
    requires Tree(ix)
  {
    var refused := RefuseAdd(ix, parent, name);
    if refused.Some? then (ix, Failed(refused.value))
    else if !imageOk then (ix, Failed(ImageRefused))
    else if !joinOk then (SkipInode(ix), Torn)
    else (AddNode(ix, parent, name, isDir, size), Done(ix.next))
  }

  lemma {:induction false} DropKeepsAncestry(ix: Index, gone: nat, a: nat, i: nat)
    requires Tree(ix) && Tree(DropNodeOk(ix, gone)) && gone in ix.nodes && gone != ROOT && i in ix.nodes && i != gone
    ensures AncestorOrSelf(DropNodeOk(ix, gone), a, i) <==> AncestorOrSelf(ix, a, i)
    decreases |ix.nodes[i].path|
  {
    var r := DropNodeOk(ix, gone);
    assert i in r.nodes && r.nodes[i] == ix.nodes[i];
    if i != ROOT {
      assert Hangs(ix, i) && Hangs(r, i);
      DropKeepsAncestry(ix, gone, a, ix.nodes[i].parent);
    }
  }

  function DropNodeOk(ix: Index, i: nat): Index
    requires Tree(ix)
  {
    if i in ix.nodes && i != ROOT then (assert Hangs(ix, i); DropNode(ix, i)) else ix
  }

  /** The names that may be given: one to ten 7-bit characters, none of which separates or ends a path. */
  lemma ValidNameMeans(name: string)
    ensures ValidName(name) <==>
              1 <= |name| <= 10 && forall k :: 0 <= k < |name| ==>
                name[k] as int < 128 && name[k] as int != 0 && name[k] != '.' && name[k] != ':' && name[k] as int != 13
  {
    if ValidName(name) {
      forall k | 0 <= k < |name|
        ensures name[k] as int < 128 && name[k] !in {'\0', '.', ':', '\r'}
      {
        assert name[k] in name;
      }
    }
  }

  lemma ValidNameIsDotFree(name: string)
    requires ValidName(name)
    ensures DotFree(name)
  {
  }

  lemma RenameNotRefused(ix: Index, oldParent: nat, oldName: string, newParent: nat, newName: string)
    requires Tree(ix) && RefuseRename(ix, oldParent, oldName, newParent, newName).None?
    ensures Lookup(ix, oldParent, oldName).Some? && Lookup(ix, oldParent, oldName).value in ix.nodes
    ensures Directory(ix, newParent) && ValidName(newName)
    ensures var i := Lookup(ix, oldParent, oldName).value; ix.nodes[i].isDir ==> !AncestorOrSelf(ix, i, newParent)
  {
  }

  /** What the refusal checks of a rename leave to be relied on. */
  lemma RenameChecked(ix: Index, oldParent: nat, oldName: string, newParent: nat, newName: string)
    requires Tree(ix) && RefuseRename(ix, oldParent, oldName, newParent, newName).None?
    ensures Lookup(ix, oldParent, oldName).Some?
    ensures var i := Lookup(ix, oldParent, oldName).value;
            && i in ix.nodes && i != ROOT && Hangs(ix, i)
            && Directory(ix, newParent) && !AncestorOrSelf(ix, i, newParent)
            && DotFree(newName)
  {
    RenameNotRefused(ix, oldParent, oldName, newParent, newName);
    ValidNameIsDotFree(newName);
    LookupIsChild(ix, oldParent, oldName);
    var i := Lookup(ix, oldParent, oldName).value;
    if !ix.nodes[i].isDir {
      FileHasNothingBelow(ix, i, newParent);
    }
  }

  lemma DestinationDropped(ix: Index, newParent: nat, newName: string, d: nat)
    requires Tree(ix) && Lookup(ix, newParent, newName) == Some(d) && ImageRemoves(ix, d, true)
    ensures d in ix.nodes && d != ROOT && Hangs(ix, d) && ix.nodes[d].parent == newParent && newParent in ix.names
    ensures Tree(DropNode(ix, d)) && newParent in DropNode(ix, d).names && newName !in DropNode(ix, d).names[newParent]
  {
    LookupIsChild(ix, newParent, newName);
    assert Hangs(ix, d);
    DropKeepsTree(ix, d);
    assert newParent in DropNode(ix, d).nodes;
    assert Agrees(ix, newParent);
    assert d != newParent;
    DroppedNameIsFree(ix, newParent, newName, d);
  }

  lemma HangsAfterDrop(ix: Index, d: nat, i: nat)
    requires Tree(ix) && d in ix.nodes && d != ROOT && Hangs(ix, d) && Tree(DropNode(ix, d))
    requires i in ix.nodes && i != ROOT && i != d
    ensures i in DropNode(ix, d).nodes && Hangs(DropNode(ix, d), i) && DropNode(ix, d).nodes[i] == ix.nodes[i]
  {
  }

  lemma RenameIsMovable(ix: Index, oldParent: nat, oldName: string, newParent: nat, newName: string)
    requires Tree(ix) && RefuseRename(ix, oldParent, oldName, newParent, newName).None?
    requires var d := Lookup(ix, newParent, newName);
             d != Lookup(ix, oldParent, oldName) && (d.Some? ==> ImageRemoves(ix, d.value, true))
    ensures var i, d := Lookup(ix, oldParent, oldName).value, Lookup(ix, newParent, newName);
            && (d.Some? ==> d.value in ix.nodes)
            && (d.Some? ==> ix.nodes[d.value].parent in ix.children && ix.nodes[d.value].parent in ix.names)
            && Movable(if d.Some? then DropNode(ix, d.value) else ix, i, newParent, newName)
  {
    RenameChecked(ix, oldParent, oldName, newParent, newName);
    var i, found := Lookup(ix, oldParent, oldName).value, Lookup(ix, newParent, newName);
    if found.Some? {
      var d := found.value;
      DestinationDropped(ix, newParent, newName, d);
      HangsAfterDrop(ix, d, i);
      DropKeepsAncestry(ix, d, i, newParent);
    } else {
      LookupIsChild(ix, newParent, newName);
    }
  }

  lemma FileHasNothingBelow(ix: Index, i: nat, j: nat)
    requires Tree(ix) && i in ix.nodes && j in ix.nodes && !ix.nodes[i].isDir && i != j
    ensures !AncestorOrSelf(ix, i, j)
    decreases |ix.nodes[j].path|
  {
    if j != ROOT {
      assert Hangs(ix, j);
      assert Directory(ix, ix.nodes[j].parent);
      FileHasNothingBelow(ix, i, ix.nodes[j].parent);
    }
  }

  /** Once the looked-up destination is dropped its exact name is no longer taken. */
  lemma DroppedNameIsFree(ix: Index, parent: nat, name: string, d: nat)
    requires parent in ix.children && parent in ix.names && Agrees(ix, parent)
    requires Lookup(ix, parent, name) == Some(d) && d in ix.nodes && d != parent && ix.nodes[d].parent == parent
    ensures name !in DropNode(ix, d).names[parent]
  {
  }

  // ---- what each operation does, and when -----------------------------------------------------------------

  /** When an addition succeeds, and why not otherwise. */
  lemma AddOutcome(ix: Index, parent: nat, name: string, isDir: bool, size: nat, imageOk: bool, joinOk: bool)
    requires Tree(ix)
    ensures var (r, result) := ApplyAdd(ix, parent, name, isDir, size, imageOk, joinOk);
            var free := ValidName(name) && Lookup(ix, parent, name).None?;
            var fits := free && parent in ix.nodes && ix.nodes[parent].isDir;
            && (result.Done? <==> fits && imageOk && joinOk)
            && (result == Torn <==> fits && imageOk && !joinOk)
            && (result == Failed(BadName) <==> !ValidName(name))
            && (result == Failed(AlreadyExists) <==> ValidName(name) && Lookup(ix, parent, name).Some?)
            && (result == Failed(NoSuchParent) <==> free && parent !in ix.nodes)
            && (result == Failed(NotADirectory) <==> free && parent in ix.nodes && !ix.nodes[parent].isDir)
            && (result == Failed(ImageRefused) <==> fits && !imageOk)
            && (result == Torn ==> r == ix.(next := ix.next + 1))
  {
    hide Tree, ValidName;
  }

  /** `r` is `ix` with one node more, of that name, kind and size, under the next inode: listed last in its
      directory, with an empty listing if it is one itself; and nothing else changed. */
  ghost predicate Added(ix: Index, parent: nat, name: string, isDir: bool, size: nat, r: Index) {
    var i := ix.next;
    && i !in ix.nodes && r.next == i + 1 && parent in ix.nodes && parent in ix.children
    && (forall j :: j in r.nodes <==> j in ix.nodes || j == i)
    && (forall j :: j in ix.nodes ==> r.nodes[j] == ix.nodes[j])
    && r.nodes[i].parent == parent && r.nodes[i].name == name && r.nodes[i].isDir == isDir
    && r.nodes[i].size == size && !r.nodes[i].locked
    && r.nodes[i].path == ix.nodes[parent].path + "." + name
    && (forall d :: d in r.children <==> d in ix.children || (isDir && d == i))
    && (forall d :: d in ix.children && d != parent ==> r.children[d] == ix.children[d])
    && r.children[parent] == ix.children[parent] + [i] && (isDir ==> r.children[i] == [])
  }

  lemma AddNodeAdds(ix: Index, parent: nat, name: string, isDir: bool, size: nat)
    requires parent in ix.nodes && parent in ix.children && parent in ix.names
    requires ix.next !in ix.nodes && ix.next !in ix.children
    ensures Added(ix, parent, name, isDir, size, AddNode(ix, parent, name, isDir, size))
  {
  }

  lemma NextIsNew(ix: Index)
    requires Tree(ix)
    ensures ix.next !in ix.nodes && ix.next !in ix.children
  {
    hide Agrees, Hangs, RootInPlace;
    assert ix.next in ix.children ==> Directory(ix, ix.next);
  }

  lemma AddAdds(ix: Index, parent: nat, name: string, isDir: bool, size: nat, imageOk: bool, joinOk: bool)
    requires Tree(ix)
    ensures var (r, result) := ApplyAdd(ix, parent, name, isDir, size, imageOk, joinOk);
            result.Done? ==> result.inode == ix.next && Added(ix, parent, name, isDir, size, r)
  {
    hide Tree, Added, AddNode, ValidName, Lookup;
    AddOutcome(ix, parent, name, isDir, size, imageOk, joinOk);
    if ApplyAdd(ix, parent, name, isDir, size, imageOk, joinOk).1.Done? {
      AddNotRefused(ix, parent, name);
      NextIsNew(ix);
      ChildrenOf(ix, parent);
      AddNodeAdds(ix, parent, name, isDir, size);
    }
  }

  lemma ChildrenOf(ix: Index, d: nat)
    requires Tree(ix) && Directory(ix, d)
    ensures d in ix.children && d in ix.names
  {
  }

  /** The same through the operation asked for: a file has the size given, a directory none. */
  lemma ApplyAdds(ix: Index, op: Operation, imageOk: bool, joinOk: bool)
    requires Tree(ix) && (op.Create? || op.MakeDirectory?) && Apply(ix, op, imageOk, joinOk).1.Done?
    ensures var (r, result) := Apply(ix, op, imageOk, joinOk);
            && (op.Create? ==> Added(ix, op.parent, op.name, false, op.size, r))
            && (op.MakeDirectory? ==> Added(ix, op.parent, op.name, true, 0, r))
  {
    hide Tree, Added, ApplyAdd;
    if op.Create? {
      AddAdds(ix, op.parent, op.name, false, op.size, imageOk, joinOk);
    } else {
      AddAdds(ix, op.parent, op.name, true, 0, imageOk, joinOk);
    }
  }

  /** When a removal succeeds, and why not otherwise. */
  lemma RemoveOutcome(ix: Index, parent: nat, name: string, directory: bool, imageOk: bool)
    requires Tree(ix)
    ensures var (r, result) := ApplyRemove(ix, parent, name, directory, imageOk);
            var found := Lookup(ix, parent, name);
            && (found.Some? ==> found.value in ix.nodes)
            && (result == Failed(NotFound) <==> found.None?)
            && (result == Failed(IsADirectory) <==> found.Some? && ix.nodes[found.value].isDir && !directory)
            && (result == Failed(NotADirectory) <==> found.Some? && !ix.nodes[found.value].isDir && directory)
            && (result.Done? <==> found.Some? && ix.nodes[found.value].isDir == directory && imageOk
                                  && (found.value in ix.children ==> ix.children[found.value] == []))
            && (result == Failed(ImageRefused) <==> found.Some? && ix.nodes[found.value].isDir == directory
                                                    && !result.Done?)
  {
    hide Tree, Lookup;
    LookupIsChild(ix, parent, name);
  }

  /** `r` is `ix` without node `i`, which was in directory `parent`: no dictionary knows it, its directory lists
      its other children in their old order, its name is free there, and every other node and listing stays. */
  ghost predicate Removed(ix: Index, parent: nat, i: nat, r: Index) {
    && i in ix.nodes && ix.nodes[i].parent == parent && i !in r.nodes && i !in r.children && i !in r.names
    && r.next == ix.next
    && (forall j :: j in ix.nodes && j != i ==> j in r.nodes && r.nodes[j] == ix.nodes[j])
    && (forall j :: j in r.nodes ==> j in ix.nodes)
    && parent in ix.children && parent in r.children && parent in r.names && parent in ix.names
    && i in ix.children[parent] && CutOut(ix.children[parent], i, r.children[parent])
    && ix.nodes[i].name !in r.names[parent]
    && (forall n :: n in ix.names[parent] && n != ix.nodes[i].name ==>
          n in r.names[parent] && r.names[parent][n] == ix.names[parent][n])
    && (forall d :: d in ix.children && d != i && d != parent ==> d in r.children && r.children[d] == ix.children[d])
    && (forall d :: d in ix.names && d != i && d != parent ==> d in r.names && r.names[d] == ix.names[d])
    && (forall d :: d in r.children ==> d in ix.children)
  }

  lemma DropNodeRemoves(ix: Index, i: nat)
    requires i in ix.nodes && ix.nodes[i].parent in ix.children && ix.nodes[i].parent in ix.names
    requires i != ix.nodes[i].parent && i in ix.children[ix.nodes[i].parent]
    requires Distinct(ix.children[ix.nodes[i].parent])
    ensures Removed(ix, ix.nodes[i].parent, i, DropNode(ix, i))
  {
    WithoutCutsOut(ix.children[ix.nodes[i].parent], i);
    hide CutOut, Distinct;
  }

  lemma ChildIsListed(ix: Index, i: nat)
    requires Tree(ix) && i in ix.nodes && i != ROOT
    ensures var p := ix.nodes[i].parent;
            p in ix.children && p in ix.names && i != p && i in ix.children[p] && Distinct(ix.children[p])
  {
    hide Directory, RootInPlace;
    assert Hangs(ix, i) && Agrees(ix, ix.nodes[i].parent);
  }

  lemma RemoveRemoves(ix: Index, parent: nat, name: string, directory: bool, imageOk: bool)
    requires Tree(ix)
    ensures var (r, result) := ApplyRemove(ix, parent, name, directory, imageOk);
            result.Done? ==> Lookup(ix, parent, name) == Some(result.inode) && Removed(ix, parent, result.inode, r)
  {
    hide Tree, Removed, DropNode, Lookup;
    RemoveOutcome(ix, parent, name, directory, imageOk);
    LookupIsChild(ix, parent, name);
    if Lookup(ix, parent, name).Some? {
      var i := Lookup(ix, parent, name).value;
      ChildIsListed(ix, i);
      DropNodeRemoves(ix, i);
    }
  }

  /** When a rename gets as far as the image. */
  ghost predicate MayRename(ix: Index, found: Option<nat>, newParent: nat, newName: string, there: Option<nat>)
    requires Tree(ix)
  {
    && found.Some? && found.value in ix.nodes && !ix.nodes[found.value].locked && ValidName(newName)
    && newParent in ix.nodes && ix.nodes[newParent].isDir
    && (ix.nodes[found.value].isDir ==> !AncestorOrSelf(ix, found.value, newParent))
    && (there.Some? && there != found ==>
          && there.value in ix.nodes && !ix.nodes[there.value].locked
          && ix.nodes[there.value].isDir == ix.nodes[found.value].isDir)
  }

  lemma RefuseRenameNone(ix: Index, oldParent: nat, oldName: string, newParent: nat, newName: string)
    requires Tree(ix)
    ensures var found, there := Lookup(ix, oldParent, oldName), Lookup(ix, newParent, newName);
            && (found.Some? ==> found.value in ix.nodes) && (there.Some? ==> there.value in ix.nodes)
            && (RefuseRename(ix, oldParent, oldName, newParent, newName).None?
                <==> MayRename(ix, found, newParent, newName, there))
  {
    hide Tree, Lookup, ValidName, AncestorOrSelf, Under;
    LookupIsChild(ix, oldParent, oldName);
    LookupIsChild(ix, newParent, newName);
  }

  /** The reasons for which a rename is refused before it is tried. */
  lemma RenameRefusals(ix: Index, oldParent: nat, oldName: string, newParent: nat, newName: string, why: Error)
    requires Tree(ix) && RefuseRename(ix, oldParent, oldName, newParent, newName) == Some(why)
    ensures why in {NotFound, Locked, NoSuchParent, InsideItself, BadName, NotADirectory, IsADirectory}
    ensures why == NotFound <==> Lookup(ix, oldParent, oldName).None?
    ensures why == BadName ==> !ValidName(newName)
    ensures why == NoSuchParent ==> newParent !in ix.nodes
  {
    hide Tree, Lookup, ValidName, AncestorOrSelf, Under;
    LookupIsChild(ix, oldParent, oldName);
    LookupIsChild(ix, newParent, newName);
  }

  lemma RenameRefusedFor(ix: Index, oldParent: nat, oldName: string, newParent: nat, newName: string, why: Error)
    requires Tree(ix) && RefuseRename(ix, oldParent, oldName, newParent, newName) == Some(why)
    ensures var found, there := Lookup(ix, oldParent, oldName), Lookup(ix, newParent, newName);
            && (found.Some? ==> found.value in ix.nodes) && (there.Some? ==> there.value in ix.nodes)
            && (why == Locked ==> found.Some? && (ix.nodes[found.value].locked ||
                                                  (there.Some? && ix.nodes[there.value].locked)))
            && (why == InsideItself ==>
                  found.Some? && newParent in ix.nodes && AncestorOrSelf(ix, found.value, newParent))
            && (why == IsADirectory ==> there.Some? && ix.nodes[there.value].isDir)
  {
    hide Tree, Lookup, ValidName, AncestorOrSelf, Under;
    LookupIsChild(ix, oldParent, oldName);
    LookupIsChild(ix, newParent, newName);
  }

  /** When a rename succeeds, and why not otherwise. */
  lemma RenameOutcome(ix: Index, oldParent: nat, oldName: string, newParent: nat, newName: string, imageOk: bool)
    requires Tree(ix)
    ensures var (r, result) := ApplyRename(ix, oldParent, oldName, newParent, newName, imageOk);
            var found, there := Lookup(ix, oldParent, oldName), Lookup(ix, newParent, newName);
            && (result.Done? <==>
                  && MayRename(ix, found, newParent, newName, there)
                  && (there == found ||
                      (imageOk && (there.Some? && there.value in ix.children ==> ix.children[there.value] == []))))
            && (result.Done? ==> result.inode == found.value && (there == found ==> r == ix))
            && (result == Failed(NotFound) <==> found.None?)
            && (result == Failed(ImageRefused) <==> !result.Done? && MayRename(ix, found, newParent, newName, there))
            && !result.Torn?
  {
    hide Tree, Lookup, RefuseRename, MoveNode, DropNode, ValidName, AncestorOrSelf;
    RefuseRenameNone(ix, oldParent, oldName, newParent, newName);
    if RefuseRename(ix, oldParent, oldName, newParent, newName).Some? {
      RenameRefusals(ix, oldParent, oldName, newParent, newName,
        RefuseRename(ix, oldParent, oldName, newParent, newName).value);
    }
  }

  /** `r` lists node `i` last in its new directory; the destination it replaced and its old place are cut out
      of the listings, which are otherwise as they were. */
  ghost predicate Relinked(ix: Index, i: nat, oldParent: nat, newParent: nat, there: Option<nat>, r: Index) {
    && oldParent in ix.children && newParent in ix.children && oldParent in r.children && newParent in r.children
    && (exists kept, cut ::
          && (if there.Some? then CutOut(ix.children[newParent], there.value, kept) else kept == ix.children[newParent])
          && CutOut(kept, i, cut) && r.children[newParent] == cut + [i])
    && (oldParent != newParent ==> CutOut(ix.children[oldParent], i, r.children[oldParent]))
    && (forall d :: d in ix.children && d != oldParent && d != newParent && there != Some(d) ==>
          d in r.children && r.children[d] == ix.children[d])
    && (forall d :: d in r.children ==> d in ix.children && there != Some(d))
  }

  lemma MoveNodeRelinks(from: Index, i: nat, newParent: nat, name: string)
    requires i in from.nodes && from.nodes[i].parent in from.children && from.nodes[i].parent in from.names
    requires newParent in from.nodes && newParent in from.children && newParent in from.names
    requires i in from.children[from.nodes[i].parent]
             && (from.nodes[i].parent != newParent ==> i !in from.children[newParent])
    ensures var r, place := MoveNode(from, i, newParent, name), from.nodes[i].parent;
            && r.children.Keys == from.children.Keys
            && r.children[newParent] == Without(from.children[newParent], i) + [i]
            && (place != newParent ==> r.children[place] == Without(from.children[place], i))
            && forall d :: d in from.children && d != place && d != newParent ==> r.children[d] == from.children[d]
  {
  }

  lemma DropNodeCutsOut(ix: Index, d: nat)
    requires d in ix.nodes && ix.nodes[d].parent in ix.children && ix.nodes[d].parent in ix.names
    ensures var r, p := DropNode(ix, d), ix.nodes[d].parent;
            && r.children.Keys == ix.children.Keys - {d}
            && (p != d ==> r.children[p] == Without(ix.children[p], d))
            && forall e :: e in ix.children && e != p && e != d ==> r.children[e] == ix.children[e]
  {
  }

  lemma ChildListings(ix: Index, i: nat, newParent: nat)
    requires Tree(ix) && i in ix.nodes && i != ROOT && Directory(ix, newParent)
    ensures var p := ix.nodes[i].parent;
            && p in ix.children && p in ix.names && p in ix.nodes && i in ix.children[p] && p != i
            && newParent in ix.children && newParent in ix.names && newParent in ix.nodes
            && Distinct(ix.children[p]) && Distinct(ix.children[newParent])
            && (p != newParent ==> i !in ix.children[newParent])
  {
    hide RootInPlace;
    assert Hangs(ix, i) && Agrees(ix, ix.nodes[i].parent) && Agrees(ix, newParent);
  }

  /** A rename that moves something relinks exactly what it must, and gives the node its new parent, name
      and path. */
  lemma MoveRelinks(ix: Index, i: nat, newParent: nat, name: string, there: Option<nat>)
    requires Tree(ix) && i in ix.nodes && i != ROOT && Directory(ix, newParent) && there != Some(i)
    requires there.Some? ==>
               there.value in ix.nodes && there.value != ROOT && ix.nodes[there.value].parent == newParent
               && there.value != newParent && there.value != ix.nodes[i].parent
    requires ix.nodes[i].parent in ix.names && newParent in ix.names
    ensures var from := if there.Some? then DropNode(ix, there.value) else ix;
            && i in from.nodes && from.nodes[i].parent in from.children && from.nodes[i].parent in from.names
            && newParent in from.nodes && newParent in from.children && newParent in from.names
            && Relinked(ix, i, ix.nodes[i].parent, newParent, there, MoveNode(from, i, newParent, name))
  {
    hide Tree, MoveNode, DropNode, CutOut, Distinct, Directory, Without;
    ChildListings(ix, i, newParent);
    var place := ix.nodes[i].parent;
    var from := if there.Some? then DropNode(ix, there.value) else ix;
    if there.Some? {
      DropNodeCutsOut(ix, there.value);
      WithoutCutsOut(ix.children[newParent], there.value);
      WithoutDistinct(ix.children[newParent], there.value);
      DropNodeKeeps(ix, there.value);
    }
    var kept := from.children[newParent];
    WithoutCutsOut(kept, i);
    WithoutCutsOut(from.children[place], i);
    MoveNodeRelinks(from, i, newParent, name);
  }

  lemma DropNodeKeeps(ix: Index, d: nat)
    requires d in ix.nodes && ix.nodes[d].parent in ix.children && ix.nodes[d].parent in ix.names
    ensures DropNode(ix, d).nodes == ix.nodes - {d}
            && DropNode(ix, d).names.Keys == ix.names.Keys - {d}
  {
  }

  // ---- every history keeps the tree ------------------------------------------------------------------------

  /** Inodes in use afterwards were in use before or are brand new, and survivors keep their kind. */
  ghost predicate InodesKept(a: Index, b: Index) {
    && a.next <= b.next
    && forall i :: i in b.nodes ==> if i in a.nodes then b.nodes[i].isDir == a.nodes[i].isDir else a.next <= i < b.next
  }

  lemma SkipKeepsTree(ix: Index)
    requires Tree(ix)
    ensures Tree(SkipInode(ix)) && InodesKept(ix, SkipInode(ix))
  {
    hide Listing, RootInPlace;
    SkipKeepsRoot(ix);
    var r := SkipInode(ix);
    forall d | d in r.children
      ensures Agrees(r, d)
    {
      assert Agrees(ix, d);
    }
    forall i | i in r.nodes && i != ROOT
      ensures Hangs(r, i)
    {
      assert Hangs(ix, i);
    }
  }

  lemma SkipKeepsRoot(ix: Index)
    requires RootInPlace(ix)
    ensures RootInPlace(SkipInode(ix))
  {
  }

  lemma ApplyAddKeepsTree(ix: Index, parent: nat, name: string, isDir: bool, size: nat, imageOk: bool, joinOk: bool)
    requires Tree(ix)
    ensures var (r, result) := ApplyAdd(ix, parent, name, isDir, size, imageOk, joinOk);
            Tree(r) && InodesKept(ix, r) && (result.Failed? ==> r == ix) && (result.Torn? ==> r == SkipInode(ix))
  {
    hide Listing, Agrees, Hangs, RootInPlace, Directory;
    if RefuseAdd(ix, parent, name).None? && imageOk {
      AddNotRefused(ix, parent, name);
      AddKeepsTree(ix, parent, name, isDir, size);
      SkipKeepsTree(ix);
    }
  }

  lemma AddNotRefused(ix: Index, parent: nat, name: string)
    requires Tree(ix) && RefuseAdd(ix, parent, name).None?
    ensures Directory(ix, parent) && DotFree(name) && parent in ix.names && name !in ix.names[parent]
  {
    ValidNameIsDotFree(name);
    LookupIsChild(ix, parent, name);
  }

  lemma ApplyRemoveKeepsTree(ix: Index, parent: nat, name: string, directory: bool, imageOk: bool)
    requires Tree(ix)
    ensures var (r, result) := ApplyRemove(ix, parent, name, directory, imageOk);
            Tree(r) && InodesKept(ix, r) && (result.Failed? ==> r == ix) && !result.Torn?
  {
    var found := Lookup(ix, parent, name);
    LookupIsChild(ix, parent, name);
    if RefuseRemove(ix, parent, name, directory).None? && ImageRemoves(ix, found.value, imageOk) {
      assert Hangs(ix, found.value);
      DropKeepsTree(ix, found.value);
    }
  }

  lemma DropKeepsInodes(ix: Index, d: nat)
    requires d in ix.nodes && ix.nodes[d].parent in ix.children && ix.nodes[d].parent in ix.names
    requires forall i :: i in ix.nodes ==> i < ix.next
    ensures InodesKept(ix, DropNode(ix, d))
  {
  }

  /** A move, even after the drop of a replaced destination, only loses that destination. */
  lemma MoveKeepsInodes(ix: Index, from: Index, i: nat, newParent: nat, name: string)
    requires InodesKept(ix, from) && from.next == ix.next && (forall i :: i in ix.nodes ==> i < ix.next)
    requires i in from.nodes && from.nodes[i].parent in from.children && from.nodes[i].parent in from.names
    requires newParent in from.nodes && newParent in from.children && newParent in from.names
    ensures InodesKept(ix, MoveNode(from, i, newParent, name))
  {
    MoveKeepsKinds(from, i, newParent, name);
  }

  lemma ApplyRenameKeepsTree(ix: Index, oldParent: nat, oldName: string, newParent: nat, newName: string, imageOk: bool)
    requires Tree(ix)
    ensures var (r, result) := ApplyRename(ix, oldParent, oldName, newParent, newName, imageOk);
            Tree(r) && InodesKept(ix, r) && (result.Failed? ==> r == ix) && !result.Torn?
  {
    var (r, result) := ApplyRename(ix, oldParent, oldName, newParent, newName, imageOk);
    if r != ix {
      hide RefuseRename, MoveNode, Listing, Agrees, RootInPlace, InodesKept;
      RenameIsMovable(ix, oldParent, oldName, newParent, newName);
      var i, d := Lookup(ix, oldParent, oldName).value, Lookup(ix, newParent, newName);
      var from := if d.Some? then DropNode(ix, d.value) else ix;
      if d.Some? {
        DropKeepsInodes(ix, d.value);
      }
      MoveKeepsTree(from, i, newParent, newName);
      MoveKeepsInodes(ix, from, i, newParent, newName);
    }
  }

  lemma ApplyKeepsTree(ix: Index, op: Operation, imageOk: bool, joinOk: bool)
    requires Tree(ix)
    ensures var (r, result) := Apply(ix, op, imageOk, joinOk);
            Tree(r) && InodesKept(ix, r) && (result.Failed? ==> r == ix) && (result.Torn? ==> r == SkipInode(ix))
  {
    match op
    case Create(parent, name, size) => ApplyAddKeepsTree(ix, parent, name, false, size, imageOk, joinOk);
    case MakeDirectory(parent, name) => ApplyAddKeepsTree(ix, parent, name, true, 0, imageOk, joinOk);
    case Remove(parent, name, directory) => ApplyRemoveKeepsTree(ix, parent, name, directory, imageOk);
    case Rename(oldParent, oldName, newParent, newName) => ApplyRenameKeepsTree(ix, oldParent, oldName, newParent,
        newName, imageOk);
  }

  datatype Step = Step(op: Operation, imageOk: bool, joinOk: bool)

  ghost function AfterHistory(ix: Index, history: seq<Step>): (r: Index)
    requires Tree(ix)
    ensures Tree(r) && InodesKept(ix, r)
    decreases |history|
  {
    if history == [] then ix
    else
      var step := history[0];
      ApplyKeepsTree(ix, step.op, step.imageOk, step.joinOk);
      AfterHistory(Apply(ix, step.op, step.imageOk, step.joinOk).0, history[1..])
  }

  /** In every history the three dictionaries go on describing one rooted tree in which paths are unique
      and text prefixes are ancestry, no inode is ever given to a second node, and parent chains end. */
  lemma HistoryKeepsTree(ix: Index, history: seq<Step>, i: nat, j: nat)
    requires Tree(ix) && i in AfterHistory(ix, history).nodes && j in AfterHistory(ix, history).nodes
    ensures var r := AfterHistory(ix, history);
            && Tree(r) && InodesKept(ix, r)
            && (r.nodes[i].path == r.nodes[j].path ==> i == j)
            && (AncestorOrSelf(r, i, j) <==> i == j || r.nodes[i].path + "." <= r.nodes[j].path)
            && AncestorOrSelf(r, ROOT, i)
            && (AncestorOrSelf(r, i, j) && AncestorOrSelf(r, j, i) ==> i == j)
  {
    var r := AfterHistory(ix, history);
    if r.nodes[i].path == r.nodes[j].path {
      PathsAreUnique(r, i, j);
    }
    BelowByText(r, i, j);
    BelowByText(r, j, i);
    UnderRoot(r, i);
  }

  lemma UnderRoot(ix: Index, i: nat)
    requires Tree(ix) && i in ix.nodes
    ensures AncestorOrSelf(ix, ROOT, i)
    decreases |ix.nodes[i].path|
  {
    if i != ROOT {
      assert Hangs(ix, i);
      UnderRoot(ix, ix.nodes[i].parent);
    }
  }

  lemma MovedPathAfterDrop(ix: Index, d: nat, i: nat, newPath: string, j: nat)
    requires Tree(ix) && d in ix.nodes && d != ROOT && Hangs(ix, d) && Tree(DropNode(ix, d))
    requires i in ix.nodes && j in ix.nodes && i != d && j != d
    ensures i in DropNode(ix, d).nodes && j in DropNode(ix, d).nodes
    ensures MovedPath(DropNode(ix, d), i, newPath, j) == MovedPath(ix, i, newPath, j)
  {
    hide Listing, Agrees, RootInPlace, Directory, AncestorOrSelf;
    assert DropNode(ix, d).nodes[i] == ix.nodes[i] && DropNode(ix, d).nodes[j] == ix.nodes[j];
    DropKeepsAncestry(ix, d, i, j);
  }

  lemma RenameResult(ix: Index, oldParent: nat, oldName: string, newParent: nat, newName: string)
    requires Tree(ix) && ApplyRename(ix, oldParent, oldName, newParent, newName, true).1.Done?
    requires Lookup(ix, newParent, newName) != Lookup(ix, oldParent, oldName)
    ensures RefuseRename(ix, oldParent, oldName, newParent, newName).None? && Lookup(ix, oldParent, oldName).Some?
    ensures var i, d := Lookup(ix, oldParent, oldName).value, Lookup(ix, newParent, newName);
            && (d.Some? ==> ImageRemoves(ix, d.value, true) && d.value in ix.nodes)
            && (d.Some? ==> Hangs(ix, d.value) && ix.nodes[d.value].parent in ix.names)
            && var from := if d.Some? then DropNode(ix, d.value) else ix;
               Movable(from, i, newParent, newName) &&
               ApplyRename(ix, oldParent, oldName, newParent, newName, true)
                  == (MoveNode(from, i, newParent, newName), Done(i))
  {
    RenameIsMovable(ix, oldParent, oldName, newParent, newName);
    RenameChecked(ix, oldParent, oldName, newParent, newName);
    var d := Lookup(ix, newParent, newName);
    if d.Some? {
      DestinationDropped(ix, newParent, newName, d.value);
    }
  }

  /** A committed rename moves exactly the subtree of the renamed node: those nodes get the new path in
      place of the old front, every other path stays, only a replaced destination disappears, and all
      inodes are kept. */
  lemma RenameMovesSubtree(ix: Index, oldParent: nat, oldName: string, newParent: nat, newName: string, j: nat)
    requires Tree(ix) && ApplyRename(ix, oldParent, oldName, newParent, newName, true).1.Done?
    requires Lookup(ix, newParent, newName) != Lookup(ix, oldParent, oldName)
    ensures var (r, result) := ApplyRename(ix, oldParent, oldName, newParent, newName, true);
            var i, d := result.inode, Lookup(ix, newParent, newName);
            && Lookup(ix, oldParent, oldName) == Some(i) && i in ix.nodes && newParent in ix.nodes
            && (j in r.nodes <==> j in ix.nodes && d != Some(j))
            && (j in r.nodes ==> r.nodes[j].path == MovedPath(ix, i, Child(ix.nodes[newParent].path, newName), j))
            && (j in r.nodes && j != i ==> r.nodes[j] == ix.nodes[j].(path := r.nodes[j].path))
  {
    RenameResult(ix, oldParent, oldName, newParent, newName);
    RenameNotRefused(ix, oldParent, oldName, newParent, newName);
    var i, d := Lookup(ix, oldParent, oldName).value, Lookup(ix, newParent, newName);
    if d.Some? {
      RenameAfterDrop(ix, d.value, i, newParent, newName, j);
    } else {
      RenameInPlace(ix, i, newParent, newName, j);
    }
  }

  lemma RenameInPlace(ix: Index, i: nat, newParent: nat, name: string, j: nat)
    requires Movable(ix, i, newParent, name)
    ensures var r := MoveNode(ix, i, newParent, name);
            && (j in r.nodes <==> j in ix.nodes)
            && (j in r.nodes ==> r.nodes[j].path == MovedPath(ix, i, Child(ix.nodes[newParent].path, name), j))
            && (j in r.nodes && j != i ==> r.nodes[j] == ix.nodes[j].(path := r.nodes[j].path))
  {
    MoveKeepsKinds(ix, i, newParent, name);
    if j in ix.nodes {
      MovePaths(ix, i, newParent, name, j);
    }
  }

  lemma RenameAfterDrop(ix: Index, d: nat, i: nat, newParent: nat, name: string, j: nat)
    requires Tree(ix) && d in ix.nodes && d != ROOT && Hangs(ix, d) && ix.nodes[d].parent in ix.names
    requires i in ix.nodes && newParent in ix.nodes && Movable(DropNode(ix, d), i, newParent, name)
    ensures var r := MoveNode(DropNode(ix, d), i, newParent, name);
            && (j in r.nodes <==> j in ix.nodes && j != d)
            && (j in r.nodes ==> r.nodes[j].path == MovedPath(ix, i, Child(ix.nodes[newParent].path, name), j))
            && (j in r.nodes && j != i ==> r.nodes[j] == ix.nodes[j].(path := r.nodes[j].path))
  {
    var from := DropNode(ix, d);
    RenameInPlace(from, i, newParent, name, j);
    if j in ix.nodes && j != d {
      MovedPathAfterDrop(ix, d, i, Child(ix.nodes[newParent].path, name), j);
    }
  }

  lemma MovedFields(ix: Index, i: nat, newParent: nat, name: string)
    requires i in ix.nodes && ix.nodes[i].parent in ix.children && ix.nodes[i].parent in ix.names
    requires newParent in ix.nodes && newParent in ix.children && newParent in ix.names
    ensures var r := MoveNode(ix, i, newParent, name);
            i in r.nodes && r.nodes[i] == ix.nodes[i].(parent := newParent, name := name, path := r.nodes[i].path)
  {
  }

  /** And the renamed node itself gets its new parent, name and path and keeps its inode, kind, size and lock;
      it is listed last where it went, and the listings it left are otherwise as they were. */
  lemma RenameRelinks(ix: Index, oldParent: nat, oldName: string, newParent: nat, newName: string, imageOk: bool)
    requires Tree(ix)
    ensures var (r, result) := ApplyRename(ix, oldParent, oldName, newParent, newName, imageOk);
            var there := Lookup(ix, newParent, newName);
            result.Done? && there != Some(result.inode) ==>
              var i := result.inode;
              && i in ix.nodes && i in r.nodes && newParent in ix.nodes
              && r.nodes[i] == ix.nodes[i].(parent := newParent, name := newName,
                                            path := ix.nodes[newParent].path + "." + newName)
              && Relinked(ix, i, oldParent, newParent, there, r)
  {
    hide Tree, Lookup, ApplyRename, MoveNode, DropNode, Movable, Relinked, RefuseRename, Hangs, MayRename;
    RenameOutcome(ix, oldParent, oldName, newParent, newName, imageOk);
    var result := ApplyRename(ix, oldParent, oldName, newParent, newName, imageOk).1;
    if result.Done? && Lookup(ix, newParent, newName) != Some(result.inode) {
      MoveRelinksAll(ix, oldParent, oldName, newParent, newName, imageOk);
    }
  }

  lemma MoveRelinksAll(ix: Index, oldParent: nat, oldName: string, newParent: nat, newName: string, imageOk: bool)
    requires Tree(ix) && imageOk && ApplyRename(ix, oldParent, oldName, newParent, newName, imageOk).1.Done?
    requires Lookup(ix, newParent, newName) != Lookup(ix, oldParent, oldName)
    ensures var (r, result) := ApplyRename(ix, oldParent, oldName, newParent, newName, imageOk);
            var i, there := result.inode, Lookup(ix, newParent, newName);
            && i in ix.nodes && i in r.nodes && newParent in ix.nodes
            && r.nodes[i] == ix.nodes[i].(parent := newParent, name := newName,
                                          path := ix.nodes[newParent].path + "." + newName)
            && Relinked(ix, i, oldParent, newParent, there, r)
  {
    hide Tree, Lookup, ApplyRename, MoveNode, DropNode, Movable, Relinked, RefuseRename, Hangs;
    RenameResult(ix, oldParent, oldName, newParent, newName);
    RenameMovesSubtree(ix, oldParent, oldName, newParent, newName, Lookup(ix, oldParent, oldName).value);
    RenameNotRefused(ix, oldParent, oldName, newParent, newName);
    LookupIsChild(ix, oldParent, oldName);
    LookupIsChild(ix, newParent, newName);
    var i, there := Lookup(ix, oldParent, oldName).value, Lookup(ix, newParent, newName);
    ChildListings(ix, i, newParent);
    if there.Some? {
      ChildListings(ix, there.value, newParent);
      DropNodeKeeps(ix, there.value);
    }
    MoveRelinks(ix, i, newParent, newName, there);
    MovedFields(if there.Some? then DropNode(ix, there.value) else ix, i, newParent, newName);
  }
}
