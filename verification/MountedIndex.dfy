/** The index object whose dictionaries the mutations update in place. */
module MountedIndex {
  import opened Cataloguing
  import opened Lists
  import opened Options
  import opened Paths
  import opened Namespace
  import opened Sets

  ghost predicate PartlyRerooted(listed: map<nat, Node>, nodes: map<nat, Node>, done: set<nat>, oldPath: string,
      newPath: string) {
    && nodes.Keys == listed.Keys
    && forall i :: i in listed ==> nodes[i] == if i in done then RerootNode(listed[i], oldPath, newPath) else listed[i]
  }

  lemma RerootStep(listed: map<nat, Node>, nodes: map<nat, Node>, done: set<nat>, i: nat, oldPath: string,
      newPath: string)
    requires PartlyRerooted(listed, nodes, done, oldPath, newPath) && i in listed
    ensures PartlyRerooted(listed, nodes[i := RerootNode(listed[i], oldPath, newPath)], done + {i}, oldPath, newPath)
    ensures RerootNode(listed[i], oldPath, newPath) == listed[i] ==>
              PartlyRerooted(listed, nodes, done + {i}, oldPath, newPath)
  {
  }

  class DirectoryIndex {
    var nodes: map<nat, Node>
    var children: map<nat, seq<nat>>
    var childrenByName: map<nat, map<string, nat>>
    var nextInode: nat

    ghost function Current(): Index
      reads this
    {
      Index(nodes, children, childrenByName, nextInode)
    }

    ghost predicate Valid()
      reads this
    {
      Tree(Current())
    }

    constructor ()
      ensures nodes == map[] && children == map[] && childrenByName == map[]
    {
      nodes, children, childrenByName, nextInode := map[], map[], map[], 0;
    }

    /** Index everything the catalogue lists, from the root down.  It ends even where directories hold one
        another, and it succeeds exactly if the limits allow and no directory lists a name twice. */
    method IndexTree(disc: Disc, rootSize: nat, limits: Limits) returns (ok: bool)
      requires nodes == map[] && children == map[] && childrenByName == map[] && DotFreeNames(disc)
      modifies this
      ensures ok <==> Indexable(disc, "$", 0, limits, 1)
      ensures ok ==> Valid() && |nodes| == 1 + Total(disc, "$", 0, limits.maxDepth) && nodes[ROOT].size == rootSize
      ensures ok ==> forall d :: d in children ==> Shows(Current(), d, disc)
    {
      hide Tree, Building, Shows, ShowsOnly, Grown, Total, Indexable;
      nodes := nodes[ROOT := Node(ROOT, "", "$", true, rootSize, false)];
      ghost var full := RootIndex(rootSize);
      RootIsBuilding(disc, rootSize);
      ok, full := Visit(disc, ROOT, "$", 0, limits, {}, full, {ROOT});
      if ok {
        nextInode := |nodes| + 1;
        BuiltIsCurrent(nodes, children, childrenByName, full, disc, rootSize);
      }
    }

    /** Index one directory: its entries in order, each subdirectory before the next entry; the tables of the
        directory are stored when all of it is known.  A path is longer than the paths above it, so the
        check for a cycle cannot fire and the depth limit is what ends an endless catalogue. */
    method Visit(disc: Disc, parent: nat, path: string, depth: nat, limits: Limits, activePaths: set<string>,
        ghost before: Index, ghost active: set<nat>) returns (ok: bool, ghost full: Index)
      requires Building(nodes, children, childrenByName, before, active, disc) && DotFreeNames(disc)
      requires parent in active && parent in before.nodes && before.nodes[parent].path == path
      requires ShowsOnly(before, parent, []) && parent in before.names && before.names[parent] == map[]
      requires forall p :: p in activePaths ==> |p| < |path|
      modifies this`nodes, this`children, this`childrenByName
      ensures ok <==> Indexable(disc, path, depth, limits, |before.nodes|)
      ensures ok ==> Building(nodes, children, childrenByName, full, active - {parent}, disc)
                     && Grown(before, full, parent)
                     && |full.nodes| == |before.nodes| + Total(disc, path, depth, limits.maxDepth)
      decreases limits.maxDepth + 1 - depth
    {
      hide Building, Grown, Shows, ShowsOnly, Placed, Shallow, Total, TotalOf, DistinctNames, AllShallow, Walking;
      hide Indexable, Fold, Child, DotFree;
      full := before;
      PathsGrow(activePaths, path, "");
      if depth > limits.maxDepth {
        TooDeep(disc, path, depth, limits, |before.nodes|);
        return false, full;
      }
      if Fold(path) in activePaths {
        assert false;
      }
      var entries := disc(path);
      var childInodes: seq<nat>, names: map<string, nat> := [], map[];
      WalkStarts(nodes, children, childrenByName, before, active, disc, parent);
      NothingCounted(disc, path, depth, limits.maxDepth);
      assert entries[..0] == [];
      var k := 0;
      while k < |entries|
        invariant k <= |entries|
        invariant Walking(nodes, children, childrenByName, before, full, active, disc, parent, entries[..k],
                    childInodes, names)
        invariant AllShallow(disc, path, entries[..k], depth, limits.maxDepth)
        invariant |full.nodes| == |before.nodes| + TotalOf(disc, path, entries[..k], depth, limits.maxDepth)
        invariant k > 0 ==> |full.nodes| <= limits.maxNodes
      {
        var e := entries[k];
        WalkTable(nodes, children, childrenByName, before, full, active, disc, parent, entries[..k], childInodes, names,
          e.name);
        if |nodes| >= limits.maxNodes {
          LimitReached(disc, path, k, depth, limits, |before.nodes|);
          return false, full;
        }
        if e.name in names {
          ghost var j :| 0 <= j < k && entries[..k][j].name == e.name;
          NameTwice(disc, path, j, k, depth, limits, |before.nodes|);
          return false, full;
        }
        EntryPlaced(nodes, children, childrenByName, before, full, active, disc, parent, entries, k, childInodes,
          names);
        TotalOfNext(disc, path, entries, k, depth, limits.maxDepth);
        var inode: nat := |nodes| + 1;
        nodes := nodes[inode := Node(parent, e.name, Child(path, e.name), e.isDir, e.size, e.locked)];
        childInodes, names := childInodes + [inode], names[e.name := inode];
        full := Placed(full, parent, e);
        ghost var placed := full;
        if e.isDir {
          PathsGrow(activePaths, path, e.name);
          var inner;
          label Entered:
          inner, full := Visit(disc, inode, Child(path, e.name), depth + 1, limits, activePaths + {Fold(path)}, placed,
            active + {inode});
          if !inner {
            InnerFails(disc, path, k, depth, limits, |before.nodes|, |placed.nodes|);
            return false, full;
          }
          InnerWalked(old@Entered(nodes), old@Entered(children), old@Entered(childrenByName), nodes, children,
            childrenByName, before, placed, full, active, disc, parent, inode, entries[..k + 1], childInodes, names);
        }
        EntryCounted(disc, path, entries, k, depth, limits, |placed.nodes|);
        k := k + 1;
      }
      assert entries[..k] == entries;
      AllCounted(disc, path, depth, limits, |before.nodes|, |full.nodes|);
      WalkEnds(nodes, children, childrenByName, before, full, active, disc, parent, childInodes, names);
      children := children[parent := childInodes];
      childrenByName := childrenByName[parent := names];
      ok := true;
    }

    /** Climb the parent chain.  It ends because every step shortens the path. */
    method IsDescendantOrSelf(inode: nat, ancestor: nat) returns (found: bool)
      requires Valid() && inode in nodes
      ensures found <==> AncestorOrSelf(Current(), ancestor, inode)
    {
      var cursor := inode;
      while true
        invariant cursor in nodes
        invariant AncestorOrSelf(Current(), ancestor, cursor) <==> AncestorOrSelf(Current(), ancestor, inode)
        decreases |nodes[cursor].path|
      {
        if cursor == ancestor {
          return true;
        }
        if cursor == ROOT || nodes[cursor].parent == cursor {
          if cursor != ROOT {
            assert Hangs(Current(), cursor);
          }
          return false;
        }
        assert Hangs(Current(), cursor);
        cursor := nodes[cursor].parent;
      }
    }

    /** Exact name first, then the first child whose name matches regardless of case. */
    method FindChild(parent: nat, name: string) returns (found: Option<nat>)
      ensures found == Lookup(Current(), parent, name)
    {
      if parent !in childrenByName || parent !in children {
        return None;
      }
      if name in childrenByName[parent] {
        return Some(childrenByName[parent][name]);
      }
      var listed, folded := children[parent], Fold(name);
      for i := 0 to |listed|
        invariant FirstFolded(Current(), listed, folded) == FirstFolded(Current(), listed[i..], folded)
      {
        if listed[i] in nodes && Fold(nodes[listed[i]].name) == folded {
          return Some(listed[i]);
        }
        assert listed[i..][1..] == listed[i + 1..];
      }
      found := None;
    }

    /** The inode number is used up first; forming the path may then fail. */
    method AddNode(parent: nat, name: string, isDir: bool, size: nat, joinOk: bool) returns (added: Option<nat>)
      requires parent in nodes && parent in children && parent in childrenByName
      modifies this
      ensures added == if joinOk then Some(old(nextInode)) else None
      ensures Current() == if joinOk then Namespace.AddNode(old(Current()), parent, name, isDir, size)
                           else SkipInode(old(Current()))
    {
      var inode := nextInode;
      nextInode := nextInode + 1;
      if !joinOk {
        return None;
      }
      nodes := nodes[inode := Node(parent, name, Child(nodes[parent].path, name), isDir, size, false)];
      children := children[parent := children[parent] + [inode]];
      var table: map<string, nat> := childrenByName[parent][name := inode];
      childrenByName := childrenByName[parent := table];
      if isDir {
        children := children[inode := []];
        childrenByName := childrenByName[inode := map[]];
      }
      added := Some(inode);
    }

    method DropNode(inode: nat)
      requires inode in nodes && nodes[inode].parent in children && nodes[inode].parent in childrenByName
      modifies this
      ensures Current() == Namespace.DropNode(old(Current()), inode)
    {
      var node := nodes[inode];
      children := children[node.parent := Without(children[node.parent], inode)];
      var table: map<string, nat> := childrenByName[node.parent] - {node.name};
      childrenByName := childrenByName[node.parent := table];
      children := children - {inode};
      childrenByName := childrenByName - {inode};
      nodes := nodes - {inode};
    }

    /** Relink the node, then rewrite every path that starts with the old one and a dot. */
    method MoveNode(inode: nat, newParent: nat, name: string)
      requires inode in nodes && nodes[inode].parent in children && nodes[inode].parent in childrenByName
      requires newParent in nodes && newParent in children && newParent in childrenByName
      modifies this
      ensures Current() == Namespace.MoveNode(old(Current()), inode, newParent, name)
    {
      var node := nodes[inode];
      var newPath := Child(nodes[newParent].path, name);
      children := children[node.parent := Without(children[node.parent], inode)];
      var table: map<string, nat> := childrenByName[node.parent] - {node.name};
      childrenByName := childrenByName[node.parent := table];
      children := children[newParent := children[newParent] + [inode]];
      table := childrenByName[newParent][name := inode];
      childrenByName := childrenByName[newParent := table];
      nodes := nodes[inode := node.(parent := newParent, name := name, path := newPath)];
      RewritePaths(node.path, newPath);
    }

    method RewritePaths(oldPath: string, newPath: string)
      modifies this`nodes
      ensures nodes == Reroot(old(nodes), oldPath, newPath)
    {
      var prefix := oldPath + ".";
      var listed := nodes;
      var remaining := nodes.Keys;
      ghost var done: set<nat> := {};
      while remaining != {}
        invariant done + remaining == listed.Keys
        invariant PartlyRerooted(listed, nodes, done, oldPath, newPath)
        decreases |remaining|
      {
        EmptyOrInhabited(remaining);
        var inode :| inode in remaining;
        var descendant := listed[inode];
        RerootStep(listed, nodes, done, inode, oldPath, newPath);
        if prefix <= descendant.path {
          nodes := nodes[inode := descendant.(path := newPath + descendant.path[|oldPath|..])];
        }
        MoveOne(done, remaining, inode);
        remaining, done := remaining - {inode}, done + {inode};
      }
      assert done == listed.Keys;
    }

    /** A file or directory is created: image first, index only once the image has committed. */
    method Create(parent: nat, name: string, isDir: bool, size: nat, imageOk: bool, joinOk: bool)
      returns (result: Result)
      requires Valid()
      modifies this
      ensures (Current(), result) == ApplyAdd(old(Current()), parent, name, isDir, size, imageOk, joinOk)
      ensures Valid()
      ensures result.Done? ==> result.inode == old(nextInode)
                               && Added(old(Current()), parent, name, isDir, size, Current())
    {
      hide Added;
      AddAdds(Current(), parent, name, isDir, size, imageOk, joinOk);
      ApplyAddKeepsTree(Current(), parent, name, isDir, size, imageOk, joinOk);
      if !ValidName(name) {
        return Failed(BadName);
      }
      var existing := FindChild(parent, name);
      if existing.Some? {
        return Failed(AlreadyExists);
      }
      if parent !in nodes {
        return Failed(NoSuchParent);
      }
      if !nodes[parent].isDir {
        return Failed(NotADirectory);
      }
      if !imageOk {
        return Failed(ImageRefused);
      }
      var added := AddNode(parent, name, isDir, size, joinOk);
      result := if added.Some? then Done(added.value) else Torn;
    }

    method Remove(parent: nat, name: string, directory: bool, imageOk: bool) returns (result: Result)
      requires Valid()
      modifies this
      ensures (Current(), result) == ApplyRemove(old(Current()), parent, name, directory, imageOk)
      ensures Valid()
      ensures result.Done? ==> Lookup(old(Current()), parent, name) == Some(result.inode)
                               && Removed(old(Current()), parent, result.inode, Current())
    {
      hide Removed;
      RemoveRemoves(Current(), parent, name, directory, imageOk);
      ApplyRemoveKeepsTree(Current(), parent, name, directory, imageOk);
      var found := FindChild(parent, name);
      LookupIsChild(Current(), parent, name);
      if found.None? {
        return Failed(NotFound);
      }
      var inode := found.value;
      if nodes[inode].isDir != directory {
        return Failed(if nodes[inode].isDir then IsADirectory else NotADirectory);
      }
      if !imageOk || (inode in children && children[inode] != []) {
        return Failed(ImageRefused);
      }
      DropNode(inode);
      result := Done(inode);
    }

    method Rename(oldParent: nat, oldName: string, newParent: nat, newName: string, imageOk: bool)
      returns (result: Result)
      requires Valid()
      modifies this
      ensures (Current(), result) == ApplyRename(old(Current()), oldParent, oldName, newParent, newName, imageOk)
      ensures Valid()
      ensures result.Done? && Lookup(old(Current()), newParent, newName) != Some(result.inode) ==>
                && newParent in old(nodes) && result.inode in old(nodes) && result.inode in nodes
                && nodes[result.inode] == old(nodes)[result.inode].(parent := newParent, name := newName,
                     path := old(nodes)[newParent].path + "." + newName)
                && Relinked(old(Current()), result.inode, oldParent, newParent,
                     Lookup(old(Current()), newParent, newName), Current())
    {
      hide Relinked;
      RenameRelinks(Current(), oldParent, oldName, newParent, newName, imageOk);
      ApplyRenameKeepsTree(Current(), oldParent, oldName, newParent, newName, imageOk);
      var refusal := CheckRename(oldParent, oldName, newParent, newName);
      if refusal.Some? {
        return Failed(refusal.value);
      }
      var found := FindChild(oldParent, oldName);
      var destination := FindChild(newParent, newName);
      if destination == found {
        return Done(found.value);
      }
      if !(if destination.Some? then imageOk && (destination.value in children ==>
          children[destination.value] == []) else imageOk) {
        return Failed(ImageRefused);
      }
      RenameIsMovable(Current(), oldParent, oldName, newParent, newName);
      if destination.Some? {
        DropNode(destination.value);
      }
      MoveNode(found.value, newParent, newName);
      result := Done(found.value);
    }

    /** The checks a rename makes before it opens a transaction. */
    method CheckRename(oldParent: nat, oldName: string, newParent: nat, newName: string)
      returns (refusal: Option<Error>)
      requires Valid()
      ensures refusal == RefuseRename(Current(), oldParent, oldName, newParent, newName)
    {
      hide Listing, Agrees, Hangs, Lookup, ValidName;
      var found := FindChild(oldParent, oldName);
      LookupIsChild(Current(), oldParent, oldName);
      LookupIsChild(Current(), newParent, newName);
      if found.None? {
        return Some(NotFound);
      }
      var node := nodes[found.value];
      if node.locked {
        return Some(Locked);
      }
      if node.isDir {
        if newParent !in nodes {
          return Some(NoSuchParent);
        }
        var inside := IsDescendantOrSelf(newParent, found.value);
        if inside {
          return Some(InsideItself);
        }
      }
      if !ValidName(newName) {
        return Some(BadName);
      }
      if newParent !in nodes {
        return Some(NoSuchParent);
      }
      if !nodes[newParent].isDir {
        return Some(NotADirectory);
      }
      var destination := FindChild(newParent, newName);
      if destination == found || destination.None? {
        return None;
      }
      if nodes[destination.value].locked {
        return Some(Locked);
      }
      if nodes[destination.value].isDir != node.isDir {
        return Some(if nodes[destination.value].isDir then IsADirectory else NotADirectory);
      }
      refusal := None;
    }
  }
}
