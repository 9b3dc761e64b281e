/** The in-memory index of a writable session: whatever stops a mutation, and even where the commit of the index
    itself is stopped, the index goes on describing one rooted tree. */
module IndexedSession {
  import opened AtomicMutation
  import N = Namespace

  /** What a mutation is to make of the index. */
  datatype Change = Named(op: N.Operation) | Updated(inode: nat, size: nat, locked: bool)

  /** The index after a change; `joinOk` says whether the path of a new node can be formed. */
  function Changed(ix: N.Index, c: Change, joinOk: bool): N.Index
    requires N.Tree(ix)
  {
    match c
    case Named(op) => N.Apply(ix, op, true, joinOk).0
    case Updated(inode, size, locked) => N.UpdateNode(ix, inode, size, locked)
  }

  /** The attempt commits the change to the index it finds.  Where that commit raises an exception it was
      forming the path of a new node, since nothing else in it can fail.  An interrupt may stop it anywhere, and
      then nothing is said about the index. */
  ghost predicate Makes(a: Attempt<N.Index>, ix: N.Index, c: Change)
    requires N.Tree(ix)
  {
    a.stop != AtCommit(Interrupt) && a.newView == Changed(ix, c, true) && a.tornView == Changed(ix, c, false)
  }

  lemma ChangeKeepsTree(ix: N.Index, c: Change, joinOk: bool)
    requires N.Tree(ix)
    ensures N.Tree(Changed(ix, c, joinOk)) && N.InodesKept(ix, Changed(ix, c, joinOk))
  {
    hide N.Tree, N.InodesKept, N.Apply, N.UpdateNode;
    match c
    case Named(op) => N.ApplyKeepsTree(ix, op, true, joinOk);
    case Updated(inode, size, locked) => N.UpdateKeepsTree(ix, inode, size, locked);
  }

  /** A torn commit has the image changed and the index not: at most an inode number is used up. */
  lemma TornIndex(ix: N.Index, c: Change)
    requires N.Tree(ix) && c.Named? && (c.op.Create? || c.op.MakeDirectory?)
    ensures Changed(ix, c, false) == ix || Changed(ix, c, false) == N.SkipInode(ix)
    ensures Changed(ix, c, true) != ix ==> Changed(ix, c, false) == N.SkipInode(ix)
  {
  }

  lemma AttemptKeepsTree(s: Session<N.Index>, a: Attempt<N.Index>, c: Change)
    requires Usable(s) && N.Tree(s.view) && Makes(a, s.view, c)
    ensures var s' := Attempted(s, a).0; N.Tree(s'.view) && N.InodesKept(s.view, s'.view)
  {
    hide N.Tree, Changed;
    ChangeKeepsTree(s.view, c, true);
    ChangeKeepsTree(s.view, c, false);
    var view := Attempted(s, a).0.view;
    assert view == s.view || view == a.newView || view == a.tornView;
    ItselfKept(s.view);
  }

  lemma ItselfKept(ix: N.Index)
    requires N.Tree(ix)
    ensures N.InodesKept(ix, ix)
  {
  }

  lemma KeptTwice(a: N.Index, b: N.Index, c: N.Index)
    requires N.Tree(a) && N.InodesKept(a, b) && N.InodesKept(b, c)
    ensures N.InodesKept(a, c)
  {
    assert forall i :: i in a.nodes ==> i < a.next;
  }

  /** Each attempt makes its change to the index that the attempts before it have left. */
  ghost predicate Follows(s: Session<N.Index>, attempts: seq<Attempt<N.Index>>, changes: seq<Change>)
    requires Usable(s) && N.Tree(s.view)
    decreases |attempts|
  {
    && |attempts| == |changes|
    && (attempts == [] ||
        (Makes(attempts[0], s.view, changes[0]) &&
         (AttemptKeepsLength(s, attempts[0]);
          AttemptKeepsTree(s, attempts[0], changes[0]);
          Follows(Attempted(s, attempts[0]).0, attempts[1..], changes[1..]))))
  }

  /** Over every run of mutations, stopped at any stage of each by anything but an interrupt of a commit, the
      index stays one rooted tree and no inode ever names a second node. */
  lemma {:induction false} RunKeepsTree(s: Session<N.Index>, attempts: seq<Attempt<N.Index>>, changes: seq<Change>)
    requires Usable(s) && N.Tree(s.view) && Follows(s, attempts, changes)
    ensures N.Tree(AfterRun(s, attempts).view) && N.InodesKept(s.view, AfterRun(s, attempts).view)
    decreases |attempts|
  {
    hide Attempted, N.Tree, N.InodesKept, Makes;
    if attempts == [] {
      ItselfKept(s.view);
    } else {
      var next := Attempted(s, attempts[0]).0;
      AttemptKeepsLength(s, attempts[0]);
      AttemptKeepsTree(s, attempts[0], changes[0]);
      RunKeepsTree(next, attempts[1..], changes[1..]);
      KeptTwice(s.view, next.view, AfterRun(next, attempts[1..]).view);
    }
  }
}
