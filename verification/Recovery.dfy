/** Copying one file of a checkpoint or of a restore, in chunks, until the copy is on disk. */
module Recovery {
  import opened Transactions
  import opened DurableStore
  import opened CheckpointSteps

  const CHUNK: nat := 8 * 1024 * 1024

  // ---- copying one file ----------------------------------------------------------------------------------------

  datatype Copy = Copied(inode: nat, bytes: nat) | NotStarted | CopyFailed(inode: nat) | CopyCancelled(inode: nat)

  ghost predicate AllMaking(before: Dir, trace: seq<Dir>, from: nat, name: string, inode: nat)
    requires |before.log| > 0
  {
    forall k :: from <= k < |trace| ==> Making(before, trace[k], name, inode)
  }

  /** The new file is there under its name, holding `content` so far. */
  ghost predicate Filling(before: Dir, d: Dir, name: string, inode: nat, content: seq<byte>)
    requires |before.log| > 0
  {
    && Making(before, d, name, inode) && d.log == before.log + [Live(before)[name := inode]]
    && d.files[inode].content == content
  }

  lemma FillingSteps(before: Dir, d: Dir, name: string, inode: nat, content: seq<byte>, next: seq<byte>)
    requires |before.log| > 0 && Filling(before, d, name, inode, content)
    ensures inode in d.files && Making(before, d, name, inode)
    ensures Filling(before, Wrote(d, inode, next), name, inode, next)
    ensures Filling(before, Synced(d, inode), name, inode, content)
    ensures Synced(d, inode).files[inode] == File(content, true)
            && Live(Synced(d, inode)) == Live(before)[name := inode]
  {
  }

  datatype Fill = Filled | FillFailed | FillCancelled

  /** The chunk loop: the copied count ends at the size of the source. */
  method FillFile(dir: Directory, ghost before: Dir, name: string, inode: nat, source: seq<byte>, mayCancel: bool)
    returns (r: Fill, copied: nat)
    requires dir.Valid() && |before.log| > 0 && Filling(before, dir.State(), name, inode, [])
    modifies dir
    ensures dir.Valid() && old(dir.trace) <= dir.trace
    ensures AllMaking(before, dir.trace, |old(dir.trace)|, name, inode)
    ensures inode in dir.files && Filling(before, dir.State(), name, inode, dir.files[inode].content)
    ensures r.Filled? ==> copied == |source| && dir.files[inode].content == source
    ensures r.FillCancelled? ==> mayCancel
  {
    hide Making, Filling;
    copied := 0;
    FillingSteps(before, dir.State(), name, inode, [], []);
    FillingContent(before, dir.State(), name, inode, []);
    while copied < |source|
      invariant 0 <= copied <= |source| && dir.Valid() && old(dir.trace) <= dir.trace
      invariant AllMaking(before, dir.trace, |old(dir.trace)|, name, inode)
      invariant Filling(before, dir.State(), name, inode, source[..copied])
      invariant inode in dir.files && dir.files[inode].content == source[..copied]
    {
      var cancelled: bool := *;
      if mayCancel && cancelled {
        return FillCancelled, copied;
      }
      var next := Min(copied + CHUNK, |source|);
      ghost var was := dir.State();
      var ok, left := dir.Overwrite(inode, source[..next]);
      FillingSteps(before, was, name, inode, source[..copied], left);
      FillingSteps(before, dir.State(), name, inode, left, left);
      FillingContent(before, dir.State(), name, inode, left);
      if !ok {
        return FillFailed, copied;
      }
      copied := next;
    }
    var cancelled: bool := *;
    if mayCancel && cancelled {
      return FillCancelled, copied;
    }
    return Filled, copied;
  }

  lemma FillingContent(before: Dir, d: Dir, name: string, inode: nat, content: seq<byte>)
    requires |before.log| > 0 && Filling(before, d, name, inode, content)
    ensures inode in d.files && d.files[inode].content == content
  {
  }

  lemma CreatedIsFilling(before: Dir, name: string, inode: nat)
    requires |before.log| > 0 && name !in Live(before) && inode !in before.files
    ensures Filling(before, Created(before, name, inode), name, inode, [])
    ensures Making(before, Created(before, name, inode), name, inode)
  {
  }

  /** Copy `source` into a new file, in one step where the filesystem can share extents and otherwise in
      chunks, and sync it; remove what was made on any failure or cancellation. */
  method CopyFile(dir: Directory, name: string, source: seq<byte>, mayShare: bool, mayCancel: bool) returns (r: Copy)
    requires dir.Valid()
    modifies dir
    ensures dir.Valid() && old(dir.trace) <= dir.trace
    ensures r.NotStarted? ==> dir.State() == old(dir.State()) && dir.trace == old(dir.trace)
    ensures !r.NotStarted? ==>
              && |dir.trace| > |old(dir.trace)|
              && AllMaking(old(dir.State()), dir.trace, |old(dir.trace)|, name, r.inode)
              && Making(old(dir.State()), dir.State(), name, r.inode)
    ensures r.CopyCancelled? ==> mayCancel
    ensures r.Copied? ==>
              r.bytes == |source| && r.inode in dir.files && dir.files[r.inode] == File(source, true)
              && Live(dir.State()) == Live(old(dir.State()))[name := r.inode]
  {
    hide Making, Filling;
    ghost var before := dir.State();
    var handle := dir.Create(name);
    if handle.NotOpened? {
      return NotStarted;
    }
    var inode := handle.inode;
    CreatedIsFilling(before, name, inode);
    var copied := 0;
    var filled := Filled;
    var shared: bool := *;
    if mayShare && shared {
      ghost var was := dir.State();
      var ok, left := dir.Overwrite(inode, source);
      FillingSteps(before, was, name, inode, [], left);
      filled := if ok then Filled else FillFailed;
      copied := |source|;
    } else {
      filled, copied := FillFile(dir, before, name, inode, source, mayCancel);
    }
    var kept := Finish(dir, before, name, inode, filled.Filled?);
    return if kept then Copied(inode, copied)
           else if filled.FillCancelled? then CopyCancelled(inode)
           else CopyFailed(inode);
  }

  /** Sync the file and restore its mode and times, or give it up. */
  method Finish(dir: Directory, ghost before: Dir, name: string, inode: nat, filled: bool) returns (kept: bool)
    requires dir.Valid() && |before.log| > 0 && inode in dir.files && Filling(before, dir.State(), name, inode,
              dir.files[inode].content)
    modifies dir
    ensures dir.Valid() && old(dir.trace) <= dir.trace && Making(before, dir.State(), name, inode)
    ensures AllMaking(before, dir.trace, |old(dir.trace)|, name, inode)
    ensures kept ==> filled && inode in dir.files && dir.files[inode] == File(old(dir.files[inode].content), true)
    ensures kept ==> Live(dir.State()) == Live(before)[name := inode]
  {
    hide Making, Filling;
    ghost var content := dir.files[inode].content;
    FillingSteps(before, dir.State(), name, inode, content, content);
    if filled {
      var ok := dir.SyncFile(inode);
      var stamped: bool := *;
      FillingSteps(before, dir.State(), name, inode, content, content);
      if ok && stamped {
        return true;
      }
    }
    FillingContent(before, dir.State(), name, inode, content);
    Abandon(dir, before, name, inode);
    return false;
  }

  /** Give up a file that was made; the removal itself may fail. */
  method Abandon(dir: Directory, ghost before: Dir, name: string, inode: nat)
    requires dir.Valid() && |before.log| > 0 && inode in dir.files && Filling(before, dir.State(), name, inode,
              dir.files[inode].content)
    modifies dir
    ensures dir.Valid() && old(dir.trace) <= dir.trace && Making(before, dir.State(), name, inode)
    ensures AllMaking(before, dir.trace, |old(dir.trace)|, name, inode)
  {
    assert Live(before)[name := inode] - {name} == Live(before);
    var removed := dir.Unlink(name);
  }
}
