/** Durable replacement of one private text file: whatever happens, and whenever power is lost, its
    name holds wholly the old text or wholly the new one. */
module SafePaths {
  import opened Transactions
  import opened DurableStore

  /** Only the file being written differs, and it holds a prefix of what it will hold. */
  ghost predicate Writing(before: Dir, d: Dir, inode: nat, content: seq<byte>) {
    inode in d.files && d.files[inode].content <= content && d == Wrote(before, inode, d.files[inode].content)
  }

  /** Write every byte, retrying interrupted calls and continuing after short ones. */
  method WriteAll(dir: Directory, inode: nat, content: seq<byte>) returns (ok: bool)
    requires dir.Valid() && inode in dir.files && dir.files[inode] == File([], false)
    modifies dir
    ensures dir.Valid() && old(dir.trace) <= dir.trace
    ensures Writing(old(dir.State()), dir.State(), inode, content)
    ensures ok ==> dir.files[inode].content == content
    ensures forall k :: |old(dir.trace)| <= k < |dir.trace| ==> Writing(old(dir.State()), dir.trace[k], inode, content)
  {
    var view := content;
    assert dir.State() == Wrote(dir.State(), inode, []);
    while view != []
      invariant dir.Valid() && old(dir.trace) <= dir.trace
      invariant Writing(old(dir.State()), dir.State(), inode, content) && dir.files[inode].content + view == content
      invariant forall k :: |old(dir.trace)| <= k < |dir.trace| ==>
                  Writing(old(dir.State()), dir.trace[k], inode, content)
      decreases |view|, dir.signals
    {
      var r := dir.Append(inode, view);
      if r.WriteFailed? {
        return false;
      }
      if r.Written? {
        assert dir.files[inode].content + view[r.count..] == content;
        if r.count <= 0 {
          return false;
        }
        view := view[r.count..];
      }
    }
    return true;
  }

  datatype Outcome = Replaced | Failed | UnsafeName

  function TemporaryName(name: string, token: string): string {
    "." + name + "." + token + ".tmp"
  }

  /** Every state the disk passes through while `name` is replaced by way of `temp`. */
  ghost predicate Stage(before: Dir, d: Dir, name: string, temp: string, inode: nat, content: seq<byte>)
    requires |before.log| > 0
  {
    var live := Live(before);
    && temp !in live && inode !in before.files
    && inode in d.files && d.files == before.files[inode := d.files[inode]]
    && (|| d.log == before.log + [live[temp := inode]]
        || d.log == before.log + [live[temp := inode], live]
        || (d.files[inode] == File(content, true)
            && (d.log == before.log + [live[temp := inode], live[name := inode]] || d.log == [live[name := inode]])))
  }

  ghost predicate Staged(before: Dir, trace: seq<Dir>, from: nat, name: string, temp: string, inode: nat,
      content: seq<byte>)
    requires |before.log| > 0
  {
    forall k :: from <= k < |trace| ==> Stage(before, trace[k], name, temp, inode, content)
  }

  /** The temporary has been made and nothing else has happened. */
  ghost predicate Temporary(before: Dir, d: Dir, temp: string, inode: nat)
    requires |before.log| > 0
  {
    && temp !in Live(before) && inode !in before.files
    && inode in d.files && d == Dir(before.log + [Live(before)[temp := inode]], before.files[inode := d.files[inode]])
  }

  datatype Handle = Ready(inode: nat) | Broken(inode: nat) | NotMade

  /** Create the temporary, write it, set its mode, sync it and close it. */
  method WriteTemporary(dir: Directory, temp: string, content: seq<byte>) returns (h: Handle)
    requires dir.Valid()
    modifies dir
    ensures dir.Valid() && old(dir.trace) <= dir.trace
    ensures h.NotMade? ==> dir.State() == old(dir.State()) && dir.trace == old(dir.trace)
    ensures !h.NotMade? ==>
              && |dir.trace| > |old(dir.trace)|
              && Temporary(old(dir.State()), dir.State(), temp, h.inode)
              && forall k :: |old(dir.trace)| <= k < |dir.trace| ==>
                   Temporary(old(dir.State()), dir.trace[k], temp, h.inode)
    ensures h.Ready? ==> dir.files[h.inode] == File(content, true)
  {
    ghost var before := dir.State();
    var handle := dir.Create(temp);
    if handle.NotOpened? {
      return NotMade;
    }
    var inode := handle.inode;
    ghost var made := dir.State();
    var ok := WriteAll(dir, inode, content);
    forall k | |old(dir.trace)| <= k < |dir.trace|
      ensures Temporary(before, dir.trace[k], temp, inode)
    {
      assert k == |old(dir.trace)| ==> dir.trace[k] == made;
      WritingIsTemporary(before, made, dir.trace[k], temp, inode, content);
    }
    if ok {
      ok := *;
    }
    if ok {
      ok := dir.SyncFile(inode);
    }
    if !ok {
      return Broken(inode);
    }
    var closed: bool := *;
    return if closed then Ready(inode) else Broken(inode);
  }

  lemma WritingIsTemporary(before: Dir, made: Dir, d: Dir, temp: string, inode: nat, content: seq<byte>)
    requires |before.log| > 0 && temp !in Live(before) && inode !in before.files
    requires made == Created(before, temp, inode) && (d == made || Writing(made, d, inode, content))
    ensures Temporary(before, d, temp, inode)
  {
  }

  /** Write a temporary file, sync it, rename it over the name, sync the directory; on any failure
      before the rename, remove the temporary. */
  method AtomicWrite(dir: Directory, name: string, token: string, content: seq<byte>)
    returns (r: Outcome, ghost inode: nat)
    requires dir.Valid()
    modifies dir
    ensures dir.Valid() && old(dir.trace) <= dir.trace
    ensures r.UnsafeName? <==> name == "" || name == "." || name == ".."
    ensures Staged(old(dir.State()), dir.trace, |old(dir.trace)|, name, TemporaryName(name, token), inode, content)
    ensures |dir.trace| == |old(dir.trace)| ==> dir.State() == old(dir.State()) && !r.Replaced?
    ensures r.Replaced? ==>
              && inode !in old(dir.files)
              && dir.State() == Dir([Live(old(dir.State()))[name := inode]],
                                    old(dir.files)[inode := File(content, true)])
  {
    hide Stage, Temporary;
    inode := 0;
    ghost var before := dir.State();
    if name == "" || name == "." || name == ".." {
      return UnsafeName, inode;
    }
    var temp := TemporaryName(name, token);
    var h := WriteTemporary(dir, temp, content);
    if h.NotMade? {
      return Failed, inode;
    }
    inode := h.inode;
    forall k | |old(dir.trace)| <= k < |dir.trace|
      ensures Stage(before, dir.trace[k], name, temp, inode, content)
    {
      TemporaryIsStage(before, dir.trace[k], name, temp, inode, content);
    }
    ghost var ready := dir.State();
    Steps(before, ready, name, temp, inode, content);
    if h.Ready? {
      var ok := dir.Rename(temp, name);
      if ok {
        ok := dir.SyncDirectory();
        return if ok then Replaced else Failed, inode;
      }
    }
    var removed := dir.Unlink(temp);
    return Failed, inode;
  }

  lemma TemporaryIsStage(before: Dir, d: Dir, name: string, temp: string, inode: nat, content: seq<byte>)
    requires |before.log| > 0 && Temporary(before, d, temp, inode)
    ensures Stage(before, d, name, temp, inode, content)
  {
  }

  /** What renaming, syncing or giving up makes of a finished temporary. */
  lemma Steps(before: Dir, d: Dir, name: string, temp: string, inode: nat, content: seq<byte>)
    requires |before.log| > 0 && Temporary(before, d, temp, inode)
    ensures |d.log| > 0 && temp in Live(d) && inode !in before.files
    ensures Stage(before, Unlinked(d, temp), name, temp, inode, content)
    ensures inode in d.files && (d.files[inode] == File(content, true) ==>
              && Stage(before, Renamed(d, temp, name), name, temp, inode, content)
              && Stage(before, Settled(Renamed(d, temp, name)), name, temp, inode, content)
              && Settled(Renamed(d, temp, name)) == Dir([Live(before)[name := inode]],
                  before.files[inode := File(content, true)]))
  {
    assert Live(d) - {temp} == Live(before);
    assert before.log + [Live(before)[temp := inode]] + [Live(before)] == before.log + [Live(before)[temp := inode],
        Live(before)];
    assert before.log + [Live(before)[temp := inode]] + [Live(before)[name := inode]]
        == before.log + [Live(before)[temp := inode], Live(before)[name := inode]];
  }

  /** What the name may hold before: nothing, or a text already on disk. */
  datatype Text = NoText | Text(content: seq<byte>)

  ghost predicate Named(d: Dir, v: View, name: string, text: Text) {
    if text.NoText? then name !in v else Holds(d, v, name, text.content)
  }

  /** Power lost at any point of the replacement, successful or not: wholly the old text or wholly the
      new one, and no other name but the temporary is disturbed. */
  lemma OldOrNew(before: Dir, d: Dir, e: Dir, name: string, token: string, inode: nat, content: seq<byte>, prior: Text)
    requires Sound(before) && forall k :: 0 <= k < |before.log| ==> Named(before, before.log[k], name, prior)
    requires Stage(before, d, name, TemporaryName(name, token), inode, content) && CrashOf(d, e)
    ensures Named(e, e.log[0], name, prior) || Named(e, e.log[0], name, Text(content))
    ensures exists k :: 0 <= k < |before.log| && e.log[0] - {name, TemporaryName(name,
              token)} == before.log[k] - {name, TemporaryName(name, token)}
  {
    var temp, live := TemporaryName(name, token), Live(before);
    assert temp != name by { assert |temp| > |name|; }
    hide TemporaryName;
    var k :| 0 <= k < |d.log| && d.log[k] == e.log[0];
    if k < |before.log| && d.log != [live[name := inode]] {
      assert d.log[k] == before.log[k];
      assert Named(before, before.log[k], name, prior);
    } else {
      assert live == before.log[|before.log| - 1];
      assert Named(before, live, name, prior);
      assert live[temp := inode] - {name, temp} == live - {name, temp};
      assert live[name := inode] - {name, temp} == live - {name, temp};
    }
  }
}
