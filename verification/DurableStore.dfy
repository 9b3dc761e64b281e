/** One directory of a disk that can lose power: its entries persist in the order they were issued and
    are settled by a directory sync; a file's bytes are settled by a file sync. */
module DurableStore {
  import opened Transactions
  import Sets

  type View = map<string, nat>

  /** The bytes of one inode, and whether they have reached the disk. */
  datatype File = File(content: seq<byte>, synced: bool)

  /** `log` holds every state of the directory since its last sync, the present one last. */
  datatype Dir = Dir(log: seq<View>, files: map<nat, File>)

  ghost predicate Sound(d: Dir) {
    |d.log| > 0 && forall k, n :: 0 <= k < |d.log| && n in d.log[k] ==> d.log[k][n] in d.files
  }

  function Live(d: Dir): View
    requires |d.log| > 0
  {
    d.log[|d.log| - 1]
  }

  function Created(d: Dir, name: string, inode: nat): Dir
    requires |d.log| > 0
  {
    Dir(d.log + [Live(d)[name := inode]], d.files[inode := File([], false)])
  }

  function Wrote(d: Dir, inode: nat, content: seq<byte>): Dir {
    d.(files := d.files[inode := File(content, false)])
  }

  function Synced(d: Dir, inode: nat): Dir
    requires inode in d.files
  {
    d.(files := d.files[inode := d.files[inode].(synced := true)])
  }

  function Renamed(d: Dir, from: string, to: string): Dir
    requires |d.log| > 0 && from in Live(d)
  {
    d.(log := d.log + [(Live(d) - {from})[to := Live(d)[from]]])
  }

  function Unlinked(d: Dir, name: string): Dir
    requires |d.log| > 0
  {
    d.(log := d.log + [Live(d) - {name}])
  }

  function Settled(d: Dir): Dir
    requires |d.log| > 0
  {
    d.(log := [Live(d)])
  }

  /** Power is lost: some state since the last sync survives, with every synced file intact and any
      other file holding anything at all. */
  ghost predicate CrashOf(d: Dir, e: Dir) {
    && |e.log| == 1 && e.log[0] in d.log
    && e.files.Keys == d.files.Keys
    && forall i :: i in d.files ==> e.files[i].synced && (d.files[i].synced ==> e.files[i] == d.files[i])
  }

  /** In view `v`, `name` is a file whose bytes on disk are exactly `content`. */
  ghost predicate Holds(d: Dir, v: View, name: string, content: seq<byte>) {
    name in v && v[name] in d.files && d.files[v[name]] == File(content, true)
  }

  datatype Opened = Opened(inode: nat) | NotOpened

  datatype Written = Written(count: nat) | Interrupted | WriteFailed

  /** A directory being operated on. Any operation may fail; `signals` is how many system calls are still
      going to be interrupted. `trace` records every state the disk passes through. */
  class Directory {
    var log: seq<View>
    var files: map<nat, File>
    var signals: nat
    var trace: seq<Dir>

    function State(): Dir
      reads this
    {
      Dir(log, files)
    }

    ghost predicate Valid()
      reads this
    {
      Sound(State()) && trace != [] && trace[|trace| - 1] == State()
    }

    constructor (d: Dir, signals: nat)
      requires Sound(d)
      ensures Valid() && State() == d && trace == [d]
    {
      this.log, this.files, this.signals := d.log, d.files, signals;
      trace := [d];
    }

    /** Create a file that must not exist yet. */
    method Create(name: string) returns (r: Opened)
      requires Valid()
      modifies this
      ensures Valid()
      ensures r.NotOpened? ==> State() == old(State()) && trace == old(trace)
      ensures r.Opened? ==>
                name !in Live(old(State())) && r.inode !in old(files)
                && State() == Created(old(State()), name, r.inode) && trace == old(trace) + [State()]
    {
      var fails: bool := *;
      if fails || name in log[|log| - 1] {
        return NotOpened;
      }
      var inode := FreshInode(files);
      log := log + [log[|log| - 1][name := inode]];
      files := files[inode := File([], false)];
      trace := trace + [State()];
      return Opened(inode);
    }

    /** One write call: some of the piece may reach the end of the file. */
    method Append(inode: nat, piece: seq<byte>) returns (r: Written)
      requires Valid() && inode in files && !files[inode].synced
      modifies this
      ensures Valid() && signals <= old(signals)
      ensures !r.Written? ==> State() == old(State()) && trace == old(trace)
      ensures r.Interrupted? ==> signals < old(signals)
      ensures r.Written? ==>
                r.count <= |piece| && trace == old(trace) + [State()]
                && State() == Wrote(old(State()), inode, old(files[inode].content) + piece[..r.count])
    {
      var fails: bool, interrupted: bool := *, *;
      if fails {
        return WriteFailed;
      }
      if interrupted && signals > 0 {
        signals := signals - 1;
        return Interrupted;
      }
      var count: int := *;
      if !(0 <= count <= |piece|) {
        count := |piece|;
      }
      files := files[inode := File(files[inode].content + piece[..count], false)];
      trace := trace + [State()];
      return Written(count);
    }

    /** Replace a file's bytes through an open handle; a failure leaves some bytes there. */
    method Overwrite(inode: nat, content: seq<byte>) returns (ok: bool, ghost left: seq<byte>)
      requires Valid() && inode in files
      modifies this
      ensures Valid()
      ensures State() == Wrote(old(State()), inode, left) && trace == old(trace) + [State()]
      ensures ok ==> left == content
    {
      ok := *;
      var bytes: seq<byte> := *;
      if ok {
        bytes := content;
      }
      left := bytes;
      files := files[inode := File(bytes, false)];
      trace := trace + [State()];
    }

    method SyncFile(inode: nat) returns (ok: bool)
      requires Valid() && inode in files
      modifies this
      ensures Valid()
      ensures ok ==> State() == Synced(old(State()), inode) && trace == old(trace) + [State()]
      ensures !ok ==> State() == old(State()) && trace == old(trace)
    {
      ok := *;
      if ok {
        files := files[inode := files[inode].(synced := true)];
        trace := trace + [State()];
      }
    }

    method Rename(from: string, to: string) returns (ok: bool)
      requires Valid()
      modifies this
      ensures Valid()
      ensures ok ==> from in Live(old(State())) && State() == Renamed(old(State()), from, to)
      ensures ok ==> trace == old(trace) + [State()]
      ensures !ok ==> State() == old(State()) && trace == old(trace)
    {
      var fails: bool := *;
      var live := log[|log| - 1];
      if fails || from !in live {
        return false;
      }
      log := log + [(live - {from})[to := live[from]]];
      trace := trace + [State()];
      return true;
    }

    /** Remove a name; a missing one is no error. */
    method Unlink(name: string) returns (ok: bool)
      requires Valid()
      modifies this
      ensures Valid()
      ensures name !in Live(old(State())) ==> ok
      ensures ok && name in Live(old(State())) ==>
                State() == Unlinked(old(State()), name) && trace == old(trace) + [State()]
      ensures !ok || name !in Live(old(State())) ==> State() == old(State()) && trace == old(trace)
    {
      var live := log[|log| - 1];
      if name !in live {
        return true;
      }
      ok := *;
      if ok {
        log := log + [live - {name}];
        trace := trace + [State()];
      }
    }

    method SyncDirectory() returns (ok: bool)
      requires Valid()
      modifies this
      ensures Valid()
      ensures ok ==> State() == Settled(old(State())) && trace == old(trace) + [State()]
      ensures !ok ==> State() == old(State()) && trace == old(trace)
    {
      ok := *;
      if ok {
        log := [log[|log| - 1]];
        trace := trace + [State()];
      }
    }
  }

  /** Any way of losing power. */
  method LosePower(d: Dir) returns (e: Dir)
    requires Sound(d)
    ensures CrashOf(d, e)
  {
    var k: int := *;
    if !(0 <= k < |d.log|) {
      k := |d.log| - 1;
    }
    var left: map<nat, seq<byte>> := *;
    e := Dir([d.log[k]],
             map i | i in d.files ::
                 if d.files[i].synced then d.files[i] else File(if i in left then left[i] else [], true));
  }

  /** An inode number no file has. */
  method FreshInode(files: map<nat, File>) returns (inode: nat)
    ensures inode !in files
  {
    inode := 0;
    var below: set<nat> := {};
    while inode in files
      invariant below <= files.Keys
      invariant forall j :: j in below <==> 0 <= j < inode
      decreases |files.Keys| - |below|
    {
      assert |below + {inode}| == |below| + 1;
      Smaller(below + {inode}, files.Keys);
      below := below + {inode};
      inode := inode + 1;
    }
  }

  lemma {:induction false} Smaller(a: set<nat>, b: set<nat>)
    requires a <= b
    ensures |a| <= |b|
    decreases a
  {
    Sets.EmptyOrInhabited(a);
    if a != {} {
      var x :| x in a;
      Smaller(a - {x}, b - {x});
    }
  }
}
