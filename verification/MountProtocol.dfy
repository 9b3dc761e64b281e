/** The mount daemon and the unmounting command as two processes: the command reports success only after
    a clean close, whatever the interleaving and wherever the daemon dies. */
module MountProtocol {

  /** Where the daemon is in its mounting call. */
  datatype Phase =
    | Outside | Holding | Announced | Serving | Leaving | Drained | Detached | Judged | Tidying | Closed | Finished

  /** `raised`: an exception is on its way out; `announced`: the call's own flag that it registered;
      `dirty`: inodes with unflushed writes; `validated` and `cleared`: that the final validation passed
      and that a clean close removed the manifest; `untidy`: that after removing it the close failed to
      sync the checkpoint directory or to remove the backups. */
  datatype Mount = Mount(
    phase: Phase, alive: bool, raised: bool, announced: bool, dirty: set<nat>, validated: bool, cleared: bool,
    untidy: bool, manifest: bool, registration: bool, mounted: bool)

  /** How far the unmounting command has got. */
  datatype Watch = Idle | Found | Waiting | Gone | Succeeded | Failed

  datatype State = State(mount: Mount, watch: Watch)

  datatype Ending = Unmounted | Interrupted | Crashed

  /** A step of the daemon, or of the kernel on its behalf. */
  datatype Move =
    | Open(ok: bool, leaves: bool)
    | Register(ok: bool, leaves: bool)
    | Init(ok: bool)
    | WriteTo(inode: nat)
    | Commit(inode: nat)
    | MainEnds(how: Ending)
    | Flush(ok: bool)
    | CloseFuse(ok: bool)
    | Judge(ok: bool)
    | Unlink(ok: bool)
    | Tidy(ok: bool)
    | Unregister(ok: bool)
    | Die
    | KernelUnmount

  /** A step of the unmounting command. */
  datatype Look = FindMount | Detach(ok: bool) | Poll | TimeOut | Inspect

  datatype Action = Daemon(move: Move) | Command(look: Look)

  predicate MayMove(a: Move, m: Mount) {
    match a
    case Open(ok, _) => m.alive && m.phase == Outside && (ok ==> !m.manifest)
    case Register(_, _) => m.alive && m.phase == Holding
    case Init(_) => m.alive && m.phase == Announced
    case WriteTo(_) => m.alive && m.phase == Serving && m.mounted
    case Commit(_) => m.alive && m.phase == Serving
    case MainEnds(how) => m.alive && m.phase == Serving && (how.Unmounted? ==> !m.mounted)
    case Flush(_) => m.alive && m.phase == Leaving
    case CloseFuse(_) => m.alive && m.phase == Drained
    case Judge(_) => m.alive && m.phase == Detached
    case Unlink(_) => m.alive && m.phase == Judged
    case Tidy(_) => m.alive && m.phase == Tidying
    case Unregister(_) => m.alive && m.phase == Closed
    case Die => m.alive
    case KernelUnmount => m.mounted
  }

  function Moved(a: Move, m: Mount): Mount {
    match a
    case Open(ok, leaves) =>
      if ok then m.(phase := Holding, manifest := true)
      else m.(phase := Finished, raised := true, manifest := m.manifest || leaves)
    case Register(ok, leaves) =>
      if ok then m.(phase := Announced, registration := true, announced := true)
      else m.(phase := Detached, raised := true, registration := m.registration || leaves)
    case Init(ok) => if ok then m.(phase := Serving, mounted := true) else m.(phase := Detached, raised := true)
    case WriteTo(i) => m.(dirty := m.dirty + {i})
    case Commit(i) => m.(dirty := m.dirty - {i})
    case MainEnds(how) => if how.Crashed? then m.(phase := Detached, raised := true) else m.(phase := Leaving)
    case Flush(ok) => if ok then m.(phase := Drained, dirty := {}) else m.(phase := Drained, raised := true)
    case CloseFuse(ok) => m.(phase := Detached, mounted := false, raised := m.raised || !ok)
    case Judge(ok) =>
      if m.raised then m.(phase := Closed)
      else if ok then m.(phase := Judged, validated := true)
      else m.(phase := Closed, raised := true)
    case Unlink(ok) => if ok then m.(phase := Tidying, manifest := false, cleared := true)
        else m.(phase := Closed, raised := true)
    case Tidy(ok) => m.(phase := Closed, raised := !ok, untidy := !ok)
    case Unregister(ok) => m.(phase := Finished, registration := m.registration && !(ok && m.announced))
    case Die => m.(alive := false)
    case KernelUnmount => m.(mounted := false)
  }

  /** A record counts only while its process runs. */
  predicate Registered(m: Mount) {
    m.registration && m.alive
  }

  predicate MayLook(a: Look, w: Watch) {
    match a
    case FindMount => w == Idle
    case Detach(_) => w == Found
    case Poll => w == Waiting
    case TimeOut => w == Waiting
    case Inspect => w == Gone
  }

  function Looked(a: Look, s: State): State {
    var m := s.mount;
    match a
    case FindMount => State(m, if m.mounted && Registered(m) then Found else Failed)
    case Detach(ok) => if ok then State(m.(mounted := false), Waiting) else State(m, Failed)
    case Poll => if Registered(m) then s else State(m.(registration := false), Gone)
    case TimeOut => if Registered(m) then State(m, Failed) else State(m.(registration := false), Gone)
    case Inspect => State(m, if m.manifest then Failed else Succeeded)
  }

  predicate Enabled(a: Action, s: State) {
    match a
    case Daemon(move) => MayMove(move, s.mount)
    case Command(look) => MayLook(look, s.watch)
  }

  function After(a: Action, s: State): State {
    match a
    case Daemon(move) => State(Moved(move, s.mount), s.watch)
    case Command(look) => Looked(look, s)
  }

  function Start(manifest: bool): State {
    State(Mount(Outside, true, false, false, {}, false, false, false, manifest, false, false), Idle)
  }

  predicate Possible(run: seq<Action>, s: State) {
    run == [] || (Enabled(run[0], s) && Possible(run[1..], After(run[0], s)))
  }

  function Final(run: seq<Action>, s: State): State {
    if run == [] then s else Final(run[1..], After(run[0], s))
  }

  // ---- what every interleaving keeps ------------------------------------------------------------------------

  predicate PastFinding(w: Watch) {
    w == Found || w == Waiting || w == Gone || w == Succeeded
  }

  /** Once the call is on its way out without an exception nothing is left to flush. */
  predicate DrainedWhenQuiet(m: Mount) {
    ((m.phase == Drained || m.phase == Detached) && !m.raised) || m.phase == Judged || m.cleared ==> m.dirty == {}
  }

  predicate MountInv(m: Mount) {
    && (m.mounted ==> m.announced)
    && (m.announced ==> m.phase != Outside && m.phase != Holding && (m.manifest <==> !m.cleared))
    && (m.phase == Holding ==> m.manifest)
    && (m.phase == Announced || m.phase == Serving || m.phase == Leaving ==> m.announced)
    && (m.phase == Drained || m.phase == Judged ==> m.announced)
    && (m.phase != Tidying && m.phase != Closed && m.phase != Finished ==> !m.cleared)
    && (m.phase == Judged ==> !m.raised)
    && (m.phase == Tidying ==> m.cleared && !m.raised && !m.untidy)
    && (m.phase == Closed || m.phase == Finished ==> (m.cleared <==> !m.raised || m.untidy) && (m.untidy ==> m.raised))
    && (m.phase != Closed && m.phase != Finished ==> !m.untidy)
    && (m.phase == Detached && !m.announced ==> m.raised)
    && (m.phase == Judged || m.cleared ==> m.validated)
    && (m.cleared ==> !m.manifest && m.announced)
    && DrainedWhenQuiet(m)
  }

  predicate Inv(s: State) {
    MountInv(s.mount) && (PastFinding(s.watch) ==> s.mount.announced) && (s.watch == Succeeded ==> s.mount.cleared)
  }

  lemma MoveKeepsInv(a: Move, m: Mount)
    requires MountInv(m) && MayMove(a, m)
    ensures MountInv(Moved(a, m))
    ensures m.announced ==> Moved(a, m).announced
    ensures m.cleared ==> Moved(a, m).cleared
  {
  }

  lemma StepKeepsInv(a: Action, s: State)
    requires Inv(s) && Enabled(a, s)
    ensures Inv(After(a, s))
  {
    if a.Daemon? {
      hide MountInv, MayMove, Moved;
      MoveKeepsInv(a.move, s.mount);
    }
  }

  /** Over every interleaving: success means that everything was flushed, that the final validation
      passed, and that it was a clean close that removed the manifest. */
  lemma {:induction false} SuccessMeansClean(run: seq<Action>, s: State)
    requires Inv(s) && Possible(run, s)
    ensures Inv(Final(run, s))
    ensures var f := Final(run, s);
            f.watch == Succeeded ==> f.mount.cleared && f.mount.validated && f.mount.dirty == {} && !f.mount.manifest
  {
    if run != [] {
      hide Inv, Enabled, After;
      StepKeepsInv(run[0], s);
      SuccessMeansClean(run[1..], After(run[0], s));
    }
  }

  lemma EveryRunFromStart(run: seq<Action>, manifest: bool)
    requires Possible(run, Start(manifest))
    ensures var f := Final(run, Start(manifest));
            f.watch == Succeeded ==> f.mount.cleared && f.mount.validated && f.mount.dirty == {} && !f.mount.manifest
  {
    SuccessMeansClean(run, Start(manifest));
  }

  /** At the last look the verdict is exact: success if and only if a clean close removed the manifest. */
  lemma VerdictIsExact(run: seq<Action>, manifest: bool)
    requires Possible(run, Start(manifest)) && Enabled(Command(Inspect), Final(run, Start(manifest)))
    ensures var f := Final(run, Start(manifest)); After(Command(Inspect), f).watch == Succeeded <==> f.mount.cleared
  {
    SuccessMeansClean(run, Start(manifest));
  }

  lemma {:induction false} FinalAppend(a: seq<Action>, b: seq<Action>, s: State)
    requires Possible(a, s) && Possible(b, Final(a, s))
    ensures Possible(a + b, s) && Final(a + b, s) == Final(b, Final(a, s))
  {
    hide Enabled, After;
    if a == [] {
      assert a + b == b;
    } else {
      assert (a + b)[0] == a[0] && (a + b)[1..] == a[1..] + b;
      FinalAppend(a[1..], b, After(a[0], s));
    }
  }

  lemma UnregisterKeeps(ok: bool, m: Mount)
    requires m.phase == Closed && m.alive
    ensures MayMove(Unregister(ok), m)
    ensures var n := Moved(Unregister(ok), m);
            n.phase == Finished && n.cleared == m.cleared && n.raised == m.raised && n.untidy == m.untidy
  {
  }

  lemma FinishedFacts(m: Mount)
    requires MountInv(m) && m.phase == Finished
    ensures m.cleared <==> !m.raised || m.untidy
    ensures m.untidy ==> m.raised
    ensures m.cleared ==> m.dirty == {} && m.validated && !m.manifest
    ensures !m.cleared && m.announced ==> m.manifest
  {
  }

  // ---- the two programs -----------------------------------------------------------------------------------------

  class System {
    var s: State
    ghost var begin: State
    ghost var run: seq<Action>

    ghost predicate Valid()
      reads this
    {
      Inv(begin) && Inv(s) && Possible(run, begin) && Final(run, begin) == s
    }

    constructor (manifest: bool)
      ensures Valid() && s == Start(manifest) && begin == s && run == []
    {
      s, begin, run := Start(manifest), Start(manifest), [];
    }

    method Do(a: Action)
      requires Valid() && Enabled(a, s)
      modifies this
      ensures Valid() && s == After(a, old(s)) && begin == old(begin)
    {
      hide Inv, After, Enabled;
      StepKeepsInv(a, s);
      FinalAppend(run, [a], begin);
      s := After(a, s);
      run := run + [a];
    }

    method DoMove(a: Move)
      requires Valid() && MayMove(a, s.mount)
      modifies this
      ensures Valid() && s.mount == Moved(a, old(s.mount)) && s.watch == old(s.watch) && begin == old(begin)
    {
      hide Inv, Possible, Final, Moved, MayMove;
      Do(Daemon(a));
    }

    /** The daemon, and nobody else, moves any number of steps. */
    method Interleave()
      requires Valid()
      modifies this
      ensures Valid() && s.watch == old(s.watch) && begin == old(begin)
    {
      hide Inv, Possible, Final, Moved;
      var steps: int := *;
      while steps > 0
        invariant Valid() && s.watch == old(s.watch) && begin == old(begin)
        decreases steps
      {
        var a: Move := *;
        if MayMove(a, s.mount) {
          DoMove(a);
        }
        steps := steps - 1;
      }
    }

    /** Poll until the record is gone or its process dead, or the deadline passes; look once more. */
    method WaitForShutdown(polls: nat) returns (down: bool)
      requires Valid() && s.watch == Waiting
      modifies this
      ensures Valid() && begin == old(begin)
      ensures s.watch == if down then Gone else Failed
    {
      hide Inv, Possible, Final;
      var left := polls;
      while left > 0
        invariant Valid() && s.watch == Waiting && begin == old(begin)
      {
        Do(Command(Poll));
        if s.watch == Gone {
          return true;
        }
        Interleave();
        left := left - 1;
      }
      Do(Command(TimeOut));
      return s.watch == Gone;
    }

    /** Unmount a writable mount while the daemon goes its own way. */
    method Unmount(polls: nat) returns (success: bool)
      requires Valid() && s.watch == Idle
      modifies this
      ensures Valid() && begin == old(begin)
      ensures success ==> s.mount.cleared && s.mount.validated && s.mount.dirty == {} && !s.mount.manifest
      ensures success <==> s.watch == Succeeded
    {
      hide Possible, Final, Moved, MayMove;
      Interleave();
      Do(Command(FindMount));
      if s.watch == Failed {
        return false;
      }
      Interleave();
      var detached: bool := *;
      Do(Command(Detach(detached)));
      if !detached {
        return false;
      }
      Interleave();
      var down := WaitForShutdown(polls);
      if !down {
        return false;
      }
      Interleave();
      Do(Command(Inspect));
      return s.watch == Succeeded;
    }

    /** The mounting call with nobody else about: whatever fails on the way, the image is closed before the
        record is removed. A clean close, after a complete flush and a passed validation, removed the
        manifest exactly when the call ends without an exception or only the tidying up failed. */
    method MountImage()
      requires Valid() && s == Start(s.mount.manifest)
      modifies this
      ensures Valid() && begin == old(begin) && s.mount.phase == Finished && s.watch == Idle
      ensures s.mount.cleared <==> !s.mount.raised || s.mount.untidy
      ensures s.mount.untidy ==> s.mount.raised
      ensures s.mount.cleared ==> s.mount.dirty == {} && s.mount.validated && !s.mount.manifest
      ensures !s.mount.cleared && s.mount.announced ==> s.mount.manifest
    {
      hide Possible, Final, Moved, MayMove, MountInv;
      TakeImage();
      if s.mount.phase == Finished {
        FinishedFacts(s.mount);
        return;
      }
      if s.mount.phase == Announced {
        Serve();
      }
      CloseImage();
      var ok: bool := *;
      UnregisterKeeps(ok, s.mount);
      DoMove(Unregister(ok));
      FinishedFacts(s.mount);
    }

    /** Open the image, which makes its checkpoint, and then register the mount. */
    method TakeImage()
      requires Valid() && s == Start(s.mount.manifest)
      modifies this
      ensures Valid() && begin == old(begin) && s.watch == Idle && !s.mount.cleared
      ensures s.mount.phase == Finished || s.mount.phase == Announced || s.mount.phase == Detached
      ensures s.mount.phase == Finished ==> s.mount.raised && !s.mount.announced
      ensures s.mount.phase != Finished ==> s.mount.alive && (s.mount.raised <==> s.mount.phase == Detached)
    {
      hide Possible, Final, Inv;
      var opens: bool, leaves: bool := *, *;
      DoMove(Open(opens && !s.mount.manifest, leaves));
      if s.mount.phase == Finished {
        return;
      }
      var ok: bool := *;
      DoMove(Register(ok, leaves));
    }

    /** Close the image: after an exception without validating, otherwise validating and then removing the
        manifest. */
    method CloseImage()
      requires Valid() && s.mount.phase == Detached && s.mount.alive && !s.mount.cleared
      modifies this
      ensures Valid() && begin == old(begin) && s.watch == old(s.watch) && s.mount.phase == Closed && s.mount.alive
    {
      hide Possible, Final, Inv;
      var ok: bool := *;
      DoMove(Judge(ok));
      if s.mount.phase == Judged {
        RemoveCheckpoint();
      }
    }

    /** Remove the manifest, then sync and remove the backups; the second half may fail on its own. */
    method RemoveCheckpoint()
      requires Valid() && s.mount.phase == Judged && s.mount.alive
      modifies this
      ensures Valid() && begin == old(begin) && s.watch == old(s.watch) && s.mount.phase == Closed && s.mount.alive
    {
      hide Possible, Final, Inv;
      var ok: bool := *;
      DoMove(Unlink(ok));
      if ok {
        ok := *;
        DoMove(Tidy(ok));
      }
    }

    /** Initialise, serve until the main loop ends, then flush and detach. */
    method Serve()
      requires Valid() && s.mount.phase == Announced && s.mount.alive && !s.mount.raised && !s.mount.cleared
      modifies this
      ensures Valid() && begin == old(begin) && s.watch == old(s.watch)
      ensures s.mount.phase == Detached && s.mount.alive && !s.mount.cleared
    {
      hide Possible, Final, Inv, Moved;
      RunLoop();
      if s.mount.phase == Leaving {
        Drain();
      }
    }

    method RunLoop()
      requires Valid() && s.mount.phase == Announced && s.mount.alive && !s.mount.cleared
      modifies this
      ensures Valid() && begin == old(begin) && s.watch == old(s.watch)
      ensures (s.mount.phase == Leaving || s.mount.phase == Detached) && s.mount.alive && !s.mount.cleared
    {
      hide Possible, Final, Inv;
      var ok: bool := *;
      DoMove(Init(ok));
      if ok {
        HandleRequests();
        EndLoop();
      }
    }

    method EndLoop()
      requires Valid() && s.mount.phase == Serving && s.mount.alive && !s.mount.cleared
      modifies this
      ensures Valid() && begin == old(begin) && s.watch == old(s.watch)
      ensures (s.mount.phase == Leaving || s.mount.phase == Detached) && s.mount.alive && !s.mount.cleared
    {
      hide Possible, Final, Inv;
      var how: Ending := *;
      if how.Unmounted? && s.mount.mounted {
        DoMove(KernelUnmount);
      }
      DoMove(MainEnds(how));
    }

    /** Flush what is pending and detach, detaching even if the flush raised. */
    method Drain()
      requires Valid() && s.mount.phase == Leaving && s.mount.alive && !s.mount.cleared
      modifies this
      ensures Valid() && begin == old(begin) && s.watch == old(s.watch)
      ensures s.mount.phase == Detached && s.mount.alive && !s.mount.cleared
    {
      hide Possible, Final, Inv;
      var ok: bool := *;
      DoMove(Flush(ok));
      ok := *;
      DoMove(CloseFuse(ok));
    }

    method HandleRequests()
      requires Valid() && s.mount.phase == Serving && s.mount.alive && !s.mount.cleared
      modifies this
      ensures Valid() && begin == old(begin) && s.watch == old(s.watch)
      ensures s.mount.phase == Serving && s.mount.alive && !s.mount.cleared
    {
      hide Possible, Final, Inv;
      var requests: int := *;
      while requests > 0
        invariant Valid() && begin == old(begin) && s.watch == old(s.watch)
        invariant s.mount.phase == Serving && s.mount.alive && !s.mount.cleared
        decreases requests
      {
        var inode: int, write: bool := *, *;
        if inode >= 0 {
          DoMove(if write && s.mount.mounted then WriteTo(inode) else Commit(inode));
        }
        requests := requests - 1;
      }
    }
  }
}
