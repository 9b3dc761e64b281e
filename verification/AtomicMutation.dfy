/** Guarded mutations of a writable session: commit, verified rollback, or the failure latch. */
module AtomicMutation {
  import opened Transactions

  /** The exception classes the two guards tell apart.  `Domain` errors are handed to the caller,
      `Other` exceptions latch the session, and an `Interrupt` (an exception outside the ordinary
      exception class, such as a keyboard interrupt) is caught by neither guard. */
  datatype Kind = Domain | Other | Interrupt

  /** Old-map images keep sector before-images; every other format keeps a whole-file copy. */
  datatype Adapter = Sectors | WholeFile

  /** `AtPreflight`: the preparation of a replacement could not read the allocation, which latches the
      session whatever was raised, and then goes on as an ordinary exception. */
  datatype Stop =
    | NoFault
    | AtConstruction(kind: Kind)
    | AtPreflight
    | InScript(done: nat, kind: Kind)
    | AfterScript(kind: Kind)
    | AtComplete(kind: Kind, backupGone: bool)
    | AtCommit(kind: Kind)

  datatype Rollback =
    | RollbackFine
    | RollbackFails(restored: nat, kind: Kind)

  /** One attempted mutation: what it does, where it is stopped, what it would commit to the index and the
      cache, and what it leaves of them when the commit itself is stopped. */
  datatype Attempt<V> = Attempt(
    foreignChange: bool,
    free: set<nat>,
    script: seq<Action>,
    stop: Stop,
    rollback: Rollback,
    check0: byte,
    check1: byte,
    newView: V,
    tornView: V)

  /** `view` is the in-memory index and cache, `commits` the number of mutations whose
      image was committed. */
  datatype Session<V> = Session(adapter: Adapter, data: seq<byte>, view: V, failed: bool, commits: nat)

  datatype Outcome = Refused | Committed | RolledBack | Torn | Latched | Escaped

  // ---- one attempt, on values -------------------------------------------------------------------

  function Opening(adapter: Adapter, data: seq<byte>): Run {
    var r := Run(data, [], {});
    if adapter == Sectors then Perform(Capture(0, MAP_SECTORS), r) else r
  }

  ghost predicate Usable<V>(s: Session<V>) {
    |s.data| >= MAP_SECTORS * SECTOR_BYTES
  }

  lemma OpeningFits(adapter: Adapter, data: seq<byte>)
    ensures AllFit(Opening(adapter, data)) && |Opening(adapter, data).data| == |data|
  {
  }

  /** The bytes once the script and the cycle number are written. */
  ghost function Mutated<V>(s: Session<V>, a: Attempt<V>): (r: seq<byte>)
    requires Usable(s)
    ensures |r| == |s.data|
  {
    OpeningFits(s.adapter, s.data);
    PerformAllKeepsFit(a.script, Opening(s.adapter, s.data));
    var data := PerformAll(a.script, Opening(s.adapter, s.data)).data;
    if s.adapter == Sectors then Advanced(data, a.check0, a.check1) else data
  }

  /** How much of the script has run when the attempt stops: nothing yet at the preflight. */
  function Reached<V>(a: Attempt<V>): (n: nat)
    ensures n <= |a.script|
  {
    if a.stop.AtPreflight? then 0 else if a.stop.InScript? then Min(a.stop.done, |a.script|) else |a.script|
  }

  /** The transaction when a fault stops the attempt. */
  ghost function Stopped<V>(s: Session<V>, a: Attempt<V>): (r: Run)
    requires Usable(s)
    ensures |r.data| == |s.data|
  {
    var opening := Opening(s.adapter, s.data);
    if a.stop.InScript? || a.stop.AtPreflight? then
      OpeningFits(s.adapter, s.data);
      PerformAllKeepsFit(a.script[..Reached(a)], opening);
      PerformAll(a.script[..Reached(a)], opening)
    else PerformAll(a.script, opening).(data := Mutated(s, a))
  }

  ghost function Guarded<V>(s: Session<V>, kind: Kind): (Session<V>, Outcome) {
    match kind
    case Domain => (s, RolledBack)
    case Other => (s.(failed := true), Latched)
    case Interrupt => (s, Escaped)
  }

  /** Undo a stopped attempt, wholly or as far as the rollback gets. */
  ghost function Undone<V>(s: Session<V>, a: Attempt<V>, kind: Kind, backupGone: bool): (Session<V>, Outcome)
    requires Usable(s)
  {
    var r := Stopped(s, a);
    if kind == Interrupt then (s.(data := r.data), Escaped)
    else
      match a.rollback
      case RollbackFine =>
        if backupGone then (s.(data := r.data, failed := true), Latched)
        else (s.(data := if s.adapter == Sectors then Replay(r.images, r.data) else s.data), RolledBack)
      case RollbackFails(restored, again) =>
        var data := if s.adapter == Sectors then Replay(Last(r.images, restored), r.data)
                    else if backupGone || restored == 0 then r.data else s.data;
        if again == Interrupt then (s.(data := data), Escaped) else (s.(data := data, failed := true), Latched)
  }

  /** The image has committed; the commit of index and cache runs under the outer guard only. */
  ghost function CommittedTo<V>(s: Session<V>, a: Attempt<V>): (Session<V>, Outcome)
    requires Usable(s)
  {
    var image := s.(data := Mutated(s, a), commits := s.commits + 1);
    if !a.stop.AtCommit? then (image.(view := a.newView), Committed)
    else
      var torn := image.(view := a.tornView);
      match a.stop.kind
      case Domain => (torn, Torn)
      case Other => (torn.(failed := true), Latched)
      case Interrupt => (torn, Escaped)
  }

  ghost function Attempted<V>(s: Session<V>, a: Attempt<V>): (Session<V>, Outcome)
    requires Usable(s)
  {
    if s.failed then (s, Refused)
    else if a.foreignChange then (s.(failed := true), Latched)
    else
      match a.stop
      case AtConstruction(kind) => Guarded(s, kind)
      case AtPreflight => Undone(s.(failed := true), a, Other, false)
      case InScript(_, kind) => Undone(s, a, kind, false)
      case AfterScript(kind) => Undone(s, a, kind, false)
      case AtComplete(kind, gone) =>
        // Releasing sector before-images is a no-op and cannot be stopped.
        if s.adapter == WholeFile then Undone(s, a, kind, gone) else CommittedTo(s, a)
      case AtCommit(_) => CommittedTo(s, a)
      case NoFault => CommittedTo(s, a)
  }

  // ---- the contract a mutation is trusted with ---------------------------------------------------

  ghost predicate Trusted<V>(s: Session<V>, a: Attempt<V>) {
    && Usable(s)
    && 0 !in a.free && 1 !in a.free
    && (s.adapter == Sectors ==> Lawful(a.script, Opening(Sectors, s.data), a.free))
  }

  /** What the guards see of the fault that stops an attempt. */
  predicate Raises(stop: Stop, kind: Kind) {
    if stop.AtPreflight? then kind == Other else !stop.NoFault? && stop.kind == kind
  }

  predicate HasKind<V>(a: Attempt<V>, kind: Kind) {
    || Raises(a.stop, kind)
    || (a.rollback.RollbackFails? && a.rollback.kind == kind)
  }

  /** Image, index and cache changed together; or none of them did; or the session is latched. */
  ghost predicate Accounted<V>(s: Session<V>, a: Attempt<V>, s': Session<V>)
    requires Usable(s)
  {
    || (s' == s.(data := Mutated(s, a), view := a.newView, commits := s.commits + 1) && !s'.failed)
    || (SameOutside(a.free, s'.data, s.data) && s'.view == s.view && s'.commits == s.commits && s'.failed == s.failed)
    || s'.failed
  }

  lemma {:induction false} LawfulPrefix(script: seq<Action>, n: nat, r: Run, free: set<nat>)
    requires Lawful(script, r, free) && n <= |script|
    ensures Lawful(script[..n], r, free)
  {
    if n > 0 {
      LawfulPrefix(script[1..], n - 1, Perform(script[0], r), free);
      assert script[..n][1..] == script[1..][..n - 1];
    }
  }

  lemma CoveredChange(r: Run, data: seq<byte>, before: seq<byte>, free: set<nat>)
    requires Restorable(r, before, free) && |data| == |r.data|
    requires forall p: nat :: p < |data| && data[p] != r.data[p] ==> CoveredBy(r.images, p)
    ensures Restorable(r.(data := data), before, free)
  {
    forall p: nat | p < |before| && p / SECTOR_BYTES !in free
      ensures Earliest(r.images, data, p) == before[p]
    {
      EarliestUncovered(r.images, r.data, p);
      EarliestUncovered(r.images, data, p);
    }
  }

  /** The constructor's capture of the map sectors stays in force to the end. */
  ghost predicate MapCaptured(images: seq<BeforeImage>) {
    images != [] && images[0].offset == 0 && |images[0].data| == MAP_SECTORS * SECTOR_BYTES
  }

  lemma {:induction false} MapStaysCaptured(script: seq<Action>, r: Run)
    requires MapCaptured(r.images)
    ensures MapCaptured(PerformAll(script, r).images)
  {
    if script != [] {
      MapStaysCaptured(script[1..], Perform(script[0], r));
    }
  }

  lemma OpeningRestorable(data: seq<byte>, free: set<nat>)
    requires |data| >= MAP_SECTORS * SECTOR_BYTES
    ensures Restorable(Opening(Sectors, data), data, free) && MapCaptured(Opening(Sectors, data).images)
  {
  }

  lemma StoppedRestorable<V>(s: Session<V>, a: Attempt<V>)
    requires Trusted(s, a) && s.adapter == Sectors
    ensures Restorable(Stopped(s, a), s.data, a.free)
  {
    var opening := Opening(Sectors, s.data);
    OpeningRestorable(s.data, a.free);
    if a.stop.InScript? || a.stop.AtPreflight? {
      LawfulPrefix(a.script, Reached(a), opening, a.free);
      LawfulRunRestorable(a.script[..Reached(a)], opening, s.data, a.free);
    } else {
      LawfulRunRestorable(a.script, opening, s.data, a.free);
      MapStaysCaptured(a.script, opening);
      var r := PerformAll(a.script, opening);
      assert r.images[0].Covers(DISC_ID_OFFSET) && r.images[0].Covers(DISC_ID_OFFSET + 1)
          && r.images[0].Covers(0xFF) && r.images[0].Covers(0x1FF);
      CoveredChange(r, Mutated(s, a), s.data, a.free);
    }
  }

  lemma RollbackRestores<V>(s: Session<V>, a: Attempt<V>)
    requires Trusted(s, a) && s.adapter == Sectors
    ensures SameOutside(a.free, Replay(Stopped(s, a).images, Stopped(s, a).data), s.data)
  {
    StoppedRestorable(s, a);
    RestorableReplays(Stopped(s, a), s.data, a.free);
  }

  /** A fault is guarded if the guards around it undo it or latch: an interrupt never is, and while the
      index is being committed a domain error is not either. */
  predicate Unguarded<V>(a: Attempt<V>) {
    HasKind(a, Interrupt) || a.stop == AtCommit(Domain)
  }

  /** Wherever a guarded exception strikes, and whatever then happens to the rollback, the attempt is
      accounted for. */
  lemma EveryFaultAccounted<V>(s: Session<V>, a: Attempt<V>)
    requires Trusted(s, a) && !Unguarded(a)
    ensures Accounted(s, a, Attempted(s, a).0)
  {
    if s.adapter == Sectors {
      RollbackRestores(s, a);
    }
  }

  /** The bytes of an old-map image that the bookkeeping of a commit writes: two checksums and the cycle number. */
  const BOOKKEEPING: set<int> := {0xFF, 0x1FF, 0x1FB, 0x1FC}

  /** Whenever the image of an attempt is committed, even if the commit of the index is then torn, each byte is
      the last one the script wrote there, or as it was: on an old-map image outside the four bookkeeping
      bytes, of which the checksums are the refreshed ones, and everywhere on any other image. */
  lemma CommittedBytes<V>(s: Session<V>, a: Attempt<V>, p: nat)
    requires Usable(s) && p < |s.data|
    requires Attempted(s, a).1 == Committed || Attempted(s, a).1 == Torn || Attempted(s, a).0.commits > s.commits
    ensures var data := Attempted(s, a).0.data;
            && |data| == |s.data|
            && (s.adapter == WholeFile || p !in BOOKKEEPING ==>
                  && (forall k :: LastWrite(a.script, k, p) ==> data[p] == a.script[k].value)
                  && (Unwritten(a.script, p) ==> data[p] == s.data[p]))
            && (s.adapter == Sectors && p == 0xFF ==> data[p] == a.check0)
            && (s.adapter == Sectors && p == 0x1FF ==> data[p] == a.check1)
  {
    hide LastWrite, Unwritten, PerformAll, Stopped, Replay, Perform;
    OpeningFits(s.adapter, s.data);
    OpeningData(s.adapter, s.data);
    ScriptLeaves(a.script, Opening(s.adapter, s.data), p);
  }

  lemma OpeningData(adapter: Adapter, data: seq<byte>)
    ensures Opening(adapter, data).data == data
  {
  }

  /** The cycle number committed is the one the script left, and one more. */
  lemma CommittedDiscId<V>(s: Session<V>, a: Attempt<V>, low: byte, high: byte)
    requires Usable(s) && s.adapter == Sectors && Attempted(s, a).0.commits > s.commits
    requires (exists k :: LastWrite(a.script, k, 0x1FB) && a.script[k].value == low)
             || (Unwritten(a.script, 0x1FB) && s.data[0x1FB] == low)
    requires (exists k :: LastWrite(a.script, k, 0x1FC) && a.script[k].value == high)
             || (Unwritten(a.script, 0x1FC) && s.data[0x1FC] == high)
    ensures var data := Attempted(s, a).0.data;
            |data| == |s.data| && data[0x1FB] as int + 256 * data[0x1FC] as int == (low + 256 * high + 1) % 65536
  {
    hide PerformAll, Stopped, Replay, Perform;
    OpeningData(s.adapter, s.data);
    ScriptLeaves(a.script, Opening(Sectors, s.data), 0x1FB);
    ScriptLeaves(a.script, Opening(Sectors, s.data), 0x1FC);
  }

  /** When each outcome is reported, and what it says of the session besides its bytes. */
  lemma OutcomesMean<V>(s: Session<V>, a: Attempt<V>)
    requires Usable(s)
    ensures var (s', outcome) := Attempted(s, a);
            var open := !s.failed && !a.foreignChange;
            var atCommit := a.stop.NoFault? || a.stop.AtCommit? || (a.stop.AtComplete? && s.adapter == Sectors);
            var reached := open && atCommit;
            && (outcome == Refused <==> s.failed) && (s.failed ==> s' == s)
            && (outcome == Committed <==> reached && !a.stop.AtCommit?)
            && (outcome == Torn <==> reached && a.stop == AtCommit(Domain))
            && (reached <==> s'.commits == s.commits + 1) && (!reached ==> s'.commits == s.commits)
            && s'.view == (if !reached then s.view else if a.stop.AtCommit? then a.tornView else a.newView)
            && (outcome == Escaped ==> HasKind(a, Interrupt))
            && (outcome == Latched ==> s'.failed)
            && (s'.failed <==> s.failed || outcome == Latched || (open && a.stop.AtPreflight?))
            && (outcome == RolledBack && s.adapter == WholeFile ==> s'.data == s.data)
            && (!s.failed && a.foreignChange ==> outcome == Latched && s'.data == s.data)
  {
  }

  /** What becomes of an attempt stopped before its image is committed.  Before anything is captured the guard
      alone answers; afterwards an interrupt escapes, and anything else is rolled back, or latches if the
      rollback fails or the file it needs is gone. */
  lemma FaultsAnswer<V>(s: Session<V>, a: Attempt<V>, kind: Kind)
    requires Usable(s) && !s.failed && !a.foreignChange && Raises(a.stop, kind)
    ensures var (s', outcome) := Attempted(s, a);
            var undoing := a.stop.InScript? || a.stop.AfterScript? || a.stop.AtPreflight?
                           || (a.stop.AtComplete? && s.adapter == WholeFile);
            var gone := a.stop.AtComplete? && a.stop.backupGone;
            && (a.stop.AtConstruction? ==> s'.data == s.data && s'.view == s.view)
            && (a.stop.AtConstruction? ==>
                  outcome == if kind == Domain then RolledBack else if kind == Other then Latched else Escaped)
            && (undoing && kind == Interrupt ==> outcome == Escaped)
            && (undoing && kind != Interrupt && a.rollback.RollbackFine? ==>
                  outcome == if gone then Latched else RolledBack)
            && (undoing && kind != Interrupt && a.rollback.RollbackFails? ==>
                  outcome == if a.rollback.kind == Interrupt then Escaped else Latched)
  {
  }

  /** A preflight that fails latches the session for good; the attempt is rolled back all the same. */
  lemma PreflightLatches<V>(s: Session<V>, a: Attempt<V>)
    requires Trusted(s, a) && !s.failed && !a.foreignChange && a.stop.AtPreflight?
    ensures var (s', outcome) := Attempted(s, a);
            && s'.failed && s'.view == s.view && s'.commits == s.commits
            && (a.rollback.RollbackFine? ==> outcome == RolledBack && SameOutside(a.free, s'.data, s.data))
  {
    if s.adapter == Sectors {
      RollbackRestores(s, a);
    }
  }

  /** A container session: one byte is written and committed, then the commit of the index raises a domain
      error.  The image has changed, the index has not, and the session goes on accepting mutations. */
  lemma CommitEscapes() returns (s: Session<int>, a: Attempt<int>)
    ensures Trusted(s, a) && s.adapter == WholeFile && a.stop == AtCommit(Domain) && a.rollback.RollbackFine?
    ensures var (s', outcome) := Attempted(s, a);
            && outcome == Torn && !s'.failed && s'.commits == s.commits + 1
            && s'.data != s.data && s'.view == s.view && !Accounted(s, a, s')
  {
    var data: seq<byte> := seq(1024, _ => 0);
    s := Session(WholeFile, data, 0, false, 0);
    var script := [Action.Poke(600, 1)];
    a := Attempt(false, {}, script, AtCommit(Domain), RollbackFine, 0, 0, 1, 0);
    assert script[1..] == [];
    assert PerformAll(script, Opening(WholeFile, data)) == Perform(script[0], Opening(WholeFile, data));
    assert Mutated(s, a)[600] == 1 && s.data[600] == 0;
    assert 600 / SECTOR_BYTES == 2;
  }

  /** Stopped by an interrupt half-way, the attempt below leaves one byte changed with the session still
      accepting mutations. */
  lemma InterruptEscapes() returns (s: Session<int>, a: Attempt<int>)
    ensures Trusted(s, a) && HasKind(a, Interrupt) && !HasKind(a, Domain) && !HasKind(a, Other) && a.stop.InScript?
    ensures !Accounted(s, a, Attempted(s, a).0) && !Attempted(s, a).0.failed
  {
    var data: seq<byte> := seq(1024, _ => 0);
    s := Session(Sectors, data, 0, false, 0);
    var script := [Capture(2, 1), Action.Poke(512, 1)];
    a := Attempt(false, {}, script, InScript(2, Interrupt), RollbackFine, 0, 0, 1, 0);
    var r0 := Opening(Sectors, data);
    var r1 := Perform(script[0], r0);
    assert r1.images[|r1.images| - 1].Covers(512);
    assert Permitted(script[1], r1, {});
    assert Lawful(script[1..][1..], Perform(script[1], r1), {});
    assert Lawful(script[1..], r1, {});
    assert script[..2] == script && script[1..][1..] == [];
    assert PerformAll(script[1..], r1) == Perform(script[1], r1);
    assert PerformAll(script, r0) == Perform(script[1], r1);
    var s' := Attempted(s, a).0;
    assert s'.data[512] == 1 && s.data[512] == 0;
  }

  /** Every fault of the attempt is of one kind, and strikes inside or outside the commit. */
  predicate FaultsAre<V>(a: Attempt<V>, kind: Kind, inCommit: bool) {
    (forall k :: HasKind(a, k) ==> k == kind) && a.stop.AtCommit? == inCommit
  }

  /** So the guards hold exactly for the exceptions they catch: all but interrupts before the commit, and
      inside it only those that latch. */
  lemma AccountedExactlyWhereGuarded(kind: Kind, inCommit: bool)
    ensures (forall s: Session<int>, a: Attempt<int> :: Trusted(s, a) && FaultsAre(a, kind, inCommit) ==>
              Accounted(s, a, Attempted(s, a).0))
            <==> kind == Other || (kind == Domain && !inCommit)
  {
    if kind == Other || (kind == Domain && !inCommit) {
      forall s: Session<int>, a: Attempt<int> | Trusted(s, a) && FaultsAre(a, kind, inCommit)
        ensures Accounted(s, a, Attempted(s, a).0)
      {
        assert HasKind(a, Interrupt) ==> Interrupt == kind;
        assert HasKind(a, Domain) ==> Domain == kind;
        EveryFaultAccounted(s, a);
      }
    } else if kind == Domain {
      var s, a := CommitEscapes();
      assert FaultsAre(a, kind, inCommit);
    } else if inCommit {
      var s, a := CommitEscapes();
      var b := a.(stop := AtCommit(Interrupt));
      assert Attempted(s, b).0 == Attempted(s, a).0;
      assert Trusted(s, b) && FaultsAre(b, kind, inCommit) && !Accounted(s, b, Attempted(s, b).0);
    } else {
      var s, a := InterruptEscapes();
      assert FaultsAre(a, kind, inCommit);
    }
  }

  // ---- whole runs ------------------------------------------------------------------------------------

  lemma AttemptKeepsLength<V>(s: Session<V>, a: Attempt<V>)
    requires Usable(s)
    ensures |Attempted(s, a).0.data| == |s.data| && Attempted(s, a).0.adapter == s.adapter
  {
  }

  ghost function AfterRun<V>(s: Session<V>, attempts: seq<Attempt<V>>): Session<V>
    requires Usable(s)
    decreases |attempts|
  {
    if attempts == [] then s
    else
      AttemptKeepsLength(s, attempts[0]);
      AfterRun(Attempted(s, attempts[0]).0, attempts[1..])
  }

  /** The latch is permanent: after it, no attempt changes anything at all. */
  lemma {:induction false} LatchIsForever<V>(s: Session<V>, attempts: seq<Attempt<V>>)
    requires Usable(s) && s.failed
    ensures AfterRun(s, attempts) == s
  {
    if attempts != [] {
      LatchIsForever(s, attempts[1..]);
    }
  }

  lemma {:induction false} LatchNeverClears<V>(s: Session<V>, attempts: seq<Attempt<V>>)
    requires Usable(s) && !AfterRun(s, attempts).failed
    ensures !s.failed
  {
    if s.failed {
      LatchIsForever(s, attempts);
    }
  }

  ghost predicate SameDiscId(a: seq<byte>, b: seq<byte>) {
    && |a| == |b| && |a| >= MAP_SECTORS * SECTOR_BYTES
    && a[DISC_ID_OFFSET] == b[DISC_ID_OFFSET] && a[DISC_ID_OFFSET + 1] == b[DISC_ID_OFFSET + 1]
  }

  /** The library's own writes, taken together, leave the cycle number as it was. */
  ghost predicate KeepsDiscId<V>(s: Session<V>, a: Attempt<V>)
    requires Usable(s)
  {
    SameDiscId(PerformAll(a.script, Opening(s.adapter, s.data)).data, s.data)
  }

  /** Every attempt keeps the contract, and the cycle number, at the moment it is made. */
  ghost predicate NumberedRun<V>(s: Session<V>, attempts: seq<Attempt<V>>)
    requires Usable(s)
    decreases |attempts|
  {
    attempts == [] ||
    (AttemptKeepsLength(s, attempts[0]);
     Trusted(s, attempts[0]) && KeepsDiscId(s, attempts[0]) && !HasKind(attempts[0], Interrupt)
     && NumberedRun(Attempted(s, attempts[0]).0, attempts[1..]))
  }

  /** An attempt that leaves the session unlatched either committed the image or restored it. */
  lemma CommittedOrRestored<V>(s: Session<V>, a: Attempt<V>)
    requires Trusted(s, a) && s.adapter == Sectors && !HasKind(a, Interrupt) && !Attempted(s, a).0.failed
    ensures var s' := Attempted(s, a).0;
            || (s'.commits == s.commits + 1 && s'.data == Mutated(s, a))
            || (s'.commits == s.commits && SameOutside(a.free, s'.data, s.data))
  {
    hide Mutated, Stopped, Replay, PerformAll, SameOutside;
    RollbackRestores(s, a);
    SameOutsideItself(a.free, s.data);
  }

  lemma SameOutsideItself(free: set<nat>, data: seq<byte>)
    ensures SameOutside(free, data, data)
  {
  }

  lemma MutatedAdvances<V>(s: Session<V>, a: Attempt<V>)
    requires Usable(s) && KeepsDiscId(s, a) && s.adapter == Sectors
    ensures DiscId(Mutated(s, a)) == (DiscId(s.data) + 1) % 65536
  {
    hide PerformAll, Opening;
  }

  lemma SameOutsideKeepsDiscId(free: set<nat>, a: seq<byte>, b: seq<byte>)
    requires SameOutside(free, a, b) && 1 !in free && |b| >= MAP_SECTORS * SECTOR_BYTES
    ensures |a| == |b| && DiscId(a) == DiscId(b) == DiscId(b) % 65536
  {
    assert DISC_ID_OFFSET / SECTOR_BYTES == 1 && (DISC_ID_OFFSET + 1) / SECTOR_BYTES == 1;
  }

  lemma AttemptAndDiscId<V>(s: Session<V>, a: Attempt<V>)
    requires Trusted(s, a) && KeepsDiscId(s, a) && s.adapter == Sectors && !HasKind(a, Interrupt)
    ensures |Attempted(s, a).0.data| == |s.data|
    ensures var s' := Attempted(s, a).0; !s'.failed ==>
              DiscId(s'.data) == (DiscId(s.data) + (s'.commits - s.commits)) % 65536 && s'.commits >= s.commits
  {
    hide Attempted, Mutated, KeepsDiscId, SameOutside, DiscId;
    AttemptKeepsLength(s, a);
    var s' := Attempted(s, a).0;
    if !s'.failed {
      CommittedOrRestored(s, a);
      MutatedAdvances(s, a);
      if s'.commits == s.commits {
        SameOutsideKeepsDiscId(a.free, s'.data, s.data);
      }
    }
  }

  /** Unless the session has latched, the cycle number advanced by the number of committed images. */
  ghost predicate Counted<V>(s: Session<V>, e: Session<V>)
    requires Usable(s)
  {
    && |e.data| == |s.data|
    && (!e.failed ==>
          e.commits >= s.commits && DiscId(e.data) == (DiscId(s.data) + (e.commits - s.commits)) % 65536)
  }

  lemma CountedTwice<V>(s: Session<V>, next: Session<V>, e: Session<V>)
    requires Usable(s) && Counted(s, next) && Counted(next, e) && (next.failed ==> e.failed)
    ensures Counted(s, e)
  {
    hide DiscId;
    if !e.failed {
      ModAddition(DiscId(s.data), next.commits - s.commits, e.commits - next.commits);
    }
  }

  lemma ModAddition(a: int, m: int, n: int)
    ensures ((a + m) % 65536 + n) % 65536 == (a + m + n) % 65536
  {
  }

  /** Over any run of mutations and faults that leaves the session unlatched, the old-map cycle number
      has advanced by exactly the number of mutations whose image committed. */
  lemma {:induction false} DiscIdCountsCommits<V>(s: Session<V>, attempts: seq<Attempt<V>>)
    requires Usable(s) && s.adapter == Sectors && NumberedRun(s, attempts)
    ensures var e := AfterRun(s, attempts); |e.data| == |s.data| && (!e.failed ==>
              e.commits >= s.commits && DiscId(e.data) == (DiscId(s.data) + (e.commits - s.commits)) % 65536)
    decreases |attempts|
  {
    hide Attempted, Trusted, KeepsDiscId, HasKind, DiscId;
    if attempts == [] {
      NothingCounted(s);
    } else {
      var next := Attempted(s, attempts[0]).0;
      AttemptKeepsLength(s, attempts[0]);
      AttemptAndDiscId(s, attempts[0]);
      DiscIdCountsCommits(next, attempts[1..]);
      if next.failed {
        LatchIsForever(next, attempts[1..]);
      }
      CountedTwice(s, next, AfterRun(next, attempts[1..]));
    }
  }

  lemma NothingCounted<V>(s: Session<V>)
    requires Usable(s)
    ensures Counted(s, s)
  {
  }

  // ---- closing ------------------------------------------------------------------------------------------

  datatype Closing = Closing(clean: bool, synced: bool, validated: bool, exported: bool)

  /** The checkpoint is given up only by a clean close of an unlatched session whose last flush, final
      validation and container export all succeeded. */
  predicate GivesUpCheckpoint<V>(s: Session<V>, c: Closing) {
    c.clean && !s.failed && c.synced && c.validated && c.exported
  }

  /** A session that latched anywhere in a run keeps its checkpoint however it is closed. */
  lemma LatchedRunKeepsCheckpoint<V>(s: Session<V>, before: seq<Attempt<V>>, after: seq<Attempt<V>>, c: Closing)
    requires Usable(s) && Usable(AfterRun(s, before)) && AfterRun(s, before).failed
    ensures AfterRun(AfterRun(s, before), after) == AfterRun(s, before)
    ensures !GivesUpCheckpoint(AfterRun(AfterRun(s, before), after), c)
  {
  }

  // ---- the session object ---------------------------------------------------------------------------------

  class WritableImage<V> {
    const adapter: Adapter
    const mapping: array<byte>
    var view: V
    var failed: bool
    var closed: bool
    var checkpointPending: bool
    ghost var commits: nat

    ghost function Abstract(): Session<V>
      reads this, mapping
    {
      Session(adapter, mapping[..], view, failed, commits)
    }

    constructor (adapter: Adapter, mapping: array<byte>, view: V)
      ensures this.adapter == adapter && this.mapping == mapping
      ensures Abstract() == Session(adapter, old(mapping[..]), view, false, 0) && !closed && checkpointPending
    {
      this.adapter, this.mapping, this.view := adapter, mapping, view;
      failed, closed, checkpointPending, commits := false, false, true, 0;
    }

    /** The outer guard: domain errors pass, other exceptions latch, interrupts are not seen. */
    method Guard(kind: Kind) returns (outcome: Outcome)
      modifies this
      ensures (Abstract(), outcome) == Guarded(old(Abstract()), kind)
      ensures checkpointPending == old(checkpointPending) && closed == old(closed)
    {
      match kind
      case Domain => outcome := RolledBack;
      case Other =>
        failed := true;
        outcome := Latched;
      case Interrupt => outcome := Escaped;
    }

    /** One guarded mutation. */
    method RunAtomic(a: Attempt<V>) returns (outcome: Outcome)
      requires Usable(Abstract())
      modifies this, mapping
      ensures (Abstract(), outcome) == Attempted(old(Abstract()), a)
      ensures checkpointPending == old(checkpointPending) && closed == old(closed)
    {
      if failed {
        return Refused;
      }
      if a.foreignChange {
        failed := true;
        return Latched;
      }
      if a.stop.AtConstruction? {
        outcome := Guard(a.stop.kind);
        return;
      }
      if adapter == Sectors {
        outcome := RunOnSectors(a);
      } else {
        outcome := RunOnFile(a);
      }
    }

    /** The body of the guard over sector before-images. */
    method RunOnSectors(a: Attempt<V>) returns (outcome: Outcome)
      requires Usable(Abstract()) && adapter == Sectors && !failed && !a.foreignChange && !a.stop.AtConstruction?
      modifies this, mapping
      ensures (Abstract(), outcome) == Attempted(old(Abstract()), a)
      ensures checkpointPending == old(checkpointPending) && closed == old(closed)
    {
      ghost var s := Abstract();
      var transaction := new SectorTransaction(mapping);
      OpeningFits(Sectors, s.data);
      var count := Reached(a);
      assert a.script[..|a.script|] == a.script;
      PerformAllKeepsFit(a.script[..count], Opening(Sectors, s.data));
      transaction.Execute(a.script[..count]);
      if a.stop.AtPreflight? {
        failed := true;
        outcome := RollBackSectors(transaction, a, Other, s.(failed := true));
        return;
      }
      if a.stop.InScript? {
        assert transaction.State() == Stopped(s, a);
        outcome := RollBackSectors(transaction, a, a.stop.kind, s);
        return;
      }
      transaction.AdvanceDiscId(a.check0, a.check1);
      if a.stop.AfterScript? {
        assert transaction.State() == Stopped(s, a);
        outcome := RollBackSectors(transaction, a, a.stop.kind, s);
        return;
      }
      outcome := CommitView(a);
    }

    /** Commit index and cache, under the outer guard only. */
    method CommitView(a: Attempt<V>) returns (outcome: Outcome)
      requires Usable(Abstract())
      modifies this
      ensures Abstract() == old(Abstract()).(view := if a.stop.AtCommit? then a.tornView else a.newView,
                commits := old(commits) + 1, failed := old(failed) || (a.stop.AtCommit? && a.stop.kind == Other))
      ensures outcome == if !a.stop.AtCommit? then Committed
                         else match a.stop.kind case Domain => Torn case Other => Latched case Interrupt => Escaped
      ensures checkpointPending == old(checkpointPending) && closed == old(closed)
    {
      commits := commits + 1;
      if !a.stop.AtCommit? {
        view := a.newView;
        return Committed;
      }
      view := a.tornView;
      outcome := Guard(a.stop.kind);
      if a.stop.kind == Domain {
        outcome := Torn;
      }
    }

    method RollBackSectors(transaction: SectorTransaction, a: Attempt<V>, kind: Kind,
        ghost s: Session<V>) returns (outcome: Outcome)
      requires Usable(s) && s.adapter == Sectors && adapter == Sectors
      requires transaction.mapping == mapping && transaction.State() == Stopped(s, a) && AllFit(transaction.State())
      requires Abstract() == s.(data := Stopped(s, a).data)
      modifies this, mapping
      ensures (Abstract(), outcome) == Undone(s, a, kind, false)
      ensures checkpointPending == old(checkpointPending) && closed == old(closed)
    {
      hide Stopped, AllFit;
      if kind == Interrupt {
        return Escaped;
      }
      var limit := if a.rollback.RollbackFine? then |transaction.beforeImages| else a.rollback.restored;
      assert a.rollback.RollbackFine? ==> Last(transaction.beforeImages, limit) == transaction.beforeImages;
      transaction.Restore(limit);
      if a.rollback.RollbackFine? {
        return RolledBack;
      }
      if a.rollback.kind == Interrupt {
        return Escaped;
      }
      failed := true;
      outcome := Latched;
    }

    /** The body of the guard over a whole-file copy. */
    method RunOnFile(a: Attempt<V>) returns (outcome: Outcome)
      requires Usable(Abstract()) && adapter == WholeFile && !failed && !a.foreignChange && !a.stop.AtConstruction?
      modifies this, mapping
      ensures (Abstract(), outcome) == Attempted(old(Abstract()), a)
      ensures checkpointPending == old(checkpointPending) && closed == old(closed)
    {
      ghost var s := Abstract();
      var backup := mapping[..];
      OpeningFits(WholeFile, s.data);
      var count := Reached(a);
      assert a.script[..|a.script|] == a.script;
      PerformAllKeepsFit(a.script[..count], Opening(WholeFile, s.data));
      PokeAll(a.script[..count], Opening(WholeFile, s.data));
      if a.stop.NoFault? || a.stop.AtCommit? {
        outcome := CommitView(a);
        return;
      }
      if a.stop.AtPreflight? {
        failed := true;
      } else if a.stop.kind == Interrupt {
        return Escaped;
      }
      var backupGone := a.stop.AtComplete? && a.stop.backupGone;
      if !backupGone && (a.rollback.RollbackFine? || a.rollback.restored > 0) {
        var restored := RestoreFile(mapping, backup, 8 * 1024 * 1024);
        assert restored;
      }
      if !backupGone && a.rollback.RollbackFine? {
        return RolledBack;
      }
      if a.rollback.RollbackFails? && a.rollback.kind == Interrupt {
        return Escaped;
      }
      failed := true;
      outcome := Latched;
    }

    /** The writes of a script; sector captures mean nothing to a whole-file transaction. */
    method PokeAll(script: seq<Action>, ghost start: Run)
      requires start.data == mapping[..]
      modifies mapping
      ensures mapping[..] == PerformAll(script, start).data
    {
      ghost var r := start;
      for i := 0 to |script|
        invariant r.data == mapping[..] && PerformAll(script, start) == PerformAll(script[i..], r)
      {
        assert script[i..][0] == script[i] && script[i..][1..] == script[i + 1..];
        r := Perform(script[i], r);
        match script[i] {
          case Capture(_, _) =>
          case Poke(p, v) =>
            if p < mapping.Length {
              mapping[p] := v;
            }
        }
      }
    }

    /** Flush, validate, export and only then give up the checkpoint. */
    method Close(c: Closing)
      modifies this
      ensures closed && Abstract().data == old(Abstract()).data
      ensures old(closed) ==> checkpointPending == old(checkpointPending) && failed == old(failed)
      ensures !old(closed) ==>
                && checkpointPending == (old(checkpointPending) && !GivesUpCheckpoint(old(Abstract()), c))
                && (checkpointPending
                    <==> old(checkpointPending)
                         && !(c.clean && !old(failed) && c.synced && c.validated && c.exported))
                && (old(failed) ==> failed)
    {
      if closed {
        return;
      }
      if !c.synced || (c.clean && !c.validated) {
        failed := true;
      }
      if c.clean && !failed && !c.exported {
        failed := true;
      }
      closed := true;
      if c.clean && !failed {
        checkpointPending := false;
      }
    }
  }
}
