/** Runs of sessions and recoveries, each cut short at any instant by the process dying or power being
    lost; and exactly when accepting the present files is durable. */
module Lifetimes {
  import opened Transactions
  import opened DurableStore
  import opened Checkpoint
  import opened CheckpointSteps
  import opened SessionSteps
  import opened Sessions

  /** One life begins on the disk the last one left, as it was or after losing power. */
  ghost predicate Follows(last: Disk, next: Disk) {
    next == last || DiskCrash(last, next)
  }

  /** Lives laid end to end: `births` marks the states in which one begins, with the terms carried over; any
      other state is a step of the life it belongs to. */
  ghost predicate Consecutive(members: seq<Member>, a: Disk, ta: Terms, b: Disk, tb: Terms, birth: bool) {
    if birth then tb == ta && Follows(a, b) else Linked(members, a, ta, b, tb)
  }

  ghost predicate History(members: seq<Member>, disks: seq<Disk>, terms: seq<Terms>, births: seq<bool>) {
    && AllSafe(members, disks, terms) && |births| == |disks|
    && forall k :: 0 < k < |disks| ==> Consecutive(members, disks[k - 1], terms[k - 1], disks[k], terms[k], births[k])
  }

  function Count(births: seq<bool>): nat {
    if births == [] then 0 else Count(births[..|births| - 1]) + if births[|births| - 1] then 1 else 0
  }

  lemma {:induction false} CountAppend(a: seq<bool>, b: seq<bool>)
    ensures Count(a + b) == Count(a) + Count(b)
  {
    if b == [] {
      assert a + b == a;
    } else {
      assert (a + b)[..|a + b| - 1] == a + b[..|b| - 1];
      CountAppend(a, b[..|b| - 1]);
    }
  }

  /** The marks of one life: its first state and no other. */
  function Born(n: nat): seq<bool>
    requires n > 0
  {
    [true] + seq(n - 1, _ => false)
  }

  lemma {:induction false} BornOnce(n: nat)
    requires n > 0
    ensures Count(Born(n)) == 1
  {
    if n > 1 {
      assert Born(n)[..n - 1] == Born(n - 1);
      BornOnce(n - 1);
    } else {
      assert Born(1)[..0] == [];
    }
  }

  /** One more life, begun where the history ended. */
  lemma HistoryGrows(members: seq<Member>, disks: seq<Disk>, terms: seq<Terms>, births: seq<bool>, life: seq<Disk>,
      under: seq<Terms>)
    requires History(members, disks, terms, births)
    requires life != [] && AllSafe(members, life, under) && Orderly(members, life, under)
    requires disks != [] ==> Follows(disks[|disks| - 1], life[0])
                               && |terms| == |disks| && |under| > 0 && under[0] == terms[|disks| - 1]
    ensures History(members, disks + life, terms + under, births + Born(|life|))
    ensures Count(births + Born(|life|)) == Count(births) + 1
  {
    hide Safe, Follows, Linked;
    CountAppend(births, Born(|life|));
    BornOnce(|life|);
    var all, allTerms, marks := disks + life, terms + under, births + Born(|life|);
    forall k | 0 < k < |all|
      ensures Consecutive(members, all[k - 1], allTerms[k - 1], all[k], allTerms[k], marks[k])
    {
      if k >= |disks| {
        var j := k - |disks|;
        assert all[k] == life[j] && allTerms[k] == under[j] && marks[k] == Born(|life|)[j];
      }
    }
  }

  lemma CutIsSafe(members: seq<Member>, disks: seq<Disk>, terms: seq<Terms>, k: nat)
    requires AllSafe(members, disks, terms) && Orderly(members, disks, terms) && k < |disks|
    ensures k < |terms| && Safe(members, disks[k], terms[k].orig, terms[k].kept)
    ensures AllSafe(members, disks[..k + 1], terms[..k + 1]) && Orderly(members, disks[..k + 1], terms[..k + 1])
  {
  }

  // ---- what a ready manifest found after any history vouches for ---------------------------------------

  /** The latest state up to `k` in which no loss of power would have found a ready manifest. */
  ghost function LastUnadvertised(disks: seq<Disk>, k: int): int
    requires k < |disks|
  {
    if k < 0 || Unadvertised(disks[k].checkpoint) then k else LastUnadvertised(disks, k - 1)
  }

  /** The image files as they were before the session whose manifest may be found in state `k`: what
      readers saw when last no ready manifest could be found, or what the history began with. */
  ghost function PreSession(members: seq<Member>, disks: seq<Disk>, orig: Pair, k: nat): Pair
    requires k < |disks|
  {
    var j := LastUnadvertised(disks, k);
    if 0 <= j < |disks| then Contents(members, disks[j].images) else orig
  }

  lemma CrashAdvertisesNothing(members: seq<Member>, a: Disk, t: Terms, b: Disk)
    requires Safe(members, a, t.orig, t.kept) && Unadvertised(a.checkpoint) && Follows(a, b)
    ensures Unadvertised(b.checkpoint)
  {
  }

  /** The original files of any state are the pre-session ones. */
  lemma {:induction false} OriginalIsPreSession(members: seq<Member>, disks: seq<Disk>, terms: seq<Terms>,
      births: seq<bool>, k: nat)
    requires History(members, disks, terms, births) && k < |disks|
    ensures |terms| == |disks| && LastUnadvertised(disks, k) <= k
    ensures !Unadvertised(disks[k].checkpoint) ==> terms[k].orig == PreSession(members, disks, terms[0].orig, k)
  {
    hide Safe, Unadvertised, Contents, Quiet, Guarded, OnDisk;
    if k > 0 && !Unadvertised(disks[k].checkpoint) {
      OriginalIsPreSession(members, disks, terms, births, k - 1);
      assert Consecutive(members, disks[k - 1], terms[k - 1], disks[k], terms[k], births[k]);
      if Unadvertised(disks[k - 1].checkpoint) && births[k] {
        CrashAdvertisesNothing(members, disks[k - 1], terms[k - 1], disks[k]);
      }
    }
  }

  /** A loss of power may leave view `i`, and a ready manifest in it. */
  ghost predicate Advertised(d: Dir, i: int) {
    0 <= i < |d.log| && Guarding(d, d.log[i])
  }

  /** Whatever manifest a loss of power may find ready, its backups are the files as they were before
      its session. */
  ghost predicate BackupsArePreSession(members: seq<Member>, disks: seq<Disk>, orig: Pair) {
    forall k: nat, i :: k < |disks| && Advertised(disks[k].checkpoint, i) ==>
      Backed(members, disks[k].checkpoint, disks[k].checkpoint.log[i], PreSession(members, disks, orig, k))
  }

  lemma BackupsInHistory(members: seq<Member>, disks: seq<Disk>, terms: seq<Terms>, births: seq<bool>)
    requires History(members, disks, terms, births) && disks != []
    ensures |terms| == |disks| && BackupsArePreSession(members, disks, terms[0].orig)
  {
    hide PreSession, Backed;
    var orig := terms[0].orig;
    forall k: nat, i | k < |disks| && Advertised(disks[k].checkpoint, i)
      ensures Backed(members, disks[k].checkpoint, disks[k].checkpoint.log[i], PreSession(members, disks, orig, k))
    {
      OriginalIsPreSession(members, disks, terms, births, k);
      assert Safe(members, disks[k], terms[k].orig, terms[k].kept);
      assert Honest(members, disks[k].checkpoint, disks[k].checkpoint.log[i], terms[k].orig);
      assert CREATING[0] != READY[0];
    }
  }

  /** "The last state in which the manifest was not sure to be found" would not do: power lost while a
      clean close gives its checkpoint up may bring the manifest back, with the older files. */
  lemma InterruptedCloseRevives(members: seq<Member>, a: Disk, b: Disk)
    requires members == [Member("image.bin", "disc.ssd")]
    requires a.images == Dir([map["disc.ssd" := 0]], map[0 := File([8], true)]) == b.images
    requires var view := map[MANIFEST := 0, "image.bin" := 1];
             && a.checkpoint == Dir([view, view - {MANIFEST}], map[0 := File(READY, true), 1 := File([7], true)])
             && b.checkpoint == Dir([view], map[0 := File(READY, true), 1 := File([7], true)])
    ensures Safe(members, a, [[7]], Promised([[8]])) && !Guarded(a.checkpoint) && Reads(members, a.images, [[8]])
    ensures DiskCrash(a, b) && Guarded(b.checkpoint) && Backed(members, b.checkpoint, Live(b.checkpoint), [[7]])
  {
    var d, view := a.checkpoint, a.checkpoint.log[0];
    assert Holds(d, view, MANIFEST, READY) && Holds(d, view, "image.bin", [7]);
    assert Backed(members, d, view, [[7]]) && Honest(members, d, view, [[7]]);
    assert MANIFEST !in d.log[1] && !Guarding(d, d.log[1]);
    assert Holds(a.images, a.images.log[0], "disc.ssd", [8]) && Shows(members, a.images, a.images.log[0], [[8]]);
    assert b.checkpoint.log[0] == d.log[0] && CrashOf(a.checkpoint, b.checkpoint);
  }

  /** A session with any number of changes, closed or not. */
  method OneSession(w: World)
    requires w.Valid() && !w.active
    modifies w, w.ckpt, w.imgs
    ensures w.Valid() && old(w.disks) <= w.disks && old(w.terms) <= w.terms
  {
    hide AllSafe, Orderly, Guarded, ChangedOnly, Contents, Backed, OnDisk, TotalBytes;
    var first: string, second: string := *, *;
    var begun, copied := w.Create(first, second);
    if !begun.Begun? {
      return;
    }
    var changes: int := *;
    while changes > 0
      invariant w.Valid() && w.active && old(w.disks) <= w.disks && old(w.terms) <= w.terms
      decreases changes
    {
      var content: seq<byte> := *;
      var ok := w.Mutate(content);
      changes := changes - 1;
    }
    var closing: bool, clean: bool, valid: bool := *, *, *;
    if closing {
      var r := w.Close(clean, valid);
    }
  }

  /** What one process does: a session or a recovery. */
  method OneLife(w: World)
    requires w.Valid() && !w.active
    modifies w, w.ckpt, w.imgs
    ensures w.Valid() && old(w.disks) <= w.disks && old(w.terms) <= w.terms
  {
    hide AllSafe, Orderly, Guarded, ChangedOnly, Contents, OnDisk, Reads, Quiet;
    var recovering: bool, restore: bool, discard: bool := *, *, *;
    if recovering {
      var r := w.Recover(restore, discard);
    } else {
      OneSession(w);
    }
  }

  /** Any number of lives from a safe disk, each ending at any instant it passed through. Every instant of
      every one of them is safe; the image files change for a reader only while the ready manifest is sure
      to be found; and whatever manifest a loss of power may find ready, its backups are the files as they
      were before its session. */
  method Run(members: seq<Member>, start: Disk, ghost orig: Pair, ghost kept: Promise, count: nat)
    returns (disks: seq<Disk>, births: seq<bool>, ghost terms: seq<Terms>)
    requires Proper(members) && Safe(members, start, orig, kept)
    ensures History(members, disks, terms, births) && Count(births) == count
    ensures count > 0 ==> |disks| > 0 && |terms| > 0 && disks[0] == start && terms[0] == Terms(orig, kept)
    ensures BackupsArePreSession(members, disks, orig)
  {
    hide Safe, AllSafe, Orderly, DiskCrash, History, Follows, Guarded, BackupsArePreSession, Count, Born, Proper;
    disks, births, terms := [], [], [];
    NoHistory(members, orig);
    var disk := start;
    ghost var now := Terms(orig, kept);
    for i := 0 to count
      invariant History(members, disks, terms, births) && Count(births) == i && |disks| == |terms|
      invariant Safe(members, disk, now.orig, now.kept)
      invariant i == 0 ==> disks == [] && disk == start && now == Terms(orig, kept)
      invariant i > 0 ==> |disks| > 0 && disks[0] == start && terms[0] == Terms(orig, kept)
      invariant i > 0 ==> terms[|disks| - 1] == now && Follows(disks[|disks| - 1], disk)
    {
      var signals: int := *;
      var w := new World(members, disk, if signals < 0 then 0 else signals, now.orig, now.kept);
      OneLife(w);
      var cut: int := *;
      if !(0 <= cut < |w.disks|) {
        cut := |w.disks| - 1;
      }
      CutIsSafe(members, w.disks, w.terms, cut);
      HistoryGrows(members, disks, terms, births, w.disks[..cut + 1], w.terms[..cut + 1]);
      disks, terms, births := disks + w.disks[..cut + 1], terms + w.terms[..cut + 1], births + Born(cut + 1);
      now := w.terms[cut];
      disk := Fate(w.disks[cut], members, now);
    }
    if count > 0 {
      BackupsInHistory(members, disks, terms, births);
    }
  }

  /** What the next process finds: the disk as it was, or after a loss of power. */
  method Fate(last: Disk, ghost members: seq<Member>, ghost t: Terms) returns (disk: Disk)
    requires Safe(members, last, t.orig, t.kept)
    ensures Safe(members, disk, t.orig, t.kept) && Follows(last, disk)
  {
    disk := last;
    var power: bool := *;
    if power {
      SafeIsSound(members, last, t);
      var checkpoint := LosePower(last.checkpoint);
      var images := LosePower(last.images);
      disk := Disk(checkpoint, images);
      CrashIsSafe(members, last, disk, t.orig, t.kept);
    }
  }

  lemma NoHistory(members: seq<Member>, orig: Pair)
    ensures History(members, [], [], []) && Count([]) == 0 && BackupsArePreSession(members, [], orig)
  {
  }

  lemma SafeIsSound(members: seq<Member>, disk: Disk, t: Terms)
    requires Safe(members, disk, t.orig, t.kept)
    ensures Sound(disk.checkpoint) && Sound(disk.images)
  {
  }

  // ---- restoring again after a restore was cut short --------------------------------------------------

  /** At every instant of a restore that began with the checkpoint on disk: readers see other bytes than
      the original ones only while the checkpoint is sure to be found, and losing power leaves either the
      checkpoint with its backups or the original files. */
  lemma RestoreAtEveryInstant(members: seq<Member>, disk: Disk, orig: Pair, b: Disk)
    requires Safe(members, disk, orig, Promised(orig))
    ensures forall seen :: Reads(members, disk.images, seen) && seen != orig ==> Guarded(disk.checkpoint)
    ensures DiskCrash(disk, b) ==>
              && Safe(members, b, orig, Promised(orig))
              && ((Guarded(b.checkpoint) && Backed(members, b.checkpoint, Live(b.checkpoint), orig))
                  || (!Guarded(b.checkpoint) && OnDisk(members, b.images, orig) && Reads(members, b.images, orig)))
  {
    hide Guarded, OnDisk, Reads, Backed, DiskCrash;
    forall seen | Reads(members, disk.images, seen) && seen != orig
      ensures Guarded(disk.checkpoint)
    {
      MixedOnlyWhileGuarded(members, disk, orig, Promised(orig), seen);
    }
    if DiskCrash(disk, b) {
      CrashIsSafe(members, disk, b, orig, Promised(orig));
    }
  }

  /** Restores of a checkpoint that is on view are cut short any number of times, at any instant, by the
      process dying or by a loss of power. When one then completes, or finds the work done, the image files
      are exactly the pre-session ones. */
  method RestoreAgain(members: seq<Member>, start: Disk, ghost orig: Pair, interruptions: nat)
    returns (r: RecoverResult, after: Disk)
    requires Proper(members) && Safe(members, start, orig, Promised(orig))
    ensures |after.images.log| > 0 && |after.checkpoint.log| > 0
    ensures r.Restored? || r.NothingPending? || r.NotRestorable? ==> Reads(members, after.images, orig)
    ensures r.Restored? || r.NothingPending? ==> MANIFEST !in Live(after.checkpoint)
    ensures r.Restored? ==> OnDisk(members, after.images, orig)
  {
    hide AllSafe, Orderly, Guarded, OnDisk, Reads, Backed, DiskCrash, Quiet, Contents, Safe;
    var disk := start;
    for i := 0 to interruptions
      invariant Safe(members, disk, orig, Promised(orig))
    {
      var w := new World(members, disk, 0, orig, Promised(orig));
      var once := w.Recover(true, false);
      var cut: int := *;
      if !(0 <= cut < |w.disks|) {
        cut := |w.disks| - 1;
      }
      CutIsSafe(members, w.disks, w.terms, cut);
      assert w.terms[cut] == Terms(orig, Promised(orig));
      disk := Fate(w.disks[cut], members, w.terms[cut]);
    }
    UnreadyIsRestored(members, disk, orig);
    var last := new World(members, disk, 0, orig, Promised(orig));
    r := last.Recover(true, false);
    after := last.Now();
  }

  lemma UnreadyIsRestored(members: seq<Member>, disk: Disk, orig: Pair)
    requires Safe(members, disk, orig, Promised(orig))
    ensures |disk.checkpoint.log| > 0 && |disk.images.log| > 0
    ensures !Guarding(disk.checkpoint, Live(disk.checkpoint)) ==> Reads(members, disk.images, orig)
  {
    if !Guarding(disk.checkpoint, Live(disk.checkpoint)) {
      NotReadyIsUnguarded(disk.checkpoint);
      assert Shows(members, disk.images, disk.images.log[|disk.images.log| - 1], orig);
      assert forall k :: 0 <= k < |members| ==> Holds(disk.images, Live(disk.images), members[k].target, orig[k]);
    }
  }

  lemma NotReadyIsUnguarded(d: Dir)
    requires |d.log| > 0
    ensures Guarded(d) ==> MANIFEST in Live(d) && Guarding(d, Live(d))
  {
  }

  // ---- when accepting the present files is durable ------------------------------------------------------------

  /** Files a loss of power may leave, with byte 0 or byte 1 put where nothing was certain. */
  ghost function Lost(d: Dir, k: nat, filler: byte): Dir
    requires k < |d.log|
  {
    Dir([d.log[k]], map i | i in d.files :: if d.files[i].synced then d.files[i] else File([filler], true))
  }

  lemma LostIsCrash(d: Dir, k: nat, filler: byte)
    requires k < |d.log|
    ensures CrashOf(d, Lost(d, k, filler))
  {
  }

  lemma Unlike(d: Dir, k: nat, inode: nat)
    requires k < |d.log| && inode in d.files && Lost(d, k, 0).files[inode].content == Lost(d, k, 1).files[inode].content
    ensures d.files[inode].synced
  {
  }

  /** Discarding a checkpoint keeps the accepted bytes through every loss of power exactly when the image
      files had been synced in every state of their directory that may survive. */
  lemma DiscardIsDurableExactly(members: seq<Member>, images: Dir, p: Pair)
    requires Sound(images) && |p| == |members|
    ensures (forall e :: CrashOf(images, e) ==> Reads(members, e, p)) <==> OnDisk(members, images, p)
  {
    if OnDisk(members, images, p) {
      forall e | CrashOf(images, e)
        ensures Reads(members, e, p)
      {
        OnDiskAfterCrash(members, images, e, p);
      }
    }
    if forall e :: CrashOf(images, e) ==> Reads(members, e, p) {
      forall k | 0 <= k < |images.log|
        ensures Shows(members, images, images.log[k], p)
      {
        LostIsCrash(images, k, 0);
        LostIsCrash(images, k, 1);
        forall m | 0 <= m < |members|
          ensures Holds(images, images.log[k], members[m].target, p[m])
        {
          var zero, one := Lost(images, k, 0), Lost(images, k, 1);
          assert Reads(members, zero, p) && Reads(members, one, p);
          var inode := images.log[k][members[m].target];
          assert zero.files[inode].content == p[m] == one.files[inode].content;
          Unlike(images, k, inode);
        }
      }
    }
  }

  ghost predicate Accepting(members: seq<Member>, disk: Disk, orig: Pair, accepted: Pair) {
    && Proper(members) && Safe(members, disk, orig, Promised(orig)) && Guarded(disk.checkpoint)
    && Reads(members, disk.images, accepted)
  }

  /** A session changed its file and died before flushing it. */
  lemma Unflushed(members: seq<Member>, checkpoint: Dir, images: Dir)
    requires members == [Member("image.bin", "disc.ssd")]
    requires checkpoint == Dir([map[MANIFEST := 0, "image.bin" := 1]],
                               map[0 := File(READY, true), 1 := File([7], true)])
    requires images == Dir([map["disc.ssd" := 0]], map[0 := File([8], false)])
    ensures Accepting(members, Disk(checkpoint, images), [[7]], [[8]])
  {
  }

  /** Nothing of the checkpoint is left, and the image files hold neither version. */
  ghost predicate BothVersionsLost(members: seq<Member>, disk: Disk, orig: Pair, accepted: Pair) {
    && |disk.checkpoint.log| > 0 && MANIFEST !in Live(disk.checkpoint)
    && (forall m :: m in members ==> m.backup !in Live(disk.checkpoint))
    && !Reads(members, disk.images, orig) && !Reads(members, disk.images, accepted)
  }

  /** Discard the checkpoint of that session, then lose power: no manifest, no backup, and neither the old
      bytes nor the accepted ones. */
  method DiscardThenLose() returns (r: RecoverResult, after: Disk)
    ensures r.Discarded? ==>
              exists lost :: DiskCrash(after, lost)
                             && BothVersionsLost([Member("image.bin", "disc.ssd")], lost, [[7]], [[8]])
  {
    hide Accepting, Safe, BothVersionsLost, AllSafe, Orderly, DiskCrash;
    var members := [Member("image.bin", "disc.ssd")];
    var checkpoint := Dir([map[MANIFEST := 0, "image.bin" := 1]], map[0 := File(READY, true), 1 := File([7], true)]);
    var images := Dir([map["disc.ssd" := 0]], map[0 := File([8], false)]);
    ghost var orig: Pair := [[7]];
    Unflushed(members, checkpoint, images);
    AcceptingIsSafe(members, Disk(checkpoint, images), orig, [[8]]);
    var w := new World(members, Disk(checkpoint, images), 0, orig, Promised(orig));
    r := w.Recover(false, true);
    after := w.Now();
    if r.Discarded? {
      ghost var lost := DiscardMayLose(members, checkpoint, images);
    }
  }

  lemma AcceptingIsSafe(members: seq<Member>, disk: Disk, orig: Pair, accepted: Pair)
    requires Accepting(members, disk, orig, accepted)
    ensures Proper(members) && Safe(members, disk, orig, Promised(orig))
  {
  }

  /** The crash, on the disk every completed discard leaves. */
  lemma DiscardMayLose(members: seq<Member>, checkpoint: Dir, images: Dir) returns (lost: Disk)
    requires members == [Member("image.bin", "disc.ssd")]
    requires checkpoint == Dir([map[MANIFEST := 0, "image.bin" := 1]],
                               map[0 := File(READY, true), 1 := File([7], true)])
    requires images == Dir([map["disc.ssd" := 0]], map[0 := File([8], false)])
    ensures Accepting(members, Disk(checkpoint, images), [[7]], [[8]])
    ensures DiskCrash(Disk(Emptied(members, checkpoint), images), lost) && BothVersionsLost(members, lost, [[7]], [[8]])
  {
    hide Accepting, Reads;
    var emptied := Emptied(members, checkpoint);
    Unflushed(members, checkpoint, images);
    lost := Disk(Lost(emptied, 0, 0), Lost(images, 0, 0));
    LostIsCrash(emptied, 0, 0);
    LostIsCrash(images, 0, 0);
    ReadsLost(members, images, lost.images, [[7]]);
    ReadsLost(members, images, lost.images, [[8]]);
    assert members[0] in members && "image.bin" in Backups(members);
  }

  lemma ReadsLost(members: seq<Member>, images: Dir, after: Dir, p: Pair)
    requires members == [Member("image.bin", "disc.ssd")]
    requires images == Dir([map["disc.ssd" := 0]], map[0 := File([8], false)]) && after == Lost(images, 0, 0)
    requires |p| == 1 && |p[0]| == 1 && p[0][0] != 0
    ensures !Reads(members, after, p)
  {
  }
}
