/** The life of an image on disk: sessions that checkpoint it, change it and close, and recoveries that
    restore or accept it, every state of the disk on the way being recorded. */
module Sessions {
  import opened Transactions
  import opened DurableStore
  import opened SafePaths
  import opened Checkpoint
  import opened CheckpointSteps
  import opened Recovery
  import opened SessionSteps

  class World {
    const members: seq<Member>
    const ckpt: Directory
    const imgs: Directory
    var active: bool
    var disks: seq<Disk>
    ghost var terms: seq<Terms>
    ghost var orig: Pair
    ghost var kept: Promise
    /** The directory of the image as the active session found it. */
    ghost var began: Dir

    function Now(): Disk
      reads ckpt, imgs
    {
      Disk(ckpt.State(), imgs.State())
    }

    ghost predicate Recorded()
      reads this, ckpt, imgs
    {
      && ckpt != imgs && ckpt.Valid() && imgs.Valid() && Proper(members)
      && AllSafe(members, disks, terms) && Orderly(members, disks, terms)
      && disks != [] && disks[|disks| - 1] == Now() && terms[|terms| - 1] == Terms(orig, kept)
    }

    ghost predicate Valid()
      reads this, ckpt, imgs
    {
      && Recorded()
      && (active ==>
            Guarded(ckpt.State()) && ChangedOnly(members, began, imgs.State()) && orig == Contents(members, began))
    }

    constructor (members: seq<Member>, disk: Disk, signals: nat, ghost orig: Pair, ghost kept: Promise)
      requires Proper(members) && Safe(members, disk, orig, kept)
      ensures Valid() && !active && Now() == disk && this.members == members && fresh(ckpt) && fresh(imgs)
      ensures this.orig == orig && this.kept == kept && disks == [disk] && terms == [Terms(orig, kept)]
    {
      this.members := members;
      ckpt := new Directory(disk.checkpoint, signals);
      imgs := new Directory(disk.images, signals);
      active := false;
      disks := [disk];
      terms := [Terms(orig, kept)];
      this.orig, this.kept := orig, kept;
    }

    lemma NowIsSafe()
      requires Recorded()
      ensures Safe(members, Now(), orig, kept)
    {
    }

    /** Record where the checkpoint directory has been since `mark`. */
    method NoteCheckpoint(mark: nat)
      requires ckpt != imgs && ckpt.Valid() && imgs.Valid() && Proper(members)
      requires AllSafe(members, disks, terms) && Orderly(members, disks, terms) && disks != []
      requires 0 < mark <= |ckpt.trace| && disks[|disks| - 1] == Disk(ckpt.trace[mark - 1], imgs.State())
      requires terms[|terms| - 1] == Terms(orig, kept)
      requires forall k :: mark <= k < |ckpt.trace| ==> Safe(members, Disk(ckpt.trace[k], imgs.State()), orig, kept)
      requires orig == Contents(members, imgs.State())
               || forall k :: mark <= k < |ckpt.trace| && Unadvertised(ckpt.trace[k - 1]) ==>
                      Unadvertised(ckpt.trace[k])
      modifies this`disks, this`terms
      ensures Recorded() && old(disks) <= disks
      ensures Lengthened(old(terms), terms, orig, kept)
    {
      hide Safe, Guarded, Quiet, AllSafe, Orderly, Linked, Unadvertised, Contents;
      SameLength();
      var k := mark;
      while k < |ckpt.trace|
        invariant mark <= k <= |ckpt.trace|
        invariant AllSafe(members, disks, terms) && Orderly(members, disks, terms) && disks != [] && |disks| == |terms|
        invariant disks[|disks| - 1] == Disk(ckpt.trace[k - 1], imgs.State()) && terms[|terms| - 1] == Terms(orig, kept)
        invariant old(disks) <= disks && old(terms) <= terms
        invariant forall j :: |old(terms)| <= j < |terms| ==> terms[j] == Terms(orig, kept)
      {
        CheckpointLinked(members, Disk(ckpt.trace[k - 1], imgs.State()), ckpt.trace[k], Terms(orig, kept));
        Extended(members, disks, terms, Disk(ckpt.trace[k], imgs.State()), Terms(orig, kept));
        disks := disks + [Disk(ckpt.trace[k], imgs.State())];
        terms := terms + [Terms(orig, kept)];
        SameLength();
        k := k + 1;
      }
    }

    lemma SameLength()
      requires AllSafe(members, disks, terms)
      ensures |disks| == |terms|
    {
    }

    /** Record where the directory of the image has been since `mark`. */
    method NoteImages(mark: nat)
      requires ckpt != imgs && ckpt.Valid() && imgs.Valid() && Proper(members)
      requires AllSafe(members, disks, terms) && Orderly(members, disks, terms) && disks != []
      requires 0 < mark <= |imgs.trace| && disks[|disks| - 1] == Disk(ckpt.State(), imgs.trace[mark - 1])
      requires terms[|terms| - 1] == Terms(orig, kept)
      requires forall k :: mark <= k < |imgs.trace| ==>
                 Allowed(members, ckpt.State(), imgs.trace[k], orig, kept)
                 && (Guarded(ckpt.State()) || Quiet(members, imgs.trace[k - 1], imgs.trace[k]))
      modifies this`disks, this`terms
      ensures Recorded() && old(disks) <= disks
      ensures Lengthened(old(terms), terms, orig, kept)
    {
      hide Safe, Guarded, Quiet, AllSafe, Orderly, Linked, Allowed;
      SameLength();
      var k := mark;
      while k < |imgs.trace|
        invariant mark <= k <= |imgs.trace|
        invariant AllSafe(members, disks, terms) && Orderly(members, disks, terms) && disks != [] && |disks| == |terms|
        invariant disks[|disks| - 1] == Disk(ckpt.State(), imgs.trace[k - 1]) && terms[|terms| - 1] == Terms(orig, kept)
        invariant old(disks) <= disks && old(terms) <= terms
        invariant forall j :: |old(terms)| <= j < |terms| ==> terms[j] == Terms(orig, kept)
      {
        LastIsSafe(members, disks, terms);
        AllowedIsSafe(members, disks[|disks| - 1], imgs.trace[k], orig, kept);
        ImagesLinked(members, disks[|disks| - 1], imgs.trace[k], Terms(orig, kept));
        Extended(members, disks, terms, Disk(ckpt.State(), imgs.trace[k]), Terms(orig, kept));
        disks := disks + [Disk(ckpt.State(), imgs.trace[k])];
        terms := terms + [Terms(orig, kept)];
        SameLength();
        k := k + 1;
      }
    }

    /** The same disk under new terms. */
    method Retag(ghost newOrig: Pair, ghost newKept: Promise)
      requires Recorded() && Safe(members, Now(), newOrig, newKept)
      requires Linked(members, Now(), Terms(orig, kept), Now(), Terms(newOrig, newKept))
      modifies this`disks, this`terms, this`orig, this`kept
      ensures Recorded() && orig == newOrig && kept == newKept && old(disks) <= disks
      ensures Lengthened(old(terms), terms, orig, kept)
    {
      hide Safe, Guarded, Quiet, AllSafe, Orderly, Linked, Unadvertised, Contents;
      SameLength();
      Extended(members, disks, terms, Now(), Terms(newOrig, newKept));
      disks := disks + [Now()];
      terms := terms + [Terms(newOrig, newKept)];
      orig, kept := newOrig, newKept;
      SameLength();
    }

    // ---- steps on the checkpoint directory ---------------------------------------------------------------

    /** Remove one name: the manifest itself, or anything once the manifest is gone. */
    method Drop(name: string) returns (ok: bool)
      requires Recorded() && Keeping(members, imgs.State(), kept)
      requires name == MANIFEST || MANIFEST !in Live(ckpt.State())
      modifies this`disks, this`terms, ckpt
      ensures Recorded() && old(disks) <= disks && Lengthened(old(terms), terms, orig, kept)
      ensures ckpt.files == old(ckpt.files) && (!ok ==> ckpt.State() == old(ckpt.State()))
      ensures ok ==> Live(ckpt.State()) == old(Live(ckpt.State())) - {name}
    {
      hide Safe, AllSafe, Orderly, Keeping, Guarded;
      var at := |ckpt.trace|;
      NowIsSafe();
      UnlinkIsSafe(members, Now(), orig, kept, name);
      ghost var before := ckpt.State();
      if Unadvertised(before) {
        UnlinkAdvertisesNothing(before, name);
      }
      ok := ckpt.Unlink(name);
      NoteCheckpoint(at);
    }

    method SettleCheckpoint() returns (ok: bool)
      requires Recorded()
      modifies this`disks, this`terms, ckpt
      ensures Recorded() && old(disks) <= disks && Lengthened(old(terms), terms, orig, kept)
      ensures ok ==> ckpt.State() == Settled(old(ckpt.State()))
      ensures !ok ==> ckpt.State() == old(ckpt.State())
    {
      hide Safe, AllSafe, Orderly, Guarded;
      var at := |ckpt.trace|;
      NowIsSafe();
      SettleIsSafe(members, Now(), orig, kept);
      ghost var before := ckpt.State();
      if Unadvertised(before) {
        SettleAdvertisesNothing(before);
      }
      ok := ckpt.SyncDirectory();
      NoteCheckpoint(at);
    }

    /** Remove the manifest and sync before removing what it vouches for. */
    method Complete() returns (ok: bool)
      requires Recorded() && Keeping(members, imgs.State(), kept)
      modifies this`disks, this`terms, ckpt
      ensures Recorded() && old(disks) <= disks && Lengthened(old(terms), terms, orig, kept)
      ensures ok ==> ckpt.State() == Emptied(members, old(ckpt.State()))
    {
      hide Safe, AllSafe, Orderly, Keeping, Guarded;
      ok := Drop(MANIFEST);
      if !ok {
        return;
      }
      ok := SettleCheckpoint();
      if !ok {
        return;
      }
      ok := DropBackups();
      if !ok {
        return;
      }
      ok := SettleCheckpoint();
    }

    method DropBackups() returns (ok: bool)
      requires Recorded() && Keeping(members, imgs.State(), kept) && MANIFEST !in Live(ckpt.State())
      modifies this`disks, this`terms, ckpt
      ensures Recorded() && old(disks) <= disks && Lengthened(old(terms), terms, orig, kept)
      ensures MANIFEST !in Live(ckpt.State()) && ckpt.files == old(ckpt.files)
      ensures ok ==> Live(ckpt.State()) == old(Live(ckpt.State())) - Backups(members)
    {
      hide Safe, AllSafe, Orderly, Keeping, Guarded;
      ok := true;
      for k := 0 to |members|
        invariant Recorded() && old(disks) <= disks && Lengthened(old(terms), terms, orig, kept)
        invariant MANIFEST !in Live(ckpt.State()) && ckpt.files == old(ckpt.files)
        invariant Live(ckpt.State()) == old(Live(ckpt.State())) - Backups(members[..k])
      {
        assert members[..k + 1] == members[..k] + [members[k]];
        assert Backups(members[..k + 1]) == Backups(members[..k]) + {members[k].backup};
        ok := Drop(members[k].backup);
        if !ok {
          return;
        }
      }
    }

    // ---- creating the checkpoint ----------------------------------------------------------------------------

    /** Whether every file of the image can be opened and none is another under a second name. */
    method Openable() returns (ok: bool)
      requires Recorded()
      ensures ok ==> TargetsLive(members, imgs.State())
      ensures ok ==> forall j, k :: 0 <= j < k < |members| ==>
                Live(imgs.State())[members[j].target] != Live(imgs.State())[members[k].target]
    {
      hide AllSafe, Orderly;
      ok := *;
      if !ok {
        return;
      }
      var live := imgs.log[|imgs.log| - 1];
      ok := (forall k :: 0 <= k < |members| ==> members[k].target in live)
        && forall j, k :: 0 <= j < |members| && j < k < |members| ==>
              live[members[j].target] != live[members[k].target];
    }

    /** The manifest written as "creating": from nothing to a whole manifest. */
    method WriteCreating(token: string) returns (ok: bool)
      requires Recorded() && Keeping(members, imgs.State(), kept) && Unready(ckpt.State())
      requires orig == Contents(members, imgs.State())
      modifies this`disks, this`terms, ckpt
      ensures Recorded() && old(disks) <= disks && Lengthened(old(terms), terms, orig, kept)
      ensures ok ==> AllCreating(ckpt.State())
      ensures ok ==> forall n :: n != MANIFEST && n !in old(Live(ckpt.State())) ==> n !in Live(ckpt.State())
    {
      hide Safe, AllSafe, Orderly, Keeping, Guarded, Stage;
      var at := |ckpt.trace|;
      ghost var before := ckpt.State();
      NowIsSafe();
      var r, inode := AtomicWrite(ckpt, MANIFEST, token, CREATING);
      forall k | at <= k < |ckpt.trace|
        ensures Safe(members, Disk(ckpt.trace[k], imgs.State()), orig, kept)
      {
        CreatingStage(before, ckpt.trace[k], token, inode);
        UnreadyIsSafe(members, Disk(ckpt.trace[k], imgs.State()), orig, kept);
      }
      NoteCheckpoint(at);
      ok := r.Replaced?;
    }

    /** One backup: copied, synced, and named. */
    method BackUp(k: nat) returns (ok: bool, copied: nat)
      requires Recorded() && Keeping(members, imgs.State(), kept) && AllCreating(ckpt.State())
      requires k < |members| && TargetsLive(members, imgs.State()) && orig == Contents(members, imgs.State())
      modifies this`disks, this`terms, ckpt
      ensures Recorded() && old(disks) <= disks && Lengthened(old(terms), terms, orig, kept)
      ensures AllCreating(ckpt.State())
      ensures ok ==> copied == |orig[k]| && Holds(ckpt.State(), Live(ckpt.State()), members[k].backup, orig[k])
      ensures ok ==>
                forall n, c :: n != members[k].backup && Holds(old(ckpt.State()), Live(old(ckpt.State())), n, c) ==>
                Holds(ckpt.State(), Live(ckpt.State()), n, c)
    {
      hide Safe, AllSafe, Orderly, Keeping, Guarded, Making;
      var at := |ckpt.trace|;
      ghost var before := ckpt.State();
      NowIsSafe();
      var source := BytesOf(imgs.State(), members[k].target);
      ContentsAreRead(members, imgs.State());
      var r := CopyFile(ckpt, members[k].backup, source, true, false);
      if !r.NotStarted? {
        forall j | at <= j < |ckpt.trace|
          ensures Safe(members, Disk(ckpt.trace[j], imgs.State()), orig, kept)
        {
          MakingBackup(before, ckpt.trace[j], members[k].backup, r.inode);
          UnreadyIsSafe(members, Disk(ckpt.trace[j], imgs.State()), orig, kept);
        }
        MakingBackup(before, ckpt.State(), members[k].backup, r.inode);
      }
      NoteCheckpoint(at);
      return r.Copied?, if r.Copied? then r.bytes else 0;
    }

    method WriteReady(token: string) returns (ok: bool)
      requires Recorded() && Keeping(members, imgs.State(), kept) && AllCreating(ckpt.State())
      requires Backed(members, ckpt.State(), Live(ckpt.State()), orig)
      requires TargetsLive(members, imgs.State()) && orig == Contents(members, imgs.State())
      modifies this`disks, this`terms, ckpt
      ensures Recorded() && old(disks) <= disks && Lengthened(old(terms), terms, orig, kept)
      ensures ok ==> Guarded(ckpt.State()) && Backed(members, ckpt.State(), Live(ckpt.State()), orig) && |ckpt.log| == 1
    {
      hide Safe, AllSafe, Orderly, Keeping, Guarded, Stage, Reads, Backed, Contents, TargetsLive;
      var at := |ckpt.trace|;
      ghost var before := ckpt.State();
      NowIsSafe();
      ContentsAreRead(members, imgs.State());
      var r, inode := AtomicWrite(ckpt, MANIFEST, token, READY);
      forall k | at <= k < |ckpt.trace|
        ensures Safe(members, Disk(ckpt.trace[k], imgs.State()), orig, kept)
      {
        ReadyStage(members, before, ckpt.trace[k], imgs.State(), token, inode, orig, kept);
      }
      NoteCheckpoint(at);
      ok := r.Replaced?;
      if ok {
        ReadyDone(members, before, ckpt.State(), inode, orig);
      }
    }

    /** Begin a session: "creating" manifest, backups, "ready" manifest, each durable before the next. */
    method Create(first: string, second: string) returns (r: CreateResult, copied: nat)
      requires Valid() && !active
      modifies this, ckpt
      ensures Valid() && old(disks) <= disks && old(terms) <= terms && kept == old(kept)
      ensures r.PendingRecovery? <==> MANIFEST in old(Live(ckpt.State()))
      ensures r.PendingRecovery? || r.NotOpenable? ==> Now() == old(Now()) && disks == old(disks) && orig == old(orig)
      ensures r.Begun? <==> active
      ensures r.Begun? ==>
                && orig == Contents(members, imgs.State()) && copied == TotalBytes(orig) && began == imgs.State()
                && Guarded(ckpt.State()) && Backed(members, ckpt.State(), Live(ckpt.State()), orig) && |ckpt.log| == 1
    {
      hide Safe, AllSafe, Orderly, Keeping, Guarded, Backed, Reads, Unready, TargetsLive, ChangedOnly, Contents,
          TotalBytes, Lengthened;
      copied := 0;
      if MANIFEST in ckpt.log[|ckpt.log| - 1] {
        return PendingRecovery, copied;
      }
      var ok := Openable();
      if !ok {
        return NotOpenable, copied;
      }
      NowIsSafe();
      UnguardedKeeps(members, Now(), orig, kept);
      ok := Clear();
      if !ok {
        return CreateFailed, copied;
      }
      ok, copied := Establish(first, second);
      if !ok {
        return CreateFailed, copied;
      }
      active := true;
      began := imgs.State();
      SessionBegins(members, imgs.State());
      return Begun, copied;
    }

    /** Remove what an earlier session may have left, and start from what the image holds now. */
    method Clear() returns (ok: bool)
      requires Recorded() && Keeping(members, imgs.State(), kept) && MANIFEST !in Live(ckpt.State())
      requires TargetsLive(members, imgs.State())
      modifies this`disks, this`terms, this`orig, this`kept, ckpt
      ensures Recorded() && old(disks) <= disks && old(terms) <= terms && kept == old(kept)
      ensures ok ==> Unready(ckpt.State()) && orig == Contents(members, imgs.State())
    {
      hide Safe, AllSafe, Orderly, Keeping, Guarded;
      ok := DropBackups();
      if ok {
        ok := SettleCheckpoint();
      }
      if ok {
        NowIsSafe();
        UnreadyIsSafe(members, Now(), Contents(members, imgs.State()), kept);
        Retag(Contents(members, imgs.State()), kept);
      }
    }

    /** Manifest, backups, manifest; on failure the attempt is taken back as far as possible. */
    method Establish(first: string, second: string) returns (ok: bool, copied: nat)
      requires Recorded() && Keeping(members, imgs.State(), kept) && Unready(ckpt.State())
      requires TargetsLive(members, imgs.State()) && orig == Contents(members, imgs.State())
      modifies this`disks, this`terms, ckpt
      ensures Recorded() && old(disks) <= disks && old(terms) <= terms
      ensures ok ==> copied == TotalBytes(orig) && Guarded(ckpt.State()) && |ckpt.log| == 1
                     && Backed(members, ckpt.State(), Live(ckpt.State()), orig)
    {
      hide Safe, AllSafe, Orderly, Keeping, Guarded, Backed, Reads, Unready, TargetsLive;
      copied := 0;
      ContentsAreRead(members, imgs.State());
      ok := WriteCreating(first);
      if ok {
        ok, copied := BackUpAll();
      }
      if ok {
        ok := WriteReady(second);
      }
      if !ok {
        var cleared := Complete();
      }
    }

    method BackUpAll() returns (ok: bool, copied: nat)
      requires Recorded() && Keeping(members, imgs.State(), kept) && AllCreating(ckpt.State())
      requires TargetsLive(members, imgs.State()) && orig == Contents(members, imgs.State())
      modifies this`disks, this`terms, ckpt
      ensures Recorded() && old(disks) <= disks && Lengthened(old(terms), terms, orig, kept)
      ensures AllCreating(ckpt.State())
      ensures ok ==> copied == TotalBytes(orig) && Backed(members, ckpt.State(), Live(ckpt.State()), orig)
    {
      hide Safe, AllSafe, Orderly, Keeping, Guarded, Reads;
      copied := 0;
      for k := 0 to |members|
        invariant Recorded() && old(disks) <= disks && Lengthened(old(terms), terms, orig, kept)
        invariant AllCreating(ckpt.State()) && copied == TotalBytes(orig[..k])
        invariant forall j :: 0 <= j < k ==> Holds(ckpt.State(), Live(ckpt.State()), members[j].backup, orig[j])
      {
        var made, bytes := BackUp(k);
        if !made {
          return false, copied;
        }
        assert orig[..k + 1][..k] == orig[..k];
        copied := copied + bytes;
      }
      assert orig[..|members|] == orig;
      return true, copied;
    }

    // ---- the session -----------------------------------------------------------------------------------------------

    /** Change the image file in place. */
    method Mutate(content: seq<byte>) returns (ok: bool)
      requires Valid() && active
      modifies this`disks, this`terms, imgs
      ensures Valid() && old(disks) <= disks && old(terms) <= terms
      ensures ok ==> Contents(members, imgs.State()) == old(Contents(members, imgs.State()))[0 := content]
      ensures Contents(members, imgs.State())[1..] == old(Contents(members, imgs.State()))[1..]
    {
      hide Safe, AllSafe, Orderly, Guarded, Quiet;
      ghost var before := imgs.State();
      var at := |imgs.trace|;
      ghost var left;
      ok, left := imgs.Overwrite(imgs.log[|imgs.log| - 1][members[0].target], content);
      SessionWrites(members, began, before, imgs.State());
      NoteImages(at);
    }

    /** Flush the image file to stable storage. */
    method Sync() returns (ok: bool)
      requires Valid() && active
      modifies this`disks, this`terms, imgs
      ensures Valid() && old(disks) <= disks && old(terms) <= terms
      ensures Contents(members, imgs.State()) == old(Contents(members, imgs.State()))
      ensures ok ==> imgs.files[Live(began)[members[0].target]].synced
    {
      hide Safe, AllSafe, Orderly, Guarded, Quiet;
      ghost var before := imgs.State();
      var at := |imgs.trace|;
      ok := imgs.SyncFile(imgs.log[|imgs.log| - 1][members[0].target]);
      SessionWrites(members, began, before, imgs.State());
      NoteImages(at);
    }

    /** End a session. The checkpoint goes only if the close is clean, the flush worked and the session is
        `valid`: not latched, its final validation and any export passed. And if the session found the
        image on disk, its final bytes are then on disk too. */
    method Close(clean: bool, valid: bool) returns (r: CloseResult)
      requires Valid() && active
      modifies this, imgs, ckpt
      ensures Valid() && !active && old(disks) <= disks && old(terms) <= terms && orig == old(orig)
      ensures Contents(members, imgs.State()) == old(Contents(members, imgs.State()))
      ensures !clean || !valid ==> r.Retained?
      ensures r.Retained? ==> ckpt.State() == old(ckpt.State()) && Guarded(ckpt.State())
      ensures r.Completed? ==> MANIFEST !in Live(ckpt.State()) && |ckpt.log| == 1
      ensures !r.Retained? && |old(began).log| == 1 && OnDisk(members, old(began), orig) ==>
                kept == Promised(Contents(members, imgs.State())) && OnDisk(members, imgs.State(), kept.pair)
    {
      hide Safe, AllSafe, Orderly, Quiet, OnDisk, Contents, Guarded;
      var synced := Sync();
      if !clean || !synced || !valid {
        active := false;
        return Retained;
      }
      var done := Retire();
      return if done then Completed else CompletionFailed;
    }

    /** Promise what is on disk, and only then remove the checkpoint. */
    method Retire() returns (done: bool)
      requires Valid() && active && members[0].target in Live(began)
      requires Live(began)[members[0].target] in imgs.files && imgs.files[Live(began)[members[0].target]].synced
      modifies this, ckpt
      ensures Valid() && !active && old(disks) <= disks && old(terms) <= terms && orig == old(orig)
      ensures done ==> MANIFEST !in Live(ckpt.State()) && |ckpt.log| == 1
      ensures |old(began).log| == 1 && OnDisk(members, old(began), orig) ==>
                kept == Promised(Contents(members, imgs.State())) && OnDisk(members, imgs.State(), kept.pair)
    {
      hide Safe, AllSafe, Orderly, Quiet, OnDisk, ChangedOnly, Contents, Guarded;
      ghost var final := Contents(members, imgs.State());
      ghost var settled := OnDisk(members, imgs.State(), final);
      if |began.log| == 1 && OnDisk(members, began, orig) {
        SessionSettles(members, began, imgs.State());
      }
      NowIsSafe();
      GuardedAnyPromise(members, Now(), orig, kept, if settled then Promised(final) else Unpromised);
      Retag(orig, if settled then Promised(final) else Unpromised);
      active := false;
      done := Complete();
    }

    // ---- recovery --------------------------------------------------------------------------------------------------

    /** A ready manifest is on view, and the image files may be worked on. */
    ghost predicate Restoring()
      reads this, ckpt, imgs
    {
      && Recorded() && Guarding(ckpt.State(), Live(ckpt.State())) && |orig| == |members|
      && TargetsLive(members, imgs.State()) && Allowed(members, ckpt.State(), imgs.State(), orig, kept)
    }

    /** The backup's bytes. */
    lemma BackupIsOriginal(k: nat)
      requires Recorded() && Guarding(ckpt.State(), Live(ckpt.State())) && k < |members|
      ensures |orig| == |members| && BytesOf(ckpt.State(), members[k].backup) == orig[k]
      ensures Backed(members, ckpt.State(), Live(ckpt.State()), orig)
    {
    }

    /** Stage one replacement beside its target, without touching the target. */
    method StageOne(k: nat) returns (r: Copy, temp: string)
      requires Restoring() && k < |members|
      modifies this`disks, this`terms, imgs
      ensures Restoring() && old(disks) <= disks && Lengthened(old(terms), terms, orig, kept)
      ensures Quiet(members, old(imgs.State()), imgs.State())
      ensures temp !in old(Live(imgs.State())) && NotATarget(members, temp)
      ensures r.Copied? ==> Holds(imgs.State(), Live(imgs.State()), temp, orig[k])
      ensures forall n, c :: n != temp && Holds(old(imgs.State()), Live(old(imgs.State())), n, c) ==>
                Holds(imgs.State(), Live(imgs.State()), n, c)
    {
      hide Safe, AllSafe, Orderly, Guarded, Making, Quiet, Honest;
      var at := |imgs.trace|;
      ghost var before := imgs.State();
      BackupIsOriginal(k);
      var source := BytesOf(ckpt.State(), members[k].backup);
      temp := FreshName(members[k].target, imgs.log[|imgs.log| - 1]);
      r := CopyFile(imgs, temp, source, false, true);
      QuietToSelf(members, before);
      if !r.NotStarted? {
        forall j | at <= j < |imgs.trace|
          ensures Allowed(members, ckpt.State(), imgs.trace[j], orig, kept)
                  && Quiet(members, imgs.trace[j - 1], imgs.trace[j])
        {
          MakingAllowed(members, ckpt.State(), before, imgs.trace[j], temp, r.inode, orig, kept);
          if j > at {
            MakingReads(members, before, imgs.trace[j - 1], imgs.trace[j], temp, r.inode);
          }
        }
        MakingAllowed(members, ckpt.State(), before, imgs.State(), temp, r.inode, orig, kept);
        MakingKeepsOthers(before, imgs.State(), temp, r.inode);
      }
      NoteImages(at);
    }

    ghost predicate StagedAll(temps: seq<string>)
      reads this, imgs
      requires imgs.log != []
    {
      && |temps| <= |members| && |orig| == |members|
      && (forall j :: 0 <= j < |temps| ==> Holds(imgs.State(), Live(imgs.State()), temps[j], orig[j])
                                             && NotATarget(members, temps[j]))
      && (forall i, j :: 0 <= i < j < |temps| ==> temps[i] != temps[j])
    }

    /** Remove staged files that are still there. */
    method CleanUp(temps: seq<string>)
      requires Restoring() && forall j :: 0 <= j < |temps| ==> NotATarget(members, temps[j])
      modifies this`disks, this`terms, imgs
      ensures Restoring() && old(disks) <= disks && Lengthened(old(terms), terms, orig, kept)
      ensures forall a :: Quiet(members, a, old(imgs.State())) ==> Quiet(members, a, imgs.State())
      ensures (forall j :: 0 <= j < |temps| ==> temps[j] !in old(Live(imgs.State()))) ==>
                imgs.State() == old(imgs.State())
    {
      hide Safe, AllSafe, Orderly, Guarded, Quiet, Allowed;
      QuietToSelf(members, imgs.State());
      for j := 0 to |temps|
        invariant Restoring() && old(disks) <= disks && Lengthened(old(terms), terms, orig, kept)
        invariant Quiet(members, old(imgs.State()), imgs.State())
        invariant (forall i :: 0 <= i < |temps| ==> temps[i] !in old(Live(imgs.State()))) ==>
                    imgs.State() == old(imgs.State())
      {
        ghost var before := imgs.State();
        var at := |imgs.trace|;
        UnlinkAllowed(members, ckpt.State(), before, temps[j], orig, kept);
        var removed := imgs.Unlink(temps[j]);
        QuietToSelf(members, before);
        QuietThrough(members, old(imgs.State()), before, imgs.State());
        NoteImages(at);
      }
      forall a | Quiet(members, a, old(imgs.State()))
        ensures Quiet(members, a, imgs.State())
      {
        QuietThrough(members, a, old(imgs.State()), imgs.State());
      }
    }

    /** Stage every replacement; on failure or cancellation none is left staged if it can be helped. */
    method StageAll() returns (r: RecoverResult, temps: seq<string>)
      requires Restoring()
      modifies this`disks, this`terms, imgs
      ensures Restoring() && old(disks) <= disks && Lengthened(old(terms), terms, orig, kept)
      ensures r.Restored? || r.Cancelled? || r.RecoverFailed?
      ensures Quiet(members, old(imgs.State()), imgs.State())
      ensures r.Restored? ==> |temps| == |members| && StagedAll(temps)
    {
      hide Safe, AllSafe, Orderly, Guarded, Quiet, Allowed, Holds;
      temps := [];
      QuietToSelf(members, imgs.State());
      for k := 0 to |members|
        invariant Restoring() && old(disks) <= disks && Lengthened(old(terms), terms, orig, kept)
        invariant Quiet(members, old(imgs.State()), imgs.State())
        invariant |temps| == k && StagedAll(temps)
      {
        ghost var before := imgs.State();
        var cancelled: bool := *;
        if cancelled {
          CleanUp(temps);
          return Cancelled, temps;
        }
        var r1, temp := StageOne(k);
        QuietThrough(members, old(imgs.State()), before, imgs.State());
        if !r1.Copied? {
          CleanUp(temps);
          return if r1.CopyCancelled? then Cancelled else RecoverFailed, temps;
        }
        HeldNames(before, temps);
        temps := temps + [temp];
      }
      var cancelled: bool := *;
      if cancelled {
        CleanUp(temps);
        return Cancelled, temps;
      }
      return Restored, temps;
    }

    /** Mid-commit: the targets from `k` on are replaced, the rest still staged. */
    ghost predicate Installing(temps: seq<string>, k: nat)
      reads this, imgs
      requires imgs.log != []
    {
      && |temps| == |members| == |orig| && k <= |members|
      && (forall j :: 0 <= j < |temps| ==> NotATarget(members, temps[j]))
      && (forall i, j :: 0 <= i < j < |temps| ==> temps[i] != temps[j])
      && (forall j :: 0 <= j < k ==> Holds(imgs.State(), Live(imgs.State()), temps[j], orig[j]))
      && (forall j :: k <= j < |members| ==> Holds(imgs.State(), Live(imgs.State()), members[j].target, orig[j]))
      && (forall j :: k <= j < |members| ==> temps[j] !in Live(imgs.State()))
    }

    /** Rename one staged file over its target. */
    method PutInPlace(k: nat, temps: seq<string>) returns (ok: bool)
      requires Restoring() && k < |members| && Installing(temps, k + 1)
      modifies this`disks, this`terms, imgs
      ensures Restoring() && old(disks) <= disks && Lengthened(old(terms), terms, orig, kept)
      ensures ok ==> Installing(temps, k)
    {
      hide Safe, AllSafe, Orderly, Guarded, Quiet, Allowed, Holds;
      ghost var before := imgs.State();
      var at := |imgs.trace|;
      HoldsIsLive(before, temps[k], orig[k]);
      RenameAllowed(members, ckpt.State(), before, temps[k], k, orig, kept);
      RenameHolds(before, temps[k], members[k].target);
      ok := imgs.Rename(temps[k], members[k].target);
      NoteImages(at);
    }

    method SettleImages() returns (ok: bool)
      requires Restoring()
      modifies this`disks, this`terms, imgs
      ensures Restoring() && old(disks) <= disks && Lengthened(old(terms), terms, orig, kept)
      ensures ok ==> |imgs.log| == 1 && imgs.files == old(imgs.files) && Live(imgs.State()) == Live(old(imgs.State()))
    {
      hide Safe, AllSafe, Orderly, Guarded, Quiet, Allowed;
      ghost var before := imgs.State();
      var at := |imgs.trace|;
      SettleAllowed(members, ckpt.State(), before, orig, kept);
      ok := imgs.SyncDirectory();
      NoteImages(at);
    }

    /** Rename one staged file over its target and sync the directory. */
    method Replace(k: nat, temps: seq<string>) returns (ok: bool)
      requires Restoring() && k < |members| && Installing(temps, k + 1)
      modifies this`disks, this`terms, imgs
      ensures Restoring() && old(disks) <= disks && Lengthened(old(terms), terms, orig, kept)
      ensures ok ==> Installing(temps, k) && |imgs.log| == 1
    {
      hide Safe, AllSafe, Orderly, Guarded, Allowed;
      ok := PutInPlace(k, temps);
      if ok {
        ghost var before := imgs.State();
        ok := SettleImages();
        assert ok ==>
                 forall n, c :: Holds(before, Live(before), n, c) ==> Holds(imgs.State(), Live(imgs.State()), n, c);
      }
    }

    /** The commit phase, last member first. */
    method Commit(temps: seq<string>) returns (ok: bool)
      requires Restoring() && |temps| == |members| && StagedAll(temps)
      modifies this`disks, this`terms, imgs
      ensures Restoring() && old(disks) <= disks && Lengthened(old(terms), terms, orig, kept)
      ensures ok ==>
                OnDisk(members, imgs.State(), orig) && forall j :: 0 <= j < |temps| ==> temps[j] !in Live(imgs.State())
    {
      hide Safe, AllSafe, Orderly, Guarded, Quiet, Allowed, Holds;
      var k := |members|;
      while k > 0
        invariant Restoring() && old(disks) <= disks && Lengthened(old(terms), terms, orig, kept)
        invariant 0 <= k <= |members| && Installing(temps, k) && (k < |members| ==> |imgs.log| == 1)
      {
        ok := Replace(k - 1, temps);
        if !ok {
          return;
        }
        k := k - 1;
      }
      return true;
    }

    /** Stage all, then replace all; cancellation is looked at only while staging. */
    method Reinstate() returns (r: RecoverResult)
      requires Restoring()
      modifies this`disks, this`terms, imgs
      ensures Restoring() && old(disks) <= disks && Lengthened(old(terms), terms, orig, kept)
      ensures r.Restored? || r.Cancelled? || r.RecoverFailed?
      ensures r.Restored? ==> OnDisk(members, imgs.State(), orig)
      ensures r.Cancelled? ==> Quiet(members, old(imgs.State()), imgs.State())
    {
      hide Safe, AllSafe, Orderly, Guarded, Quiet, Allowed, Holds, OnDisk;
      var temps;
      r, temps := StageAll();
      if !r.Restored? {
        return;
      }
      var ok := Commit(temps);
      CleanUp(temps);
      if !ok {
        return RecoverFailed;
      }
    }

    /** Put the checkpointed files back, and only then give the checkpoint up. */
    method Restore() returns (r: RecoverResult)
      requires Restoring()
      modifies this`disks, this`terms, this`orig, this`kept, ckpt, imgs
      ensures Recorded() && old(disks) <= disks && old(terms) <= terms && orig == old(orig)
      ensures r.Restored? || r.Cancelled? || r.RecoverFailed?
      ensures r.Restored? ==>
                && OnDisk(members, imgs.State(), orig) && Reads(members, imgs.State(), orig)
                && MANIFEST !in Live(ckpt.State()) && |ckpt.log| == 1 && kept == Promised(orig)
      ensures r.Cancelled? ==> ckpt.State() == old(ckpt.State()) && Quiet(members, old(imgs.State()), imgs.State())
      ensures Restores(old(terms), terms, orig, old(Guarded(ckpt.State()) || kept == Promised(orig)))
    {
      hide Safe, AllSafe, Orderly, Guarded, Quiet, Allowed, Holds, OnDisk, Reads;
      NowIsSafe();
      PromiseOriginal(members, Now(), orig, kept);
      RetagLinked(members, Now(), Terms(orig, kept),
                  Terms(orig, if Guarded(ckpt.State()) then Promised(orig) else kept));
      Retag(orig, if Guarded(ckpt.State()) then Promised(orig) else kept);
      RetagAllowed(members, ckpt.State(), imgs.State(), orig, old(kept), kept);
      r := Reinstate();
      if !r.Restored? {
        return;
      }
      NowIsSafe();
      RestoredIsSafe(members, Now(), orig, kept);
      RetagLinked(members, Now(), Terms(orig, kept), Terms(orig, Promised(orig)));
      Retag(orig, Promised(orig));
      var done := Complete();
      return if done then Restored else RecoverFailed;
    }

    /** Recover: restore the checkpointed files, or accept the present ones, or only report. */
    method Recover(restore: bool, discard: bool) returns (r: RecoverResult)
      requires Valid() && !active
      modifies this, ckpt, imgs
      ensures Valid() && !active && old(disks) <= disks && old(terms) <= terms && orig == old(orig)
      ensures r.NothingPending? || (r.Cancelled? && !restore) ==> Now() == old(Now())
      ensures !r.Cancelled? ==> (r.NothingPending? <==> MANIFEST !in old(Live(ckpt.State())))
      ensures r.BadChoice? || r.Reported? || r.NothingPending? || r.LockRefused? || r.NotRestorable? ==>
                Now() == old(Now()) && disks == old(disks)
      ensures r.NotRestorable? ==> !old(Guarding(ckpt.State(), Live(ckpt.State())))
      ensures r.Restored? ==> restore && !discard
      ensures r.Restored? ==>
                && OnDisk(members, imgs.State(), orig) && Reads(members, imgs.State(), orig)
                && MANIFEST !in Live(ckpt.State()) && |ckpt.log| == 1 && kept == Promised(orig)
      ensures r.Cancelled? ==> ckpt.State() == old(ckpt.State()) && Quiet(members, old(imgs.State()), imgs.State())
      ensures restore ==> Restores(old(terms), terms, orig, old(Guarded(ckpt.State()) || kept == Promised(orig)))
      ensures r.Discarded? ==> Now() == old(Disk(Emptied(members, ckpt.State()), imgs.State()))
      ensures r.Discarded? && OnDisk(members, imgs.State(), Contents(members, imgs.State())) ==>
                kept == Promised(Contents(members, imgs.State()))
    {
      hide Safe, AllSafe, Orderly, Guarded, Quiet, OnDisk, Reads, Contents, ChangedOnly;
      var cancelled: bool := *;
      if cancelled {
        QuietToSelf(members, imgs.State());
        return Cancelled;
      }
      var live := ckpt.log[|ckpt.log| - 1];
      if MANIFEST !in live {
        return NothingPending;
      }
      if restore && discard {
        return BadChoice;
      }
      if !restore && !discard {
        return Reported;
      }
      var locked := Lock();
      if !locked {
        return LockRefused;
      }
      if restore {
        var ready := ManifestIsReady();
        if !ready {
          return NotRestorable;
        }
        r := Restore();
      } else {
        r := Discard();
      }
    }

    /** Open and lock every file of the image. */
    method Lock() returns (ok: bool)
      requires Recorded()
      ensures ok ==> TargetsLive(members, imgs.State())
    {
      hide AllSafe, Orderly;
      ok := *;
      var live := imgs.log[|imgs.log| - 1];
      ok := ok && forall k :: 0 <= k < |members| ==> members[k].target in live;
    }

    /** What the manifest on view says. */
    method ManifestIsReady() returns (ready: bool)
      requires Recorded() && MANIFEST in Live(ckpt.State()) && TargetsLive(members, imgs.State())
      ensures ready ==> Restoring()
      ensures ready <==> Guarding(ckpt.State(), Live(ckpt.State()))
    {
      hide AllSafe, Orderly, OnDisk, Reads, Guarded;
      var d := ckpt.State();
      NowIsSafe();
      assert Honest(members, d, d.log[|d.log| - 1], orig);
      ready := ckpt.files[ckpt.log[|ckpt.log| - 1][MANIFEST]].content == READY;
      assert READY[0] != CREATING[0];
      if ready {
        BackupIsOriginal(0);
      }
    }

    /** Accept the present files. Nothing here makes them durable. */
    method Discard() returns (r: RecoverResult)
      requires Recorded() && TargetsLive(members, imgs.State())
      modifies this`disks, this`terms, this`orig, this`kept, ckpt
      ensures Recorded() && old(disks) <= disks && old(terms) <= terms && orig == old(orig)
      ensures r.Discarded? || r.RecoverFailed?
      ensures r.Discarded? ==> ckpt.State() == Emptied(members, old(ckpt.State()))
      ensures kept == if OnDisk(members, imgs.State(), Contents(members, imgs.State())) then
                Promised(Contents(members, imgs.State())) else Unpromised
    {
      hide AllSafe, Orderly, OnDisk, Reads, Guarded, Contents;
      ghost var p := Contents(members, imgs.State());
      NowIsSafe();
      Retag(orig, if OnDisk(members, imgs.State(), p) then Promised(p) else Unpromised);
      var done := Complete();
      return if done then Discarded else RecoverFailed;
    }
  }
}
