/** Each single step of a session or a recovery keeps the disk safe. */
module CheckpointSteps {
  import opened DurableStore
  import opened SafePaths
  import opened Checkpoint

  /** The image files hold what was promised, guarded or not. */
  ghost predicate Keeping(members: seq<Member>, images: Dir, kept: Promise) {
    kept.Promised? ==> OnDisk(members, images, kept.pair)
  }

  // ---- the checkpoint directory ----------------------------------------------------------------------------

  /** No view has a ready manifest, and any manifest is whole. */
  ghost predicate Unready(d: Dir) {
    |d.log| > 0 && forall k :: 0 <= k < |d.log| ==> MANIFEST in d.log[k] ==> Holds(d, d.log[k], MANIFEST, CREATING)
  }

  ghost predicate AllCreating(d: Dir) {
    |d.log| > 0 && forall k :: 0 <= k < |d.log| ==> Holds(d, d.log[k], MANIFEST, CREATING)
  }

  lemma UnreadyIsSafe(members: seq<Member>, disk: Disk, orig: Pair, kept: Promise)
    requires Sound(disk.checkpoint) && Sound(disk.images) && Unready(disk.checkpoint)
             && Keeping(members, disk.images, kept)
    ensures Safe(members, disk, orig, kept) && !Guarded(disk.checkpoint)
  {
    var d := disk.checkpoint;
    forall k | 0 <= k < |d.log|
      ensures Honest(members, d, d.log[k], orig) && !Guarding(d, d.log[k])
    {
      assert MANIFEST in d.log[k] ==> Holds(d, d.log[k], MANIFEST, CREATING);
      assert CREATING[0] != READY[0];
    }
    assert !Guarding(d, d.log[0]);
  }

  /** Removing the manifest, or any name once the manifest is gone. */
  lemma UnlinkIsSafe(members: seq<Member>, disk: Disk, orig: Pair, kept: Promise, name: string)
    requires Safe(members, disk, orig, kept) && Keeping(members, disk.images, kept)
    requires name == MANIFEST || MANIFEST !in Live(disk.checkpoint)
    ensures Safe(members, disk.(checkpoint := Unlinked(disk.checkpoint, name)), orig, kept)
    ensures MANIFEST !in Live(Unlinked(disk.checkpoint, name))
  {
  }

  lemma SettleIsSafe(members: seq<Member>, disk: Disk, orig: Pair, kept: Promise)
    requires Safe(members, disk, orig, kept)
    ensures Safe(members, disk.(checkpoint := Settled(disk.checkpoint)), orig, kept)
    ensures Live(Settled(disk.checkpoint)) == Live(disk.checkpoint)
  {
  }

  lemma CreatingStage(before: Dir, d: Dir, token: string, inode: nat)
    requires Sound(before) && Unready(before)
    requires Stage(before, d, MANIFEST, TemporaryName(MANIFEST, token), inode, CREATING)
    ensures Sound(d) && Unready(d)
  {
  }

  /** Installing the ready manifest over the creating one, with every backup already on disk. */
  lemma ReadyStage(members: seq<Member>, before: Dir, d: Dir, images: Dir, token: string, inode: nat, orig: Pair,
      kept: Promise)
    requires Proper(members) && Sound(before) && AllCreating(before) && Backed(members, before, Live(before), orig)
    requires Stage(before, d, MANIFEST, TemporaryName(MANIFEST, token), inode, READY)
    requires Sound(images) && Keeping(members, images, kept) && Reads(members, images, orig)
    ensures Safe(members, Disk(d, images), orig, kept)
  {
  }

  /** The live view after a ready manifest is installed and synced is all there is. */
  lemma ReadyDone(members: seq<Member>, before: Dir, d: Dir, inode: nat, orig: Pair)
    requires Proper(members) && Sound(before) && Backed(members, before, Live(before), orig) && inode !in before.files
    requires d == Dir([Live(before)[MANIFEST := inode]], before.files[inode := File(READY, true)])
    ensures Guarded(d) && Backed(members, d, Live(d), orig) && |d.log| == 1
  {
  }

  /** A new file under another name, however far its writing has got, and its removal again. */
  ghost predicate Making(before: Dir, d: Dir, name: string, inode: nat)
    requires |before.log| > 0
  {
    && inode !in before.files && inode in d.files && name !in Live(before)
    && d.files == before.files[inode := d.files[inode]]
    && (d.log == before.log + [Live(before)[name := inode]]
        || d.log == before.log + [Live(before)[name := inode], Live(before)])
  }

  lemma MakingBackup(before: Dir, d: Dir, name: string, inode: nat)
    requires Sound(before) && AllCreating(before) && Making(before, d, name, inode) && name != MANIFEST
    ensures Sound(d) && AllCreating(d)
    ensures forall n, c :: n != name && Holds(before, Live(before), n, c) ==> Holds(d, Live(d), n, c)
    ensures d.files[inode].synced && name in Live(d) ==> Holds(d, Live(d), name, d.files[inode].content)
  {
  }

  // ---- the directory of the image --------------------------------------------------------------------------

  /** What an unguarded image directory must go on showing while a restore is at work on it. */
  ghost predicate Showing(members: seq<Member>, d: Dir, orig: Pair, kept: Promise) {
    Keeping(members, d, kept) && Reads(members, d, orig)
  }

  /** No image file changes for a program reading it. */
  ghost predicate Quiet(members: seq<Member>, a: Dir, b: Dir) {
    forall p :: Reads(members, a, p) ==> Reads(members, b, p)
  }

  ghost predicate NotATarget(members: seq<Member>, name: string) {
    forall k :: 0 <= k < |members| ==> members[k].target != name
  }

  /** All targets are there, so a name that is not cannot be one of them. */
  ghost predicate TargetsLive(members: seq<Member>, d: Dir) {
    |d.log| > 0 && forall k :: 0 <= k < |members| ==> members[k].target in Live(d)
  }

  lemma MakingReads(members: seq<Member>, before: Dir, d: Dir, e: Dir, name: string, inode: nat)
    requires Sound(before) && TargetsLive(members, before)
    requires Making(before, d, name, inode) && Making(before, e, name, inode)
    ensures Quiet(members, d, e)
  {
  }

  /** A synced copy of what a target already shows may replace it at any time. */
  lemma InstallIsQuiet(members: seq<Member>, d: Dir, temp: string, k: nat, orig: Pair, kept: Promise)
    requires Proper(members) && Sound(d) && NotATarget(members, temp) && k < |members|
             && Showing(members, d, orig, kept)
    requires Holds(d, Live(d), temp, orig[k])
    ensures var e := Renamed(d, temp, members[k].target);
            Sound(e) && Quiet(members, d, e) && Showing(members, e, orig, kept)
  {
  }
}
