/** What must be true of the disk at every instant of a writable session or a recovery, whenever power
    may be lost, and what that leaves for the next start. */
module Checkpoint {
  import opened Transactions
  import opened DurableStore

  const MANIFEST: string := "manifest.json"

  /** The manifest's text reduced to its state. */
  const CREATING: seq<byte> := [0x63, 0x72, 0x65, 0x61, 0x74, 0x69, 0x6E, 0x67]
  const READY: seq<byte> := [0x72, 0x65, 0x61, 0x64, 0x79]

  /** One file of the image and the name of its backup: a DAT and a DSC, or a single container. */
  datatype Member = Member(backup: string, target: string)

  type Pair = seq<seq<byte>>

  /** The checkpoint directory and the directory of the image. */
  datatype Disk = Disk(checkpoint: Dir, images: Dir)

  ghost predicate Proper(members: seq<Member>) {
    && |members| > 0
    && (forall j, k :: 0 <= j < k < |members| ==>
          members[j].backup != members[k].backup && members[j].target != members[k].target)
    && (forall k :: 0 <= k < |members| ==>
          members[k].backup != "" && members[k].backup[0] != '.' && members[k].backup != MANIFEST)
  }

  // ---- single views ---------------------------------------------------------------------------------------

  ghost predicate Backed(members: seq<Member>, d: Dir, v: View, orig: Pair) {
    |orig| == |members| && forall k :: 0 <= k < |members| ==> Holds(d, v, members[k].backup, orig[k])
  }

  /** A manifest that could be found after losing power is whole, and a ready one has its backups. */
  ghost predicate Honest(members: seq<Member>, d: Dir, v: View, orig: Pair) {
    MANIFEST in v ==> Holds(d, v, MANIFEST, CREATING) || (Holds(d, v, MANIFEST, READY) && Backed(members, d, v, orig))
  }

  ghost predicate Guarding(d: Dir, v: View) {
    Holds(d, v, MANIFEST, READY)
  }

  /** The ready manifest is found whenever power is lost. */
  ghost predicate Guarded(d: Dir) {
    forall k :: 0 <= k < |d.log| ==> Guarding(d, d.log[k])
  }

  ghost predicate Shows(members: seq<Member>, d: Dir, v: View, p: Pair) {
    |p| == |members| && forall k :: 0 <= k < |members| ==> Holds(d, v, members[k].target, p[k])
  }

  /** Whenever power is lost the image files hold `p`. */
  ghost predicate OnDisk(members: seq<Member>, d: Dir, p: Pair) {
    forall k :: 0 <= k < |d.log| ==> Shows(members, d, d.log[k], p)
  }

  /** The bytes a program reading the image files sees now. */
  ghost predicate Reads(members: seq<Member>, d: Dir, p: Pair) {
    |d.log| > 0 && |p| == |members|
    && forall k :: 0 <= k < |members| ==>
         members[k].target in Live(d) && Live(d)[members[k].target] in d.files
             && d.files[Live(d)[members[k].target]].content == p[k]
  }

  // ---- the disk at one instant --------------------------------------------------------------------------

  datatype Promise = Unpromised | Promised(pair: Pair)

  /** `orig` is what the current checkpoint saved; `kept` is what the image files are promised to hold,
      once no checkpoint guards them, if anything. */
  ghost predicate Safe(members: seq<Member>, disk: Disk, orig: Pair, kept: Promise) {
    && Sound(disk.checkpoint) && Sound(disk.images)
    && (forall k :: 0 <= k < |disk.checkpoint.log| ==> Honest(members, disk.checkpoint, disk.checkpoint.log[k], orig))
    && (!Guarded(disk.checkpoint) && kept.Promised? ==> OnDisk(members, disk.images, kept.pair))
    && (!Guarded(disk.checkpoint) && Guarding(disk.checkpoint, Live(disk.checkpoint)) ==>
          Reads(members, disk.images, orig))
  }

  ghost predicate DiskCrash(a: Disk, b: Disk) {
    CrashOf(a.checkpoint, b.checkpoint) && CrashOf(a.images, b.images)
  }

  lemma OnDiskAfterCrash(members: seq<Member>, d: Dir, e: Dir, p: Pair)
    requires CrashOf(d, e) && OnDisk(members, d, p)
    ensures OnDisk(members, e, p) && Reads(members, e, p)
  {
  }

  /** Losing power keeps the disk safe, and leaves one of two things: a ready manifest with both
      backups equal to the pre-session files, or image files holding exactly what was promised. */
  lemma CrashIsSafe(members: seq<Member>, a: Disk, b: Disk, orig: Pair, kept: Promise)
    requires Safe(members, a, orig, kept) && DiskCrash(a, b)
    ensures Safe(members, b, orig, kept)
    ensures Guarded(b.checkpoint) ==> Backed(members, b.checkpoint, Live(b.checkpoint), orig)
    ensures !Guarded(b.checkpoint) && kept.Promised? ==> Reads(members, b.images, kept.pair) && OnDisk(members,
              b.images, kept.pair)
  {
  }

  lemma OnDiskIsRead(members: seq<Member>, d: Dir, p: Pair, seen: Pair)
    requires |d.log| > 0 && OnDisk(members, d, p) && Reads(members, d, seen)
    ensures seen == p
  {
    assert Shows(members, d, d.log[|d.log| - 1], p);
    assert forall k :: 0 <= k < |members| ==> Holds(d, Live(d), members[k].target, p[k]);
    assert forall k :: 0 <= k < |members| ==> seen[k] == p[k];
  }

  /** A mixed set of image files is on view only while every possible loss of power finds the ready
      manifest and its backups. */
  lemma MixedOnlyWhileGuarded(members: seq<Member>, disk: Disk, orig: Pair, kept: Promise, seen: Pair)
    requires Safe(members, disk, orig, kept) && kept.Promised? && Reads(members, disk.images, seen) && seen != kept.pair
    ensures Guarded(disk.checkpoint)
    ensures forall k :: 0 <= k < |disk.checkpoint.log| ==>
              Backed(members, disk.checkpoint, disk.checkpoint.log[k], orig)
  {
    if !Guarded(disk.checkpoint) {
      OnDiskIsRead(members, disk.images, kept.pair, seen);
    }
    forall k | 0 <= k < |disk.checkpoint.log|
      ensures Backed(members, disk.checkpoint, disk.checkpoint.log[k], orig)
    {
      assert Guarding(disk.checkpoint, disk.checkpoint.log[k]);
      assert Honest(members, disk.checkpoint, disk.checkpoint.log[k], orig);
    }
  }
}
