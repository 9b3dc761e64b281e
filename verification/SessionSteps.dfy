/** The steps of sessions and recoveries, as lemmas on the disk and on what has been recorded of it. */
module SessionSteps {
  import opened Transactions
  import opened DurableStore
  import opened Checkpoint
  import opened CheckpointSteps
  import Sets

  datatype Terms = Terms(orig: Pair, kept: Promise)

  datatype CreateResult = Begun | PendingRecovery | NotOpenable | CreateFailed
  datatype CloseResult = Completed | Retained | CompletionFailed
  datatype RecoverResult =
    | NothingPending | BadChoice | Reported | LockRefused | NotRestorable | Cancelled | RecoverFailed
    | Restored | Discarded

  ghost predicate AllSafe(members: seq<Member>, disks: seq<Disk>, terms: seq<Terms>) {
    |disks| == |terms| && forall k :: 0 <= k < |disks| ==> Safe(members, disks[k], terms[k].orig, terms[k].kept)
  }

  /** No loss of power would find a ready manifest. */
  ghost predicate Unadvertised(d: Dir) {
    |d.log| > 0 && forall k :: 0 <= k < |d.log| ==> !Guarding(d, d.log[k])
  }

  /** What a promise for afterwards rests on: bytes on disk, the backups of a checkpoint on disk, or
      nothing, if the present bytes are not on disk. */
  ghost predicate Founded(members: seq<Member>, disk: Disk, t: Terms) {
    match t.kept
    case Unpromised => !OnDisk(members, disk.images, Contents(members, disk.images))
    case Promised(p) => OnDisk(members, disk.images, p) || (p == t.orig && Guarded(disk.checkpoint))
  }

  /** From one recorded state to the next: the image files change for a reader only if the ready manifest
      was on disk; what counts as the original files changes only to what the image holds, and only while
      no ready manifest could be found; a promise changes only to one that is founded; and a ready manifest
      appears only over the present files. */
  ghost predicate Linked(members: seq<Member>, a: Disk, ta: Terms, b: Disk, tb: Terms) {
    && (Guarded(a.checkpoint) || Quiet(members, a.images, b.images))
    && (tb.orig != ta.orig ==>
          a == b && tb.kept == ta.kept && Unadvertised(b.checkpoint) && tb.orig == Contents(members, b.images))
    && (tb.kept != ta.kept ==> a == b && tb.orig == ta.orig && Founded(members, b, tb))
    && (Unadvertised(a.checkpoint) && !Unadvertised(b.checkpoint) ==>
          b.images == a.images && tb == ta && tb.orig == Contents(members, a.images))
  }

  ghost predicate Orderly(members: seq<Member>, disks: seq<Disk>, terms: seq<Terms>) {
    |disks| == |terms| && forall k :: 0 < k < |disks| ==>
      Linked(members, disks[k - 1], terms[k - 1], disks[k], terms[k])
  }

  /** What an image directory may become while a checkpoint directory stays as it is. */
  ghost predicate Allowed(members: seq<Member>, checkpoint: Dir, images: Dir, orig: Pair, kept: Promise) {
    Sound(images) && (Guarded(checkpoint) || Showing(members, images, orig, kept))
  }

  lemma AllowedIsSafe(members: seq<Member>, disk: Disk, images: Dir, orig: Pair, kept: Promise)
    requires Safe(members, disk, orig, kept) && Allowed(members, disk.checkpoint, images, orig, kept)
    ensures Safe(members, Disk(disk.checkpoint, images), orig, kept)
  {
  }

  lemma QuietToSelf(members: seq<Member>, d: Dir)
    ensures Quiet(members, d, d)
  {
  }

  /** What a restore may be relied on for at every instant: the original files stay what is backed up and,
      once a loss of power could no longer find the checkpoint, what the image holds. */
  ghost predicate Restores(before: seq<Terms>, after: seq<Terms>, orig: Pair, sure: bool) {
    && before <= after
    && forall k :: |before| <= k < |after| ==> after[k].orig == orig && (sure ==> after[k].kept == Promised(orig))
  }

  /** States were recorded under one set of terms. */
  ghost predicate Lengthened(before: seq<Terms>, after: seq<Terms>, orig: Pair, kept: Promise) {
    before <= after && forall k :: |before| <= k < |after| ==> after[k] == Terms(orig, kept)
  }

  /** One more recorded state. */
  lemma Extended(members: seq<Member>, disks: seq<Disk>, terms: seq<Terms>, disk: Disk, t: Terms)
    requires AllSafe(members, disks, terms) && Orderly(members, disks, terms) && disks != []
    requires Safe(members, disk, t.orig, t.kept)
    requires |terms| == |disks| && Linked(members, disks[|disks| - 1], terms[|disks| - 1], disk, t)
    ensures AllSafe(members, disks + [disk], terms + [t]) && Orderly(members, disks + [disk], terms + [t])
  {
  }

  /** A step of the checkpoint directory that advertises nothing new, or only the present files. */
  lemma CheckpointLinked(members: seq<Member>, a: Disk, next: Dir, t: Terms)
    requires Unadvertised(a.checkpoint) ==> Unadvertised(next) || t.orig == Contents(members, a.images)
    ensures Linked(members, a, t, Disk(next, a.images), t)
  {
  }

  lemma ImagesLinked(members: seq<Member>, a: Disk, next: Dir, t: Terms)
    requires Guarded(a.checkpoint) || Quiet(members, a.images, next)
    ensures Linked(members, a, t, Disk(a.checkpoint, next), t)
  {
  }

  lemma RetagLinked(members: seq<Member>, disk: Disk, t: Terms, next: Terms)
    requires next.orig == t.orig && (next.kept == t.kept || Founded(members, disk, next))
    ensures Linked(members, disk, t, disk, next)
  {
  }

  lemma UnlinkAdvertisesNothing(d: Dir, name: string)
    requires Unadvertised(d)
    ensures Unadvertised(Unlinked(d, name))
  {
  }

  lemma SettleAdvertisesNothing(d: Dir)
    requires Unadvertised(d)
    ensures Unadvertised(Settled(d))
  {
  }

  function BytesOf(d: Dir, target: string): seq<byte> {
    if |d.log| > 0 && target in Live(d) && Live(d)[target] in d.files then d.files[Live(d)[target]].content else []
  }

  /** What a program reading the image files sees. */
  function Contents(members: seq<Member>, d: Dir): Pair {
    seq(|members|, k requires 0 <= k < |members| => BytesOf(d, members[k].target))
  }

  lemma ContentsAreRead(members: seq<Member>, d: Dir)
    requires Sound(d) && TargetsLive(members, d)
    ensures Reads(members, d, Contents(members, d))
    ensures forall p :: Reads(members, d, p) ==> p == Contents(members, d)
  {
  }

  /** A session writes to its first file in place and to nothing else. */
  ghost predicate ChangedOnly(members: seq<Member>, began: Dir, now: Dir) {
    && Sound(began) && TargetsLive(members, began) && |members| > 0
    && (forall j, k :: 0 <= j < k < |members| ==> Live(began)[members[j].target] != Live(began)[members[k].target])
    && var inode := Live(began)[members[0].target];
       inode in now.files && now == began.(files := began.files[inode := now.files[inode]])
  }

  lemma SessionBegins(members: seq<Member>, d: Dir)
    requires Sound(d) && TargetsLive(members, d) && |members| > 0
    requires forall j, k :: 0 <= j < k < |members| ==> Live(d)[members[j].target] != Live(d)[members[k].target]
    ensures ChangedOnly(members, d, d)
  {
  }

  lemma SessionWrites(members: seq<Member>, began: Dir, now: Dir, next: Dir)
    requires ChangedOnly(members, began, now)
    requires next.log == now.log && var inode := Live(began)[members[0].target];
             inode in next.files && next.files == now.files[inode := next.files[inode]]
    ensures ChangedOnly(members, began, next) && Sound(next) && TargetsLive(members, next)
    ensures Contents(members, next) == Contents(members, now)[0 := BytesOf(next, members[0].target)]
  {
  }

  /** Once its file is synced, a session that found the image on disk leaves it on disk. */
  lemma SessionSettles(members: seq<Member>, began: Dir, now: Dir)
    requires ChangedOnly(members, began, now) && |began.log| == 1 && OnDisk(members, began, Contents(members, began))
    requires now.files[Live(began)[members[0].target]].synced
    ensures OnDisk(members, now, Contents(members, now))
  {
  }

  /** Without a ready manifest on view the image files hold what was promised. */
  lemma UnguardedKeeps(members: seq<Member>, disk: Disk, orig: Pair, kept: Promise)
    requires Safe(members, disk, orig, kept) && !Guarding(disk.checkpoint, Live(disk.checkpoint))
    ensures Keeping(members, disk.images, kept) && !Guarded(disk.checkpoint)
  {
  }

  /** While the ready manifest is on disk the promise for afterwards may still be chosen. */
  lemma GuardedAnyPromise(members: seq<Member>, disk: Disk, orig: Pair, kept: Promise, next: Promise)
    requires Safe(members, disk, orig, kept) && Guarded(disk.checkpoint)
    ensures Safe(members, disk, orig, next)
  {
  }

  /** A file being made beside the targets is allowed whatever the checkpoint shows. */
  lemma MakingAllowed(members: seq<Member>, checkpoint: Dir, before: Dir, d: Dir, name: string, inode: nat,
      orig: Pair, kept: Promise)
    requires Sound(before) && TargetsLive(members, before) && Making(before, d, name, inode)
    requires Allowed(members, checkpoint, before, orig, kept)
    ensures Allowed(members, checkpoint, d, orig, kept) && Quiet(members, before, d)
    ensures TargetsLive(members, d) && NotATarget(members, name)
  {
  }

  lemma UnlinkAllowed(members: seq<Member>, checkpoint: Dir, d: Dir, name: string, orig: Pair, kept: Promise)
    requires Sound(d) && TargetsLive(members, d) && NotATarget(members, name)
             && Allowed(members, checkpoint, d, orig, kept)
    ensures Allowed(members, checkpoint, Unlinked(d, name), orig, kept) && Quiet(members, d, Unlinked(d, name))
    ensures TargetsLive(members, Unlinked(d, name))
  {
  }

  lemma SettleAllowed(members: seq<Member>, checkpoint: Dir, d: Dir, orig: Pair, kept: Promise)
    requires Sound(d) && TargetsLive(members, d) && Allowed(members, checkpoint, d, orig, kept)
    ensures Allowed(members, checkpoint, Settled(d), orig, kept) && Quiet(members, d, Settled(d))
    ensures TargetsLive(members, Settled(d))
  {
  }

  /** Installing a staged file: free while guarded, and otherwise no change for a reader. */
  lemma RenameAllowed(members: seq<Member>, checkpoint: Dir, d: Dir, temp: string, k: nat, orig: Pair, kept: Promise)
    requires Proper(members) && Sound(d) && TargetsLive(members, d) && NotATarget(members, temp)
             && k < |members| == |orig|
    requires Allowed(members, checkpoint, d, orig, kept) && Holds(d, Live(d), temp, orig[k])
    ensures var e := Renamed(d, temp, members[k].target);
            Allowed(members, checkpoint, e, orig, kept) && TargetsLive(members, e)
                && (Guarded(checkpoint) || Quiet(members, d, e))
  {
    hide Guarded, OnDisk, Reads, Quiet;
    var e := Renamed(d, temp, members[k].target);
    assert Live(d) == d.log[|d.log| - 1];
    if !Guarded(checkpoint) {
      InstallIsQuiet(members, d, temp, k, orig, kept);
    }
  }

  lemma RenameHolds(d: Dir, temp: string, target: string)
    requires |d.log| > 0 && temp in Live(d)
    ensures forall c :: Holds(d, Live(d), temp, c) ==>
              Holds(Renamed(d, temp, target), Live(Renamed(d, temp, target)), target, c)
    ensures forall n, c :: n != temp && n != target && Holds(d, Live(d), n, c) ==>
              Holds(Renamed(d, temp, target), Live(Renamed(d, temp, target)), n, c)
  {
  }

  lemma PromiseOriginal(members: seq<Member>, disk: Disk, orig: Pair, kept: Promise)
    requires Safe(members, disk, orig, kept)
    ensures Safe(members, disk, orig, if Guarded(disk.checkpoint) then Promised(orig) else kept)
  {
  }

  lemma RetagAllowed(members: seq<Member>, checkpoint: Dir, images: Dir, orig: Pair, kept: Promise, next: Promise)
    requires Allowed(members, checkpoint, images, orig, kept)
    requires next == if Guarded(checkpoint) then Promised(orig) else kept
    ensures Allowed(members, checkpoint, images, orig, next)
  {
  }

  lemma RestoredIsSafe(members: seq<Member>, disk: Disk, orig: Pair, kept: Promise)
    requires Safe(members, disk, orig, kept) && OnDisk(members, disk.images, orig)
    ensures Safe(members, disk, orig, Promised(orig)) && Reads(members, disk.images, orig)
  {
    assert Shows(members, disk.images, disk.images.log[|disk.images.log| - 1], orig);
    assert forall k :: 0 <= k < |members| ==> Holds(disk.images, Live(disk.images), members[k].target, orig[k]);
  }

  lemma QuietThrough(members: seq<Member>, a: Dir, b: Dir, c: Dir)
    requires Quiet(members, a, b) && Quiet(members, b, c)
    ensures Quiet(members, a, c)
  {
  }

  lemma HoldsIsLive(d: Dir, name: string, content: seq<byte>)
    requires |d.log| > 0 && Holds(d, Live(d), name, content)
    ensures name in Live(d)
  {
  }

  lemma HeldNames(d: Dir, names: seq<string>)
    ensures forall n, c :: |d.log| > 0 && Holds(d, Live(d), n, c) ==> n in Live(d)
  {
  }

  lemma MakingKeepsOthers(before: Dir, d: Dir, name: string, inode: nat)
    requires Sound(before) && Making(before, d, name, inode)
    ensures forall n, c :: n != name && Holds(before, Live(before), n, c) ==> Holds(d, Live(d), n, c)
  {
  }

  function RestoreName(target: string, token: string): string {
    "." + target + ".acornfs-restore-" + token
  }

  /** A name for a staged file that no entry has; the source draws it at random. */
  method FreshName(target: string, live: View) returns (name: string)
    ensures name !in live
  {
    var token: string := *;
    name := RestoreName(target, token);
    if name in live {
      token := LongText(live.Keys);
      name := RestoreName(target, token);
      assert |name| > |token|;
    }
  }

  method LongText(names: set<string>) returns (text: string)
    ensures forall n :: n in names ==> |n| <= |text|
  {
    text := "";
    var left := names;
    while left != {}
      invariant left <= names
      invariant forall n :: n in names - left ==> |n| <= |text|
      decreases |left|
    {
      Sets.EmptyOrInhabited(left);
      var n :| n in left;
      if |n| > |text| {
        text := n;
      }
      left := left - {n};
    }
  }

  function Backups(members: seq<Member>): set<string> {
    set m | m in members :: m.backup
  }

  /** The checkpoint directory once its manifest and backups are removed for good. */
  function Emptied(members: seq<Member>, d: Dir): Dir
    requires |d.log| > 0
  {
    Dir([Live(d) - {MANIFEST} - Backups(members)], d.files)
  }

  function TotalBytes(p: Pair): nat {
    if p == [] then 0 else TotalBytes(p[..|p| - 1]) + |p[|p| - 1]|
  }

  lemma LastIsSafe(members: seq<Member>, disks: seq<Disk>, terms: seq<Terms>)
    requires AllSafe(members, disks, terms) && disks != []
    ensures |terms| == |disks| && Safe(members, disks[|disks| - 1], terms[|terms| - 1].orig, terms[|terms| - 1].kept)
  {
  }
}
