/** A writable mount as one program: the handle layer over the image, the image over the disk, and the moves the
    unmounting command watches.  What a reader saw last is what the disk holds when the command may say so. */
module Daemon {
  import opened Transactions
  import opened DurableStore
  import opened Checkpoint
  import opened SessionSteps
  import opened Sets
  import F = FuseOperations
  import H = HandleHistory
  import L = HandleLayer
  import M = MountProtocol
  import S = Sessions

  /** The files an image's bytes hold. */
  type Catalogue = seq<byte> -> map<nat, seq<byte>>

  /** The bytes after the library has stored the files given. */
  type Library = (seq<byte>, map<nat, seq<byte>>) -> seq<byte>

  /** What the library stores is what the catalogue then lists. */
  ghost predicate Faithful(files: Catalogue, store: Library) {
    forall bytes, content :: files(store(bytes, content)) == content
  }

  class MountedSession {
    const layer: F.Operations
    const world: S.World
    const protocol: M.System
    const files: Catalogue
    const store: Library

    constructor (world: S.World, protocol: M.System, files: Catalogue, store: Library, budget: nat, cache: nat,
        threshold: nat, rangedAbove: nat)
      requires world.Valid() && world.active && protocol.Valid() && Faithful(files, store) && threshold >= 2
      requires |world.members| > 0
      ensures Valid() && fresh(layer) && this.world == world && this.protocol == protocol
      ensures this.files == files && !layer.imageFailed && layer.writable
      ensures H.Shown(layer.Abs()) == H.Plain(files(Bytes()), map[])
    {
      this.world, this.protocol, this.files, this.store := world, protocol, files, store;
      var listed := files(Contents(world.members, world.imgs.State())[0]);
      layer := new F.Operations(listed, true, budget, cache, threshold, rangedAbove);
      new;
      L.NothingDirtyShowsImage(layer.Abs());
    }

    /** The bytes of the image file now. */
    function Bytes(): seq<byte>
      requires |world.members| > 0
      reads world, world.imgs
    {
      Contents(world.members, world.imgs.State())[0]
    }

    /** The disk shows the files of the image, unless the session has latched; and what the handle layer
        has pending the protocol knows to be unflushed. */
    ghost predicate Valid()
      reads this, layer, world, world.ckpt, world.imgs, protocol
    {
      && Open() && layer.Valid()
      && (!layer.imageFailed ==> files(Bytes()) == layer.image)
      && layer.dirty + layer.metadata <= protocol.s.mount.dirty
    }

    ghost predicate Open()
      reads this, world, world.ckpt, world.imgs, protocol
    {
      world.Valid() && world.active && protocol.Valid() && Faithful(files, store) && |world.members| > 0
    }

    ghost predicate Serving()
      reads this, protocol
    {
      var m := protocol.s.mount;
      m.phase == M.Serving && m.alive && !m.raised && !m.cleared
    }

    /** The session found its image on disk. */
    ghost predicate FoundOnDisk()
      reads this, world
    {
      |world.began.log| == 1 && OnDisk(world.members, world.began, world.orig)
    }

    /** The library writes the image's files through; a write that fails latches the session. */
    method StoreImage()
      requires Open() && layer.Valid()
      modifies layer`image, layer`imageFailed, world`disks, world`terms, world.imgs
      ensures Open() && layer.Valid() && (old(layer.imageFailed) ==> layer.imageFailed)
      ensures !layer.imageFailed ==> files(Bytes()) == layer.image && layer.Abs() == old(layer.Abs())
      ensures layer.dirty == old(layer.dirty) && layer.metadata == old(layer.metadata)
    {
      var content: seq<byte> := *;
      if !layer.imageFailed {
        content := store(Bytes(), layer.image);
      }
      var ok := world.Mutate(content);
      if !ok {
        layer.Latch(map[]);
      }
    }

    /** Everything pending is known to the protocol as unflushed. */
    method NotePending()
      requires Open() && Serving() && protocol.s.mount.mounted
      modifies protocol
      ensures Open() && Serving() && layer.dirty + layer.metadata <= protocol.s.mount.dirty
      ensures protocol.s.mount.mounted && protocol.s.watch == old(protocol.s.watch)
    {
      hide M.System.Valid, S.World.Valid, Faithful;
      var pending := layer.dirty + layer.metadata;
      ghost var all := pending;
      while pending != {}
        invariant Open() && Serving() && all <= pending + protocol.s.mount.dirty
        invariant protocol.s.mount.mounted && protocol.s.watch == old(protocol.s.watch)
        decreases |pending|
      {
        EmptyOrInhabited(pending);
        var inode :| inode in pending;
        protocol.DoMove(M.WriteTo(inode));
        pending := pending - {inode};
      }
    }

    /** Any history of requests: unless the session latches each is answered as an unbuffered layer would. */
    method Serve(requests: seq<H.Request>) returns (answers: seq<H.Answer>)
      requires Valid() && Serving() && protocol.s.mount.mounted
      modifies layer, world`disks, world`terms, world.imgs, protocol
      ensures Valid() && Serving() && |answers| == |requests|
      ensures protocol.s.mount.mounted && protocol.s.watch == old(protocol.s.watch)
      ensures !layer.imageFailed ==>
                && H.AllRight(H.Shown(old(layer.Abs())), layer.writable, requests, answers)
                && H.Shown(layer.Abs()) == H.After(H.Shown(old(layer.Abs())), layer.writable, requests, answers)
    {
      hide H.Right, H.Next, H.Shown, H.After, H.AllRight, Open, Serving, F.Operations.Valid;
      answers := [];
      ghost var start := H.Shown(layer.Abs());
      H.NothingAsked(start, layer.writable);
      assert requests[..0] == [];
      for i := 0 to |requests|
        invariant Valid() && Serving() && |answers| == i
        invariant protocol.s.mount.mounted && protocol.s.watch == old(protocol.s.watch)
        invariant !layer.imageFailed ==>
                    && H.AllRight(start, layer.writable, requests[..i], answers)
                    && H.Shown(layer.Abs()) == H.After(start, layer.writable, requests[..i], answers)
      {
        var a := Answer(requests[i]);
        if !layer.imageFailed {
          H.OneMore(start, layer.writable, requests, i, answers, a);
        }
        answers := answers + [a];
      }
      assert requests[..|requests|] == requests;
    }

    /** One request, with whatever it commits written through to the disk. */
    method Answer(request: H.Request) returns (a: H.Answer)
      requires Valid() && Serving() && protocol.s.mount.mounted
      modifies layer, world`disks, world`terms, world.imgs, protocol
      ensures Valid() && Serving() && (old(layer.imageFailed) ==> layer.imageFailed)
      ensures protocol.s.mount.mounted && protocol.s.watch == old(protocol.s.watch)
      ensures !layer.imageFailed ==>
                && H.Right(H.Shown(old(layer.Abs())), layer.writable, request, a)
                && H.Shown(layer.Abs()) == H.Next(H.Shown(old(layer.Abs())), layer.writable, request, a)
    {
      hide H.Right, H.Next, H.Shown, L.Sound, Faithful, S.World.Valid, M.System.Valid;
      a := H.ServeOne(layer, request);
      StoreImage();
      NotePending();
    }

    /** The mount goes away, if nobody has taken it yet, and the main loop ends. */
    method EndLoop()
      requires protocol.Valid() && Serving()
      modifies protocol
      ensures protocol.Valid() && protocol.s.mount == old(protocol.s.mount).(phase := M.Leaving, mounted := false)
      ensures protocol.s.watch == old(protocol.s.watch)
    {
      hide M.System.Valid;
      if protocol.s.mount.mounted {
        protocol.DoMove(M.KernelUnmount);
      }
      protocol.DoMove(M.MainEnds(M.Unmounted));
    }

    method Detach(flushed: bool) returns (raised: bool)
      requires protocol.Valid() && protocol.s.mount.phase == M.Leaving && protocol.s.mount.alive
      modifies protocol
      ensures protocol.Valid() && protocol.s.mount.phase == M.Detached && protocol.s.mount.alive
      ensures raised == protocol.s.mount.raised && protocol.s.mount.cleared == old(protocol.s.mount.cleared)
      ensures !flushed ==> raised
      ensures protocol.s.watch == old(protocol.s.watch)
    {
      hide M.System.Valid;
      protocol.DoMove(M.Flush(flushed));
      var ok: bool := *;
      protocol.DoMove(M.CloseFuse(ok));
      raised := protocol.s.mount.raised;
    }

    /** Everything pending is committed and written through. */
    method StoreLast(data: nat -> F.ImageOutcome, meta: nat -> F.ImageOutcome) returns (ok: bool)
      requires Open() && layer.Valid()
      modifies layer, world`disks, world`terms, world.imgs
      ensures Open() && layer.Valid() && (ok ==> !layer.imageFailed && !old(layer.imageFailed))
      ensures ok ==> files(Bytes()) == L.View(old(layer.Abs()))
    {
      hide L.Sound, L.View, M.System.Valid, S.World.Valid, Faithful;
      var flushed := layer.FlushPending(data, meta);
      StoreImage();
      ok := flushed && !layer.imageFailed;
    }

    /** What the closing of the image did, in the protocol's moves. */
    method EndProtocol(kept: bool, gone: bool, tidy: bool)
      requires protocol.Valid() && protocol.s.mount.phase == M.Detached && protocol.s.mount.alive
      requires !protocol.s.mount.cleared && (protocol.s.mount.raised || kept ==> !gone)
      modifies protocol
      ensures protocol.Valid() && protocol.s.mount.phase == M.Closed && (protocol.s.mount.cleared <==> gone)
      ensures protocol.s.mount.alive && protocol.s.watch == old(protocol.s.watch)
    {
      hide M.System.Valid;
      protocol.DoMove(M.Judge(!kept));
      if protocol.s.mount.phase == M.Judged {
        protocol.DoMove(M.Unlink(gone));
        if gone {
          protocol.DoMove(M.Tidy(tidy));
        }
      }
    }

    lemma GuardedHasManifest(d: Dir)
      requires |d.log| > 0 && Guarded(d)
      ensures MANIFEST in Live(d)
    {
      assert Guarding(d, d.log[|d.log| - 1]);
    }

    lemma Survives(p: Pair)
      requires OnDisk(world.members, world.imgs.State(), p)
      ensures forall e :: CrashOf(world.imgs.State(), e) ==> Reads(world.members, e, p)
    {
      forall e | CrashOf(world.imgs.State(), e)
        ensures Reads(world.members, e, p)
      {
        OnDiskAfterCrash(world.members, world.imgs.State(), e, p);
      }
    }

    /** Close the image: the manifest goes only after a clean flush and validation. */
    method CloseImage(clean: bool, valid: bool) returns (r: CloseResult, gone: bool)
      requires world.Valid() && world.active && |world.members| > 0
      modifies world, world.imgs, world.ckpt
      ensures world.Valid() && (gone <==> MANIFEST !in Live(world.ckpt.State()))
      ensures r.Retained? ==> !gone
      ensures gone ==> clean && valid
      ensures Contents(world.members, world.imgs.State()) == old(Contents(world.members, world.imgs.State()))
      ensures gone && old(FoundOnDisk()) ==>
                forall e :: CrashOf(world.imgs.State(), e) ==>
                  Reads(world.members, e, Contents(world.members, world.imgs.State()))
    {
      hide Contents, OnDisk, Guarded, CrashOf, Reads;
      r := world.Close(clean, valid);
      gone := MANIFEST !in Live(world.ckpt.State());
      if r.Retained? {
        GuardedHasManifest(world.ckpt.State());
      }
      if gone && old(FoundOnDisk()) {
        Survives(Contents(world.members, world.imgs.State()));
      }
    }

    /** The main loop has ended: flush, detach, close the image.  If a clean close removed the manifest then the
        image file holds what readers saw last, and so it does after any loss of power. */
    method Leave(data: nat -> F.ImageOutcome, meta: nat -> F.ImageOutcome)
      requires Valid() && Serving()
      modifies layer, world, world.imgs, world.ckpt, protocol
      ensures protocol.Valid() && world.Valid() && protocol.s.mount.phase == M.Closed && |world.members| > 0
      ensures protocol.s.mount.alive && protocol.s.watch == old(protocol.s.watch)
      ensures protocol.s.mount.cleared <==> MANIFEST !in Live(world.ckpt.State())
      ensures protocol.s.mount.cleared ==> !old(layer.imageFailed) && files(Bytes()) == L.View(old(layer.Abs()))
      ensures protocol.s.mount.cleared && old(FoundOnDisk()) ==>
                forall e :: CrashOf(world.imgs.State(), e) ==>
                  Reads(world.members, e, Contents(world.members, world.imgs.State()))
    {
      hide L.Sound, L.View, S.World.Valid, OnDisk, CrashOf, Reads, M.System.Valid, Faithful, F.Operations.Valid;
      EndLoop();
      var flushed := StoreLast(data, meta);
      var raised := Detach(flushed);
      var validated: bool := *;
      var r, gone := CloseImage(!raised, validated && !layer.imageFailed);
      EndProtocol(r.Retained?, gone, r.Completed?);
    }

    /** The command finds the mount and asks the kernel to take it away. */
    method AskToUnmount()
      requires protocol.Valid() && Serving() && protocol.s.watch == M.Idle
      modifies protocol
      ensures protocol.Valid() && Serving() && protocol.s.mount.dirty == old(protocol.s.mount.dirty)
      ensures protocol.s.watch == M.Waiting || protocol.s.watch == M.Failed
    {
      hide M.System.Valid;
      protocol.Do(M.Command(M.FindMount));
      if protocol.s.watch == M.Found {
        var ok: bool := *;
        protocol.Do(M.Command(M.Detach(ok)));
      }
    }

    /** The daemon ends, and the command looks whether the manifest is gone. */
    method Verdict() returns (success: bool)
      requires protocol.Valid() && protocol.s.mount.phase == M.Closed && protocol.s.mount.alive
      requires protocol.s.watch == M.Waiting || protocol.s.watch == M.Failed
      modifies protocol
      ensures protocol.Valid() && protocol.s.mount.cleared == old(protocol.s.mount.cleared)
      ensures success <==> old(protocol.s.watch) == M.Waiting && protocol.s.mount.cleared
    {
      hide M.Possible, M.Final;
      var ok: bool := *;
      protocol.DoMove(M.Unregister(ok));
      protocol.DoMove(M.Die);
      if protocol.s.watch == M.Waiting {
        protocol.Do(M.Command(M.Poll));
        protocol.Do(M.Command(M.Inspect));
      }
      success := protocol.s.watch == M.Succeeded;
    }

    /** A whole session: any history of requests, the unmounting command, the way out.  If the command reports
        success, every request was answered as an unbuffered layer would have, and the image file holds,
        through any loss of power, exactly the files such a layer would have ended with. */
    method Run(requests: seq<H.Request>, data: nat -> F.ImageOutcome, meta: nat -> F.ImageOutcome)
      returns (answers: seq<H.Answer>, success: bool)
      requires Valid() && Serving() && protocol.s.mount.mounted && protocol.s.watch == M.Idle
      modifies layer, world, world.imgs, world.ckpt, protocol
      ensures protocol.Valid() && world.Valid() && |answers| == |requests| && |world.members| > 0
      ensures success ==>
                && MANIFEST !in Live(world.ckpt.State())
                && H.AllRight(H.Shown(old(layer.Abs())), layer.writable, requests, answers)
                && files(Bytes()) == H.After(H.Shown(old(layer.Abs())), layer.writable, requests, answers).files
      ensures success && old(FoundOnDisk()) ==>
                forall e :: CrashOf(world.imgs.State(), e) ==>
                  Reads(world.members, e, Contents(world.members, world.imgs.State()))
    {
      hide H.AllRight, H.After, F.Operations.Valid, M.System.Valid, S.World.Valid, Faithful, OnDisk, CrashOf, Reads;
      answers := Serve(requests);
      AskToUnmount();
      Leave(data, meta);
      success := Verdict();
    }
  }
}
