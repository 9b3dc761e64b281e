/** The FUSE handle layer: shared write buffers, pending metadata and read-ahead, invisible to readers. */
module FuseOperations {
  import opened Options
  import opened Lists
  import opened Transactions
  import opened ReadAhead
  import opened HandleLayer
  import opened Sets

  /** How an image mutation asked for by this layer ends. */
  datatype ImageOutcome =
    | Commits
    | RollsBack
    | Latches(garbage: map<nat, seq<byte>>)

  datatype Reply<T> = Ok(value: T) | BadHandle | NoSuchInode | ReadOnly | NotPermitted | Busy | IoError

  /** `data[offset..]` overwritten by `piece`, zero-filled up to the offset where needed. */
  function Spliced(data: seq<byte>, offset: nat, piece: seq<byte>): seq<byte> {
    var base := Resized(data, if offset + |piece| > |data| then offset + |piece| else |data|);
    base[..offset] + piece + base[offset + |piece|..]
  }

  function Resized(data: seq<byte>, size: nat): (r: seq<byte>)
    ensures |r| == size
  {
    if size <= |data| then data[..size] else data + seq(size - |data|, _ => 0)
  }

  /** What a write must leave: the piece at its offset, the old bytes on both sides of it, and zeros where the
      file was too short to reach it. */
  predicate Overwritten(before: seq<byte>, offset: nat, piece: seq<byte>, after: seq<byte>) {
    && |after| == (if offset + |piece| > |before| then offset + |piece| else |before|)
    && (forall k :: offset <= k < offset + |piece| ==> after[k] == piece[k - offset])
    && (forall k :: 0 <= k < |before| && !(offset <= k < offset + |piece|) ==> after[k] == before[k])
    && (forall k :: |before| <= k < offset ==> after[k] == 0)
  }

  /** What a change of size must leave: the old bytes as far as both go, and zeros beyond. */
  predicate Cut(before: seq<byte>, size: nat, after: seq<byte>) {
    && |after| == size
    && (forall k :: 0 <= k < size && k < |before| ==> after[k] == before[k])
    && (forall k :: |before| <= k < size ==> after[k] == 0)
  }

  lemma ResizedIsCut(data: seq<byte>, size: nat)
    ensures Cut(data, size, Resized(data, size))
  {
  }

  lemma SplicedIsOverwritten(data: seq<byte>, offset: nat, piece: seq<byte>)
    ensures Overwritten(data, offset, piece, Spliced(data, offset, piece))
  {
    ResizedIsCut(data, if offset + |piece| > |data| then offset + |piece| else |data|);
  }

  class Operations {
    const writable: bool
    const readAheadLimit: nat
    const cacheLimit: nat
    const threshold: nat
    /** Files larger than this are read by sector range. */
    const rangedAbove: nat

    /** The image below: its live files, and whether its session has latched. */
    var image: map<nat, seq<byte>>
    var imageFailed: bool

    var writeBuffers: map<nat, seq<byte>>
    var dirty: set<nat>
    var metadata: set<nat>
    var handles: map<nat, nat>
    var readStates: map<nat, ReadState>
    var lru: seq<nat>
    var readAheadSize: int
    var nextHandle: nat

    ghost function Ahead(): Buffers
      reads this
    {
      Buffers(readStates, lru, readAheadSize)
    }

    ghost function Abs(): Layer
      reads this
    {
      Layer(image, imageFailed, writeBuffers, dirty, metadata, handles, Ahead(), nextHandle)
    }

    ghost predicate Valid()
      reads this
    {
      Sound(Abs(), cacheLimit)
    }

    constructor (files: map<nat, seq<byte>>, writable: bool, readAheadBytes: nat, cacheBytes: nat, threshold: nat,
        rangedAbove: nat)
      requires threshold >= 2
      ensures Valid() && this.writable == writable
      ensures Abs() == Layer(files, false, map[], {}, {}, map[], Buffers(map[], [], 0), 1)
    {
      this.writable := writable;
      readAheadLimit, cacheLimit := if readAheadBytes <= cacheBytes then readAheadBytes else cacheBytes, cacheBytes;
      this.threshold, this.rangedAbove := threshold, rangedAbove;
      image, imageFailed := files, false;
      writeBuffers, dirty, metadata := map[], {}, {};
      handles, readStates, lru, readAheadSize, nextHandle := map[], map[], [], 0, 1;
    }

    // ---- read-ahead -----------------------------------------------------------------------------

    method ClearReadAhead(fh: nat)
      modifies this`readStates, this`lru, this`readAheadSize
      ensures Ahead() == Clear(old(Ahead()), fh)
    {
      if fh !in readStates {
        return;
      }
      readAheadSize := readAheadSize - |readStates[fh].buffer|;
      readStates := readStates[fh := Cleared(readStates[fh])];
      lru := Without(lru, fh);
    }

    method ClearInodeReadAhead(inode: nat)
      requires handles.Keys == readStates.Keys && Exact(Ahead())
      modifies this`readStates, this`lru, this`readAheadSize
      ensures Exact(Ahead()) && Shrunk(old(Ahead()), Ahead()) && readAheadSize <= old(readAheadSize)
      ensures NoneHeld(readStates, handles, handles.Keys, inode)
    {
      var remaining := handles.Keys;
      ghost var done, start := {}, Ahead();
      while remaining != {}
        invariant done + remaining == handles.Keys
        invariant Exact(Ahead()) && Shrunk(start, Ahead()) && readAheadSize <= start.size
        invariant NoneHeld(readStates, handles, done, inode)
        decreases |remaining|
      {
        EmptyOrInhabited(remaining);
        var fh :| fh in remaining;
        assert fh in readStates && fh in handles;
        ClearOneMore(start, Ahead(), handles, done, fh, inode);
        if handles[fh] == inode {
          ClearReadAhead(fh);
        }
        MoveOne(done, remaining, fh);
        remaining, done := remaining - {fh}, done + {fh};
      }
      assert done == handles.Keys;
    }

    method StoreReadAhead(fh: nat, offset: nat, data: seq<byte>)
      requires fh in readStates && Exact(Ahead()) && readAheadSize <= cacheLimit
      modifies this`readStates, this`lru, this`readAheadSize
      ensures Ahead() == Store(old(Ahead()), fh, offset, data, cacheLimit)
    {
      ClearKeepsExact(Ahead(), fh);
      ClearReadAhead(fh);
      var keep := Min(|data|, cacheLimit);
      if keep == 0 {
        return;
      }
      ghost var cleared := Ahead();
      EvictMakesRoom(cleared, keep, cacheLimit);
      while readAheadSize + keep > cacheLimit
        invariant Exact(Ahead()) && Evict(Ahead(), keep, cacheLimit) == Evict(cleared, keep, cacheLimit)
        decreases |lru|
      {
        EvictStep(Ahead(), keep, cacheLimit);
        ClearReadAhead(lru[0]);
      }
      readStates := readStates[fh := Filled(readStates[fh], offset, data[..keep])];
      readAheadSize := readAheadSize + keep;
      lru := lru + [fh];
    }

    method ConsumeReadAhead(fh: nat, offset: nat, size: nat) returns (result: Option<seq<byte>>)
      requires fh in readStates && readStates[fh].position <= |readStates[fh].buffer|
      modifies this`readStates, this`lru, this`readAheadSize
      ensures (Ahead(), result) == Consume(old(Ahead()), fh, offset, size)
    {
      var s := readStates[fh];
      if s.buffer == [] {
        return None;
      }
      var available := |s.buffer| - s.position;
      if offset != s.bufferOffset || size > available {
        ClearReadAhead(fh);
        return None;
      }
      result := Some(s.buffer[s.position..s.position + size]);
      readStates := readStates[fh := Used(s, size)];
      if s.position + size < |s.buffer| {
        lru := Without(lru, fh) + [fh];
      } else {
        ClearReadAhead(fh);
      }
    }

    // ---- opening, reading, writing ----------------------------------------------------------------

    method NewHandle(inode: nat) returns (fh: nat)
      requires Valid() && inode in image
      modifies this`handles, this`readStates, this`nextHandle
      ensures Valid() && fh == old(nextHandle) && fh !in old(handles) && Abs() == WithHandle(old(Abs()), inode)
      ensures View(Abs()) == View(old(Abs()))
    {
      hide AllFresh, CleanBuffersMatch, Exact;
      HandleKeepsSound(Abs(), cacheLimit, inode);
      fh := nextHandle;
      nextHandle := nextHandle + 1;
      handles := handles[fh := inode];
      readStates := readStates[fh := NEW_STATE];
    }

    /** Give an inode its shared buffer; what readers see does not change. */
    method WriteBuffer(inode: nat)
      requires Valid() && inode in image
      modifies this`writeBuffers, this`readStates, this`lru, this`readAheadSize
      ensures Valid() && View(Abs()) == View(old(Abs()))
      ensures writeBuffers == if inode in old(writeBuffers) then old(writeBuffers)
                              else old(writeBuffers)[inode := image[inode]]
      ensures NoneHeld(readStates, handles, handles.Keys, inode)
    {
      if inode in writeBuffers {
        BufferedHoldsNone(Abs(), cacheLimit, inode);
        return;
      }
      ghost var before := Abs();
      ClearInodeReadAhead(inode);
      ShrinkKeepsSound(before, cacheLimit, Ahead());
      ghost var l1 := Abs();
      assert l1 == before.(ahead := Ahead());
      SetBufferKeepsSound(l1, cacheLimit, inode, image[inode], false);
      FreshBufferShowsSame(l1, inode);
      writeBuffers := writeBuffers[inode := image[inode]];
      assert Abs() == l1.(writeBuffers := l1.writeBuffers[inode := image[inode]], dirty := l1.dirty);
    }

    method Open(inode: nat, wantsWrite: bool, truncate: bool, locked: bool) returns (reply: Reply<nat>)
      requires Valid()
      modifies this`writeBuffers, this`dirty, this`handles, this`readStates, this`lru,
               this`readAheadSize, this`nextHandle
      ensures Valid()
      ensures reply.Ok? <==> inode in image && (wantsWrite ==> writable && !locked)
      ensures reply == NoSuchInode <==> inode !in image
      ensures reply == ReadOnly <==> inode in image && wantsWrite && !writable
      ensures reply == NotPermitted <==> inode in image && wantsWrite && writable && locked
      ensures reply.Ok? ==> reply.value !in old(handles) && handles == old(handles)[reply.value := inode]
      ensures !reply.Ok? ==> handles == old(handles)
      ensures View(Abs()) == if reply.Ok? && wantsWrite
              && truncate then View(old(Abs()))[inode := []] else View(old(Abs()))
    {
      if inode !in image {
        return NoSuchInode;
      }
      if wantsWrite && !writable {
        return ReadOnly;
      }
      if wantsWrite && locked {
        return NotPermitted;
      }
      if wantsWrite {
        WriteBuffer(inode);
        if truncate {
          Dirty(inode, []);
        }
      }
      var fh := NewHandle(inode);
      reply := Ok(fh);
    }

    /** A read returns exactly the requested slice of what the inode shows, whichever way it is served. */
    method Read(fh: nat, offset: nat, size: nat) returns (reply: Reply<seq<byte>>)
      requires Valid()
      modifies this`readStates, this`lru, this`readAheadSize
      ensures Valid() && View(Abs()) == View(old(Abs()))
      ensures fh !in handles ==> reply == BadHandle
      ensures fh in handles ==> handles[fh] in image && reply.Ok?
      ensures fh in handles && (!imageFailed || handles[fh] in writeBuffers) ==>
                reply.value == Slice(Visible(Abs(), handles[fh]), offset, offset + size)
    {
      hide AllFresh, CleanBuffersMatch, Exact, Slice, Clear, Consume;
      if fh !in handles {
        return BadHandle;
      }
      var inode := handles[fh];
      if inode in writeBuffers {
        ClearedKeepsSound(Abs(), cacheLimit, fh);
        ClearReadAhead(fh);
        return Ok(Slice(writeBuffers[inode], offset, offset + size));
      }
      if size == 0 {
        EmptySlice(image[inode], offset);
        return Ok([]);
      }
      ghost var before := Abs();
      PositionInBuffer(before, cacheLimit, fh);
      ConsumeIsFaithful(before, cacheLimit, fh, offset, size);
      var prefetched := ConsumeReadAhead(fh, offset, size);
      if prefetched.Some? {
        return Ok(prefetched.value);
      }
      var data := Fetch(fh, offset, size);
      reply := Ok(data);
    }

    /** How much to ask of the image: more than requested once the handle reads on sequentially. */
    method ReadSize(length: nat, sequential: nat, offset: nat, size: nat) returns (readSize: nat)
      ensures readSize >= size || offset + readSize >= length
      ensures sequential < threshold || readAheadLimit == 0 || cacheLimit == 0 || length <= rangedAbove ==>
                readSize == size
      ensures sequential >= threshold && readAheadLimit > 0 && cacheLimit > 0 && length > rangedAbove ==>
                && readSize <= size + readAheadLimit && (offset >= length ==> readSize == 0)
                && (offset < length ==> offset + readSize <= length)
                && (readSize == size + readAheadLimit || offset + readSize >= length)
    {
      readSize := size;
      if sequential >= threshold && readAheadLimit > 0 && cacheLimit > 0 && length > rangedAbove {
        var remaining := if length > offset then length - offset else 0;
        readSize := Min(size + readAheadLimit, remaining);
      }
    }

    /** Read from the image, keeping what was read beyond the request. */
    method Fetch(fh: nat, offset: nat, size: nat) returns (result: seq<byte>)
      requires Valid() && fh in handles && handles[fh] !in writeBuffers && size > 0
      modifies this`readStates, this`lru, this`readAheadSize
      ensures Valid() && View(Abs()) == View(old(Abs())) && result == Slice(image[handles[fh]], offset, offset + size)
    {
      var content := image[handles[fh]];
      var sequential := if readStates[fh].nextOffset == Some(offset) then readStates[fh].sequential + 1 else 1;
      var readSize := ReadSize(|content|, sequential, offset, size);
      var data := Slice(content, offset, offset + readSize);
      result := data[..Min(size, |data|)];
      SliceOfSlice(content, offset, size, readSize);
      Remember(fh, sequential, offset, readSize, |result|);
    }

    method Remember(fh: nat, sequential: nat, offset: nat, readSize: nat, taken: nat)
      requires Valid() && fh in handles && handles[fh] in image && handles[fh] !in writeBuffers
      requires taken <= |Slice(image[handles[fh]], offset, offset + readSize)|
      modifies this`readStates, this`lru, this`readAheadSize
      ensures Valid() && View(Abs()) == View(old(Abs()))
    {
      hide AllFresh, CleanBuffersMatch, Exact, Slice, Store, View;
      var next := readStates[fh].(sequential := sequential, nextOffset := Some(offset + taken));
      ghost var l0 := Abs();
      StateKeepsSound(l0, cacheLimit, fh, next);
      readStates := readStates[fh := next];
      ghost var l1 := Abs();
      assert l1 == l0.(ahead := WithState(l0.ahead, fh, next));
      StoreIsFaithful(l1, cacheLimit, fh, offset, readSize, taken);
      StoreReadAhead(fh, offset + taken, Slice(image[handles[fh]], offset, offset + readSize)[taken..]);
      assert Abs() == l1.(ahead := Ahead());
    }

    /** Change an inode's shared buffer and mark it dirty. */
    method Dirty(inode: nat, data: seq<byte>)
      requires Valid() && inode in image && NoneHeld(readStates, handles, handles.Keys, inode)
      modifies this`writeBuffers, this`dirty
      ensures Valid() && View(Abs()) == View(old(Abs()))[inode := data]
      ensures writeBuffers == old(writeBuffers)[inode := data] && dirty == old(dirty) + {inode}
    {
      SetBufferKeepsSound(Abs(), cacheLimit, inode, data, true);
      writeBuffers := writeBuffers[inode := data];
      dirty := dirty + {inode};
    }

    method Write(fh: nat, offset: nat, piece: seq<byte>, preflightOk: bool) returns (reply: Reply<nat>)
      requires Valid()
      modifies this`writeBuffers, this`dirty, this`readStates, this`lru, this`readAheadSize
      ensures Valid()
      ensures reply.Ok? <==> writable && fh in handles && handles[fh] in old(writeBuffers)
                             && (offset + |piece| > |old(writeBuffers)[handles[fh]]| ==> preflightOk)
      ensures reply.Ok? ==>
                && reply.value == |piece| && dirty == old(dirty) + {handles[fh]} && handles[fh] in View(old(Abs()))
                && View(Abs()) == View(old(Abs()))[handles[fh] :=
                                    Spliced(View(old(Abs()))[handles[fh]], offset, piece)]
      ensures reply.Ok? ==>
                && View(Abs()).Keys == View(old(Abs())).Keys
                && Overwritten(View(old(Abs()))[handles[fh]], offset, piece, View(Abs())[handles[fh]])
                && forall i :: i in View(Abs()) && i != handles[fh] ==> View(Abs())[i] == View(old(Abs()))[i]
      ensures reply == ReadOnly <==> !writable
      ensures reply == BadHandle <==> writable && (fh !in handles || handles[fh] !in old(writeBuffers))
      ensures !reply.Ok? ==> View(Abs()) == View(old(Abs())) && dirty == old(dirty)
    {
      hide AllFresh, CleanBuffersMatch, Exact, Overwritten, Spliced, Shrunk;
      if !writable {
        return ReadOnly;
      }
      if fh !in handles {
        return BadHandle;
      }
      var inode := handles[fh];
      ghost var before := Abs();
      ClearInodeReadAhead(inode);
      ShrinkKeepsSound(before, cacheLimit, Ahead());
      if inode !in writeBuffers {
        return BadHandle;
      }
      var data := writeBuffers[inode];
      if offset + |piece| > |data| && !preflightOk {
        return IoError;
      }
      var patched := Patch(data, offset, piece);
      SplicedIsOverwritten(data, offset, piece);
      Dirty(inode, patched);
      reply := Ok(|piece|);
    }

    // ---- commits --------------------------------------------------------------------------------

    /** What readers are shown is the same: everything as long as the image has not latched, and what a
        shared buffer serves even then. */
    twostate predicate SameView()
      reads this
    {
      && (imageFailed || View(Abs()) == old(View(Abs())))
      && forall i :: i in writeBuffers && i in old(writeBuffers) ==> writeBuffers[i] == old(writeBuffers)[i]
    }

    /** A shared buffer that went was clean: the image holds its bytes. */
    twostate predicate DroppedAreStored()
      reads this
    {
      !imageFailed ==> forall i :: i in old(writeBuffers) && i !in writeBuffers && i in image ==>
          image[i] == old(writeBuffers)[i]
    }

    /** The image session latches; from here on its contents are unknown. */
    method Latch(garbage: map<nat, seq<byte>>)
      requires Valid()
      modifies this`image, this`imageFailed
      ensures Valid() && imageFailed && image.Keys == old(image).Keys
    {
      var after := map i | i in image :: if i in garbage then garbage[i] else image[i];
      LatchKeepsSound(Abs(), cacheLimit, after);
      image, imageFailed := after, true;
    }

    /** Write one dirty buffer through.  Only success makes it clean. */
    method CommitBuffer(inode: nat, outcome: ImageOutcome) returns (ok: bool)
      requires Valid()
      modifies this`image, this`imageFailed, this`dirty, this`writeBuffers
      ensures Valid() && image.Keys == old(image).Keys && (old(imageFailed) ==> imageFailed)
      ensures ok <==> inode !in old(dirty) || (inode in image && !old(imageFailed) && outcome.Commits?)
      ensures dirty == if ok then old(dirty) - {inode} else old(dirty)
      ensures imageFailed == (old(imageFailed) || (!ok && inode in image && outcome.Latches?))
      ensures SameView()
      ensures ok && inode in old(dirty) ==> image == old(image)[inode := old(writeBuffers)[inode]]
      ensures !(ok && inode in old(dirty)) && !imageFailed ==> image == old(image)
      ensures writeBuffers == if ok && inode in old(dirty) && inode !in handles.Values then
                old(writeBuffers) - {inode} else old(writeBuffers)
    {
      hide AllFresh, CleanBuffersMatch, Exact;
      if inode !in dirty {
        return true;
      }
      if inode !in image || imageFailed {
        return false;
      }
      match outcome {
        case Commits =>
          CommitKeepsSound(Abs(), cacheLimit, inode, inode in handles.Values);
          image := image[inode := writeBuffers[inode]];
          dirty := dirty - {inode};
          if inode !in handles.Values {
            writeBuffers := writeBuffers - {inode};
          }
          ok := true;
        case RollsBack =>
          ok := false;
        case Latches(garbage) =>
          Latch(garbage);
          ok := false;
      }
    }

    /** Write pending metadata of one inode through. */
    method CommitMetadata(inode: nat, outcome: ImageOutcome) returns (ok: bool)
      requires Valid()
      modifies this`image, this`imageFailed, this`metadata
      ensures Valid() && image.Keys == old(image).Keys && (old(imageFailed) ==> imageFailed)
      ensures ok <==> inode !in old(metadata) || (inode in image && !old(imageFailed) && outcome.Commits?)
      ensures metadata == if ok then old(metadata) - {inode} else old(metadata)
      ensures imageFailed == (old(imageFailed) || (!ok && inode in image && outcome.Latches?))
      ensures SameView() && (!imageFailed ==> image == old(image))
    {
      hide AllFresh, CleanBuffersMatch, Exact;
      if inode !in metadata {
        return true;
      }
      if inode !in image || imageFailed {
        return false;
      }
      match outcome {
        case Commits =>
          PendingMetadataIsApart(Abs(), cacheLimit, metadata - {inode});
          metadata := metadata - {inode};
          ok := true;
        case RollsBack =>
          ok := false;
        case Latches(garbage) =>
          Latch(garbage);
          ok := false;
      }
    }

    method Flush(fh: nat, data: ImageOutcome, meta: ImageOutcome) returns (ok: bool)
      requires Valid()
      modifies this`image, this`imageFailed, this`dirty, this`writeBuffers, this`metadata
      ensures Valid() && image.Keys == old(image).Keys && SameView() && (old(imageFailed) ==> imageFailed)
      ensures ok ==> fh in handles && handles[fh] !in dirty && handles[fh] !in metadata
      ensures ok <==> fh in handles
                      && (handles[fh] in old(dirty) ==> handles[fh] in image && !old(imageFailed) && data.Commits?)
                      && (handles[fh] in old(metadata) ==> handles[fh] in image && !old(imageFailed) && meta.Commits?)
      ensures ok && !imageFailed && handles[fh] in writeBuffers ==> image[handles[fh]] == writeBuffers[handles[fh]]
      ensures dirty <= old(dirty) && metadata <= old(metadata) && writeBuffers == old(writeBuffers)
      ensures !ok && fh in handles ==> handles[fh] in old(dirty) || handles[fh] in old(metadata)
    {
      hide AllFresh, CleanBuffersMatch, Exact, View;
      if fh !in handles {
        return false;
      }
      ok := CommitBuffer(handles[fh], data);
      if ok {
        ok := CommitMetadata(handles[fh], meta);
        CleanIsStored(Abs(), cacheLimit, handles[fh]);
      }
    }

    /** Flush, and only when that succeeded give the handle up; the last handle drops the buffer. */
    method Release(fh: nat, data: ImageOutcome, meta: ImageOutcome) returns (ok: bool)
      requires Valid()
      modifies this
      ensures Valid() && image.Keys == old(image).Keys && SameView() && (old(imageFailed) ==> imageFailed)
      ensures ok ==> fh in old(handles) && handles == old(handles) - {fh}
      ensures ok <==> fh in old(handles) && var i := old(handles)[fh];
                && (i in old(dirty) ==> i in image && !old(imageFailed) && data.Commits?)
                && (i in old(metadata) ==> i in image && !old(imageFailed) && meta.Commits?)
      ensures ok ==> old(handles)[fh] !in dirty && old(handles)[fh] !in metadata
      ensures !ok ==> handles == old(handles) && writeBuffers == old(writeBuffers)
      ensures ok ==> writeBuffers == if old(handles)[fh] in handles.Values then old(writeBuffers)
                                         else old(writeBuffers) - {old(handles)[fh]}
      ensures DroppedAreStored()
    {
      hide AllFresh, CleanBuffersMatch, Exact;
      ok := Flush(fh, data, meta);
      if !ok {
        return;
      }
      DropHandle(fh);
    }

    /** Give a flushed handle up, and the shared buffer with the last one. */
    method DropHandle(fh: nat)
      requires Valid() && fh in handles && handles[fh] !in dirty
      modifies this`handles, this`readStates, this`lru, this`readAheadSize, this`writeBuffers
      ensures Valid() && SameView() && handles == old(handles) - {fh}
      ensures writeBuffers == if old(handles)[fh] in handles.Values then old(writeBuffers)
                              else old(writeBuffers) - {old(handles)[fh]}
    {
      hide AllFresh, CleanBuffersMatch, Exact;
      var inode := handles[fh];
      var drop := inode !in (handles - {fh}).Values;
      ReleaseKeepsSound(Abs(), cacheLimit, fh, drop);
      handles := handles - {fh};
      ClearReadAhead(fh);
      readStates := readStates - {fh};
      if drop {
        writeBuffers := writeBuffers - {inode};
      }
    }

    // ---- flushing everything at shutdown --------------------------------------------------------------

    method FlushData(data: nat -> ImageOutcome) returns (ok: bool)
      requires Valid()
      modifies this`image, this`imageFailed, this`dirty, this`writeBuffers
      ensures Valid() && SameView() && image.Keys == old(image).Keys && (old(imageFailed) ==> imageFailed)
      ensures ok ==> dirty == {} && old(dirty) <= image.Keys
      ensures !old(imageFailed) && (forall i :: data(i).Commits?) ==> !imageFailed && (ok <==> old(dirty) <= image.Keys)
    {
      hide AllFresh, CleanBuffersMatch, Exact;
      var pending := dirty;
      while pending != {}
        invariant Valid() && SameView() && image.Keys == old(image).Keys && (old(imageFailed) ==> imageFailed)
        invariant dirty == pending <= old(dirty) && old(dirty) <= pending + image.Keys
        invariant !old(imageFailed) && (forall i :: data(i).Commits?) ==> !imageFailed
        decreases |pending|
      {
        EmptyOrInhabited(pending);
        var inode :| inode in pending;
        ok := CommitBuffer(inode, data(inode));
        if !ok {
          return;
        }
        pending := pending - {inode};
      }
      ok := true;
    }

    method FlushMetadata(meta: nat -> ImageOutcome) returns (ok: bool)
      requires Valid()
      modifies this`image, this`imageFailed, this`metadata
      ensures Valid() && SameView() && image.Keys == old(image).Keys && (!imageFailed ==> image == old(image))
      ensures old(imageFailed) ==> imageFailed
      ensures ok ==> metadata == {} && old(metadata) <= image.Keys
      ensures !old(imageFailed) && (forall i :: meta(i).Commits?) ==>
                !imageFailed && (ok <==> old(metadata) <= image.Keys)
    {
      hide AllFresh, CleanBuffersMatch, Exact;
      var pending := metadata;
      while pending != {}
        invariant Valid() && SameView() && image.Keys == old(image).Keys
        invariant (old(imageFailed) ==> imageFailed) && (!imageFailed ==> image == old(image))
        invariant metadata == pending <= old(metadata) && old(metadata) <= pending + image.Keys
        invariant !old(imageFailed) && (forall i :: meta(i).Commits?) ==> !imageFailed
        decreases |pending|
      {
        EmptyOrInhabited(pending);
        var inode :| inode in pending;
        ok := CommitMetadata(inode, meta(inode));
        if !ok {
          return;
        }
        pending := pending - {inode};
      }
      ok := true;
    }

    /** Commit every dirty buffer and every pending metadata update.  Success leaves nothing pending and
        the image equal to what was visible; absent image faults it succeeds exactly when every pending
        inode is still in the image. */
    method FlushPending(data: nat -> ImageOutcome, meta: nat -> ImageOutcome) returns (ok: bool)
      requires Valid()
      modifies this`image, this`imageFailed, this`dirty, this`writeBuffers, this`metadata
      ensures Valid() && SameView() && image.Keys == old(image).Keys && (old(imageFailed) ==> imageFailed)
      ensures ok ==> dirty == {} && metadata == {}
      ensures ok && !imageFailed ==> image == View(old(Abs())) && View(Abs()) == View(old(Abs()))
      ensures !old(imageFailed) && (forall i :: data(i).Commits?) && (forall i :: meta(i).Commits?) ==>
                !imageFailed && (ok <==> old(dirty) <= old(image).Keys && old(metadata) <= old(image).Keys)
    {
      hide AllFresh, CleanBuffersMatch, Exact;
      ok := FlushData(data);
      if !ok {
        return;
      }
      ok := FlushMetadata(meta);
      if ok && !imageFailed {
        NothingDirtyShowsImage(Abs());
      }
    }

    // ---- namespace changes --------------------------------------------------------------------------

    /** A new file: `inode` is the number the index hands out, never used before. */
    method Create(inode: nat, outcome: ImageOutcome) returns (reply: Reply<nat>)
      requires Valid() && inode !in image && inode !in writeBuffers
      modifies this
      ensures Valid()
      ensures reply.Ok? <==> writable && !old(imageFailed) && outcome.Commits?
      ensures reply.Ok? ==>
                View(Abs()) == View(old(Abs()))[inode := []] && handles == old(handles)[reply.value := inode]
                            && dirty == old(dirty) && metadata == old(metadata) && !imageFailed
      ensures !reply.Ok? ==> SameView() && handles == old(handles)
    {
      hide AllFresh, CleanBuffersMatch, Exact;
      if !writable {
        return ReadOnly;
      }
      if imageFailed || outcome.RollsBack? {
        return IoError;
      }
      if outcome.Latches? {
        Latch(outcome.garbage);
        return IoError;
      }
      CreateKeepsSound(Abs(), cacheLimit, inode);
      image := image[inode := []];
      writeBuffers := writeBuffers[inode := []];
      var fh := NewHandle(inode);
      reply := Ok(fh);
    }

    /** Deleting an open file is refused; pending metadata is committed first and then forgotten. */
    method Unlink(inode: nat, meta: ImageOutcome, outcome: ImageOutcome) returns (reply: Reply<()>)
      requires Valid()
      modifies this`image, this`imageFailed, this`metadata
      ensures Valid() && dirty == old(dirty) && writeBuffers == old(writeBuffers)
      ensures inode in handles.Values ==> !reply.Ok?
      ensures reply.Ok? ==>
                inode in old(image) && View(Abs()) == View(old(Abs())) - {inode} && metadata == old(metadata) - {inode}
      ensures reply.Ok? ==> image.Keys == old(image).Keys - {inode} && !imageFailed
      ensures !reply.Ok? ==> SameView()
      ensures reply.Ok? <==>
                writable && inode in old(image) && inode !in handles.Values && !old(imageFailed)
                && (inode in old(metadata) ==> meta.Commits?) && outcome.Commits?
      ensures reply == Busy <==> writable && inode in old(image) && inode in handles.Values
    {
      hide AllFresh, CleanBuffersMatch, Exact;
      if !writable {
        return ReadOnly;
      }
      if inode !in image {
        return NoSuchInode;
      }
      if inode in handles.Values {
        return Busy;
      }
      var committed := CommitMetadata(inode, meta);
      if !committed || imageFailed || outcome.RollsBack? {
        return IoError;
      }
      if outcome.Latches? {
        Latch(outcome.garbage);
        return IoError;
      }
      RemoveKeepsSound(Abs(), cacheLimit, inode);
      image := image - {inode};
      reply := Ok(());
    }

    /** Renaming onto an existing closed file removes that file from the image.  Only the source's pending
        metadata is committed; whatever is pending for the replaced file stays pending. */
    method RenameOver(source: nat, destination: nat, meta: ImageOutcome, outcome: ImageOutcome)
      returns (reply: Reply<()>)
      requires Valid() && source != destination
      modifies this`image, this`imageFailed, this`metadata
      ensures Valid() && dirty == old(dirty) && writeBuffers == old(writeBuffers)
      ensures reply.Ok? ==>
                View(Abs()) == View(old(Abs())) - {destination} && image.Keys == old(image).Keys - {destination}
      ensures reply.Ok? ==> metadata == old(metadata) - {source} && !imageFailed
      ensures !reply.Ok? ==> SameView()
      ensures reply.Ok? <==>
                writable && destination !in handles.Values && source in old(image) && destination in old(image)
                && !old(imageFailed) && (source in old(metadata) ==> meta.Commits?) && outcome.Commits?
      ensures reply == Busy <==> writable && destination in handles.Values
    {
      hide AllFresh, CleanBuffersMatch, Exact;
      if !writable {
        return ReadOnly;
      }
      if destination in handles.Values {
        return Busy;
      }
      if source !in image || destination !in image {
        return NoSuchInode;
      }
      var committed := CommitMetadata(source, meta);
      if !committed || imageFailed || outcome.RollsBack? {
        return IoError;
      }
      if outcome.Latches? {
        Latch(outcome.garbage);
        return IoError;
      }
      RemoveKeepsSound(Abs(), cacheLimit, destination);
      image := image - {destination};
      reply := Ok(());
    }

    /** Remember a metadata change of a live inode until its next flush. */
    method SetXattr(inode: nat) returns (reply: Reply<()>)
      requires Valid()
      modifies this`metadata
      ensures Valid() && View(Abs()) == View(old(Abs()))
      ensures reply.Ok? <==> writable && inode in image
      ensures metadata == if reply.Ok? then old(metadata) + {inode} else old(metadata)
    {
      hide AllFresh, CleanBuffersMatch, Exact;
      if !writable {
        return ReadOnly;
      }
      if inode !in image {
        return NoSuchInode;
      }
      PendingMetadataIsApart(Abs(), cacheLimit, metadata + {inode});
      metadata := metadata + {inode};
      reply := Ok(());
    }

    /** Truncate or extend through the shared buffer, then flush.  Whatever fails, the new size stays
        visible once the buffer has taken it. */
    method SetSize(inode: nat, size: nat, preflightOk: bool, ownership: bool, outcome: ImageOutcome)
      returns (reply: Reply<()>)
      requires Valid()
      modifies this`image, this`imageFailed, this`writeBuffers, this`dirty, this`readStates, this`lru,
               this`readAheadSize
      ensures Valid() && image.Keys == old(image).Keys
      ensures !(writable && inode in image && preflightOk) ==> !reply.Ok? && SameView() && dirty == old(dirty)
      ensures writable && inode in image && preflightOk && !imageFailed ==>
                View(Abs()) == View(old(Abs()))[inode := Resized(View(old(Abs()))[inode], size)]
      ensures writable && inode in image && preflightOk && !imageFailed ==>
                && inode in View(Abs()) && Cut(View(old(Abs()))[inode], size, View(Abs())[inode])
                && View(Abs()).Keys == View(old(Abs())).Keys
                && forall i :: i in View(Abs()) && i != inode ==> View(Abs())[i] == View(old(Abs()))[i]
      ensures reply.Ok? <==>
                writable && inode in image && preflightOk && !ownership && !old(imageFailed) && outcome.Commits?
      ensures reply.Ok? ==> Cut(View(old(Abs()))[inode], size, image[inode])
      ensures reply == NoSuchInode <==> inode !in image
      ensures reply == ReadOnly <==> inode in image && !writable
      ensures reply.Ok? ==> inode !in dirty
      ensures writable && inode in image && preflightOk && !reply.Ok? ==> inode in dirty && inode in writeBuffers
      ensures (old(imageFailed) ==> imageFailed) && (!outcome.Latches? ==> imageFailed == old(imageFailed))
      ensures !outcome.Commits? ==> !reply.Ok?
    {
      hide AllFresh, CleanBuffersMatch, Exact;
      if inode !in image {
        return NoSuchInode;
      }
      if !writable {
        return ReadOnly;
      }
      WriteBuffer(inode);
      if !preflightOk {
        return IoError;
      }
      ResizedIsCut(writeBuffers[inode], size);
      Dirty(inode, Resized(writeBuffers[inode], size));
      if ownership {
        return NotPermitted;
      }
      var committed := CommitBuffer(inode, outcome);
      reply := if committed then Ok(()) else IoError;
    }
  }

  lemma EmptySlice(data: seq<byte>, offset: nat)
    ensures Slice(data, offset, offset) == []
  {
  }

  /** Zero-fill up to the end of the piece where needed, then overwrite. */
  method Patch(data: seq<byte>, offset: nat, piece: seq<byte>) returns (r: seq<byte>)
    ensures r == Spliced(data, offset, piece)
  {
    r := data;
    var end := offset + |piece|;
    if end > |r| {
      r := r + seq(end - |r|, _ => 0);
    }
    r := r[..offset] + piece + r[end..];
  }

  /** Pending metadata of a file that another file was renamed onto can never be committed: the closing
      flush of this perfectly healthy session fails although the image accepts every mutation. */
  method ReplacedFileBlocksShutdown() returns (ok: bool, failed: bool)
    ensures !ok && !failed
  {
    var layer := new Operations(map[2 := [], 3 := []], true, 0, 0, 2, 0);
    var tagged := layer.SetXattr(3);
    var renamed := layer.RenameOver(2, 3, Commits, Commits);
    ok := layer.FlushPending(_ => Commits, _ => Commits);
    failed := layer.imageFailed;
  }

  /** So does a truncation whose commit failed, once the file is deleted. */
  method DeletedTruncationBlocksShutdown() returns (ok: bool)
    ensures !ok
  {
    var layer := new Operations(map[2 := []], true, 0, 0, 2, 0);
    var truncated := layer.SetSize(2, 1, true, false, RollsBack);
    assert 2 !in layer.handles.Values;
    var deleted := layer.Unlink(2, Commits, Commits);
    ok := layer.FlushPending(_ => Commits, _ => Commits);
  }
}
