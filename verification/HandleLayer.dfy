/** The state of the FUSE handle layer and the invariant that makes its caches invisible. */
module HandleLayer {
  import opened Transactions
  import opened ReadAhead

  /** `image` maps live inodes to stored contents; `failed` says its session has latched, after which
      nothing is claimed about stored contents. */
  datatype Layer = Layer(
    image: map<nat, seq<byte>>,
    failed: bool,
    writeBuffers: map<nat, seq<byte>>,
    dirty: set<nat>,
    metadata: set<nat>,
    handles: map<nat, nat>,
    ahead: Buffers,
    next: nat)

  /** What a reader of an inode must see. */
  ghost function Visible(l: Layer, inode: nat): seq<byte>
    requires inode in l.image
  {
    if inode in l.writeBuffers then l.writeBuffers[inode] else l.image[inode]
  }

  ghost function View(l: Layer): map<nat, seq<byte>> {
    map i | i in l.image :: Visible(l, i)
  }

  /** The unread part of a buffer is the file's own bytes from the buffer's offset on. */
  ghost predicate Mirrors(s: ReadState, content: seq<byte>) {
    var unread := |s.buffer| - s.position;
    && unread > 0
    && s.bufferOffset + unread <= |content|
    && s.buffer[s.position..] == content[s.bufferOffset..s.bufferOffset + unread]
  }

  ghost predicate Fresh(l: Layer, fh: nat)
    requires fh in l.ahead.states && fh in l.handles
  {
    var s, inode := l.ahead.states[fh], l.handles[fh];
    && s.position <= |s.buffer|
    && (s.buffer != [] ==> inode in l.image && inode !in l.writeBuffers && (!l.failed ==> Mirrors(s, l.image[inode])))
  }

  ghost predicate HandlesLive(l: Layer) {
    && l.ahead.states.Keys == l.handles.Keys
    && forall fh :: fh in l.handles ==> fh < l.next && l.handles[fh] in l.image
  }

  ghost predicate AllFresh(l: Layer)
    requires HandlesLive(l)
  {
    forall fh :: fh in l.handles ==> Fresh(l, fh)
  }

  /** A buffer that is not dirty equals the image, for every live inode. */
  ghost predicate CleanBuffersMatch(l: Layer) {
    !l.failed ==> forall i :: i in l.writeBuffers && i in l.image && i !in l.dirty ==> l.writeBuffers[i] == l.image[i]
  }

  ghost predicate Sound(l: Layer, limit: nat) {
    && HandlesLive(l) && AllFresh(l)
    && Exact(l.ahead) && l.ahead.size <= limit
    && l.dirty <= l.writeBuffers.Keys
    && CleanBuffersMatch(l)
  }

  lemma PositionInBuffer(l: Layer, limit: nat, fh: nat)
    requires Sound(l, limit) && fh in l.handles
    ensures l.ahead.states[fh].position <= |l.ahead.states[fh].buffer|
  {
  }

  lemma ClearedKeepsSound(l: Layer, limit: nat, fh: nat)
    requires Sound(l, limit)
    ensures Sound(l.(ahead := Clear(l.ahead, fh)), limit) && View(l.(ahead := Clear(l.ahead, fh))) == View(l)
  {
    ClearKeepsExact(l.ahead, fh);
    ClearShrinks(l.ahead, fh);
    ShrinkKeepsSound(l, limit, Clear(l.ahead, fh));
  }

  lemma CleanIsStored(l: Layer, limit: nat, inode: nat)
    requires Sound(l, limit)
    ensures !l.failed && inode in l.writeBuffers && inode in l.image && inode !in l.dirty ==>
              l.writeBuffers[inode] == l.image[inode]
  {
  }

  // ---- steps that keep the layer sound -----------------------------------------------------------

  lemma ViewFrame(l: Layer, r: Layer)
    requires r.image == l.image && r.writeBuffers == l.writeBuffers
    ensures View(r) == View(l)
  {
  }

  /** A handle whose read-ahead was kept or cleared stays fresh. */
  lemma KeptOrClearedIsFresh(l: Layer, r: Layer, fh: nat)
    requires fh in l.handles && fh in l.ahead.states && fh in r.ahead.states && Fresh(l, fh)
    requires r.handles == l.handles && r.image == l.image && r.failed == l.failed && r.writeBuffers == l.writeBuffers
    requires r.ahead.states[fh] == l.ahead.states[fh] || r.ahead.states[fh] == Cleared(l.ahead.states[fh])
    ensures Fresh(r, fh)
  {
  }

  lemma ShrinkKeepsSound(l: Layer, limit: nat, ahead: Buffers)
    requires Sound(l, limit)
    requires Exact(ahead) && Shrunk(l.ahead, ahead) && ahead.size <= l.ahead.size
    ensures Sound(l.(ahead := ahead), limit) && View(l.(ahead := ahead)) == View(l)
  {
    var r := l.(ahead := ahead);
    forall fh | fh in r.handles
      ensures Fresh(r, fh)
    {
      KeptOrClearedIsFresh(l, r, fh);
    }
    ViewFrame(l, r);
  }

  /** Once no handle holds read-ahead of the inode its shared buffer may be set, dirty or clean. */
  lemma SetBufferKeepsSound(l: Layer, limit: nat, inode: nat, data: seq<byte>, dirty: bool)
    requires Sound(l, limit) && inode in l.image
    requires NoneHeld(l.ahead.states, l.handles, l.handles.Keys, inode)
    requires dirty || inode in l.dirty || data == l.image[inode]
    ensures var r := l.(writeBuffers := l.writeBuffers[inode := data],
                    dirty := if dirty then l.dirty + {inode} else l.dirty);
            Sound(r, limit) && View(r) == View(l)[inode := data]
  {
  }

  lemma FreshBufferShowsSame(l: Layer, inode: nat)
    requires inode in l.image && inode !in l.writeBuffers
    ensures View(l)[inode := l.image[inode]] == View(l)
  {
  }

  /** An inode with a shared buffer has no read-ahead anywhere. */
  lemma BufferedHoldsNone(l: Layer, limit: nat, inode: nat)
    requires Sound(l, limit) && inode in l.writeBuffers
    ensures NoneHeld(l.ahead.states, l.handles, l.handles.Keys, inode)
  {
  }

  function WithHandle(l: Layer, inode: nat): Layer {
    l.(handles := l.handles[l.next := inode], next := l.next + 1, ahead := WithState(l.ahead, l.next, NEW_STATE))
  }

  lemma HandleKeepsSound(l: Layer, limit: nat, inode: nat)
    requires Sound(l, limit) && inode in l.image
    ensures l.next !in l.handles
    ensures Sound(WithHandle(l, inode), limit) && View(WithHandle(l, inode)) == View(l)
  {
    hide Exact, Held, View;
    var r := WithHandle(l, inode);
    NewStateKeepsExact(l.ahead, l.next);
    ViewFrame(l, r);
    forall fh | fh in r.handles
      ensures Fresh(r, fh)
    {
      if fh in l.handles { assert Fresh(l, fh); }
    }
  }

  /** A handle that has read nothing yet holds no bytes. */
  lemma NewStateKeepsExact(b: Buffers, fh: nat)
    requires Exact(b) && fh !in b.states
    ensures Exact(WithState(b, fh, NEW_STATE))
  {
    assert fh !in b.lru;
    HeldFrame(b.states, b.states[fh := NEW_STATE], b.lru);
  }

  /** Changing one handle's read-ahead so that it mirrors its file keeps everything else. */
  lemma AheadKeepsSound(l: Layer, limit: nat, fh: nat, ahead: Buffers)
    requires Sound(l, limit) && fh in l.handles
    requires Exact(ahead) && ahead.size <= limit && ahead.states.Keys == l.ahead.states.Keys
    requires forall g :: g in l.handles && g != fh ==>
              ahead.states[g] == l.ahead.states[g] || ahead.states[g] == Cleared(l.ahead.states[g])
    requires Fresh(l.(ahead := ahead), fh)
    ensures Sound(l.(ahead := ahead), limit) && View(l.(ahead := ahead)) == View(l)
  {
    var r := l.(ahead := ahead);
    forall g | g in r.handles
      ensures Fresh(r, g)
    {
      if g != fh {
        KeptOrClearedIsFresh(l, r, g);
      }
    }
    ViewFrame(l, r);
  }

  // ---- what a buffer hands out --------------------------------------------------------------------

  lemma UsedMirrors(s: ReadState, content: seq<byte>, size: nat)
    requires s.position <= |s.buffer| && Mirrors(s, content) && size <= |s.buffer| - s.position
    ensures s.buffer[s.position..s.position + size] == Slice(content, s.bufferOffset, s.bufferOffset + size)
    ensures size < |s.buffer| - s.position ==> Mirrors(Used(s, size), content)
  {
    var tail := s.buffer[s.position..];
    assert s.buffer[s.position..s.position + size] == tail[..size];
    assert s.buffer[s.position + size..] == tail[size..];
  }

  /** Serving from the buffer gives the file's slice and leaves the handle fresh. */
  lemma ConsumeIsFaithful(l: Layer, limit: nat, fh: nat, offset: nat, size: nat)
    requires Sound(l, limit) && fh in l.handles && l.handles[fh] !in l.writeBuffers
    requires l.ahead.states[fh].position <= |l.ahead.states[fh].buffer|
    ensures var (ahead, served) := Consume(l.ahead, fh, offset, size);
            && Sound(l.(ahead := ahead), limit) && View(l.(ahead := ahead)) == View(l)
            && (served.Some? && !l.failed ==> served.value == Slice(l.image[l.handles[fh]], offset, offset + size))
            && (served.None? ==> ahead.states[fh].buffer == [])
  {
    var (ahead, served) := Consume(l.ahead, fh, offset, size);
    ConsumeKeepsExact(l.ahead, fh, offset, size);
    ConsumedIsFresh(l, fh, offset, size);
    AheadKeepsSound(l, limit, fh, ahead);
  }

  lemma ConsumedIsFresh(l: Layer, fh: nat, offset: nat, size: nat)
    requires fh in l.handles && fh in l.ahead.states && Fresh(l, fh) && l.handles[fh] in l.image
              && l.handles[fh] !in l.writeBuffers
    ensures var (ahead, served) := Consume(l.ahead, fh, offset, size);
            && fh in ahead.states && Fresh(l.(ahead := ahead), fh)
            && (served.Some? && !l.failed ==> served.value == Slice(l.image[l.handles[fh]], offset, offset + size))
            && (served.None? ==> ahead.states[fh].buffer == [])
  {
    var s := l.ahead.states[fh];
    if s.buffer != [] && !l.failed && offset == s.bufferOffset && size <= |s.buffer| - s.position {
      UsedMirrors(s, l.image[l.handles[fh]], size);
    }
  }

  lemma SliceOfSlice(content: seq<byte>, offset: nat, size: nat, readSize: nat)
    requires readSize >= size || offset + readSize >= |content|
    ensures var data := Slice(content, offset, offset + readSize); data[..Min(size, |data|)] == Slice(content,
              offset, offset + size)
  {
  }

  /** Keeping what was read beyond the request leaves the handle fresh. */
  lemma StoreIsFaithful(l: Layer, limit: nat, fh: nat, offset: nat, readSize: nat, taken: nat)
    requires Sound(l, limit) && fh in l.handles && l.handles[fh] !in l.writeBuffers
    requires taken <= |Slice(l.image[l.handles[fh]], offset, offset + readSize)|
    ensures var ahead := Store(l.ahead, fh, offset + taken, Slice(l.image[l.handles[fh]], offset, offset
              + readSize)[taken..], limit);
            Sound(l.(ahead := ahead), limit) && View(l.(ahead := ahead)) == View(l)
  {
    var content := l.image[l.handles[fh]];
    var rest := Slice(content, offset, offset + readSize)[taken..];
    StoreKeepsExact(l.ahead, fh, offset + taken, rest, limit);
    RestMirrors(l.ahead.states[fh], content, offset, readSize, taken, Min(|rest|, limit));
    AheadKeepsSound(l, limit, fh, Store(l.ahead, fh, offset + taken, rest, limit));
  }

  lemma RestMirrors(s: ReadState, content: seq<byte>, offset: nat, readSize: nat, taken: nat, keep: nat)
    requires taken <= |Slice(content, offset, offset + readSize)|
    requires keep <= |Slice(content, offset, offset + readSize)[taken..]|
    ensures keep > 0 ==> Mirrors(Filled(Cleared(s), offset + taken, Slice(content, offset, offset
              + readSize)[taken..][..keep]), content)
  {
  }

  lemma StateKeepsSound(l: Layer, limit: nat, fh: nat, s: ReadState)
    requires Sound(l, limit) && fh in l.handles
    requires s.buffer == l.ahead.states[fh].buffer && s.position == l.ahead.states[fh].position
              && s.bufferOffset == l.ahead.states[fh].bufferOffset
    ensures Sound(l.(ahead := WithState(l.ahead, fh, s)), limit)
            && View(l.(ahead := WithState(l.ahead, fh, s))) == View(l)
  {
    hide Exact, View, CleanBuffersMatch;
    SameBufferKeepsExact(l.ahead, fh, s);
    assert Fresh(l, fh);
    AheadKeepsSound(l, limit, fh, WithState(l.ahead, fh, s));
  }

  // ---- committing, dropping, creating, removing ---------------------------------------------------

  ghost predicate IsOpen(l: Layer, inode: nat) {
    inode in l.handles.Values
  }

  function CommittedLayer(l: Layer, inode: nat, keep: bool): Layer
    requires inode in l.writeBuffers
  {
    l.(image := l.image[inode := l.writeBuffers[inode]], dirty := l.dirty - {inode},
       writeBuffers := if keep then l.writeBuffers else l.writeBuffers - {inode})
  }

  /** Committing a dirty buffer changes the image and nothing that is seen. */
  lemma CommitKeepsSound(l: Layer, limit: nat, inode: nat, keep: bool)
    requires Sound(l, limit) && inode in l.dirty && inode in l.image && (keep || !IsOpen(l, inode))
    ensures Sound(CommittedLayer(l, inode, keep), limit) && View(CommittedLayer(l, inode, keep)) == View(l)
  {
  }

  /** After the latch nothing is claimed about stored bytes, so everything claimed still holds. */
  lemma LatchKeepsSound(l: Layer, limit: nat, image: map<nat, seq<byte>>)
    requires Sound(l, limit) && image.Keys == l.image.Keys
    ensures Sound(l.(image := image, failed := true), limit)
  {
  }

  function Released(l: Layer, fh: nat, drop: bool): Layer
    requires fh in l.handles
  {
    l.(handles := l.handles - {fh}, ahead := Forget(l.ahead, fh),
       writeBuffers := if drop then l.writeBuffers - {l.handles[fh]} else l.writeBuffers)
  }

  function Forget(b: Buffers, fh: nat): Buffers {
    var cleared := Clear(b, fh);
    cleared.(states := cleared.states - {fh})
  }

  lemma ForgetKeepsExact(b: Buffers, fh: nat)
    requires Exact(b) && fh in b.states
    ensures Exact(Forget(b, fh)) && Forget(b, fh).size <= b.size
  {
    ClearKeepsExact(b, fh);
    HeldFrame(Clear(b, fh).states, Forget(b, fh).states, Clear(b, fh).lru);
  }

  /** The last handle takes a clean shared buffer with it; readers see no difference. */
  lemma ReleaseKeepsSound(l: Layer, limit: nat, fh: nat, drop: bool)
    requires Sound(l, limit) && fh in l.handles
    requires drop ==> l.handles[fh] !in l.dirty && l.handles[fh] !in (l.handles - {fh}).Values
    ensures Sound(Released(l, fh, drop), limit)
    ensures !l.failed || !drop ==> View(Released(l, fh, drop)) == View(l)
  {
    var r := Released(l, fh, drop);
    ForgetKeepsExact(l.ahead, fh);
    forall g | g in r.handles
      ensures Fresh(r, g)
    {
      assert Fresh(l, g);
      assert r.handles[g] in (l.handles - {fh}).Values;
    }
    if !l.failed || !drop {
      assert forall i :: i in l.image ==> Visible(r, i) == Visible(l, i);
    }
  }

  function CreatedLayer(l: Layer, inode: nat): Layer {
    l.(image := l.image[inode := []], writeBuffers := l.writeBuffers[inode := []])
  }

  lemma CreateKeepsSound(l: Layer, limit: nat, inode: nat)
    requires Sound(l, limit) && inode !in l.image && inode !in l.writeBuffers
    ensures Sound(CreatedLayer(l, inode), limit) && View(CreatedLayer(l, inode)) == View(l)[inode := []]
  {
    hide Exact, View;
    var r := CreatedLayer(l, inode);
    CreatedView(l, inode);
    forall fh | fh in r.handles
      ensures Fresh(r, fh)
    {
      assert Fresh(l, fh);
    }
  }

  lemma CreatedView(l: Layer, inode: nat)
    requires inode !in l.image
    ensures View(CreatedLayer(l, inode)) == View(l)[inode := []]
  {
    assert forall i :: i in l.image ==> Visible(CreatedLayer(l, inode), i) == Visible(l, i);
  }

  /** An inode nobody has open may leave the image; its buffers, if any, stay behind. */
  lemma RemoveKeepsSound(l: Layer, limit: nat, inode: nat)
    requires Sound(l, limit) && !IsOpen(l, inode)
    ensures Sound(l.(image := l.image - {inode}), limit) && View(l.(image := l.image - {inode})) == View(l) - {inode}
  {
  }

  lemma PendingMetadataIsApart(l: Layer, limit: nat, metadata: set<nat>)
    requires Sound(l, limit)
    ensures Sound(l.(metadata := metadata), limit) && View(l.(metadata := metadata)) == View(l)
  {
  }

  lemma NothingDirtyShowsImage(l: Layer)
    requires CleanBuffersMatch(l) && l.dirty == {} && !l.failed
    ensures View(l) == l.image
  {
  }
}
