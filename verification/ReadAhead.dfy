/** Per-handle read-ahead buffers under one byte budget. */
module ReadAhead {
  import opened Lists
  import opened Options
  import opened Transactions

  /** `buffer[position..]` holds file bytes starting at `bufferOffset`. */
  datatype ReadState = ReadState(nextOffset: Option<nat>, sequential: nat, bufferOffset: nat,
    buffer: seq<byte>, position: nat)

  const NEW_STATE: ReadState := ReadState(None, 0, 0, [], 0)

  /** `lru` lists handles, the least recently used first; `size` is the running total. */
  datatype Buffers = Buffers(states: map<nat, ReadState>, lru: seq<nat>, size: int)

  function Cleared(s: ReadState): ReadState {
    s.(buffer := [], bufferOffset := 0, position := 0)
  }

  function BufferOf(states: map<nat, ReadState>, fh: nat): seq<byte> {
    if fh in states then states[fh].buffer else []
  }

  /** The bytes held by the listed handles. */
  function Held(states: map<nat, ReadState>, fhs: seq<nat>): nat {
    if fhs == [] then 0 else |BufferOf(states, fhs[0])| + Held(states, fhs[1..])
  }

  /** The list holds exactly the handles with nonempty buffers, once each, and the total is exact. */
  ghost predicate Exact(b: Buffers) {
    && Distinct(b.lru)
    && (forall fh :: fh in b.lru <==> fh in b.states && b.states[fh].buffer != [])
    && b.size == Held(b.states, b.lru)
  }

  lemma {:induction false} HeldFrame(states: map<nat, ReadState>, states': map<nat, ReadState>, fhs: seq<nat>)
    requires forall fh :: fh in fhs ==> BufferOf(states, fh) == BufferOf(states', fh)
    ensures Held(states, fhs) == Held(states', fhs)
  {
    if fhs != [] {
      assert forall fh :: fh in fhs[1..] ==> fh in fhs;
      HeldFrame(states, states', fhs[1..]);
    }
  }

  lemma {:induction false} HeldSnoc(states: map<nat, ReadState>, fhs: seq<nat>, fh: nat)
    ensures Held(states, fhs + [fh]) == Held(states, fhs) + |BufferOf(states, fh)|
  {
    if fhs == [] {
      assert [fh][1..] == [];
    } else {
      assert (fhs + [fh])[1..] == fhs[1..] + [fh];
      HeldSnoc(states, fhs[1..], fh);
    }
  }

  lemma {:induction false} WithoutEffect(states: map<nat, ReadState>, fhs: seq<nat>, gone: nat)
    requires Distinct(fhs)
    ensures Distinct(Without(fhs, gone))
    ensures Held(states, Without(fhs, gone))
            == Held(states, fhs) - (if gone in fhs then |BufferOf(states, gone)| else 0)
  {
    WithoutDistinct(fhs, gone);
    if fhs != [] {
      WithoutEffect(states, fhs[1..], gone);
      var kept := Without(fhs, gone);
      assert fhs[0] !in fhs[1..];
      if fhs[0] == gone {
        assert kept == fhs[1..];
      } else {
        assert kept[0] == fhs[0] && kept[1..] == Without(fhs[1..], gone);
      }
    }
  }

  function Clear(b: Buffers, fh: nat): Buffers {
    if fh !in b.states then b
    else Buffers(b.states[fh := Cleared(b.states[fh])], Without(b.lru, fh), b.size - |b.states[fh].buffer|)
  }

  lemma ClearKeepsExact(b: Buffers, fh: nat)
    requires Exact(b)
    ensures Exact(Clear(b, fh)) && Clear(b, fh).size <= b.size
    ensures Clear(b, fh).states.Keys == b.states.Keys
    ensures fh in b.states ==> fh !in Clear(b, fh).lru
  {
    if fh in b.states {
      var r := Clear(b, fh);
      WithoutEffect(b.states, b.lru, fh);
      HeldFrame(b.states, r.states, r.lru);
    }
  }

  /** Same handles, each with the buffer it had or with none. */
  ghost predicate Shrunk(a: Buffers, b: Buffers) {
    && b.states.Keys == a.states.Keys
    && (forall fh :: fh in a.states ==> b.states[fh] == a.states[fh] || b.states[fh] == Cleared(a.states[fh]))
    && (forall fh :: fh in b.lru ==> fh in a.lru)
  }

  lemma ClearShrinks(b: Buffers, fh: nat)
    requires Exact(b)
    ensures Shrunk(b, Clear(b, fh))
  {
  }

  /** Of the listed handles, those open on `inode` hold nothing. */
  ghost predicate NoneHeld(states: map<nat, ReadState>, handles: map<nat, nat>, fhs: set<nat>, inode: nat) {
    forall fh :: fh in fhs && fh in handles && fh in states && handles[fh] == inode ==> states[fh].buffer == []
  }

  lemma ClearOneMore(start: Buffers, b: Buffers, handles: map<nat, nat>, done: set<nat>, fh: nat, inode: nat)
    requires Exact(b) && Shrunk(start, b) && b.size <= start.size && fh in b.states && fh in handles
    requires NoneHeld(b.states, handles, done, inode)
    ensures var r := if handles[fh] == inode then Clear(b, fh) else b;
            Exact(r) && Shrunk(start, r) && r.size <= start.size && NoneHeld(r.states, handles, done + {fh}, inode)
  {
    ClearKeepsExact(b, fh);
    ClearShrinks(b, fh);
    ShrunkTwice(start, b, Clear(b, fh));
  }

  /** The oldest buffer cleared, as popping the front of the list does it. */
  function Popped(b: Buffers): Buffers
    requires b.lru != [] && b.lru[0] in b.states
  {
    var fh := b.lru[0];
    Buffers(b.states[fh := Cleared(b.states[fh])], b.lru[1..], b.size - |b.states[fh].buffer|)
  }

  /** Clear the oldest buffers until `keep` more bytes fit. */
  function Evict(b: Buffers, keep: nat, limit: nat): Buffers
    decreases |b.lru|
  {
    if b.size + keep <= limit || b.lru == [] || b.lru[0] !in b.states then b else Evict(Popped(b), keep, limit)
  }

  lemma ClearOldest(b: Buffers)
    requires Exact(b) && b.lru != []
    ensures b.lru[0] in b.states
    ensures Clear(b, b.lru[0]) == Popped(b)
  {
  }

  lemma ShrunkTwice(a: Buffers, b: Buffers, c: Buffers)
    requires Shrunk(a, b) && Shrunk(b, c)
    ensures Shrunk(a, c)
  {
  }

  lemma EvictStep(b: Buffers, keep: nat, limit: nat)
    requires Exact(b) && keep <= limit && b.size + keep > limit
    ensures b.lru != [] && b.lru[0] in b.states
    ensures Evict(b, keep, limit) == Evict(Clear(b, b.lru[0]), keep, limit)
    ensures Exact(Clear(b, b.lru[0])) && Shrunk(b, Clear(b, b.lru[0]))
    ensures Clear(b, b.lru[0]).lru == b.lru[1..]
  {
    assert b.lru == [] ==> b.size == 0;
    hide Without, Held, Distinct, Shrunk, Clear, Exact;
    ClearOldest(b);
    ClearKeepsExact(b, b.lru[0]);
    ClearShrinks(b, b.lru[0]);
  }

  /** Eviction ends with room, because an empty list holds nothing. */
  lemma {:induction false} EvictMakesRoom(b: Buffers, keep: nat, limit: nat)
    requires Exact(b) && keep <= limit
    ensures Exact(Evict(b, keep, limit)) && Evict(b, keep, limit).size + keep <= limit
    ensures Shrunk(b, Evict(b, keep, limit))
    decreases |b.lru|
  {
    if b.size + keep > limit {
      EvictStep(b, keep, limit);
      var next := Clear(b, b.lru[0]);
      EvictMakesRoom(next, keep, limit);
      ShrunkTwice(b, next, Evict(next, keep, limit));
    }
  }

  function Filled(s: ReadState, offset: nat, data: seq<byte>): ReadState {
    s.(bufferOffset := offset, buffer := data, position := 0)
  }

  function Put(b: Buffers, fh: nat, offset: nat, data: seq<byte>): Buffers
    requires fh in b.states
  {
    Buffers(b.states[fh := Filled(b.states[fh], offset, data)], b.lru + [fh], b.size + |data|)
  }

  lemma PutKeepsExact(b: Buffers, fh: nat, offset: nat, data: seq<byte>)
    requires Exact(b) && fh in b.states && fh !in b.lru && data != []
    ensures Exact(Put(b, fh, offset, data))
  {
    var r := Put(b, fh, offset, data);
    HeldFrame(b.states, r.states, b.lru);
    HeldSnoc(r.states, b.lru, fh);
    assert forall g :: g in r.lru <==> g in b.lru || g == fh;
  }

  /** Keep prefetched bytes for a handle, as much as the budget allows at all. */
  function Store(b: Buffers, fh: nat, offset: nat, data: seq<byte>, limit: nat): Buffers
    requires fh in b.states
  {
    var cleared := Clear(b, fh);
    var keep := Min(|data|, limit);
    if keep == 0 then cleared
    else
      var room := Evict(cleared, keep, limit);
      if fh !in room.states then room else Put(room, fh, offset, data[..keep])
  }

  lemma StoreKeepsExact(b: Buffers, fh: nat, offset: nat, data: seq<byte>, limit: nat)
    requires Exact(b) && b.size <= limit && fh in b.states
    ensures var r := Store(b, fh, offset, data, limit);
            && Exact(r) && r.size <= limit && r.states.Keys == b.states.Keys
            && (forall g :: g in b.states && g != fh ==>
                    r.states[g] == b.states[g] || r.states[g] == Cleared(b.states[g]))
            && (if Min(|data|, limit) == 0 then r.states[fh] == Cleared(b.states[fh])
                else r.states[fh] == Filled(Cleared(b.states[fh]), offset, data[..Min(|data|, limit)]))
  {
    var cleared, keep := Clear(b, fh), Min(|data|, limit);
    ClearKeepsExact(b, fh);
    if keep > 0 {
      var room := Evict(cleared, keep, limit);
      EvictMakesRoom(cleared, keep, limit);
      assert Cleared(cleared.states[fh]) == cleared.states[fh];
      PutKeepsExact(room, fh, offset, data[..keep]);
    }
  }

  /** The handle's state after `size` bytes were served from its buffer. */
  function Used(s: ReadState, size: nat): ReadState {
    s.(position := s.position + size, bufferOffset := s.bufferOffset + size, nextOffset := Some(s.bufferOffset
        + size), sequential := s.sequential + 1)
  }

  function WithState(b: Buffers, fh: nat, s: ReadState): Buffers {
    b.(states := b.states[fh := s])
  }

  lemma SameBufferKeepsExact(b: Buffers, fh: nat, s: ReadState)
    requires Exact(b) && fh in b.states && s.buffer == b.states[fh].buffer
    ensures Exact(WithState(b, fh, s))
  {
    HeldFrame(b.states, b.states[fh := s], b.lru);
  }

  lemma MoveToEndKeepsExact(b: Buffers, fh: nat)
    requires Exact(b) && fh in b.lru
    ensures Exact(b.(lru := Without(b.lru, fh) + [fh]))
  {
    WithoutEffect(b.states, b.lru, fh);
    HeldSnoc(b.states, Without(b.lru, fh), fh);
  }

  /** Serve a request from a handle's buffer: the bytes, or a cleared buffer and nothing. */
  function Consume(b: Buffers, fh: nat, offset: nat, size: nat): (Buffers, Option<seq<byte>>)
    requires fh in b.states && b.states[fh].position <= |b.states[fh].buffer|
  {
    var s := b.states[fh];
    if s.buffer == [] then (b, None)
    else if offset != s.bufferOffset || size > |s.buffer| - s.position then (Clear(b, fh), None)
    else
      var result := s.buffer[s.position..s.position + size];
      var moved := WithState(b, fh, Used(s, size));
      (if s.position + size < |s.buffer| then moved.(lru := Without(b.lru, fh) + [fh]) else Clear(moved, fh),
       Some(result))
  }

  lemma ConsumeKeepsExact(b: Buffers, fh: nat, offset: nat, size: nat)
    requires Exact(b) && fh in b.states && b.states[fh].position <= |b.states[fh].buffer|
    ensures var (r, _) := Consume(b, fh, offset, size);
            && Exact(r) && r.size <= b.size && r.states.Keys == b.states.Keys
            && (forall g :: g in b.states && g != fh ==> r.states[g] == b.states[g])
  {
    ClearKeepsExact(b, fh);
    var s := b.states[fh];
    if s.buffer != [] && offset == s.bufferOffset && size <= |s.buffer| - s.position {
      hide Held, Distinct, Without;
      assert fh in b.lru;
      SameBufferKeepsExact(b, fh, Used(s, size));
      var moved := WithState(b, fh, Used(s, size));
      ClearKeepsExact(moved, fh);
      MoveToEndKeepsExact(moved, fh);
    }
  }

  // ---- the order of use -------------------------------------------------------------------------------------------

  lemma NothingEvicted(b: Buffers, keep: nat, limit: nat)
    requires Exact(b) && b.size + keep <= limit
    ensures Evict(b, keep, limit) == b && forall fh :: fh in b.lru ==> fh in b.states
  {
  }

  lemma ClearingOldest(b: Buffers)
    requires Exact(b) && b.lru != []
    ensures b.size == Held(b.states, b.lru)
    ensures forall fh :: fh in b.lru[1..] ==>
              && fh != b.lru[0] && fh in b.states && fh in Clear(b, b.lru[0]).states
              && Clear(b, b.lru[0]).states[fh] == b.states[fh]
  {
    hide Held, Without;
  }

  /** Eviction takes the buffers used longest ago, and no more of them than it must. */
  lemma {:induction false} EvictTakesOldest(b: Buffers, keep: nat, limit: nat) returns (gone: nat)
    requires Exact(b) && keep <= limit
    ensures gone <= |b.lru| && Evict(b, keep, limit).lru == b.lru[gone..]
    ensures gone > 0 ==> Held(b.states, b.lru[gone - 1..]) + keep > limit
    ensures forall fh :: fh in b.lru[gone..] ==>
              fh in b.states && fh in Evict(b, keep, limit).states && Evict(b, keep, limit).states[fh] == b.states[fh]
    decreases |b.lru|
  {
    hide Exact, Clear, Shrunk, Held, Evict;
    gone := 0;
    if b.size + keep <= limit {
      assert b.lru[0..] == b.lru;
      NothingEvicted(b, keep, limit);
    } else {
      EvictStep(b, keep, limit);
      ClearingOldest(b);
      var next := Clear(b, b.lru[0]);
      var later := EvictTakesOldest(next, keep, limit);
      gone := later + 1;
      assert next.lru[later..] == b.lru[gone..];
      assert forall fh :: fh in b.lru[gone..] ==> fh in b.lru[1..];
      if later > 0 {
        assert next.lru[later - 1..] == b.lru[gone - 1..];
        assert forall fh :: fh in b.lru[gone - 1..] ==> fh in b.lru[1..];
        HeldFrame(b.states, next.states, b.lru[gone - 1..]);
      } else {
        assert b.lru[0..] == b.lru;
      }
    }
  }

  /** Storing makes a handle the most recent one; the others keep their order, the oldest going first. */
  lemma StoreMakesRecent(b: Buffers, fh: nat, offset: nat, data: seq<byte>, limit: nat)
    requires Exact(b) && fh in b.states && Min(|data|, limit) > 0
    ensures var r := Store(b, fh, offset, data, limit);
            exists kept, gone: nat :: CutOut(b.lru, fh, kept) && gone <= |kept| && r.lru == kept[gone..] + [fh]
  {
    var cleared := Clear(b, fh);
    ClearKeepsExact(b, fh);
    WithoutCutsOut(b.lru, fh);
    var gone := EvictTakesOldest(cleared, Min(|data|, limit), limit);
    EvictMakesRoom(cleared, Min(|data|, limit), limit);
    assert CutOut(b.lru, fh, cleared.lru);
    assert Store(b, fh, offset, data, limit).lru == cleared.lru[gone..] + [fh];
  }

  /** Serving from a buffer moves the handle to the end, or out of the list with its last byte, and notes where
      the next sequential read would start; a request that does not fit drops the buffer. */
  lemma ConsumeMakesRecent(b: Buffers, fh: nat, offset: nat, size: nat)
    requires Exact(b) && fh in b.states && b.states[fh].position <= |b.states[fh].buffer|
    ensures var (r, result) := Consume(b, fh, offset, size);
            var s := b.states[fh];
            var serves := s.buffer != [] && offset == s.bufferOffset && size <= |s.buffer| - s.position;
            && (result.Some? <==> serves) && (serves ==> result.value == s.buffer[s.position..s.position + size])
            && (s.buffer == [] ==> r == b)
            && (s.buffer != [] && !serves ==> r.states[fh].buffer == [] && CutOut(b.lru, fh, r.lru))
            && (serves ==> r.states[fh].nextOffset == Some(offset + size)
                           && r.states[fh].sequential == s.sequential + 1)
            && (serves && s.position + size == |s.buffer| ==> r.states[fh].buffer == [] && CutOut(b.lru, fh, r.lru))
            && (serves && s.position + size < |s.buffer| ==>
                  && r.states[fh].buffer == s.buffer && r.states[fh].position == s.position + size
                  && r.states[fh].bufferOffset == offset + size
                  && exists kept :: CutOut(b.lru, fh, kept) && r.lru == kept + [fh])
  {
    WithoutCutsOut(b.lru, fh);
  }
}
