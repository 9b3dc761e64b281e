/** File reads through the byte-bounded whole-file cache and the sector-range path. */
module ContentCache {
  import opened Options
  import opened Transactions

  /** Cached files, the least recently used first. */
  datatype Cached = Cached(inode: nat, data: seq<byte>)

  /** Commands of one history.  `slack` is what follows the data in its last sector. */
  datatype Request =
    | Read(inode: nat, offset: nat, size: nat)
    | Store(inode: nat, data: seq<byte>, filler: byte, committed: bool)
    | Drop(inode: nat, committed: bool)

  // ---- the store without caches ------------------------------------------------------------------

  function Answer(stored: map<nat, seq<byte>>, r: Request): Option<seq<byte>> {
    if r.Read? && r.inode in stored then Some(Slice(stored[r.inode], r.offset, r.offset + r.size)) else None
  }

  function Effect(stored: map<nat, seq<byte>>, r: Request): map<nat, seq<byte>> {
    match r
    case Read(_, _, _) => stored
    case Store(inode, data, _, committed) => if committed then stored[inode := data] else stored
    case Drop(inode, committed) => if committed then stored - {inode} else stored
  }

  function Answers(stored: map<nat, seq<byte>>, requests: seq<Request>): seq<Option<seq<byte>>>
    decreases |requests|
  {
    if requests == [] then []
    else [Answer(stored, requests[0])] + Answers(Effect(stored, requests[0]), requests[1..])
  }

  function Padding(size: nat): nat {
    (SECTOR_BYTES - size % SECTOR_BYTES) % SECTOR_BYTES
  }

  lemma PaddingFills(size: nat)
    ensures (size + Padding(size)) % SECTOR_BYTES == 0
    ensures size + Padding(size) == (size + SECTOR_BYTES - 1) / SECTOR_BYTES * SECTOR_BYTES
  {
  }

  // ---- the cache list -----------------------------------------------------------------------------

  function TotalSize(cache: seq<Cached>): nat {
    if cache == [] then 0 else |cache[0].data| + TotalSize(cache[1..])
  }

  function Find(cache: seq<Cached>, inode: nat): Option<seq<byte>> {
    if cache == [] then None
    else if cache[0].inode == inode then Some(cache[0].data)
    else Find(cache[1..], inode)
  }

  function Forget(cache: seq<Cached>, inode: nat): seq<Cached> {
    if cache == [] then []
    else if cache[0].inode == inode then cache[1..]
    else [cache[0]] + Forget(cache[1..], inode)
  }

  ghost predicate Distinct(cache: seq<Cached>) {
    forall i, j :: 0 <= i < j < |cache| ==> cache[i].inode != cache[j].inode
  }

  /** Every cached file is cached once, with the bytes the image stores. */
  ghost predicate Faithful(cache: seq<Cached>, stored: map<nat, seq<byte>>) {
    Distinct(cache) && forall e :: e in cache ==> e.inode in stored && e.data == stored[e.inode]
  }

  lemma {:induction false} FindIsMember(cache: seq<Cached>, inode: nat)
    ensures var r := Find(cache, inode); if r.Some? then Cached(inode,
              r.value) in cache else forall e :: e in cache ==> e.inode != inode
  {
    if cache != [] && cache[0].inode != inode {
      FindIsMember(cache[1..], inode);
    }
  }

  lemma {:induction false} TotalSizeSnoc(cache: seq<Cached>, e: Cached)
    ensures TotalSize(cache + [e]) == TotalSize(cache) + |e.data|
  {
    if cache != [] {
      assert (cache + [e])[1..] == cache[1..] + [e];
      TotalSizeSnoc(cache[1..], e);
    } else {
      assert [e][1..] == [];
    }
  }

  lemma TailIsDistinct(cache: seq<Cached>)
    requires Distinct(cache) && cache != []
    ensures Distinct(cache[1..]) && forall e :: e in cache[1..] ==> e.inode != cache[0].inode
  {
  }

  lemma {:induction false} ForgetMembers(cache: seq<Cached>, inode: nat)
    requires Distinct(cache)
    ensures Distinct(Forget(cache, inode))
    ensures forall e :: e in Forget(cache, inode) <==> e in cache && e.inode != inode
  {
    if cache != [] {
      TailIsDistinct(cache);
      assert forall e :: e in cache <==> e == cache[0] || e in cache[1..];
      if cache[0].inode != inode {
        ForgetMembers(cache[1..], inode);
        var rest := Forget(cache[1..], inode);
        assert forall j :: 0 <= j < |rest| ==> rest[j] in rest;
      }
    }
  }

  lemma {:induction false} ForgetSize(cache: seq<Cached>, inode: nat)
    ensures TotalSize(Forget(cache, inode)) == TotalSize(cache) - (if Find(cache, inode).Some? then |Find(cache,
              inode).value| else 0)
  {
    if cache != [] {
      ForgetSize(cache[1..], inode);
    }
  }

  lemma ForgetEffect(cache: seq<Cached>, inode: nat)
    requires Distinct(cache)
    ensures Distinct(Forget(cache, inode))
    ensures forall e :: e in Forget(cache, inode) <==> e in cache && e.inode != inode
    ensures TotalSize(Forget(cache, inode)) == TotalSize(cache) - (if Find(cache, inode).Some? then |Find(cache,
              inode).value| else 0)
  {
  }

  ghost predicate Absent(a: seq<Cached>, inode: nat) {
    forall k :: 0 <= k < |a| ==> a[k].inode != inode
  }

  predicate CutAt(a: seq<Cached>, inode: nat, k: int, b: seq<Cached>) {
    0 <= k < |a| && a[k].inode == inode && b == a[..k] + a[k + 1..]
  }

  /** `b` is `a` without its entry for a file, if it has one, and otherwise in the same order. */
  ghost predicate Taken(a: seq<Cached>, inode: nat, b: seq<Cached>) {
    (Absent(a, inode) && b == a) || exists k :: CutAt(a, inode, k, b)
  }

  lemma CutLater(a: seq<Cached>, inode: nat, k: int, b: seq<Cached>)
    requires a != [] && CutAt(a[1..], inode, k, b)
    ensures CutAt(a, inode, k + 1, [a[0]] + b)
  {
    assert [a[0]] + (a[1..][..k] + a[1..][k + 1..]) == a[..k + 1] + a[k + 2..];
  }

  lemma {:induction false} ForgetTakes(cache: seq<Cached>, inode: nat)
    ensures Taken(cache, inode, Forget(cache, inode))
  {
    hide CutAt;
    if cache != [] {
      if cache[0].inode == inode {
        CutFirst(cache, inode);
      } else {
        ForgetTakes(cache[1..], inode);
        if k :| CutAt(cache[1..], inode, k, Forget(cache[1..], inode)) {
          CutLater(cache, inode, k, Forget(cache[1..], inode));
        } else {
          AbsentBefore(cache, inode);
        }
      }
    }
  }

  lemma CutFirst(cache: seq<Cached>, inode: nat)
    requires cache != [] && cache[0].inode == inode
    ensures CutAt(cache, inode, 0, Forget(cache, inode))
  {
    assert cache[..0] + cache[1..] == cache[1..];
  }

  lemma AbsentBefore(cache: seq<Cached>, inode: nat)
    requires cache != [] && cache[0].inode != inode && Absent(cache[1..], inode)
    ensures Absent(cache, inode) && [cache[0]] + cache[1..] == cache
  {
    assert forall k :: 0 < k < |cache| ==> cache[k] == cache[1..][k - 1];
  }

  /** The file is last; of the others, in their old order, the first few are gone, and none that could stay. */
  ghost predicate MadeRoom(a: seq<Cached>, e: Cached, limit: nat, b: seq<Cached>) {
    exists others, gone :: Taken(a, e.inode, others) && KeptFrom(others, gone, e, limit, b)
  }

  ghost predicate KeptFrom(others: seq<Cached>, gone: int, e: Cached, limit: nat, b: seq<Cached>) {
    && 0 <= gone <= |others| && b == others[gone..] + [e]
    && (gone > 0 ==> TotalSize(others[gone - 1..]) + |e.data| > limit)
  }

  lemma ForgottenIsFaithful(cache: seq<Cached>, stored: map<nat, seq<byte>>, stored': map<nat, seq<byte>>, inode: nat)
    requires Faithful(cache, stored)
    requires forall i :: i in stored && i != inode ==> i in stored' && stored'[i] == stored[i]
    ensures Faithful(Forget(cache, inode), stored')
  {
    ForgetEffect(cache, inode);
  }

  lemma SnocIsFaithful(cache: seq<Cached>, stored: map<nat, seq<byte>>, inode: nat)
    requires Faithful(cache, stored) && inode in stored && Find(cache, inode).None?
    ensures Faithful(cache + [Cached(inode, stored[inode])], stored)
  {
    FindIsMember(cache, inode);
  }

  lemma TailIsFaithful(cache: seq<Cached>, stored: map<nat, seq<byte>>, inode: nat)
    requires Faithful(cache, stored) && cache != [] && Find(cache, inode).None?
    ensures Faithful(cache[1..], stored) && Find(cache[1..], inode).None?
    ensures TotalSize(cache[1..]) == TotalSize(cache) - |cache[0].data|
  {
  }

  // ---- the sector-range path -----------------------------------------------------------------------

  /** Read whole sectors and cut out the wanted bytes; equal to slicing the file itself. */
  method ReadRange(allocation: seq<byte>, fileSize: nat, offset: nat, size: nat) returns (data: seq<byte>)
    requires fileSize <= |allocation| && |allocation| == (fileSize + SECTOR_BYTES - 1) / SECTOR_BYTES * SECTOR_BYTES
    ensures data == Slice(allocation[..fileSize], offset, offset + size)
  {
    if size == 0 || offset >= fileSize {
      return [];
    }
    var end := Min(fileSize, offset + size);
    var firstSector := offset / SECTOR_BYTES;
    var finalSector := (end + SECTOR_BYTES - 1) / SECTOR_BYTES;
    RangeFits(fileSize, offset, end);
    var sectors := allocation[firstSector * SECTOR_BYTES..finalSector * SECTOR_BYTES];
    var startInSector := offset % SECTOR_BYTES;
    data := sectors[startInSector..startInSector + end - offset];
    SliceOfSlice(allocation, firstSector * SECTOR_BYTES, finalSector * SECTOR_BYTES,
      startInSector, startInSector + end - offset);
    assert allocation[..fileSize][offset..end] == allocation[offset..end];
  }

  lemma SliceOfSlice(a: seq<byte>, low: nat, high: nat, from: nat, to: nat)
    requires low <= high <= |a| && from <= to <= high - low
    ensures a[low..high][from..to] == a[low + from..low + to]
  {
    var part, direct := a[low..high][from..to], a[low + from..low + to];
    assert forall k :: 0 <= k < to - from ==> part[k] == a[low + from + k] == direct[k];
  }

  lemma RangeFits(fileSize: nat, offset: nat, end: nat)
    requires offset < end <= fileSize
    ensures offset / SECTOR_BYTES * SECTOR_BYTES + offset % SECTOR_BYTES == offset
    ensures end <= (end + SECTOR_BYTES - 1) / SECTOR_BYTES * SECTOR_BYTES
    ensures (end + SECTOR_BYTES - 1) / SECTOR_BYTES * SECTOR_BYTES
            <= (fileSize + SECTOR_BYTES - 1) / SECTOR_BYTES * SECTOR_BYTES
    ensures offset % SECTOR_BYTES + (end - offset) <= ((end
              + SECTOR_BYTES - 1) / SECTOR_BYTES - offset / SECTOR_BYTES) * SECTOR_BYTES
  {
  }

  // ---- the reading side of an image -------------------------------------------------------------------

  class FileReader {
    const cacheLimit: nat
    /** What the image stores, and what follows each file in its last sector. */
    var stored: map<nat, seq<byte>>
    var slack: map<nat, seq<byte>>
    var cache: seq<Cached>
    var cacheSize: nat

    ghost predicate Valid()
      reads this
    {
      && slack.Keys == stored.Keys
      && (forall i :: i in stored ==> |slack[i]| == Padding(|stored[i]|))
      && Faithful(cache, stored)
      && cacheSize == TotalSize(cache) <= cacheLimit
    }

    constructor (limit: nat)
      ensures Valid() && cacheLimit == limit && stored == map[]
    {
      cacheLimit := limit;
      stored, slack, cache, cacheSize := map[], map[], [], 0;
    }

    /** Remember a file's bytes, evicting the least recently used until they fit. */
    method CacheFile(inode: nat, data: seq<byte>)
      requires Faithful(Forget(cache, inode), stored) && Distinct(cache) && cacheSize == TotalSize(cache) <= cacheLimit
      requires inode in stored && stored[inode] == data
      modifies this`cache, this`cacheSize
      ensures Faithful(cache, stored) && cacheSize == TotalSize(cache) <= cacheLimit
      ensures |data| > cacheLimit ==> Taken(old(cache), inode, cache)
      ensures |data| <= cacheLimit ==> MadeRoom(old(cache), Cached(inode, data), cacheLimit, cache)
    {
      hide Taken, Faithful, Distinct, Find, Forget;
      ForgetEffect(cache, inode);
      ForgetTakes(cache, inode);
      FindIsMember(Forget(cache, inode), inode);
      var prior := Find(cache, inode);
      cache := Forget(cache, inode);
      if prior.Some? {
        cacheSize := cacheSize - |prior.value|;
      }
      if |data| > cacheLimit {
        return;
      }
      ghost var others, gone := cache, 0;
      while cache != [] && cacheSize + |data| > cacheLimit
        invariant 0 <= gone <= |others| && cache == others[gone..]
        invariant gone > 0 ==> TotalSize(others[gone - 1..]) + |data| > cacheLimit
        invariant Faithful(cache, stored) && Find(cache, inode).None?
        invariant cacheSize == TotalSize(cache) <= cacheLimit
        decreases |cache|
      {
        TailIsFaithful(cache, stored, inode);
        cacheSize := cacheSize - |cache[0].data|;
        cache, gone := cache[1..], gone + 1;
      }
      SnocIsFaithful(cache, stored, inode);
      TotalSizeSnoc(cache, Cached(inode, data));
      assert KeptFrom(others, gone, Cached(inode, data), cacheLimit, cache + [Cached(inode, data)]);
      cache := cache + [Cached(inode, data)];
      cacheSize := cacheSize + |data|;
    }

    /** The whole file, from the cache when it is there. */
    method CachedFile(inode: nat) returns (data: seq<byte>)
      requires Valid() && inode in stored
      modifies this`cache, this`cacheSize
      ensures Valid() && data == stored[inode]
      ensures Cached(inode, data) in old(cache) ==>
                exists others :: Taken(old(cache), inode, others) && cache == others + [Cached(inode, data)]
      ensures Cached(inode, data) !in old(cache) && |data| <= cacheLimit ==>
                MadeRoom(old(cache), Cached(inode, data), cacheLimit, cache)
    {
      hide Taken, CutAt, Absent, MadeRoom;
      ForgetTakes(cache, inode);
      var cached := Find(cache, inode);
      FindIsMember(cache, inode);
      if cached.Some? {
        ForgetEffect(cache, inode);
        FindIsMember(Forget(cache, inode), inode);
        ForgottenIsFaithful(cache, stored, stored, inode);
        SnocIsFaithful(Forget(cache, inode), stored, inode);
        TotalSizeSnoc(Forget(cache, inode), Cached(inode, cached.value));
        cache := Forget(cache, inode) + [Cached(inode, cached.value)];
        return cached.value;
      }
      data := stored[inode];
      ForgottenIsFaithful(cache, stored, stored, inode);
      CacheFile(inode, data);
    }

    method ReadFile(inode: nat, offset: nat, size: nat) returns (data: seq<byte>)
      requires Valid() && inode in stored
      modifies this`cache, this`cacheSize
      ensures Valid() && data == Slice(stored[inode], offset, offset + size)
    {
      if |stored[inode]| > cacheLimit {
        PaddingFills(|stored[inode]|);
        data := ReadRange(stored[inode] + slack[inode], |stored[inode]|, offset, size);
        assert (stored[inode] + slack[inode])[..|stored[inode]|] == stored[inode];
      } else {
        var whole := CachedFile(inode);
        data := Slice(whole, offset, offset + size);
      }
    }

    /** Replace or create a file; a rolled-back mutation leaves image and cache alone. */
    method StoreFile(inode: nat, data: seq<byte>, filler: byte, committed: bool)
      requires Valid()
      modifies this
      ensures Valid() && stored == Effect(old(stored), Store(inode, data, filler, committed))
      ensures committed ==> stored == old(stored)[inode := data]
      ensures committed && |data| <= cacheLimit ==> MadeRoom(old(cache), Cached(inode, data), cacheLimit, cache)
      ensures committed && |data| > cacheLimit ==> Taken(old(cache), inode, cache)
      ensures !committed ==> stored == old(stored) && cache == old(cache)
    {
      if committed {
        ForgottenIsFaithful(cache, stored, stored[inode := data], inode);
        stored := stored[inode := data];
        slack := slack[inode := seq(Padding(|data|), _ => filler)];
        CacheFile(inode, data);
      }
    }

    method DropFile(inode: nat, committed: bool)
      requires Valid()
      modifies this
      ensures Valid() && stored == Effect(old(stored), Drop(inode, committed))
      ensures committed ==> stored == old(stored) - {inode} && Taken(old(cache), inode, cache)
      ensures !committed ==> stored == old(stored) && cache == old(cache)
    {
      hide Taken, Distinct, Find, Forget, TotalSize;
      ForgetTakes(cache, inode);
      if committed {
        var prior := Find(cache, inode);
        ForgetEffect(cache, inode);
        FindIsMember(cache, inode);
        ForgottenIsFaithful(cache, stored, stored - {inode}, inode);
        stored, slack := stored - {inode}, slack - {inode};
        cache := Forget(cache, inode);
        if prior.Some? {
          cacheSize := cacheSize - |prior.value|;
        }
      }
    }

    method ServeOne(r: Request) returns (answer: Option<seq<byte>>)
      requires Valid()
      modifies this
      ensures Valid() && stored == Effect(old(stored), r) && answer == Answer(old(stored), r)
    {
      answer := None;
      match r {
        case Read(inode, offset, size) =>
          if inode in stored {
            var data := ReadFile(inode, offset, size);
            answer := Some(data);
          }
        case Store(inode, data, filler, committed) => StoreFile(inode, data, filler, committed);
        case Drop(inode, committed) => DropFile(inode, committed);
      }
    }

    /** Over any history of reads, stores, drops and rolled-back mutations the reader answers exactly as
        the store without caches would. */
    method Serve(requests: seq<Request>) returns (answers: seq<Option<seq<byte>>>)
      requires Valid()
      modifies this
      ensures Valid() && answers == Answers(old(stored), requests)
    {
      hide Effect, Answer;
      answers := [];
      for i := 0 to |requests|
        invariant Valid()
        invariant answers + Answers(stored, requests[i..]) == Answers(old(stored), requests)
      {
        var r := requests[i];
        assert requests[i..][0] == r && requests[i..][1..] == requests[i + 1..];
        var answer := ServeOne(r);
        assert answers + ([answer] + Answers(stored, requests[i + 1..])) == (answers + [answer]) + Answers(stored,
            requests[i + 1..]);
        answers := answers + [answer];
      }
      assert answers + [] == answers;
    }
  }
}
