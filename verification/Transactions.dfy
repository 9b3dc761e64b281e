/** Before-image capture and replay for one mutation of an old-map image, and the whole-file variant
    used where no sector adapter exists. */
module Transactions {

  type byte = x: int | 0 <= x < 256

  const SECTOR_BYTES: int := 256
  const MAP_SECTORS: int := 2
  const DISC_ID_OFFSET: int := 0x1FB

  datatype BeforeImage = BeforeImage(offset: nat, data: seq<byte>) {
    predicate Covers(p: int) {
      offset <= p < offset + |data|
    }
  }

  // ---- the meaning of capture and restore on values ---------------------------------------------

  function Min(a: int, b: int): int {
    if a <= b then a else b
  }

  /** A slice in the source's sense: clipped at the end of the data. */
  function Slice(data: seq<byte>, offset: nat, end: nat): seq<byte>
    requires offset <= end
  {
    data[Min(offset, |data|)..Min(end, |data|)]
  }

  /** So a slice has the bytes from the offset on, as many as there are before the end. */
  lemma SliceHas(data: seq<byte>, offset: nat, end: nat)
    requires offset <= end
    ensures offset >= |data| ==> Slice(data, offset, end) == []
    ensures offset < |data| ==> |Slice(data, offset, end)| == if end <= |data| then end - offset else |data| - offset
    ensures forall k :: 0 <= k < |Slice(data, offset, end)| ==>
              offset + k < |data| && Slice(data, offset, end)[k] == data[offset + k]
  {
  }

  function Captured(data: seq<byte>, start: nat, count: nat): BeforeImage {
    BeforeImage(start * SECTOR_BYTES, Slice(data, start * SECTOR_BYTES, (start + count) * SECTOR_BYTES))
  }

  /** A before-image holds the present bytes of its sectors, as far as the data goes. */
  lemma CapturedMeans(data: seq<byte>, start: nat, count: nat)
    ensures var image := Captured(data, start, count);
            && image.offset == start * 256 && |image.data| <= count * 256
            && (forall p :: 0 <= p < |data| ==> (image.Covers(p) <==> start * 256 <= p < (start + count) * 256))
            && (forall p :: 0 <= p < |data| && image.Covers(p) ==> image.data[p - image.offset] == data[p])
  {
    SliceHas(data, start * SECTOR_BYTES, (start + count) * SECTOR_BYTES);
  }

  /** Put one before-image back. */
  function Overlay(image: BeforeImage, data: seq<byte>): seq<byte> {
    seq(|data|, p requires 0 <= p < |data| => if image.Covers(p) then image.data[p - image.offset] else data[p])
  }

  /** Restore: the latest capture is put back first, so the earliest has the last word. */
  function Replay(images: seq<BeforeImage>, data: seq<byte>): (r: seq<byte>)
    ensures |r| == |data|
  {
    if images == [] then data
    else Replay(images[..|images| - 1], Overlay(images[|images| - 1], data))
  }

  /** The last `n` before-images, or all of them. */
  function Last(images: seq<BeforeImage>, n: nat): seq<BeforeImage> {
    images[|images| - Min(n, |images|)..]
  }

  ghost predicate CoveredBy(images: seq<BeforeImage>, p: int) {
    exists k :: 0 <= k < |images| && images[k].Covers(p)
  }

  /** The byte the earliest covering capture recorded, or the current one. */
  ghost function Earliest(images: seq<BeforeImage>, data: seq<byte>, p: nat): byte
    requires p < |data|
  {
    if images == [] then data[p]
    else if images[0].Covers(p) then images[0].data[p - images[0].offset]
    else Earliest(images[1..], data, p)
  }

  lemma {:induction false} EarliestSnoc(images: seq<BeforeImage>, image: BeforeImage, data: seq<byte>, p: nat)
    requires p < |data|
    ensures Earliest(images + [image], data, p) == Earliest(images, Overlay(image, data), p)
  {
    if images == [] {
      assert images + [image] == [image];
      assert [image][1..] == [];
    } else {
      assert (images + [image])[1..] == images[1..] + [image];
      EarliestSnoc(images[1..], image, data, p);
    }
  }

  /** Reverse replay lets the earliest capture of each byte win. */
  lemma {:induction false} ReplayIsEarliest(images: seq<BeforeImage>, data: seq<byte>, p: nat)
    requires p < |data|
    ensures Replay(images, data)[p] == Earliest(images, data, p)
  {
    if images != [] {
      var front, last := images[..|images| - 1], images[|images| - 1];
      ReplayIsEarliest(front, Overlay(last, data), p);
      EarliestSnoc(front, last, data, p);
      assert front + [last] == images;
    }
  }

  // ---- any interleaving of captures and writes -------------------------------------------------------

  datatype Action =
    | Capture(start: nat, count: nat)
    | Poke(position: nat, value: byte)

  datatype Run = Run(data: seq<byte>, images: seq<BeforeImage>, captured: set<(nat, nat)>)

  function Perform(a: Action, r: Run): Run {
    match a
    case Capture(start, count) =>
      if count == 0 || (start, count) in r.captured then r
      else r.(images := r.images + [Captured(r.data, start, count)], captured := r.captured + {(start, count)})
    case Poke(p, v) =>
      if p < |r.data| then r.(data := r.data[p := v]) else r
  }

  function PerformAll(script: seq<Action>, r: Run): Run {
    if script == [] then r else PerformAll(script[1..], Perform(script[0], r))
  }

  /** Before-images never reach past the data they were taken from. */
  ghost predicate AllFit(r: Run) {
    forall k :: 0 <= k < |r.images| ==> r.images[k].offset + |r.images[k].data| <= |r.data| || r.images[k].data == []
  }

  lemma {:induction false} PerformAllKeepsFit(script: seq<Action>, r: Run)
    requires AllFit(r)
    ensures AllFit(PerformAll(script, r)) && |PerformAll(script, r).data| == |r.data|
  {
    if script != [] {
      PerformAllKeepsFit(script[1..], Perform(script[0], r));
    }
  }

  /** The contract the catalogue library is trusted with: it writes only bytes captured before or lying
      in sectors that were free before the mutation. */
  predicate Permitted(a: Action, r: Run, free: set<nat>) {
    match a
    case Capture(_, _) => true
    case Poke(p, _) => p / SECTOR_BYTES in free || exists k :: 0 <= k < |r.images| && r.images[k].Covers(p)
  }

  predicate Lawful(script: seq<Action>, r: Run, free: set<nat>) {
    script == [] || (Permitted(script[0], r, free) && Lawful(script[1..], Perform(script[0], r), free))
  }

  /** Every byte outside the free sectors can be brought back to its value in `before`. */
  ghost predicate Restorable(r: Run, before: seq<byte>, free: set<nat>) {
    && |r.data| == |before|
    && forall p: nat :: p < |before| && p / SECTOR_BYTES !in free ==>
         Earliest(r.images, r.data, p) == before[p] && (!CoveredBy(r.images, p) ==> r.data[p] == before[p])
  }

  lemma {:induction false} EarliestUncovered(images: seq<BeforeImage>, data: seq<byte>, p: nat)
    requires p < |data|
    ensures !CoveredBy(images, p) ==> Earliest(images, data, p) == data[p]
    ensures forall other: seq<byte> :: CoveredBy(images, p) && |other| == |data| ==>
              Earliest(images, other, p) == Earliest(images, data, p)
  {
    if images != [] {
      EarliestUncovered(images[1..], data, p);
      if CoveredBy(images[1..], p) {
        var k :| 0 <= k < |images[1..]| && images[1..][k].Covers(p);
        assert images[k + 1].Covers(p);
      }
      if CoveredBy(images, p) && !images[0].Covers(p) {
        var k :| 0 <= k < |images| && images[k].Covers(p);
        assert images[1..][k - 1].Covers(p);
      }
    }
  }

  lemma {:induction false} EarliestKept(images: seq<BeforeImage>, image: BeforeImage, data: seq<byte>, p: nat)
    requires p < |data|
    ensures CoveredBy(images, p) ==> Earliest(images + [image], data, p) == Earliest(images, data, p)
    ensures !CoveredBy(images, p) && image.Covers(p) ==>
              Earliest(images + [image], data, p) == image.data[p - image.offset]
    ensures !CoveredBy(images, p) && !image.Covers(p) ==> Earliest(images + [image], data, p) == data[p]
    ensures CoveredBy(images + [image], p) <==> CoveredBy(images, p) || image.Covers(p)
  {
    EarliestSnoc(images, image, data, p);
    EarliestUncovered(images, data, p);
    EarliestUncovered(images, Overlay(image, data), p);
    var all := images + [image];
    if CoveredBy(images, p) {
      var k :| 0 <= k < |images| && images[k].Covers(p);
      assert all[k].Covers(p);
    }
    if image.Covers(p) {
      assert all[|images|].Covers(p);
    }
  }

  lemma CaptureKeepsRestorable(r: Run, start: nat, count: nat, before: seq<byte>, free: set<nat>)
    requires Restorable(r, before, free)
    ensures Restorable(Perform(Capture(start, count), r), before, free)
  {
    var image := Captured(r.data, start, count);
    forall p: nat | p < |before| && p / SECTOR_BYTES !in free
      ensures Earliest(r.images + [image], r.data, p) == before[p]
      ensures !CoveredBy(r.images + [image], p) ==> r.data[p] == before[p]
    {
      EarliestKept(r.images, image, r.data, p);
    }
  }

  lemma PokeKeepsRestorable(r: Run, position: nat, value: byte, before: seq<byte>, free: set<nat>)
    requires Restorable(r, before, free) && Permitted(Poke(position, value), r, free)
    ensures Restorable(Perform(Poke(position, value), r), before, free)
  {
    if position < |r.data| {
      var data := r.data[position := value];
      forall p: nat | p < |before| && p / SECTOR_BYTES !in free
        ensures Earliest(r.images, data, p) == before[p]
        ensures !CoveredBy(r.images, p) ==> data[p] == before[p]
      {
        EarliestUncovered(r.images, r.data, p);
        EarliestUncovered(r.images, data, p);
      }
    }
  }

  lemma {:induction false} LawfulRunRestorable(script: seq<Action>, r: Run, before: seq<byte>, free: set<nat>)
    requires Lawful(script, r, free) && Restorable(r, before, free)
    ensures Restorable(PerformAll(script, r), before, free)
  {
    if script != [] {
      match script[0] {
        case Capture(start, count) => CaptureKeepsRestorable(r, start, count, before, free);
        case Poke(p, v) => PokeKeepsRestorable(r, p, v, before, free);
      }
      LawfulRunRestorable(script[1..], Perform(script[0], r), before, free);
    }
  }

  /** Equal outside the sectors that were free beforehand. */
  ghost predicate SameOutside(free: set<nat>, a: seq<byte>, b: seq<byte>) {
    |a| == |b| && forall p: nat :: p < |a| && p / SECTOR_BYTES !in free ==> a[p] == b[p]
  }

  lemma RestorableReplays(r: Run, before: seq<byte>, free: set<nat>)
    requires Restorable(r, before, free)
    ensures SameOutside(free, Replay(r.images, r.data), before)
  {
    forall p: nat | p < |before| && p / SECTOR_BYTES !in free
      ensures Replay(r.images, r.data)[p] == before[p]
    {
      ReplayIsEarliest(r.images, r.data, p);
    }
  }

  /** However captures and permitted writes are interleaved, and however the captures overlap, restoring
      brings every sector that was not free back to its bytes before the mutation. */
  lemma RestoreUndoesRun(script: seq<Action>, before: seq<byte>, free: set<nat>)
    requires Lawful(script, Run(before, [], {}), free)
    ensures var r := PerformAll(script, Run(before, [], {})); SameOutside(free, Replay(r.images, r.data), before)
  {
    var start := Run(before, [], {});
    assert Restorable(start, before, free);
    LawfulRunRestorable(script, start, before, free);
    RestorableReplays(PerformAll(script, start), before, free);
  }

  // ---- what a script leaves ------------------------------------------------------------------------------

  /** Step `k` of the script is the last that writes position `p`. */
  predicate LastWrite(script: seq<Action>, k: int, p: nat) {
    && 0 <= k < |script| && script[k].Poke? && script[k].position == p
    && forall j :: k < j < |script| ==> !(script[j].Poke? && script[j].position == p)
  }

  /** A position no step of the script writes. */
  predicate Unwritten(script: seq<Action>, p: nat) {
    forall j :: 0 <= j < |script| ==> !(script[j].Poke? && script[j].position == p)
  }

  /** After a script each byte is the last one written to it, or what it was. */
  lemma {:induction false} ScriptLeaves(script: seq<Action>, r: Run, p: nat)
    requires p < |r.data|
    ensures |PerformAll(script, r).data| == |r.data|
    ensures forall k :: LastWrite(script, k, p) ==> PerformAll(script, r).data[p] == script[k].value
    ensures Unwritten(script, p) ==> PerformAll(script, r).data[p] == r.data[p]
  {
    if script != [] {
      var next := Perform(script[0], r);
      ScriptLeaves(script[1..], next, p);
      forall k | LastWrite(script, k, p)
        ensures PerformAll(script, r).data[p] == script[k].value
      {
        if k == 0 {
          assert Unwritten(script[1..], p);
        } else {
          assert LastWrite(script[1..], k - 1, p);
        }
      }
      if Unwritten(script, p) {
        assert Unwritten(script[1..], p);
      }
    }
  }

  // ---- the cycle number -----------------------------------------------------------------------------------

  function DiscId(data: seq<byte>): nat
    requires |data| >= MAP_SECTORS * SECTOR_BYTES
  {
    data[DISC_ID_OFFSET] as nat + 256 * (data[DISC_ID_OFFSET + 1] as nat)
  }

  /** The map with its cycle number advanced and its two checksum bytes refreshed. */
  function Advanced(data: seq<byte>, check0: byte, check1: byte): (r: seq<byte>)
    requires |data| >= MAP_SECTORS * SECTOR_BYTES
    ensures |r| == |data|
    ensures DiscId(r) == (DiscId(data) + 1) % 65536
    ensures forall p :: 0 <= p < |data| && p !in {0xFF, 0x1FF, DISC_ID_OFFSET, DISC_ID_OFFSET + 1} ==> r[p] == data[p]
  {
    var id := (DiscId(data) + 1) % 65536;
    data[DISC_ID_OFFSET := id % 256][DISC_ID_OFFSET + 1 := id / 256][0xFF := check0][0x1FF := check1]
  }

  // ---- the transaction object ------------------------------------------------------------------------------

  class SectorTransaction {
    const mapping: array<byte>
    var beforeImages: seq<BeforeImage>
    var captured: set<(nat, nat)>

    ghost function State(): Run
      reads this, mapping
    {
      Run(mapping[..], beforeImages, captured)
    }

    constructor (m: array<byte>)
      ensures mapping == m && m[..] == old(m[..])
      ensures State() == Perform(Capture(0, MAP_SECTORS), Run(m[..], [], {}))
    {
      mapping := m;
      beforeImages, captured := [], {};
      new;
      CaptureSectors(0, MAP_SECTORS);
    }

    method CaptureSectors(start: nat, count: nat)
      modifies this
      ensures State() == Perform(Capture(start, count), old(State()))
    {
      if count == 0 {
        return;
      }
      var key := (start, count);
      if key in captured {
        return;
      }
      var offset := start * SECTOR_BYTES;
      var end := offset + count * SECTOR_BYTES;
      beforeImages := beforeImages + [BeforeImage(offset, Slice(mapping[..], offset, end))];
      captured := captured + {key};
    }

    method Execute(script: seq<Action>)
      modifies this, mapping
      ensures State() == PerformAll(script, old(State()))
    {
      ghost var start := State();
      for i := 0 to |script|
        invariant PerformAll(script, start) == PerformAll(script[i..], State())
      {
        assert script[i..][0] == script[i] && script[i..][1..] == script[i + 1..];
        match script[i] {
          case Capture(start, count) => CaptureSectors(start, count);
          case Poke(position, value) => Poke(position, value);
        }
      }
    }

    method Poke(position: nat, value: byte)
      modifies mapping
      ensures State() == Perform(Action.Poke(position, value), old(State()))
    {
      if position < mapping.Length {
        mapping[position] := value;
      }
    }

    /** Write before-images back, last captured first; a fault may stop it after `limit` of them. */
    method Restore(limit: nat)
      requires AllFit(State())
      modifies mapping
      ensures mapping[..] == Replay(Last(beforeImages, limit), old(mapping[..]))
    {
      var stop := |beforeImages| - Min(limit, |beforeImages|);
      assert Last(beforeImages, limit) == beforeImages[stop..|beforeImages|];
      for i := |beforeImages| downto stop
        invariant Replay(beforeImages[stop..i], mapping[..]) == Replay(Last(beforeImages, limit), old(mapping[..]))
      {
        var image := beforeImages[i];
        ghost var was := mapping[..];
        assert beforeImages[stop..i + 1][..i - stop] == beforeImages[stop..i];
        WriteBack(image);
      }
      assert beforeImages[stop..stop] == [];
    }

    method WriteBack(image: BeforeImage)
      requires image.offset + |image.data| <= mapping.Length || image.data == []
      modifies mapping
      ensures mapping[..] == Overlay(image, old(mapping[..]))
    {
      for j := 0 to |image.data|
        invariant forall p :: 0 <= p < mapping.Length ==>
          mapping[p] == if image.offset <= p < image.offset + j then image.data[p - image.offset] else old(mapping[p])
      {
        mapping[image.offset + j] := image.data[j];
      }
    }

    /** Advance the 16-bit cycle number; `check0` and `check1` are the refreshed map checksums. */
    method AdvanceDiscId(check0: byte, check1: byte)
      requires mapping.Length >= MAP_SECTORS * SECTOR_BYTES
      modifies mapping
      ensures mapping[..] == Advanced(old(mapping[..]), check0, check1)
    {
      var oldId := mapping[DISC_ID_OFFSET] as nat + 256 * (mapping[DISC_ID_OFFSET + 1] as nat);
      var newId: nat := (oldId + 1) % 65536;
      mapping[DISC_ID_OFFSET] := newId % 256;
      mapping[DISC_ID_OFFSET + 1] := newId / 256;
      mapping[0xFF] := check0;
      mapping[0x1FF] := check1;
    }
  }

  /** Whole-image replay in chunks.  It succeeds exactly when the backup has the image's length, and
      then the image is the backup, however the file is cut into chunks. */
  method RestoreFile(mapping: array<byte>, backup: seq<byte>, chunk: nat) returns (ok: bool)
    requires chunk > 0
    modifies mapping
    ensures ok <==> |backup| == mapping.Length
    ensures ok ==> mapping[..] == backup
  {
    var offset := 0;
    while offset < |backup|
      invariant 0 <= offset <= |backup| && offset <= mapping.Length
      invariant mapping[..offset] == backup[..offset]
    {
      var end := if offset + chunk <= |backup| then offset + chunk else |backup|;
      if end > mapping.Length {
        return false;
      }
      for j := offset to end
        invariant mapping[..offset] == backup[..offset]
        invariant forall p :: offset <= p < j ==> mapping[p] == backup[p]
      {
        mapping[j] := backup[j];
      }
      assert forall p :: 0 <= p < end ==> mapping[..end][p] == backup[..end][p];
      offset := end;
    }
    ok := offset == mapping.Length;
  }
}
