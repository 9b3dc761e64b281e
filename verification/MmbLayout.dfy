/** The repeated-extent MMB container: its catalogue arithmetic, and how windows and headers tile it. */
module MmbLayout {
  import opened Decimals
  import opened Transactions

  const HEADER_BYTES: nat := 8192
  const SLOT_BYTES: nat := 204800
  const SLOT_COUNT: nat := 511
  const ENTRY_BYTES: nat := 16
  const STANDARD_BYTES: nat := HEADER_BYTES + SLOT_COUNT * SLOT_BYTES
  const MAX_EXTENTS: nat := 16

  const LOCKED: byte := 0x00
  const READ_WRITE: byte := 0x0F
  const UNFORMATTED: byte := 0xF0
  const INVALID: byte := 0xFF

  /** One formatted slot; the title is its catalogue bytes, stripped of trailing spaces and zeros. */
  datatype Slot = Slot(index: nat, title: seq<byte>, status: byte, offset: nat, displayWidth: nat)

  datatype Layout = Layout(slots: seq<Slot>, bootSlots: seq<nat>, extentCount: nat)

  datatype Reading =
    | Accepted(layout: Layout)
    | ShortCatalogue
    | SizeMismatch
    | BootOutside
    | UnknownStatus(index: nat)

  // ---- what the bytes of a container declare ----------------------------------------------------------

  predicate Known(status: byte) {
    status == LOCKED || status == READ_WRITE || status == UNFORMATTED || status == INVALID
  }

  predicate Formatted(status: byte) {
    status == LOCKED || status == READ_WRITE
  }

  /** The marker's high nibble must be 0xA for its low nibble to count further extents. */
  function ExtentsDeclared(marker: byte): (n: nat)
    ensures 1 <= n <= MAX_EXTENTS
  {
    if marker / 16 == 0xA then marker % 16 + 1 else 1
  }

  function EntryPosition(index: nat): nat {
    index / SLOT_COUNT * STANDARD_BYTES + (index % SLOT_COUNT + 1) * ENTRY_BYTES
  }

  function SlotOffset(index: nat): nat {
    index / SLOT_COUNT * STANDARD_BYTES + HEADER_BYTES + index % SLOT_COUNT * SLOT_BYTES
  }

  /** Every entry lies inside the header of its own extent. */
  lemma EntryInHeader(index: nat, extents: nat)
    requires index < extents * SLOT_COUNT
    ensures index / SLOT_COUNT < extents
    ensures index / SLOT_COUNT * STANDARD_BYTES < EntryPosition(index)
    ensures EntryPosition(index) + ENTRY_BYTES <= index / SLOT_COUNT * STANDARD_BYTES + HEADER_BYTES
    ensures EntryPosition(index) + ENTRY_BYTES <= extents * STANDARD_BYTES
  {
  }

  function RStrip(text: seq<byte>): (r: seq<byte>)
    ensures r <= text
    ensures r != [] ==> r[|r| - 1] != 0x20 && r[|r| - 1] != 0
    ensures forall k :: |r| <= k < |text| ==> text[k] == 0x20 || text[k] == 0
  {
    if text != [] && (text[|text| - 1] == 0x20 || text[|text| - 1] == 0) then RStrip(text[..|text| - 1]) else text
  }

  /** `r` is `text` without the spaces and zeros at its end. */
  ghost predicate Stripped(text: seq<byte>, r: seq<byte>) {
    && r <= text && (forall k :: |r| <= k < |text| ==> text[k] == 32 || text[k] == 0)
    && (r != [] ==> r[|r| - 1] != 32 && r[|r| - 1] != 0)
  }

  function At(image: seq<byte>, p: nat): byte {
    if p < |image| then image[p] else 0
  }

  /** What the catalogue entry of slot `index` says, width of its displayed number included. */
  function SlotDeclared(image: seq<byte>, index: nat, width: nat): (s: Slot)
    ensures s.index == index && s.status == StatusOf(image, index)
  {
    var at := EntryPosition(index);
    Slot(index, RStrip(Slice(image, at, at + 12)), At(image, at + 15), SlotOffset(index), width)
  }

  function StatusOf(image: seq<byte>, index: nat): byte {
    At(image, EntryPosition(index) + 15)
  }

  function BootDeclared(image: seq<byte>, k: nat): nat
    requires k < 4 && |image| >= HEADER_BYTES
  {
    var low: nat, high: nat := image[k], image[k + 4];
    low + 256 * high
  }

  /** The formatted slots among the first `count`, in catalogue order. */
  function Listed(image: seq<byte>, count: nat, width: nat): seq<Slot> {
    if count == 0 then []
    else
      var front := Listed(image, count - 1, width);
      if Formatted(StatusOf(image, count - 1)) then front + [SlotDeclared(image, count - 1, width)] else front
  }

  ghost predicate Ascending(slots: seq<Slot>) {
    forall j, k :: 0 <= j < k < |slots| ==> slots[j].index < slots[k].index
  }

  /** A slot is listed exactly when its status says it is formatted, once, in order, as declared. */
  lemma {:induction false} ListedExactly(image: seq<byte>, count: nat, width: nat)
    ensures forall s: Slot :: s in Listed(image, count, width) <==>
              s.index < count && Formatted(StatusOf(image, s.index)) && s == SlotDeclared(image, s.index, width)
    ensures Ascending(Listed(image, count, width))
  {
    hide SlotDeclared, StatusOf, Formatted;
    if count > 0 {
      ListedExactly(image, count - 1, width);
      var front := Listed(image, count - 1, width);
      forall k | 0 <= k < |front|
        ensures front[k].index < count - 1
      {
        assert front[k] in front;
      }
      var last := SlotDeclared(image, count - 1, width);
      assert last.index == count - 1;
      var slots := Listed(image, count, width);
      forall s: Slot
        ensures s in slots <==>
                  s.index < count && Formatted(StatusOf(image, s.index)) && s == SlotDeclared(image, s.index, width)
      {
        assert s in slots <==> s in front || (s == last && Formatted(StatusOf(image, count - 1)));
        assert s.index < count <==> s.index < count - 1 || s.index == count - 1;
      }
    }
  }

  ghost predicate KnownBelow(image: seq<byte>, count: nat) {
    forall i: nat :: i < count ==> Known(StatusOf(image, i))
  }

  /** The container is as long as its extents demand, and its boot slots exist. */
  ghost predicate WellSized(image: seq<byte>) {
    |image| >= HEADER_BYTES && |image| == ExtentsDeclared(image[8]) * STANDARD_BYTES
  }

  ghost predicate BootInside(image: seq<byte>)
    requires WellSized(image)
  {
    forall k :: 0 <= k < 4 ==> BootDeclared(image, k) < ExtentsDeclared(image[8]) * SLOT_COUNT
  }

  /** What accepting `layout` for `image` promises. */
  ghost predicate Describes(layout: Layout, image: seq<byte>) {
    && WellSized(image)
    && layout.extentCount == ExtentsDeclared(image[8])
    && BootInside(image)
    && layout.bootSlots == seq(4, k requires 0 <= k < 4 => BootDeclared(image, k))
    && KnownBelow(image, layout.extentCount * SLOT_COUNT)
    && layout.slots == Listed(image, layout.extentCount * SLOT_COUNT, DecimalWidth(layout.extentCount * SLOT_COUNT - 1))
  }

  /** Parse every extent's catalogue. Each refusal is given exactly when the earlier checks pass and
      its own fails; an accepted layout lists exactly the formatted slots. */
  method ReadLayout(image: seq<byte>) returns (r: Reading)
    ensures r.ShortCatalogue? <==> |image| < HEADER_BYTES
    ensures r.SizeMismatch? <==> |image| >= HEADER_BYTES && !WellSized(image)
    ensures r.BootOutside? <==> WellSized(image) && !BootInside(image)
    ensures r.Accepted? ==> Describes(r.layout, image)
    ensures r.UnknownStatus? ==>
              WellSized(image) && BootInside(image) && r.index < ExtentsDeclared(image[8]) * SLOT_COUNT
              && !Known(StatusOf(image, r.index)) && KnownBelow(image, r.index)
  {
    hide StatusOf, SlotDeclared, Listed, KnownBelow, RStrip, Formatted, Known, DecimalWidth;
    if |image| < HEADER_BYTES {
      return ShortCatalogue;
    }
    var extents := ExtentsDeclared(image[8]);
    if |image| != extents * STANDARD_BYTES {
      return SizeMismatch;
    }
    var boot := seq(4, k requires 0 <= k < 4 => BootDeclared(image, k));
    var total := extents * SLOT_COUNT;
    if boot[0] >= total || boot[1] >= total || boot[2] >= total || boot[3] >= total {
      return BootOutside;
    }
    assert BootInside(image) by {
      forall k | 0 <= k < 4
        ensures BootDeclared(image, k) < total
      {
        assert boot[k] == BootDeclared(image, k);
      }
    }
    NothingBelow(image, DecimalWidth(total - 1));
    var slots: seq<Slot> := [];
    var width := DecimalWidth(total - 1);
    var extent := 0;
    while extent < extents
      invariant extent <= extents
      invariant extent * SLOT_COUNT <= total
      invariant KnownBelow(image, extent * SLOT_COUNT)
      invariant slots == Listed(image, extent * SLOT_COUNT, width)
    {
      var local := 0;
      while local < SLOT_COUNT
        invariant local <= SLOT_COUNT
        invariant KnownBelow(image, extent * SLOT_COUNT + local)
        invariant slots == Listed(image, extent * SLOT_COUNT + local, width)
      {
        var index := extent * SLOT_COUNT + local;
        EntryOf(image, extent, local, extents, width);
        OneMore(image, index, width);
        var entry := extent * STANDARD_BYTES + (local + 1) * ENTRY_BYTES;
        var status := image[entry + 15];
        if !Known(status) {
          return UnknownStatus(index);
        }
        if Formatted(status) {
          slots := slots + [Slot(index, RStrip(image[entry..entry + 12]), status,
                                 extent * STANDARD_BYTES + HEADER_BYTES + local * SLOT_BYTES, width)];
        }
        local := local + 1;
      }
      extent := extent + 1;
    }
    return Accepted(Layout(slots, boot, extents));
  }

  lemma SplitIndex(extent: nat, local: nat)
    requires local < SLOT_COUNT
    ensures (extent * SLOT_COUNT + local) / SLOT_COUNT == extent
    ensures (extent * SLOT_COUNT + local) % SLOT_COUNT == local
  {
  }

  /** The nested loop's positions are those of the slot it has reached. */
  lemma EntryOf(image: seq<byte>, extent: nat, local: nat, extents: nat, width: nat)
    requires extent < extents && local < SLOT_COUNT && |image| == extents * STANDARD_BYTES
    ensures var index, at := extent * SLOT_COUNT + local, extent * STANDARD_BYTES + (local + 1) * ENTRY_BYTES;
            && index < extents * SLOT_COUNT && at + ENTRY_BYTES <= |image|
            && StatusOf(image, index) == image[at + 15]
            && SlotDeclared(image, index, width)
               == Slot(index, RStrip(image[at..at + 12]), image[at + 15],
                       extent * STANDARD_BYTES + HEADER_BYTES + local * SLOT_BYTES, width)
  {
  }

  lemma NothingBelow(image: seq<byte>, width: nat)
    ensures Listed(image, 0, width) == [] && KnownBelow(image, 0)
  {
  }

  lemma OneMore(image: seq<byte>, count: nat, width: nat)
    ensures Listed(image, count + 1, width)
            == Listed(image, count, width) + (if Formatted(StatusOf(image, count)) then [SlotDeclared(image, count,
                width)] else [])
    ensures KnownBelow(image, count) && Known(StatusOf(image, count)) ==> KnownBelow(image, count + 1)
  {
  }

  // ---- the layout in plain numbers ---------------------------------------------------------------------------

  /** The marker 0xA0 to 0xAF stands for one to sixteen extents, any other for one; a slot is known with status
      0, 15, 240 or 255 and formatted with 0 or 15. */
  lemma MarkerMeans(marker: byte)
    ensures ExtentsDeclared(marker) == if 160 <= marker <= 175 then marker - 159 else 1
    ensures Known(marker) <==> marker in {0, 15, 240, 255}
    ensures Formatted(marker) <==> marker in {0, 15}
  {
  }

  /** Where the entry of slot `local` of extent `extent` is, what it says, and where the slot's bytes are. */
  lemma EntryMeans(image: seq<byte>, extent: nat, local: nat, extents: nat, width: nat)
    requires extent < extents && local < 511 && |image| == extents * 104660992
    ensures var s, at := SlotDeclared(image, extent * 511 + local, width), extent * 104660992 + 16 * (local + 1);
            && 0 <= at && at + 16 <= |image| && s.index == extent * 511 + local && s.displayWidth == width
            && StatusOf(image, extent * 511 + local) == s.status == image[at + 15]
            && Stripped(image[at..at + 12], s.title)
            && s.offset == extent * 104660992 + 8192 + local * 204800
  {
    hide RStrip;
    EntryOf(image, extent, local, extents, width);
  }

  /** The boot slots are sixteen-bit numbers, low bytes first in the header and high bytes after them. */
  lemma BootMeans(layout: Layout, image: seq<byte>)
    requires Describes(layout, image)
    ensures |image| == layout.extentCount * 104660992 && 1 <= layout.extentCount <= 16
    ensures |layout.bootSlots| == 4
    ensures forall k :: 0 <= k < 4 ==>
              layout.bootSlots[k] == image[k] as int + 256 * image[k + 4] as int
              && layout.bootSlots[k] < layout.extentCount * 511
  {
    hide KnownBelow, Listed, DecimalWidth;
    forall k | 0 <= k < 4
      ensures layout.bootSlots[k] == BootDeclared(image, k) < layout.extentCount * SLOT_COUNT
    {
    }
  }

  // ---- tiling --------------------------------------------------------------------------------------------

  datatype Region = Header(extent: nat) | Window(slot: nat)

  /** Where a region starts and how long it is. */
  function Start(r: Region): nat {
    match r
    case Header(e) => e * STANDARD_BYTES
    case Window(i) => SlotOffset(i)
  }

  function Length(r: Region): nat {
    if r.Header? then HEADER_BYTES else SLOT_BYTES
  }

  predicate Exists(r: Region, extents: nat) {
    match r
    case Header(e) => e < extents
    case Window(i) => i < extents * SLOT_COUNT
  }

  predicate Within(p: int, r: Region) {
    Start(r) <= p < Start(r) + Length(r)
  }

  /** The region a byte belongs to, by division. */
  function Owner(p: nat): Region {
    var extent, rest := p / STANDARD_BYTES, p % STANDARD_BYTES;
    if rest < HEADER_BYTES then Header(extent)
    else Window(extent * SLOT_COUNT + (rest - HEADER_BYTES) / SLOT_BYTES)
  }

  lemma OwnerContains(p: nat)
    ensures Within(p, Owner(p))
  {
  }

  lemma OnlyOwnerContains(p: nat, r: Region)
    requires Within(p, r)
    ensures r == Owner(p)
  {
    match r
    case Header(e) =>
      assert p / STANDARD_BYTES == e && p % STANDARD_BYTES < HEADER_BYTES;
    case Window(i) =>
      var extent, local := i / SLOT_COUNT, i % SLOT_COUNT;
      var rest := p - extent * STANDARD_BYTES;
      assert HEADER_BYTES + local * SLOT_BYTES <= rest < HEADER_BYTES + (local + 1) * SLOT_BYTES <= STANDARD_BYTES;
      assert p / STANDARD_BYTES == extent && p % STANDARD_BYTES == rest;
      assert (rest - HEADER_BYTES) / SLOT_BYTES == local;
      SplitIndex(extent, local);
  }

  /** Headers and slot windows over any number of extents tile the container: every byte of it lies in
      exactly one of them, and none of them reaches outside. */
  lemma RegionsTile(extents: nat, p: nat)
    ensures p < extents * STANDARD_BYTES <==> exists r: Region :: Exists(r, extents) && Within(p, r)
    ensures forall r, s: Region :: Within(p, r) && Within(p, s) ==> r == s
  {
    OwnerContains(p);
    forall r: Region | Within(p, r)
      ensures r == Owner(p)
    {
      OnlyOwnerContains(p, r);
    }
    var extent := p / STANDARD_BYTES;
    if p < extents * STANDARD_BYTES {
      assert extent < extents;
      assert (extent + 1) * SLOT_COUNT <= extents * SLOT_COUNT;
      assert Exists(Owner(p), extents);
    }
    if r: Region :| Exists(r, extents) && Within(p, r) {
      InsideContainer(r, extents);
    }
  }

  lemma InsideContainer(r: Region, extents: nat)
    requires Exists(r, extents)
    ensures Start(r) + Length(r) <= extents * STANDARD_BYTES
  {
  }

}
