/** Mutations of an MMB container: confined to one read-write slot, so headers, locked and unformatted
    slots, and every other slot, survive any run of them byte for byte. */
module MmbMount {
  import opened Decimals
  import opened Lists
  import opened Transactions
  import opened MmbLayout
  import opened MmbPaths

  datatype Command =
    | WriteBytes(path: string)
    | Remove(path: string)
    | Rename(path: string, newPath: string)
    | SetMeta(path: string)

  /** A call together with what the DFS library below does with it: whether it recognises the slot when
      it must open it, which bytes of its window it writes, and whether it raises afterwards. */
  datatype Call = Call(command: Command, recognised: bool, writes: seq<(nat, byte)>, raises: bool)

  datatype Outcome = Done | NotFound | Locked | SlotDirectory | AcrossSlots | NotDfs | DfsFailed

  datatype Container = Container(image: seq<byte>, mounts: seq<nat>)

  /** The library is handed a window of the container and nothing else. */
  ghost predicate InWindow(writes: seq<(nat, byte)>) {
    forall w :: w in writes ==> w.0 < SLOT_BYTES
  }

  // ---- the recently used mounts ------------------------------------------------------------------------

  /** The slot becomes the most recently used; the least recently used ones give way. */
  function Touched(mounts: seq<nat>, index: nat, limit: nat): seq<nat> {
    var next := Without(mounts, index) + [index];
    next[|next| - Min(limit, |next|)..]
  }

  // ---- one call, and runs of calls -----------------------------------------------------------------------

  function WriteAll(image: seq<byte>, offset: nat, writes: seq<(nat, byte)>): (r: seq<byte>)
    ensures |r| == |image|
  {
    if writes == [] then image
    else
      var before, w := WriteAll(image, offset, writes[..|writes| - 1]), writes[|writes| - 1];
      if offset + w.0 < |before| then before[offset + w.0 := w.1] else before
  }

  /** The slot a command would change, or why it is refused. */
  datatype Admission = Admitted(slot: Slot) | Refused(why: Outcome)

  function Writable(found: Found): Admission {
    if found.Missing? then Refused(NotFound)
    else if found.slot.status != READ_WRITE then Refused(Locked)
    else Admitted(found.slot)
  }

  function Admit(layout: Layout, command: Command): Admission {
    var from := Split(layout, command.path);
    match command
    case WriteBytes(_) => Writable(from)
    case SetMeta(_) => Writable(from)
    case Remove(_) =>
      if from.Found? && from.slot.status == READ_WRITE && from.inner == "" then Refused(SlotDirectory)
      else Writable(from)
    case Rename(_, newPath) =>
      var to := Split(layout, newPath);
      if from.Missing? || to.Missing? then Refused(NotFound)
      else if from.slot.status == READ_WRITE && from.slot.index != to.slot.index then Refused(AcrossSlots)
      else Writable(from)
  }

  function Step(layout: Layout, limit: nat, c: Container, call: Call): (Container, Outcome) {
    match Admit(layout, call.command)
    case Refused(why) => (c, why)
    case Admitted(slot) =>
      if slot.index !in c.mounts && !call.recognised then (c, NotDfs)
      else (Container(WriteAll(c.image, slot.offset, call.writes), Touched(c.mounts, slot.index, limit)),
            if call.raises then DfsFailed else Done)
  }

  function RunAll(layout: Layout, limit: nat, c: Container, calls: seq<Call>): Container {
    if calls == [] then c
    else Step(layout, limit, RunAll(layout, limit, c, calls[..|calls| - 1]), calls[|calls| - 1]).0
  }

  ghost predicate ReadWrite(layout: Layout, index: nat) {
    exists s :: s in layout.slots && s.index == index && s.status == READ_WRITE
  }

  /** Bytes no mutation may change: catalogue headers, and windows of slots not marked read-write. */
  ghost predicate Protected(layout: Layout, p: nat) {
    match Owner(p)
    case Header(_) => true
    case Window(i) => !ReadWrite(layout, i)
  }

  /** The layout calls a slot read-write exactly when its catalogue byte does. */
  lemma ReadWriteByStatus(layout: Layout, image: seq<byte>, index: nat)
    requires Describes(layout, image) && index < layout.extentCount * SLOT_COUNT
    ensures ReadWrite(layout, index) <==> StatusOf(image, index) == READ_WRITE
  {
    hide StatusOf, SlotDeclared, DecimalWidth, Listed;
    var width := DecimalWidth(layout.extentCount * SLOT_COUNT - 1);
    ListedExactly(image, layout.extentCount * SLOT_COUNT, width);
    assert StatusOf(image, index) == READ_WRITE ==> SlotDeclared(image, index, width) in layout.slots;
  }

  lemma {:induction false} WriteAllElsewhere(image: seq<byte>, offset: nat, writes: seq<(nat, byte)>, p: nat)
    requires p < |image| && InWindow(writes)
    requires !(offset <= p < offset + SLOT_BYTES)
    ensures WriteAll(image, offset, writes)[p] == image[p]
  {
    if writes != [] {
      assert writes[|writes| - 1] in writes;
      WriteAllElsewhere(image, offset, writes[..|writes| - 1], p);
    }
  }

  /** What an admitted command changes lies in the window of a read-write slot. */
  lemma AdmittedIsWritable(layout: Layout, image: seq<byte>, command: Command)
    requires Describes(layout, image)
    ensures match Admit(layout, command)
            case Admitted(slot) => slot in layout.slots && slot.status == READ_WRITE
                                   && slot.offset == Start(Window(slot.index))
                                   && slot.index < layout.extentCount * SLOT_COUNT
            case Refused(_) => true
  {
    hide StatusOf, DecimalWidth, SlotOffset, Listed, Split;
    ListedExactly(image, layout.extentCount * SLOT_COUNT, DecimalWidth(layout.extentCount * SLOT_COUNT - 1));
    SplitFinds(layout, command.path);
  }

  /** One call changes nothing outside the window of the slot it was admitted to. */
  lemma StepIsConfined(layout: Layout, limit: nat, c: Container, call: Call, p: nat)
    requires Describes(layout, c.image) && InWindow(call.writes) && p < |c.image|
    ensures |Step(layout, limit, c, call).0.image| == |c.image|
    ensures Step(layout, limit, c, call).0.image[p] != c.image[p] ==>
              Admit(layout, call.command).Admitted? && Owner(p) == Window(Admit(layout, call.command).slot.index)
    ensures Step(layout, limit, c, call).0.image[p] != c.image[p] ==> !Protected(layout, p)
  {
    hide Describes, Admit, Touched, Owner, SlotOffset;
    AdmittedIsWritable(layout, c.image, call.command);
    if Admit(layout, call.command).Admitted? {
      var slot := Admit(layout, call.command).slot;
      if Within(p, Window(slot.index)) {
        OnlyOwnerContains(p, Window(slot.index));
        assert ReadWrite(layout, slot.index);
      } else {
        WriteAllElsewhere(c.image, slot.offset, call.writes, p);
      }
    }
  }

  // ---- what a call does, and when ----------------------------------------------------------------------------

  /** Write `k` is the last to position `q` of the window. */
  predicate LastAt(writes: seq<(nat, byte)>, k: int, q: int) {
    0 <= k < |writes| && writes[k].0 == q && forall j :: k < j < |writes| ==> writes[j].0 != q
  }

  predicate NoneAt(writes: seq<(nat, byte)>, q: int) {
    forall j :: 0 <= j < |writes| ==> writes[j].0 != q
  }

  /** `b` is `a` after the library's writes through the window at `offset`: there each byte is the last one
      written to it, and everywhere else, and where nothing was written, it is what it was. */
  ghost predicate Wrote(a: seq<byte>, offset: nat, writes: seq<(nat, byte)>, b: seq<byte>) {
    && |b| == |a|
    && (forall p, k :: 0 <= p < |a| && LastAt(writes, k, p - offset) ==> b[p] == writes[k].1)
    && (forall p :: 0 <= p < |a| && NoneAt(writes, p - offset) ==> b[p] == a[p])
  }

  lemma {:induction false} WriteAllWrote(a: seq<byte>, offset: nat, writes: seq<(nat, byte)>)
    ensures Wrote(a, offset, writes, WriteAll(a, offset, writes))
  {
    if writes != [] {
      var front, w := writes[..|writes| - 1], writes[|writes| - 1];
      WriteAllWrote(a, offset, front);
      var mid, b := WriteAll(a, offset, front), WriteAll(a, offset, writes);
      forall p, k | 0 <= p < |a| && LastAt(writes, k, p - offset)
        ensures b[p] == writes[k].1
      {
        if k < |front| {
          assert LastAt(front, k, p - offset);
        }
      }
      forall p | 0 <= p < |a| && NoneAt(writes, p - offset)
        ensures b[p] == a[p]
      {
        assert NoneAt(front, p - offset);
      }
    }
  }

  /** `after` is the list of mounts with a slot made the most recent: the others keep their order, and if they
      are too many with it the oldest of them go. */
  ghost predicate MadeRecent(before: seq<nat>, index: nat, limit: nat, after: seq<nat>) {
    exists kept, gone ::
      && CutOut(before, index, kept) && gone + after == kept + [index]
      && (if |kept| < limit then gone == [] else |after| == limit)
  }

  lemma TouchedIsRecent(mounts: seq<nat>, index: nat, limit: nat)
    requires Distinct(mounts)
    ensures MadeRecent(mounts, index, limit, Touched(mounts, index, limit))
  {
    WithoutCutsOut(mounts, index);
    var kept := Without(mounts, index);
    var next := kept + [index];
    var cut := |next| - Min(limit, |next|);
    assert next[..cut] + next[cut..] == next;
    assert CutOut(mounts, index, kept) && next[..cut] + Touched(mounts, index, limit) == kept + [index];
  }

  /** Why a call is refused before the library sees it, if it is. */
  predicate RefusedAs(layout: Layout, command: Command, why: Outcome) {
    var from := Split(layout, command.path);
    match why
    case NotFound => from.Missing? || (command.Rename? && Split(layout, command.newPath).Missing?)
    case Locked =>
      from.Found? && from.slot.status != READ_WRITE && (command.Rename? ==> Split(layout, command.newPath).Found?)
    case SlotDirectory => command.Remove? && from.Found? && from.slot.status == READ_WRITE && from.inner == ""
    case AcrossSlots =>
      command.Rename? && from.Found? && from.slot.status == READ_WRITE && Split(layout, command.newPath).Found?
      && Split(layout, command.newPath).slot.index != from.slot.index
    case _ => false
  }

  /** Every answer to a call, when it is given and what it leaves: a refusal and a slot that is not DFS change
      nothing; otherwise the slot becomes the most recent one and the library's writes are in its window. */
  ghost predicate Answered(layout: Layout, limit: nat, before: Container, call: Call, after: Container,
      outcome: Outcome)
  {
    var from := Split(layout, call.command.path);
    var refused := exists why :: RefusedAs(layout, call.command, why);
    && (outcome in {NotFound, Locked, SlotDirectory, AcrossSlots} <==> refused)
    && (refused ==> RefusedAs(layout, call.command, outcome) && after == before)
    && (!refused ==> from.Found? && from.slot.status == READ_WRITE)
    && (outcome == NotDfs <==> !refused && from.slot.index !in before.mounts && !call.recognised)
    && (outcome == NotDfs ==> after == before)
    && (!refused && outcome != NotDfs ==>
          && outcome == (if call.raises then DfsFailed else Done)
          && Wrote(before.image, from.slot.offset, call.writes, after.image)
          && MadeRecent(before.mounts, from.slot.index, limit, after.mounts))
  }

  lemma AdmitRefuses(layout: Layout, command: Command)
    ensures Admit(layout, command).Refused? <==> exists why :: RefusedAs(layout, command, why)
    ensures Admit(layout, command).Refused? ==>
              RefusedAs(layout, command, Admit(layout, command).why)
              && Admit(layout, command).why in {NotFound, Locked, SlotDirectory, AcrossSlots}
    ensures Admit(layout, command).Admitted? ==>
              Split(layout, command.path).Found? && Split(layout, command.path).slot == Admit(layout, command).slot
              && Split(layout, command.path).slot.status == READ_WRITE
  {
    hide Split;
    assert forall why :: RefusedAs(layout, command, why) ==> why in {NotFound, Locked, SlotDirectory, AcrossSlots};
    if Admit(layout, command).Refused? {
      assert RefusedAs(layout, command, Admit(layout, command).why);
    }
  }

  lemma StepAnswers(layout: Layout, limit: nat, c: Container, call: Call)
    requires Distinct(c.mounts)
    ensures var (after, outcome) := Step(layout, limit, c, call); Answered(layout, limit, c, call, after, outcome)
  {
    hide Split, RefusedAs, Admit, Touched, WriteAll, Wrote, MadeRecent;
    AdmitRefuses(layout, call.command);
    var from := Split(layout, call.command.path);
    if from.Found? {
      WriteAllWrote(c.image, from.slot.offset, call.writes);
      TouchedIsRecent(c.mounts, from.slot.index, limit);
    }
  }

  // ---- the layout stays true --------------------------------------------------------------------------------

  ghost predicate SameHeaders(a: seq<byte>, b: seq<byte>) {
    |a| == |b| && forall p: nat :: p < |a| && Owner(p).Header? ==> a[p] == b[p]
  }

  lemma EntryBytesAgree(a: seq<byte>, b: seq<byte>, index: nat, extents: nat, width: nat)
    requires SameHeaders(a, b) && |a| == extents * STANDARD_BYTES && index < extents * SLOT_COUNT
    ensures StatusOf(a, index) == StatusOf(b, index) && SlotDeclared(a, index, width) == SlotDeclared(b, index, width)
  {
    var at := EntryPosition(index);
    EntryInHeader(index, extents);
    forall p | at <= p < at + ENTRY_BYTES
      ensures a[p] == b[p]
    {
      assert Within(p, Header(index / SLOT_COUNT));
      OnlyOwnerContains(p, Header(index / SLOT_COUNT));
    }
    assert a[at..at + 12] == b[at..at + 12];
  }

  lemma {:induction false} ListedAgree(a: seq<byte>, b: seq<byte>, count: nat, extents: nat, width: nat)
    requires SameHeaders(a, b) && |a| == extents * STANDARD_BYTES && count <= extents * SLOT_COUNT
    ensures Listed(a, count, width) == Listed(b, count, width)
    ensures KnownBelow(a, count) <==> KnownBelow(b, count)
  {
    hide StatusOf, SlotDeclared, SameHeaders, Known, Formatted;
    forall i: nat | i < count
      ensures StatusOf(a, i) == StatusOf(b, i)
    {
      EntryBytesAgree(a, b, i, extents, width);
    }
    if count > 0 {
      ListedAgree(a, b, count - 1, extents, width);
      EntryBytesAgree(a, b, count - 1, extents, width);
    }
  }

  lemma FirstHeaderAgrees(a: seq<byte>, b: seq<byte>)
    requires SameHeaders(a, b) && |a| >= HEADER_BYTES
    ensures |a| == |b| && forall p :: 0 <= p < 9 ==> a[p] == b[p]
  {
  }

  /** A container whose headers are unchanged still has the layout read from it before. */
  lemma LayoutSurvives(layout: Layout, a: seq<byte>, b: seq<byte>)
    requires Describes(layout, a) && SameHeaders(a, b)
    ensures Describes(layout, b)
  {
    hide SameHeaders, Listed, KnownBelow, DecimalWidth;
    var count := layout.extentCount * SLOT_COUNT;
    FirstHeaderAgrees(a, b);
    ListedAgree(a, b, count, layout.extentCount, DecimalWidth(count - 1));
    forall k | 0 <= k < 4
      ensures BootDeclared(a, k) == BootDeclared(b, k)
    {
    }
  }

  lemma StepKeepsLayout(layout: Layout, limit: nat, c: Container, call: Call)
    requires Describes(layout, c.image) && InWindow(call.writes)
    ensures Describes(layout, Step(layout, limit, c, call).0.image)
    ensures |Step(layout, limit, c, call).0.image| == |c.image|
  {
    hide Describes, Step, Owner;
    var after := Step(layout, limit, c, call).0.image;
    assert |c.image| > 0 by {
      NonEmpty(layout, c.image);
    }
    StepIsConfined(layout, limit, c, call, 0);
    forall p: nat | p < |c.image| && Owner(p).Header?
      ensures c.image[p] == after[p]
    {
      StepIsConfined(layout, limit, c, call, p);
    }
    LayoutSurvives(layout, c.image, after);
  }

  lemma NonEmpty(layout: Layout, image: seq<byte>)
    requires Describes(layout, image)
    ensures |image| > 0
  {
  }

  ghost predicate AllInWindow(calls: seq<Call>) {
    forall c :: c in calls ==> InWindow(c.writes)
  }

  /** Over every run of mutations the headers, the locked and the unformatted slots keep every byte, and
      reading the container again gives the very layout the mount was built on. */
  lemma {:induction false} RunLeavesProtected(layout: Layout, limit: nat, c: Container, calls: seq<Call>)
    requires Describes(layout, c.image) && AllInWindow(calls)
    ensures var after := RunAll(layout, limit, c, calls).image;
            |after| == |c.image| && Describes(layout, after)
            && forall p: nat :: p < |c.image| && Protected(layout, p) ==> after[p] == c.image[p]
  {
    hide Describes, Step, Protected;
    if calls != [] {
      var before, last := calls[..|calls| - 1], calls[|calls| - 1];
      assert last in calls && AllInWindow(before);
      RunLeavesProtected(layout, limit, c, before);
      var mid := RunAll(layout, limit, c, before);
      StepKeepsLayout(layout, limit, mid, last);
      var after := Step(layout, limit, mid, last).0.image;
      forall p: nat | p < |c.image| && Protected(layout, p)
        ensures after[p] == c.image[p]
      {
        StepIsConfined(layout, limit, mid, last, p);
      }
    }
  }

  /** A run that never addresses slot `i` leaves its whole window alone, whatever happens elsewhere. */
  lemma {:induction false} SlotsDoNotInterfere(layout: Layout, limit: nat, c: Container, calls: seq<Call>, i: nat,
      p: nat)
    requires Describes(layout, c.image) && AllInWindow(calls)
    requires forall k :: k in calls && Split(layout, k.command.path).Found? ==>
               Split(layout, k.command.path).slot.index != i
    requires p < |c.image| && Within(p, Window(i))
    ensures |RunAll(layout, limit, c, calls).image| == |c.image|
    ensures RunAll(layout, limit, c, calls).image[p] == c.image[p]
  {
    hide Describes, Step, Protected, Split, Within, Owner;
    if calls != [] {
      var before, last := calls[..|calls| - 1], calls[|calls| - 1];
      assert last in calls && AllInWindow(before);
      assert forall k :: k in before ==> k in calls;
      SlotsDoNotInterfere(layout, limit, c, before, i, p);
      RunLeavesProtected(layout, limit, c, before);
      StepIsConfined(layout, limit, RunAll(layout, limit, c, before), last, p);
      OnlyOwnerContains(p, Window(i));
      AdmittedPath(layout, last.command);
    }
  }

  lemma AdmittedPath(layout: Layout, command: Command)
    ensures Admit(layout, command).Admitted? ==>
              Split(layout, command.path).Found? && Split(layout, command.path).slot == Admit(layout, command).slot
  {
  }

  // ---- the mount object --------------------------------------------------------------------------------------

  class MmbMount {
    const layout: Layout
    const cacheLimit: nat
    const data: array<byte>
    var mounts: seq<nat>

    ghost predicate Valid()
      reads this, data
    {
      cacheLimit >= 1 && Describes(layout, data[..]) && Distinct(mounts) && |mounts| <= cacheLimit
    }

    ghost function State(): Container
      reads this, data
    {
      Container(data[..], mounts)
    }

    constructor (layout: Layout, data: array<byte>, cacheLimit: nat)
      requires cacheLimit >= 1 && Describes(layout, data[..])
      ensures Valid() && this.layout == layout && this.data == data && this.cacheLimit == cacheLimit && mounts == []
    {
      this.layout, this.data, this.cacheLimit := layout, data, cacheLimit;
      mounts := [];
    }

    /** Find or open the mount of a slot; afterwards it is the most recently used of at most the limit. */
    method SlotMount(slot: Slot, recognised: bool) returns (ok: bool)
      requires cacheLimit >= 1 && Distinct(mounts) && |mounts| <= cacheLimit
      modifies this`mounts
      ensures ok <==> slot.index in old(mounts) || recognised
      ensures mounts == if ok then Touched(old(mounts), slot.index, cacheLimit) else old(mounts)
      ensures ok ==> MadeRecent(old(mounts), slot.index, cacheLimit, mounts)
      ensures Distinct(mounts) && |mounts| <= cacheLimit
      ensures ok ==> slot.index in mounts
    {
      hide Without, MadeRecent;
      ghost var was := mounts;
      WithoutDistinct(was, slot.index);
      TouchedIsRecent(was, slot.index, cacheLimit);
      var found := slot.index in mounts;
      if found {
        assert Min(cacheLimit, |mounts|) == |mounts|;
        mounts := Without(mounts, slot.index) + [slot.index];
        return true;
      }
      if !recognised {
        return false;
      }
      assert Without(was, slot.index) == was;
      mounts := mounts + [slot.index];
      ghost var all := mounts;
      ghost var dropped := 0;
      while |mounts| > cacheLimit
        invariant 0 <= dropped <= |all|
        invariant dropped > 0 ==> |mounts| >= cacheLimit
        invariant mounts == all[dropped..]
      {
        mounts := mounts[1..];
        dropped := dropped + 1;
      }
      ok := true;
      assert all[|all| - 1] in mounts;
    }

    /** The writes the library makes through its window onto the container. */
    method Poke(slot: Slot, writes: seq<(nat, byte)>)
      modifies data
      ensures data[..] == WriteAll(old(data[..]), slot.offset, writes)
    {
      for k := 0 to |writes|
        invariant data[..] == WriteAll(old(data[..]), slot.offset, writes[..k])
      {
        assert writes[..k + 1][..k] == writes[..k];
        if slot.offset + writes[k].0 < data.Length {
          data[slot.offset + writes[k].0] := writes[k].1;
        }
      }
      assert writes[..|writes|] == writes;
    }

    /** Open the slot and let the library act on its window. */
    method Act(slot: Slot, call: Call) returns (outcome: Outcome)
      requires Valid() && Admit(layout, call.command) == Admitted(slot) && InWindow(call.writes)
      modifies this`mounts, data
      ensures Valid() && (State(), outcome) == Step(layout, cacheLimit, old(State()), call)
      ensures slot.index in old(mounts) || call.recognised ==>
                outcome == (if call.raises then DfsFailed else Done)
                && Wrote(old(data[..]), slot.offset, call.writes, data[..])
      ensures outcome in {NotDfs, DfsFailed, Done}
    {
      hide Wrote;
      WriteAllWrote(data[..], slot.offset, call.writes);
      StepKeepsLayout(layout, cacheLimit, State(), call);
      var ok := SlotMount(slot, call.recognised);
      if !ok {
        return NotDfs;
      }
      Poke(slot, call.writes);
      return if call.raises then DfsFailed else Done;
    }

    method WriteBytes(path: string, call: Call) returns (outcome: Outcome)
      requires Valid() && InWindow(call.writes) && call.command == Command.WriteBytes(path)
      modifies this`mounts, data
      ensures Valid() && (State(), outcome) == Step(layout, cacheLimit, old(State()), call)
      ensures Answered(layout, cacheLimit, old(State()), call, State(), outcome)
    {
      hide Answered, Wrote;
      StepAnswers(layout, cacheLimit, State(), call);
      var found := Split(layout, path);
      if found.Missing? {
        return NotFound;
      }
      if found.slot.status != READ_WRITE {
        return Locked;
      }
      outcome := Act(found.slot, call);
    }

    method SetMeta(path: string, call: Call) returns (outcome: Outcome)
      requires Valid() && InWindow(call.writes) && call.command == Command.SetMeta(path)
      modifies this`mounts, data
      ensures Valid() && (State(), outcome) == Step(layout, cacheLimit, old(State()), call)
      ensures Answered(layout, cacheLimit, old(State()), call, State(), outcome)
    {
      hide Answered, Wrote;
      StepAnswers(layout, cacheLimit, State(), call);
      var found := Split(layout, path);
      if found.Missing? {
        return NotFound;
      }
      if found.slot.status != READ_WRITE {
        return Locked;
      }
      outcome := Act(found.slot, call);
    }

    method Remove(path: string, call: Call) returns (outcome: Outcome)
      requires Valid() && InWindow(call.writes) && call.command == Command.Remove(path)
      modifies this`mounts, data
      ensures Valid() && (State(), outcome) == Step(layout, cacheLimit, old(State()), call)
      ensures Answered(layout, cacheLimit, old(State()), call, State(), outcome)
      ensures Split(layout, path).Found? && Split(layout, path).inner == "" ==>
                outcome != Done && State() == old(State())
    {
      hide Answered, Wrote;
      StepAnswers(layout, cacheLimit, State(), call);
      var found := Split(layout, path);
      if found.Missing? {
        return NotFound;
      }
      if found.slot.status != READ_WRITE {
        return Locked;
      }
      if found.inner == "" {
        return SlotDirectory;
      }
      outcome := Act(found.slot, call);
    }

    method Rename(path: string, newPath: string, call: Call) returns (outcome: Outcome)
      requires Valid() && InWindow(call.writes) && call.command == Command.Rename(path, newPath)
      modifies this`mounts, data
      ensures Valid() && (State(), outcome) == Step(layout, cacheLimit, old(State()), call)
      ensures Answered(layout, cacheLimit, old(State()), call, State(), outcome)
      ensures var from, to := Split(layout, path), Split(layout, newPath);
              from.Found? && to.Found? && from.slot.status == READ_WRITE ==>
                && (outcome == AcrossSlots <==> from.slot.index != to.slot.index)
                && (outcome == AcrossSlots ==> State() == old(State()))
                && (from.slot.index == to.slot.index && (from.slot.index in old(mounts) || call.recognised) ==>
                      && (outcome == Done || outcome == DfsFailed)
                      && Wrote(old(data[..]), from.slot.offset, call.writes, data[..]))
    {
      hide Answered, Wrote;
      StepAnswers(layout, cacheLimit, State(), call);
      var from := Split(layout, path);
      if from.Missing? {
        return NotFound;
      }
      var to := Split(layout, newPath);
      if to.Missing? {
        return NotFound;
      }
      if from.slot.status != READ_WRITE {
        return Locked;
      }
      if from.slot.index != to.slot.index {
        return AcrossSlots;
      }
      outcome := Act(from.slot, call);
    }
  }
}
