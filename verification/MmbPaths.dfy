/** Virtual paths of an MMB container, "@slot:inner", and the names its slots are shown under. */
module MmbPaths {
  import opened Decimals
  import opened Transactions
  import opened MmbLayout

  datatype Found = Found(slot: Slot, inner: string) | Missing

  // ---- virtual paths ------------------------------------------------------------------------------------------

  function VirtualPath(index: nat, inner: string): string {
    if inner == "" then "@" + Dec(index) else "@" + Dec(index) + ":" + inner
  }

  /** Where the first separator stands, or the length of the text. */
  function FirstColon(text: string): (at: nat)
    ensures at <= |text|
    ensures forall k :: 0 <= k < at ==> text[k] != ':'
    ensures at < |text| ==> text[at] == ':'
  {
    if text == "" || text[0] == ':' then 0 else 1 + FirstColon(text[1..])
  }

  function SlotAt(slots: seq<Slot>, index: nat): Found {
    if slots == [] then Missing
    else if slots[|slots| - 1].index == index then Found(slots[|slots| - 1], "")
    else SlotAt(slots[..|slots| - 1], index)
  }

  function IndexText(path: string): string
    requires path != ""
  {
    path[1..][..FirstColon(path[1..])]
  }

  function Split(layout: Layout, path: string): Found {
    if path == "" || path[0] != '@' then Missing
    else
      var text, at := path[1..], FirstColon(path[1..]);
      if !IsDecimal(text[..at]) then Missing
      else
        var found := SlotAt(layout.slots, Value(text[..at]));
        if found.Missing? then Missing else Found(found.slot, if at == |text| then "" else text[at + 1..])
  }

  lemma {:induction false} SlotAtFinds(slots: seq<Slot>, index: nat)
    requires Ascending(slots)
    ensures match SlotAt(slots, index)
            case Missing => forall s :: s in slots ==> s.index != index
            case Found(s, inner) => s in slots && s.index == index && inner == ""
                                    && forall t :: t in slots && t.index == index ==> t == s
  {
    if slots != [] {
      SlotAtFinds(slots[..|slots| - 1], index);
      assert slots == slots[..|slots| - 1] + [slots[|slots| - 1]];
    }
  }

  /** A path that is an at sign and a number, and then either nothing or a colon and an inner path. */
  predicate Spells(path: string, number: string, inner: string) {
    IsDecimal(number) && ((path == "@" + number && inner == "") || path == "@" + number + ":" + inner)
  }

  lemma FoundSpells(layout: Layout, path: string)
    requires Ascending(layout.slots) && Split(layout, path).Found?
    ensures var number, found := IndexText(path), Split(layout, path);
            Spells(path, number, found.inner) && found.slot in layout.slots && found.slot.index == Value(number)
  {
    hide Value, SlotAt, Ascending, FirstColon;
    var text, at := path[1..], FirstColon(path[1..]);
    var number, inner := text[..at], Split(layout, path).inner;
    SlotAtFinds(layout.slots, Value(number));
    assert path == "@" + text;
    if at == |text| {
      assert number == text;
    } else {
      assert text == number + ":" + inner;
      assert "@" + number + ":" + inner == "@" + (number + ":" + inner);
    }
  }

  lemma SpelledIsFound(layout: Layout, path: string, number: string, slot: Slot, inner: string)
    requires Ascending(layout.slots) && Spells(path, number, inner)
    requires slot in layout.slots && slot.index == Value(number)
    ensures Split(layout, path) == Found(slot, inner)
  {
    hide Value, SlotAt, Ascending, FirstColon;
    SlotAtFinds(layout.slots, Value(number));
    FirstColonIs(number, inner);
    if path == "@" + number {
      assert path[1..] == number && number[..|number|] == number;
    } else {
      assert path[1..] == number + ":" + inner;
      assert (number + ":" + inner)[..|number|] == number && (number + ":" + inner)[|number| + 1..] == inner;
    }
  }

  /** A path is accepted exactly if it spells a listed slot's number and then, perhaps, an inner path. */
  lemma SplitMeans(layout: Layout, path: string, slot: Slot, inner: string)
    requires Ascending(layout.slots)
    ensures Split(layout, path) == Found(slot, inner) <==>
              slot in layout.slots && exists number :: Spells(path, number, inner) && slot.index == Value(number)
  {
    hide Value, SlotAt, Ascending, FirstColon, Split;
    if Split(layout, path) == Found(slot, inner) {
      FoundSpells(layout, path);
    }
    if number :| slot in layout.slots && Spells(path, number, inner) && slot.index == Value(number) {
      SpelledIsFound(layout, path, number, slot, inner);
    }
  }

  lemma SplitFinds(layout: Layout, path: string)
    requires Ascending(layout.slots)
    ensures Split(layout, path).Found? ==> Split(layout, path).slot in layout.slots
  {
    hide FirstColon, Value, SlotAt;
    if path != "" && path[0] == '@' && IsDecimal(path[1..][..FirstColon(path[1..])]) {
      SlotAtFinds(layout.slots, Value(path[1..][..FirstColon(path[1..])]));
    }
  }

  lemma FirstColonIs(front: string, rest: string)
    requires ':' !in front
    ensures FirstColon(front) == |front|
    ensures FirstColon(front + ":" + rest) == |front|
  {
    var whole := front + ":" + rest;
    assert whole[|front|] == ':';
    forall k | 0 <= k < |front|
      ensures whole[k] == front[k] != ':'
    {
      assert front[k] in front;
    }
  }

  lemma DecHasNoColon(n: nat)
    ensures ':' !in Dec(n)
  {
  }

  /** Splitting what was built for a listed slot gives that slot and the inner path back. */
  lemma SplitInverts(layout: Layout, slot: Slot, inner: string)
    requires Ascending(layout.slots) && slot in layout.slots
    ensures Split(layout, VirtualPath(slot.index, inner)) == Found(slot, inner)
  {
    var number := Dec(slot.index);
    var path := VirtualPath(slot.index, inner);
    DecHasNoColon(slot.index);
    FirstColonIs(number, inner);
    ValueOfDec(slot.index);
    SlotAtFinds(layout.slots, slot.index);
    if inner == "" {
      assert path[1..] == number;
      assert number[..|number|] == number;
    } else {
      assert path[1..] == number + ":" + inner;
      assert path[1..][..|number|] == number;
      assert path[1..][|number| + 1..] == inner;
    }
  }

  /** The container's own way of writing a path: no needless zero, no separator before nothing. */
  predicate Canonical(path: string)
    requires path != ""
  {
    NoLeadingZero(IndexText(path)) && FirstColon(path[1..]) + 2 != |path|
  }

  lemma SameNumber(a: string, b: string, restA: string, restB: string)
    requires IsDecimal(a) && IsDecimal(b)
    ensures a + ":" + restA == b + ":" + restB ==> a == b && restA == restB
    ensures a + ":" + restA != b
  {
    FirstColonIs(a, restA);
    FirstColonIs(b, restB);
    if a + ":" + restA == b + ":" + restB {
      assert (a + ":" + restA)[..|a|] == a && (a + ":" + restA)[|a| + 1..] == restA;
      assert (b + ":" + restB)[..|b|] == b && (b + ":" + restB)[|b| + 1..] == restB;
    }
    assert (a + ":" + restA)[|a|] == ':';
  }

  /** Printing an accepted path again gives the same text exactly when the path is canonical. */
  lemma VirtualOfSplit(layout: Layout, path: string)
    requires Ascending(layout.slots) && Split(layout, path).Found?
    ensures VirtualPath(Split(layout, path).slot.index, Split(layout, path).inner) == path <==> Canonical(path)
  {
    hide Dec, Value, SlotAt, FirstColon, Ascending;
    var text, at := path[1..], FirstColon(path[1..]);
    var number, inner := text[..at], Split(layout, path).inner;
    SlotAtFinds(layout.slots, Value(number));
    DecOfValue(number);
    var printed := Dec(Value(number));
    assert path == "@" + text;
    if at == |text| {
      assert text == number && ("@" + printed)[1..] == printed;
    } else {
      assert text == number + ":" + inner;
      SameNumber(number, printed, inner, inner);
      assert "@" + printed + ":" + inner == "@" + (printed + ":" + inner);
      assert ("@" + printed)[1..] == printed && ("@" + (printed + ":" + inner))[1..] == printed + ":" + inner;
    }
  }

  // ---- displayed names -----------------------------------------------------------------------------------------

  function Zeros(n: nat): (z: string)
    ensures |z| == n && forall k :: 0 <= k < n ==> z[k] == '0'
  {
    seq(n, _ => '0')
  }

  function Padded(n: nat, width: nat): (text: string)
    ensures |text| >= width
    ensures IsDecimal(text)
  {
    var number := Dec(n);
    if |number| >= width then number else Zeros(width - |number|) + number
  }

  function DisplayName(slot: Slot, text: seq<byte> -> string): string {
    var number := Padded(slot.index, slot.displayWidth);
    if text(slot.title) == "" then number else number + " - " + text(slot.title)
  }

  lemma {:induction false} ValueOfPadded(zeros: nat, number: string)
    requires forall k :: 0 <= k < |number| ==> IsDigit(number[k])
    ensures Value(Zeros(zeros) + number) == Value(number)
    decreases |number|, zeros
  {
    var whole := Zeros(zeros) + number;
    if number != "" {
      ValueOfPadded(zeros, number[..|number| - 1]);
      assert whole[..|whole| - 1] == Zeros(zeros) + number[..|number| - 1];
    } else if zeros > 0 {
      ValueOfPadded(zeros - 1, number);
      assert whole[..|whole| - 1] == Zeros(zeros - 1) + number;
    } else {
      assert whole == "";
    }
  }

  lemma PaddedIs(n: nat, last: nat)
    requires n <= last
    ensures |Padded(n, DecimalWidth(last))| == DecimalWidth(last)
    ensures Value(Padded(n, DecimalWidth(last))) == n
  {
    WidthGrows(n, last);
    ValueOfDec(n);
    ValueOfPadded(DecimalWidth(last) - |Dec(n)|, Dec(n));
    assert Zeros(0) + Dec(n) == Dec(n);
  }

  lemma ListedWidth(image: seq<byte>, count: nat, width: nat, s: Slot)
    requires s in Listed(image, count, width)
    ensures s.index < count && s.displayWidth == width
  {
  }

  /** A display name starts with the slot's number in the common width, so it gives the number away. */
  lemma NameShowsIndex(slot: Slot, last: nat, text: seq<byte> -> string)
    requires slot.displayWidth == DecimalWidth(last) && slot.index <= last
    ensures |DisplayName(slot, text)| >= DecimalWidth(last)
    ensures Value(DisplayName(slot, text)[..DecimalWidth(last)]) == slot.index
    ensures DisplayName(slot, text)[DecimalWidth(last)..]
            == if text(slot.title) == "" then "" else " - " + text(slot.title)
  {
    PaddedIs(slot.index, last);
    hide Padded, DecimalWidth, Value;
    var number := Padded(slot.index, slot.displayWidth);
    assert DisplayName(slot, text)[..|number|] == number;
  }

  /** However the catalogue titles are decoded, two listed slots are never shown under one name: the
      numbers are padded to one width, so a title cannot imitate another slot's number. */
  lemma NamesAreUnique(image: seq<byte>, total: nat, a: Slot, b: Slot, text: seq<byte> -> string)
    requires total > 0
    requires a in Listed(image, total, DecimalWidth(total - 1)) && b in Listed(image, total, DecimalWidth(total - 1))
    ensures DisplayName(a, text) == DisplayName(b, text) <==> a == b
  {
    hide Listed, Padded, DecimalWidth, DisplayName, Value;
    var width := DecimalWidth(total - 1);
    ListedExactly(image, total, width);
    ListedWidth(image, total, width, a);
    ListedWidth(image, total, width, b);
    NameShowsIndex(a, total - 1, text);
    NameShowsIndex(b, total - 1, text);
  }

  /** The first listed slot shown under `name`, as the root directory resolves it. */
  method JoinRoot(slots: seq<Slot>, name: string, text: seq<byte> -> string) returns (found: Found)
    ensures found.Missing? <==> forall s :: s in slots ==> DisplayName(s, text) != name
    ensures found.Found? ==> found.slot in slots && DisplayName(found.slot, text) == name && found.inner == ""
  {
    for k := 0 to |slots|
      invariant forall j :: 0 <= j < k ==> DisplayName(slots[j], text) != name
    {
      if DisplayName(slots[k], text) == name {
        return Found(slots[k], "");
      }
    }
    return Missing;
  }
}
