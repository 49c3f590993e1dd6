/** How a document lies in memory: slots at their addresses, each linked to the next by a
    relative 16-bit distance, and strings at character addresses. */
module SlotMemory {
  import opened Document
  import opened OwnedDocument
  import opened StoredDocument

  datatype Content =
    | Plain(v: Atomic)
    | Chars(p: nat, owned: bool)
    | Links(obj: bool, head: nat, tail: nat)

  datatype Cell = Cell(content: Content, next: int, key: nat, ownsKey: bool)

  type Cells = map<nat, Cell>

  const EMPTY_CELL := Cell(Plain(Null), 0, 0, false)

  // ----- links -----

  /** The conversion to a signed 16-bit integer. */
  function Int16(d: int): int { (d + 0x8000) % 0x1_0000 - 0x8000 }

  /** The distance setNext stores, in slots. */
  function Distance(from: nat, slot: nat): int {
    if slot == 0 then 0 else Int16((slot - from) / SLOT_SIZE)
  }

  /** The slot a cell's link leads to. */
  function Next(cell: Cell, at: nat): int {
    if cell.next == 0 then 0 else at + SLOT_SIZE * cell.next
  }

  predicate LeadsTo(cell: Cell, at: nat, next: nat) {
    Next(cell, at) == next && (next == 0 ==> cell.next == 0)
  }

  predicate Spans(from: nat, slot: nat) {
    slot != from && (slot - from) % SLOT_SIZE == 0
  }

  /** A link reads back exactly when the slots are less than 2^15 slots apart. */
  lemma LinkReadsBack(cell: Cell, from: nat, slot: nat)
    requires slot != 0 && Spans(from, slot)
    ensures Next(cell.(next := Distance(from, slot)), from) == slot <==> -0x8000 <= (slot - from) / SLOT_SIZE <= 0x7FFF
  {
    var d := (slot - from) / SLOT_SIZE;
    assert slot - from == SLOT_SIZE * d;
  }

  // ----- trees of slots -----

  /** A variant at an address, with the slots of its collection if it is one. */
  datatype Item = Item(at: nat, items: seq<Item>)

  function FirstAt(items: seq<Item>): nat { if items == [] then 0 else items[0].at }

  function LastAt(items: seq<Item>): nat { if items == [] then 0 else items[|items| - 1].at }

  function NextAt(items: seq<Item>, i: nat): nat { if i + 1 < |items| then items[i + 1].at else 0 }

  predicate Laid(cells: Cells, t: Item)
    decreases t, 1
  {
    t.at in cells && match cells[t.at].content
      case Links(_, head, tail) => head == FirstAt(t.items) && tail == LastAt(t.items) && Chained(cells, t.items)
      case _ => t.items == []
  }

  predicate Chained(cells: Cells, items: seq<Item>)
    decreases items, 0
  {
    forall i :: 0 <= i < |items| ==> Linked(cells, items[i], NextAt(items, i))
  }

  predicate Linked(cells: Cells, t: Item, next: nat)
    decreases t, 2
  {
    t.at != 0 && Laid(cells, t) && LeadsTo(cells[t.at], t.at, next)
  }

  function KeyOf(text: string, cell: Cell): Option<Text> {
    if cell.key == 0 then None else Some(Text(CStr(text, cell.key), cell.ownsKey))
  }

  /** The document at t. */
  function Image(text: string, cells: Cells, t: Item): Doc
    decreases t, 1
  {
    if t.at !in cells then Atom(Null)
    else match cells[t.at].content
      case Plain(v) => Atom(v)
      case Chars(p, owned) => Line(Text(CStr(text, p), owned))
      case Links(obj, _, _) => Group(obj, ImageSlots(text, cells, t.items))
  }

  function ImageSlots(text: string, cells: Cells, items: seq<Item>): (r: seq<DocSlot>)
    ensures |r| == |items|
    decreases items, 0
  {
    seq(|items|, i requires 0 <= i < |items| => ImageSlot(text, cells, items[i]))
  }

  function ImageSlot(text: string, cells: Cells, t: Item): DocSlot
    decreases t, 2
  {
    DocSlot(if t.at in cells then KeyOf(text, cells[t.at]) else None, Image(text, cells, t))
  }

  // ----- the slots and the strings of a tree -----

  function Addrs(t: Item): set<nat>
    decreases t
  {
    {t.at} + AddrsOf(t.items)
  }

  function AddrsOf(items: seq<Item>): set<nat>
    decreases items
  {
    if items == [] then {} else Addrs(items[0]) + AddrsOf(items[1..])
  }

  /** No slot is used twice. */
  predicate Apart(t: Item)
    decreases t
  {
    t.at !in AddrsOf(t.items) && ApartAll(t.items)
  }

  predicate ApartAll(items: seq<Item>)
    decreases items
  {
    items == [] || (Apart(items[0]) && Addrs(items[0]) !! AddrsOf(items[1..]) && ApartAll(items[1..]))
  }

  /** A string a cell points to. */
  datatype Ref = Ref(p: nat, owned: bool)

  function KeyRefs(cell: Cell): set<Ref> {
    if cell.key == 0 then {} else {Ref(cell.key, cell.ownsKey)}
  }

  function ContentRefs(c: Content): set<Ref> {
    if c.Chars? then {Ref(c.p, c.owned)} else {}
  }

  function Refs(cells: Cells, t: Item): set<Ref>
    decreases t, 0
  {
    (if t.at in cells then ContentRefs(cells[t.at].content) else {}) + RefsOf(cells, t.items)
  }

  function SlotRefs(cells: Cells, t: Item): set<Ref>
    decreases t, 1
  {
    (if t.at in cells then KeyRefs(cells[t.at]) else {}) + Refs(cells, t)
  }

  function RefsOf(cells: Cells, items: seq<Item>): set<Ref>
    decreases items
  {
    if items == [] then {} else SlotRefs(cells, items[0]) + RefsOf(cells, items[1..])
  }

  lemma AddrsConcat(a: seq<Item>, b: seq<Item>)
    ensures AddrsOf(a + b) == AddrsOf(a) + AddrsOf(b)
    ensures ApartAll(a + b) <==> ApartAll(a) && ApartAll(b) && AddrsOf(a) !! AddrsOf(b)
  {
    if a == [] {
      assert a + b == b;
    } else {
      assert (a + b)[1..] == a[1..] + b;
      AddrsConcat(a[1..], b);
    }
  }

  lemma RefsConcat(cells: Cells, a: seq<Item>, b: seq<Item>)
    ensures RefsOf(cells, a + b) == RefsOf(cells, a) + RefsOf(cells, b)
  {
    if a == [] {
      assert a + b == b;
    } else {
      assert (a + b)[1..] == a[1..] + b;
      RefsConcat(cells, a[1..], b);
    }
  }

  lemma Split(cells: Cells, items: seq<Item>, k: nat)
    requires k < |items|
    ensures items == items[..k] + [items[k]] + items[k + 1..]
    ensures AddrsOf(items) == AddrsOf(items[..k]) + Addrs(items[k]) + AddrsOf(items[k + 1..])
    ensures RefsOf(cells, items) == RefsOf(cells, items[..k]) + SlotRefs(cells, items[k]) + RefsOf(cells, items[k + 1..])
    ensures ApartAll(items) <==>
      && ApartAll(items[..k]) && Apart(items[k]) && ApartAll(items[k + 1..])
      && AddrsOf(items[..k]) !! Addrs(items[k]) && AddrsOf(items[..k]) !! AddrsOf(items[k + 1..]) && Addrs(items[k]) !! AddrsOf(items[k + 1..])
  {
    var a, b := items[..k], items[k + 1..];
    assert items == a + ([items[k]] + b) == a + [items[k]] + b;
    AddrsConcat(a, [items[k]] + b);
    RefsConcat(cells, a, [items[k]] + b);
    assert ([items[k]] + b)[1..] == b;
  }

  // ----- what writes elsewhere leave alone -----

  predicate Same(cells: Cells, cells': Cells, addrs: set<nat>) {
    forall a :: a in addrs ==> a in cells && a in cells' && cells'[a] == cells[a]
  }

  /** The same content; the link and the key may differ. */
  predicate SameContent(cells: Cells, cells': Cells, at: nat) {
    at in cells && at in cells' && cells'[at].content == cells[at].content
  }

  /** The same contents and keys; links may differ. */
  predicate Alike(cells: Cells, cells': Cells, addrs: set<nat>) {
    forall a :: a in addrs ==> SameContent(cells, cells', a) && cells'[a].key == cells[a].key && cells'[a].ownsKey == cells[a].ownsKey
  }

  lemma SameHead(cells: Cells, cells': Cells, items: seq<Item>)
    requires items != [] && Same(cells, cells', AddrsOf(items))
    ensures Same(cells, cells', Addrs(items[0])) && SameContent(cells, cells', items[0].at)
    ensures Same(cells, cells', AddrsOf(items[0].items)) && Same(cells, cells', AddrsOf(items[1..]))
  {
    assert AddrsOf(items) == Addrs(items[0]) + AddrsOf(items[1..]);
    assert Addrs(items[0]) == {items[0].at} + AddrsOf(items[0].items);
    assert items[0].at in Addrs(items[0]);
  }

  lemma AlikeHead(cells: Cells, cells': Cells, items: seq<Item>)
    requires items != [] && Alike(cells, cells', AddrsOf(items))
    ensures Alike(cells, cells', {items[0].at}) && SameContent(cells, cells', items[0].at)
    ensures Alike(cells, cells', AddrsOf(items[0].items)) && Alike(cells, cells', AddrsOf(items[1..]))
  {
    assert AddrsOf(items) == Addrs(items[0]) + AddrsOf(items[1..]);
    assert Addrs(items[0]) == {items[0].at} + AddrsOf(items[0].items);
    assert items[0].at in Addrs(items[0]);
  }

  ghost predicate SameText(text: string, text': string, refs: set<Ref>) {
    forall r :: r in refs ==> CStr(text', r.p) == CStr(text, r.p)
  }

  lemma {:induction false} LaidElsewhere(cells: Cells, cells': Cells, t: Item)
    requires Laid(cells, t) && SameContent(cells, cells', t.at) && Same(cells, cells', AddrsOf(t.items))
    ensures Laid(cells', t) && Refs(cells', t) == Refs(cells, t)
    decreases t, 0
  {
    ChainedElsewhere(cells, cells', t.items);
  }

  lemma {:induction false} ChainedElsewhere(cells: Cells, cells': Cells, items: seq<Item>)
    requires Same(cells, cells', AddrsOf(items))
    ensures Chained(cells, items) ==> Chained(cells', items) && RefsOf(cells', items) == RefsOf(cells, items)
    decreases items
  {
    if items != [] && Chained(cells, items) {
      var rest := items[1..];
      SameHead(cells, cells', items);
      assert items[0].at in Addrs(items[0]);
      assert Linked(cells, items[0], NextAt(items, 0));
      LaidElsewhere(cells, cells', items[0]);
      assert Linked(cells', items[0], NextAt(items, 0));
      forall i | 0 <= i < |rest|
        ensures Linked(cells, rest[i], NextAt(rest, i)) && NextAt(rest, i) == NextAt(items, i + 1)
      {
        assert Linked(cells, items[i + 1], NextAt(items, i + 1));
      }
      ChainedElsewhere(cells, cells', rest);
      forall i | 0 < i < |items|
        ensures Linked(cells', items[i], NextAt(items, i))
      {
        assert Linked(cells', rest[i - 1], NextAt(rest, i - 1));
      }
    }
  }

  lemma {:induction false} ImageElsewhere(text: string, text': string, cells: Cells, cells': Cells, t: Item)
    requires SameContent(cells, cells', t.at) && Alike(cells, cells', AddrsOf(t.items)) && SameText(text, text', Refs(cells, t))
    ensures Image(text', cells', t) == Image(text, cells, t)
    decreases t, 0
  {
    SlotsElsewhere(text, text', cells, cells', t.items);
  }

  lemma {:induction false} SlotsElsewhere(text: string, text': string, cells: Cells, cells': Cells, items: seq<Item>)
    requires Alike(cells, cells', AddrsOf(items)) && SameText(text, text', RefsOf(cells, items))
    ensures ImageSlots(text', cells', items) == ImageSlots(text, cells, items)
    decreases items
  {
    if items != [] {
      AlikeHead(cells, cells', items);
      var first := items[0];
      assert first.at in {first.at};
      assert RefsOf(cells, items) == SlotRefs(cells, first) + RefsOf(cells, items[1..]);
      assert SlotRefs(cells, first) == KeyRefs(cells[first.at]) + Refs(cells, first);
      KeyElsewhere(text, text', cells[first.at]);
      ImageElsewhere(text, text', cells, cells', first);
      SlotsElsewhere(text, text', cells, cells', items[1..]);
      SlotsHead(text, cells, items);
      SlotsHead(text', cells', items);
    }
  }

  lemma KeyElsewhere(text: string, text': string, cell: Cell)
    requires SameText(text, text', KeyRefs(cell))
    ensures KeyOf(text', cell) == KeyOf(text, cell)
  {
    assert cell.key != 0 ==> Ref(cell.key, cell.ownsKey) in KeyRefs(cell);
  }

  lemma SlotsHead(text: string, cells: Cells, items: seq<Item>)
    requires items != []
    ensures ImageSlots(text, cells, items) == [ImageSlot(text, cells, items[0])] + ImageSlots(text, cells, items[1..])
  {
  }

  lemma {:induction false} RefsElsewhere(cells: Cells, cells': Cells, items: seq<Item>)
    requires Alike(cells, cells', AddrsOf(items))
    ensures RefsOf(cells', items) == RefsOf(cells, items)
    decreases items
  {
    if items != [] {
      var first := items[0];
      AlikeHead(cells, cells', items);
      assert first.at in {first.at};
      RefsElsewhere(cells, cells', first.items);
      RefsElsewhere(cells, cells', items[1..]);
      assert Refs(cells', first) == Refs(cells, first);
      assert SlotRefs(cells', first) == SlotRefs(cells, first);
    }
  }
}
