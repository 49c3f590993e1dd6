/** Moving a document: its slots by one distance, its strings by another. */
module Relocation {
  import opened StoredDocument
  import opened SlotMemory
  import opened SlotLists

  /** Pointers are 64 bits wide. */
  const ADDRESSES: nat := 0x1_0000_0000_0000_0000

  function Displaced(p: nat, distance: int): nat {
    if p + distance >= 0 then p + distance else (p + distance) % ADDRESSES
  }

  /** Null stays null. */
  function MovedLink(p: nat, distance: int): nat {
    if p == 0 then 0 else Displaced(p, distance)
  }

  function MovedContent(c: Content, strings: int, slots: int): Content {
    match c
    case Chars(p, true) => Chars(Displaced(p, strings), true)
    case Links(obj, head, tail) => Links(obj, MovedLink(head, slots), MovedLink(tail, slots))
    case _ => c
  }

  /** A key that is owned is never null. */
  function MovedCell(cell: Cell, strings: int, slots: int): Cell {
    cell.(content := MovedContent(cell.content, strings, slots),
          key := if cell.ownsKey then MovedLink(cell.key, strings) else cell.key)
  }

  function MovedRef(r: Ref, strings: int): Ref {
    if r.owned then Ref(Displaced(r.p, strings), true) else r
  }

  /** The tree with its slots at their new addresses. */
  function MovedItem(t: Item, slots: int): Item
    decreases t
  {
    Item(Displaced(t.at, slots), MovedItems(t.items, slots))
  }

  function MovedItems(items: seq<Item>, slots: int): (r: seq<Item>)
    ensures |r| == |items|
    decreases items
  {
    seq(|items|, i requires 0 <= i < |items| => MovedItem(items[i], slots))
  }

  /** Addresses that stay positive when they are moved. */
  predicate Movable(addrs: set<nat>, distance: int) {
    forall a :: a in addrs ==> a != 0 && a + distance > 0
  }

  /** The slots have been copied to their new addresses, but their pointers are still the old
      ones. */
  predicate CopiedTo(cells: Cells, cells': Cells, addrs: set<nat>, distance: int) {
    forall a :: a in addrs ==> a in cells && a + distance in cells' && cells'[a + distance] == cells[a]
  }

  /** The slots are at their new addresses, with all their pointers adjusted. */
  predicate MovedTo(cells: Cells, cells': Cells, addrs: set<nat>, strings: int, slots: int) {
    forall a :: a in addrs ==> a in cells && a + slots in cells' && cells'[a + slots] == MovedCell(cells[a], strings, slots)
  }

  // ----- the moved document is the same document -----

  lemma {:induction false} MovedChain(cells: Cells, cells': Cells, items: seq<Item>, strings: int, slots: int)
    requires Chained(cells, items) && ApartAll(items)
    requires Movable(AddrsOf(items), slots) && MovedTo(cells, cells', AddrsOf(items), strings, slots)
    ensures Chained(cells', MovedItems(items, slots))
    ensures FirstAt(MovedItems(items, slots)) == MovedLink(FirstAt(items), slots)
    ensures LastAt(MovedItems(items, slots)) == MovedLink(LastAt(items), slots)
    decreases items
  {
    var moved := MovedItems(items, slots);
    forall i | 0 <= i < |items|
      ensures Linked(cells', moved[i], NextAt(moved, i))
    {
      var t := items[i];
      InChain(cells, items, i);
      ItemInside(items, i);
      MovedBelow(cells, cells', t, strings, slots);
      if i + 1 < |items| {
        ItemInside(items, i + 1);
      }
    }
    if items != [] {
      ItemInside(items, 0);
      ItemInside(items, |items| - 1);
    }
  }

  lemma {:induction false} MovedBelow(cells: Cells, cells': Cells, t: Item, strings: int, slots: int)
    requires Laid(cells, t) && Apart(t) && t.at + slots > 0
    requires Movable(AddrsOf(t.items), slots) && MovedTo(cells, cells', AddrsOf(t.items), strings, slots)
    requires t.at + slots in cells' && cells'[t.at + slots].content == MovedContent(cells[t.at].content, strings, slots)
    ensures Laid(cells', MovedItem(t, slots))
    decreases t
  {
    LaidAt(cells, t);
    if cells[t.at].content.Links? {
      LaidLinks(cells, t.at, t.items);
      MovedChain(cells, cells', t.items, strings, slots);
    }
  }

  /** Every string reads at its new address what it read at the old one. */
  ghost predicate MovedText(text: string, text': string, refs: set<Ref>, strings: int) {
    forall r :: r in refs ==> CStr(text', MovedRef(r, strings).p) == CStr(text, r.p) && (r.p != 0 ==> MovedRef(r, strings).p != 0)
  }

  lemma {:induction false} MovedImage(text: string, text': string, cells: Cells, cells': Cells, t: Item, at: nat, strings: int, slots: int)
    requires Laid(cells, t) && Apart(t) && Movable(AddrsOf(t.items), slots) && MovedTo(cells, cells', AddrsOf(t.items), strings, slots)
    requires at in cells' && cells'[at].content == MovedContent(cells[t.at].content, strings, slots)
    requires MovedText(text, text', Refs(cells, t), strings)
    ensures Image(text', cells', Item(at, MovedItems(t.items, slots))) == Image(text, cells, t)
    decreases t
  {
    LaidAt(cells, t);
    match cells[t.at].content
    case Plain(_) =>
    case Chars(p, owned) => assert Ref(p, owned) in Refs(cells, t);
    case Links(_, _, _) =>
      LaidLinks(cells, t.at, t.items);
      MovedSlots(text, text', cells, cells', t.items, strings, slots);
  }

  lemma {:induction false} MovedSlots(text: string, text': string, cells: Cells, cells': Cells, items: seq<Item>, strings: int, slots: int)
    requires Chained(cells, items) && ApartAll(items)
    requires Movable(AddrsOf(items), slots) && MovedTo(cells, cells', AddrsOf(items), strings, slots)
    requires MovedText(text, text', RefsOf(cells, items), strings)
    ensures ImageSlots(text', cells', MovedItems(items, slots)) == ImageSlots(text, cells, items)
    decreases items
  {
    var moved := MovedItems(items, slots);
    forall i | 0 <= i < |items|
      ensures ImageSlot(text', cells', moved[i]) == ImageSlot(text, cells, items[i])
    {
      MovedSlot(text, text', cells, cells', items, i, strings, slots);
    }
  }

  lemma {:induction false} MovedSlot(text: string, text': string, cells: Cells, cells': Cells, items: seq<Item>, i: nat, strings: int, slots: int)
    requires Chained(cells, items) && ApartAll(items) && i < |items|
    requires Movable(AddrsOf(items), slots) && MovedTo(cells, cells', AddrsOf(items), strings, slots)
    requires MovedText(text, text', RefsOf(cells, items), strings)
    ensures ImageSlot(text', cells', MovedItem(items[i], slots)) == ImageSlot(text, cells, items[i])
    decreases items, 0
  {
    var t := items[i];
    InChain(cells, items, i);
    ItemInside(items, i);
    Split(cells, items, i);
    assert SlotRefs(cells, t) == KeyRefs(cells[t.at]) + Refs(cells, t);
    hide Laid, Linked, Apart, ApartAll, RefsOf, Refs, Chained, MovedItems, AddrsOf, Addrs, Image, MovedContent;
    MovedOne(t, slots);
    MovedKey(text, text', cells[t.at], strings, slots);
    MovedImage(text, text', cells, cells', t, t.at + slots, strings, slots);
  }

  lemma MovedOne(t: Item, slots: int)
    requires t.at + slots > 0
    ensures MovedItem(t, slots) == Item(t.at + slots, MovedItems(t.items, slots))
  {
  }

  lemma MovedKey(text: string, text': string, cell: Cell, strings: int, slots: int)
    requires MovedText(text, text', KeyRefs(cell), strings)
    ensures KeyOf(text', MovedCell(cell, strings, slots)) == KeyOf(text, cell)
  {
    assert cell.key != 0 ==> Ref(cell.key, cell.ownsKey) in KeyRefs(cell);
  }

  lemma MovedKeyRefs(cell: Cell, strings: int, slots: int)
    requires forall r :: r in KeyRefs(cell) && r.p != 0 ==> MovedRef(r, strings).p != 0
    ensures KeyRefs(MovedCell(cell, strings, slots)) == MovedRefs(KeyRefs(cell), strings)
  {
    if cell.key != 0 {
      var r := Ref(cell.key, cell.ownsKey);
      assert KeyRefs(cell) == {r};
      assert MovedRef(r, strings) in MovedRefs({r}, strings);
    }
  }

  // ----- the space it takes -----

  function MovedRefs(refs: set<Ref>, strings: int): set<Ref> {
    set r | r in refs :: MovedRef(r, strings)
  }

  lemma MovedUnion(a: set<Ref>, b: set<Ref>, a': set<Ref>, b': set<Ref>, strings: int)
    requires a' <= MovedRefs(a, strings) && b' <= MovedRefs(b, strings)
    ensures a' + b' <= MovedRefs(a + b, strings)
  {
  }

  predicate MovedFrom(addrs: set<nat>, moved: set<nat>, slots: int) {
    forall a :: a in moved ==> a - slots in addrs
  }

  lemma {:induction false} MovedAddrs(items: seq<Item>, slots: int)
    requires ApartAll(items) && Movable(AddrsOf(items), slots)
    ensures MovedFrom(AddrsOf(items), AddrsOf(MovedItems(items, slots)), slots)
    ensures ApartAll(MovedItems(items, slots))
    decreases items
  {
    if items != [] {
      var t, moved := items[0], MovedItems(items, slots);
      assert AddrsOf(items) == Addrs(t) + AddrsOf(items[1..]) && Addrs(t) == {t.at} + AddrsOf(t.items);
      MovedAddrs(t.items, slots);
      MovedAddrs(items[1..], slots);
      assert moved[1..] == MovedItems(items[1..], slots);
      assert t.at in AddrsOf(items);
      MovedOne(t, slots);
      assert Addrs(moved[0]) == {t.at + slots} + AddrsOf(moved[0].items);
      assert MovedFrom(Addrs(t), Addrs(moved[0]), slots);
      assert Apart(moved[0]);
    }
  }

  lemma ChainTail(cells: Cells, items: seq<Item>)
    requires Chained(cells, items) && items != []
    ensures Chained(cells, items[1..])
  {
    var rest := items[1..];
    forall i | 0 <= i < |rest|
      ensures Linked(cells, rest[i], NextAt(rest, i))
    {
      InChain(cells, items, i + 1);
    }
  }

  lemma MovedFirst(cells: Cells, cells': Cells, items: seq<Item>, strings: int, slots: int)
    requires items != [] && Chained(cells, items) && ApartAll(items)
    requires Movable(AddrsOf(items), slots) && MovedTo(cells, cells', AddrsOf(items), strings, slots)
    ensures var t := items[0];
            && Laid(cells, t) && Apart(t) && Movable(AddrsOf(t.items), slots) && MovedTo(cells, cells', AddrsOf(t.items), strings, slots)
            && t.at in cells && t.at + slots > 0 && t.at + slots in cells' && cells'[t.at + slots] == MovedCell(cells[t.at], strings, slots)
    ensures ApartAll(items[1..]) && Movable(AddrsOf(items[1..]), slots) && MovedTo(cells, cells', AddrsOf(items[1..]), strings, slots)
  {
    InChain(cells, items, 0);
    ItemInside(items, 0);
    Split(cells, items, 0);
  }

  lemma {:induction false} MovedRefsOf(cells: Cells, cells': Cells, items: seq<Item>, strings: int, slots: int)
    requires Chained(cells, items) && ApartAll(items)
    requires Movable(AddrsOf(items), slots) && MovedTo(cells, cells', AddrsOf(items), strings, slots)
    requires forall r :: r in RefsOf(cells, items) && r.p != 0 ==> MovedRef(r, strings).p != 0
    ensures RefsOf(cells', MovedItems(items, slots)) <= MovedRefs(RefsOf(cells, items), strings)
    decreases items
  {
    if items != [] {
      var t, moved, rest := items[0], MovedItems(items, slots), items[1..];
      MovedFirst(cells, cells', items, strings, slots);
      hide Laid, Linked, Apart, ApartAll, Chained, MovedContent, MovedTo, Movable, AddrsOf, Addrs, KeyRefs, Refs, MovedRefs;
      assert SlotRefs(cells, t) == KeyRefs(cells[t.at]) + Refs(cells, t);
      MovedOne(t, slots);
      assert moved[0] == MovedItem(t, slots) && moved[1..] == MovedItems(rest, slots);
      assert RefsOf(cells, items) == SlotRefs(cells, t) + RefsOf(cells, rest);
      assert RefsOf(cells', moved) == SlotRefs(cells', moved[0]) + RefsOf(cells', moved[1..]);
      hide RefsOf, MovedItems, MovedItem, MovedRef, MovedCell;
      MovedRefsBelow(cells, cells', t, t.at + slots, strings, slots);
      MovedKeyRefs(cells[t.at], strings, slots);
      assert SlotRefs(cells', moved[0]) == KeyRefs(cells'[t.at + slots]) + Refs(cells', moved[0]);
      MovedUnion(KeyRefs(cells[t.at]), Refs(cells, t), KeyRefs(cells'[t.at + slots]), Refs(cells', moved[0]), strings);
      ChainTail(cells, items);
      MovedRefsOf(cells, cells', rest, strings, slots);
      MovedUnion(SlotRefs(cells, t), RefsOf(cells, rest), SlotRefs(cells', moved[0]), RefsOf(cells', moved[1..]), strings);
    }
  }

  lemma {:induction false} MovedRefsBelow(cells: Cells, cells': Cells, t: Item, at: nat, strings: int, slots: int)
    requires Laid(cells, t) && Apart(t) && Movable(AddrsOf(t.items), slots) && MovedTo(cells, cells', AddrsOf(t.items), strings, slots)
    requires at in cells' && cells'[at].content == MovedContent(cells[t.at].content, strings, slots)
    requires forall r :: r in Refs(cells, t) && r.p != 0 ==> MovedRef(r, strings).p != 0
    ensures Refs(cells', Item(at, MovedItems(t.items, slots))) <= MovedRefs(Refs(cells, t), strings)
    decreases t
  {
    LaidAt(cells, t);
    assert Refs(cells, t) == ContentRefs(cells[t.at].content) + RefsOf(cells, t.items);
    match cells[t.at].content
    case Plain(_) =>
      assert MovedItems(t.items, slots) == [];
    case Chars(p, owned) =>
      assert Ref(p, owned) in Refs(cells, t) && MovedItems(t.items, slots) == [];
      assert MovedRef(Ref(p, owned), strings) in MovedRefs(Refs(cells, t), strings);
    case Links(_, _, _) =>
      LaidLinks(cells, t.at, t.items);
      MovedRefsOf(cells, cells', t.items, strings, slots);
  }
}
