/** The elementary changes of a document in a pool, and what each does to its image. */
module PooledSteps {
  import opened Document
  import opened OwnedDocument
  import opened StoredDocument
  import opened SlotMemory
  import opened SlotLists
  import opened SlotTrees
  import opened MemoryPool
  import opened PooledTree

  // ----- a new content -----

  function WithContent(cells: Cells, at: nat, c: Content): Cells
    requires at in cells
  {
    cells[at := cells[at].(content := c)]
  }

  /** A value without slots. */
  predicate Slotless(c: Content) {
    c.Links? ==> c.head == 0 && c.tail == 0
  }

  function ContentImage(text: string, c: Content): Doc {
    match c
    case Plain(v) => Atom(v)
    case Chars(p, owned) => Line(Text(CStr(text, p), owned))
    case Links(obj, _, _) => Group(obj, [])
  }

  lemma Assigned(text: string, text': string, cells: Cells, t: Item, path: seq<nat>, c: Content, b: Extent, b': Extent)
    requires Sound(text, cells, t, b) && IsTreePath(t, path) && Grown(b, b') && Rewritten(text, text', b.left, b'.left)
    requires Slotless(c) && AllHoused(text', ContentRefs(c), b') && ItemAt(t, path).at in cells
    ensures var cells', t' := WithContent(cells, ItemAt(t, path).at, c), WithItems(t, path, []);
            && Sound(text', cells', t', b')
            && IsPath(Image(text, cells, t), path)
            && Image(text', cells', t') == With(Image(text, cells, t), path, ContentImage(text', c))
            && (Tidy(text, cells, t, b) && AllInPool(text', ContentRefs(c), b') && Usage(ContentImage(text', c)) <= b'.Size() - b.Size()
                ==> Tidy(text', cells', t', b'))
            && Refs(cells', t') <= Refs(cells, t) + ContentRefs(c)
  {
    var s := ItemAt(t, path);
    var cells' := WithContent(cells, s.at, c);
    Inside(text, cells, t, path, b);
    assert Refs(cells', Item(s.at, [])) == ContentRefs(c);
    assert Laid(cells', Item(s.at, [])) && Apart(Item(s.at, []));
    Untouched(cells, cells', t, path, b, text);
    Changed(text, text', cells, cells', t, path, [], b, b');
    WithUsage(Image(text, cells, t), path, ContentImage(text', c));
  }

  /** Writing to the place itself leaves the rest of the document alone. */
  lemma Untouched(cells: Cells, cells': Cells, t: Item, path: seq<nat>, b: Extent, text: string)
    requires Sound(text, cells, t, b) && IsTreePath(t, path)
    requires forall a :: a in cells && a !in Addrs(ItemAt(t, path)) ==> a in cells' && cells'[a] == cells[a]
    ensures Same(cells, cells', Addrs(t) - Addrs(ItemAt(t, path)))
  {
    Present(cells, t);
  }

  // ----- one more slot -----

  lemma LinkedLast(text: string, text': string, cells: Cells, at: nat, items: seq<Item>, slot: nat, cell: Cell)
    requires IsLinks(cells, at) && Laid(cells, Item(at, items)) && Apart(Item(at, items)) && slot !in Addrs(Item(at, items))
    requires SameText(text, text', Refs(cells, Item(at, items))) && cell.content == Plain(Null)
    ensures var cells', t' := LinkLast(cells, at, slot, cell), Item(at, items + [Item(slot, [])]);
            && Image(text', cells', t') ==
               Group(cells[at].content.obj, ImageSlots(text, cells, items) + [DocSlot(KeyOf(text', cell), Atom(Null))])
            && Refs(cells', t') == RefsOf(cells, items) + KeyRefs(cell)
  {
    var cells', slots := LinkLast(cells, at, slot, cell), items + [Item(slot, [])];
    Present(cells, Item(at, items));
    assert Addrs(Item(at, items)) == {at} + AddrsOf(items);
    assert Alike(cells, cells', AddrsOf(items));
    SlotsElsewhere(text, text', cells, cells', items);
    RefsElsewhere(cells, cells', items);
    RefsConcat(cells', items, [Item(slot, [])]);
    var added := Item(slot, []);
    assert Refs(cells', added) == {};
    assert SlotRefs(cells', added) == KeyRefs(cell);
    assert RefsOf(cells', [added]) == KeyRefs(cell) + RefsOf(cells', []);
    assert ImageSlots(text', cells', slots) == ImageSlots(text', cells', items) + [ImageSlot(text', cells', added)];
  }

  lemma Appended(text: string, text': string, cells: Cells, t: Item, path: seq<nat>, cell: Cell, b: Extent, b': Extent)
    requires Sound(text, cells, t, b) && Collection(cells, t, path) && Grown(b, b') && Rewritten(text, text', b.left, b'.left)
    requires b'.right == b.right - SLOT_SIZE && b'.right != 0 && NewCell(text', cell, b')
    requires ItemAt(t, path).items == [] || InReach(LastAt(ItemAt(t, path).items), b'.right)
    ensures var s, slot := ItemAt(t, path), b'.right;
            var cells', t' := LinkLast(cells, s.at, slot, cell), WithItems(t, path, s.items + [Item(slot, [])]);
            var d := Group(cells[s.at].content.obj, ImageSlots(text, cells, s.items) + [DocSlot(KeyOf(text', cell), Atom(Null))]);
            && Sound(text', cells', t', b')
            && IsPath(Image(text, cells, t), path)
            && Image(text', cells', t') == With(Image(text, cells, t), path, d)
            && (Tidy(text, cells, t, b) && OwnKey(text', cell, b') && KeyUsage(KeyOf(text', cell)) <= b'.left - b.left
                ==> Tidy(text', cells', t', b'))
            && Refs(cells', t') <= Refs(cells, t) + KeyRefs(cell)
  {
    hide Laid, Apart, Refs, Image, ImageSlots, OnGrid, LinkLast, Usage, With;
    var s, slot := ItemAt(t, path), b'.right;
    var cells', items := LinkLast(cells, s.at, slot, cell), s.items + [Item(slot, [])];
    Inside(text, cells, t, path, b);
    NewSlot(text, cells, t, path, b, b');
    LinkLastLaid(cells, s.at, s.items, slot, cell, b.begin, b.end) by { TailOnGrid(s.items, b); }
    forall r | r in Refs(cells, t)
      ensures CStr(text', r.p) == CStr(text, r.p)
    {
      HousedStays(text, text', r, b, b');
    }
    assert s == Item(s.at, s.items);
    LinkedLast(text, text', cells, s.at, s.items, slot, cell);
    RefsOfLinks(cells, s);
    AppendReplaced(text, cells, t, path, slot, cell, b);
    Changed(text, text', cells, cells', t, path, items, b, b');
    AppendedUsage(text, text', cells, t, path, cell, b);
  }

  lemma TailOnGrid(items: seq<Item>, b: Extent)
    requires Placed(AddrsOf(items), b) && b.Valid() && ApartAll(items)
    ensures items != [] ==> OnGrid(LastAt(items), b.begin, b.end)
  {
    if items != [] {
      ItemInside(items, |items| - 1);
      assert OnGrid(LastAt(items), b.right, b.end);
    }
  }

  lemma NewSlot(text: string, cells: Cells, t: Item, path: seq<nat>, b: Extent, b': Extent)
    requires Sound(text, cells, t, b) && IsTreePath(t, path) && Grown(b, b') && b'.right == b.right - SLOT_SIZE && b'.right != 0
    ensures var s, slot := ItemAt(t, path), b'.right;
            && slot !in Addrs(t) && slot !in Addrs(s) && OnGrid(slot, b.begin, b.end)
            && Apart(Item(s.at, s.items + [Item(slot, [])])) && Fresh(s.items + [Item(slot, [])], s.items, b, b')
            && ApartAll(s.items) && s.at !in AddrsOf(s.items)
  {
    var s, slot := ItemAt(t, path), b'.right;
    Inside(text, cells, t, path, b);
    DeeperInside(t, path);
    assert Addrs(t) == {t.at} + AddrsOf(t.items);
    assert slot in AddrsOf(t.items) ==> OnGrid(slot, b.right, b.end);
    assert OnGrid(slot, b'.right, b.end);
    AddrsConcat(s.items, [Item(slot, [])]);
    var added := Item(slot, []);
    assert Addrs(added) == {slot} && Apart(added);
    assert AddrsOf([added]) == Addrs(added) + AddrsOf([]);
    assert ApartAll([added]);
    assert Addrs(s) == {s.at} + AddrsOf(s.items);
  }

  lemma RefsOfLinks(cells: Cells, s: Item)
    requires IsLinks(cells, s.at)
    ensures Refs(cells, s) == RefsOf(cells, s.items)
  {
  }

  lemma AppendReplaced(text: string, cells: Cells, t: Item, path: seq<nat>, slot: nat, cell: Cell, b: Extent)
    requires Sound(text, cells, t, b) && Collection(cells, t, path) && slot !in Addrs(t)
    requires Laid(LinkLast(cells, ItemAt(t, path).at, slot, cell), Item(ItemAt(t, path).at, ItemAt(t, path).items + [Item(slot, [])]))
    ensures Replaced(cells, LinkLast(cells, ItemAt(t, path).at, slot, cell), t, ItemAt(t, path), ItemAt(t, path).items + [Item(slot, [])], path == [])
  {
    var s := ItemAt(t, path);
    var cells' := LinkLast(cells, s.at, slot, cell);
    Inside(text, cells, t, path, b);
    DeeperInside(t, path);
    Present(cells, t);
    TailInside(cells, s);
  }

  lemma TailInside(cells: Cells, s: Item)
    requires IsLinks(cells, s.at) && Laid(cells, s) && Apart(s)
    ensures var tail := cells[s.at].content.tail; tail == 0 || (tail in Addrs(s) && tail != s.at && tail in cells)
  {
    if s.items != [] {
      ItemInside(s.items, |s.items| - 1);
      InChain(cells, s.items, |s.items| - 1);
    }
  }

  lemma AppendedUsage(text: string, text': string, cells: Cells, t: Item, path: seq<nat>, cell: Cell, b: Extent)
    requires Sound(text, cells, t, b) && Collection(cells, t, path) && IsPath(Image(text, cells, t), path)
    ensures var s, key := ItemAt(t, path), KeyOf(text', cell);
            var d := Group(cells[s.at].content.obj, ImageSlots(text, cells, s.items) + [DocSlot(key, Atom(Null))]);
            Usage(With(Image(text, cells, t), path, d)) == Usage(Image(text, cells, t)) + SLOT_SIZE + KeyUsage(key)
  {
    var s, key := ItemAt(t, path), KeyOf(text', cell);
    var slots := ImageSlots(text, cells, s.items);
    Inside(text, cells, t, path, b);
    assert Image(text, cells, s) == Group(cells[s.at].content.obj, slots);
    OneUsage(DocSlot(key, Atom(Null)));
    UsageConcat(slots, [DocSlot(key, Atom(Null))]);
    WithUsage(Image(text, cells, t), path, Group(cells[s.at].content.obj, slots + [DocSlot(key, Atom(Null))]));
  }

  // ----- one slot fewer -----

  lemma WithoutInside(cells: Cells, items: seq<Item>, k: nat)
    requires k < |items| && ApartAll(items)
    ensures ApartAll(Without(items, k)) && AddrsOf(Without(items, k)) <= AddrsOf(items)
    ensures RefsOf(cells, Without(items, k)) <= RefsOf(cells, items)
  {
    Split(cells, items, k);
    AddrsConcat(items[..k], items[k + 1..]);
    RefsConcat(cells, items[..k], items[k + 1..]);
  }

  lemma SlotsWithout(text: string, cells: Cells, items: seq<Item>, k: nat)
    requires k < |items|
    ensures var slots := ImageSlots(text, cells, items); ImageSlots(text, cells, Without(items, k)) == slots[..k] + slots[k + 1..]
  {
    hide ImageSlot;
  }

  lemma UnlinkedOne(text: string, cells: Cells, s: Item, k: nat)
    requires IsLinks(cells, s.at) && Laid(cells, s) && Apart(s) && k < |s.items|
    ensures var cells', slots := Unlink(cells, s.at, PrevAt(s.items, k), s.items[k].at, NextAt(s.items, k)), ImageSlots(text, cells, s.items);
            && (forall a :: a in cells && a !in Addrs(s) ==> a in cells' && cells'[a] == cells[a])
            && cells'[s.at] == cells[s.at].(content := cells'[s.at].content)
            && Image(text, cells', Item(s.at, Without(s.items, k))) == Group(cells[s.at].content.obj, slots[..k] + slots[k + 1..])
            && RefsOf(cells', Without(s.items, k)) <= RefsOf(cells, s.items)
  {
    var prev := PrevAt(s.items, k);
    var cells', rest := Unlink(cells, s.at, prev, s.items[k].at, NextAt(s.items, k)), Without(s.items, k);
    Present(cells, s);
    assert Addrs(s) == {s.at} + AddrsOf(s.items);
    if k > 0 {
      ItemInside(s.items, k - 1);
      InChain(cells, s.items, k - 1);
    }
    assert Alike(cells, cells', AddrsOf(s.items));
    WithoutInside(cells, s.items, k);
    assert Alike(cells, cells', AddrsOf(rest));
    SlotsElsewhere(text, text, cells, cells', rest);
    RefsElsewhere(cells, cells', rest);
    SlotsWithout(text, cells, s.items, k);
  }

  lemma Removed(text: string, cells: Cells, t: Item, path: seq<nat>, k: nat, b: Extent)
    requires Sound(text, cells, t, b) && Collection(cells, t, path) && k < |ItemAt(t, path).items| && Bridged(ItemAt(t, path).items, k)
    ensures var s := ItemAt(t, path);
            var slots := ImageSlots(text, cells, s.items);
            var cells', t' := Unlink(cells, s.at, PrevAt(s.items, k), s.items[k].at, NextAt(s.items, k)), WithItems(t, path, Without(s.items, k));
            && Sound(text, cells', t', b)
            && IsPath(Image(text, cells, t), path)
            && Image(text, cells', t') == With(Image(text, cells, t), path, Group(cells[s.at].content.obj, slots[..k] + slots[k + 1..]))
            && (Tidy(text, cells, t, b) ==> Tidy(text, cells', t', b))
  {
    hide Laid, Refs, Image, ImageSlots, Unlink, Usage, With, OnGrid;
    var s := ItemAt(t, path);
    var slots := ImageSlots(text, cells, s.items);
    var cells', rest := Unlink(cells, s.at, PrevAt(s.items, k), s.items[k].at, NextAt(s.items, k)), Without(s.items, k);
    Inside(text, cells, t, path, b);
    assert s == Item(s.at, s.items) && ApartAll(s.items);
    AllOnGrid(s.items, b);
    UnlinkLaid(cells, s.at, s.items, k, b.begin, b.end);
    UnlinkedOne(text, cells, s, k);
    WithoutInside(cells, s.items, k);
    Untouched(cells, cells', t, path, b, text);
    RefsOfLinks(cells, s);
    LaidAt(cells', Item(s.at, rest));
    StillLinks(cells, s, k);
    RefsOfLinks(cells', Item(s.at, rest));
    assert Rewritten(text, text, b.left, b.left);
    Changed(text, text, cells, cells', t, path, rest, b, b);
    RemovedUsage(text, cells, t, path, k, b);
  }

  lemma StillLinks(cells: Cells, s: Item, k: nat)
    requires IsLinks(cells, s.at) && k < |s.items|
    ensures IsLinks(Unlink(cells, s.at, PrevAt(s.items, k), s.items[k].at, NextAt(s.items, k)), s.at)
  {
  }

  lemma AllOnGrid(items: seq<Item>, b: Extent)
    requires Placed(AddrsOf(items), b) && b.Valid() && ApartAll(items)
    ensures forall i :: 0 <= i < |items| ==> OnGrid(items[i].at, b.begin, b.end)
  {
    forall i | 0 <= i < |items|
      ensures OnGrid(items[i].at, b.begin, b.end)
    {
      ItemInside(items, i);
      assert OnGrid(items[i].at, b.right, b.end);
    }
  }

  lemma RemovedUsage(text: string, cells: Cells, t: Item, path: seq<nat>, k: nat, b: Extent)
    requires Sound(text, cells, t, b) && Collection(cells, t, path) && k < |ItemAt(t, path).items|
    requires IsPath(Image(text, cells, t), path)
    ensures var s := ItemAt(t, path);
            var slots := ImageSlots(text, cells, s.items);
            Usage(With(Image(text, cells, t), path, Group(cells[s.at].content.obj, slots[..k] + slots[k + 1..]))) <= Usage(Image(text, cells, t))
  {
    var s := ItemAt(t, path);
    var slots := ImageSlots(text, cells, s.items);
    Inside(text, cells, t, path, b);
    assert Image(text, cells, s) == Group(cells[s.at].content.obj, slots);
    UsageSplit(slots, k);
    UsageConcat(slots[..k], slots[k + 1..]);
    WithUsage(Image(text, cells, t), path, Group(cells[s.at].content.obj, slots[..k] + slots[k + 1..]));
  }
}
