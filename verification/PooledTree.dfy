/** What a document in a pool keeps: its slots and its own strings lie in the pool's used ends,
    no slot is used twice, and every link and pointer is good. */
module PooledTree {
  import opened Document
  import opened OwnedDocument
  import opened StoredDocument
  import opened SlotMemory
  import opened SlotLists
  import opened SlotTrees
  import opened MemoryPool

  /** A string in the used left end of the pool. */
  predicate InPool(text: string, p: nat, b: Extent) {
    b.begin <= p && b.left <= |text| && Terminated(text, p, b.left)
  }

  /** A string that does not touch the pool. */
  predicate Outside(text: string, p: nat, b: Extent) {
    b.begin <= |text| && (Terminated(text, p, b.begin) || (b.end <= p && Terminated(text, p, |text|)))
  }

  /** Linked strings are elsewhere; owned ones are in the pool, or in the input that was parsed
      in place. */
  predicate Housed(text: string, r: Ref, b: Extent) {
    r.p != 0 && (Outside(text, r.p, b) || (r.owned && InPool(text, r.p, b)))
  }

  ghost predicate AllHoused(text: string, refs: set<Ref>, b: Extent) {
    forall r :: r in refs ==> Housed(text, r, b)
  }

  /** No owned string was left in an input. */
  ghost predicate AllInPool(text: string, refs: set<Ref>, b: Extent) {
    forall r :: r in refs && r.owned ==> InPool(text, r.p, b)
  }

  ghost predicate Placed(addrs: set<nat>, b: Extent) {
    forall a :: a in addrs ==> OnGrid(a, b.right, b.end)
  }

  ghost predicate Sound(text: string, cells: Cells, t: Item, b: Extent) {
    && b.Valid() && b.end <= |text|
    && t.at != 0 && !(b.begin <= t.at < b.end)
    && Laid(cells, t) && Apart(t)
    && Placed(AddrsOf(t.items), b)
    && AllHoused(text, Refs(cells, t), b)
  }

  // ----- what allocation does to strings -----

  lemma {:induction false} TerminatedLater(text: string, p: nat, w: nat, w2: nat)
    requires w <= w2 <= |text| && Terminated(text, p, w)
    ensures Terminated(text, p, w2)
    decreases w - p
  {
    if text[p] != '\0' {
      TerminatedLater(text, p + 1, w, w2);
    }
  }

  lemma HousedSettled(text: string, r: Ref, b: Extent)
    requires Housed(text, r, b) && b.Valid() && b.end <= |text|
    ensures Settled(text, r.p, b.left, b.right)
  {
    if Outside(text, r.p, b) {
      if Terminated(text, r.p, b.begin) {
        TerminatedLater(text, r.p, b.begin, b.left);
      }
    }
  }

  /** The pool has only been allocated from. */
  predicate Grown(b: Extent, b': Extent) {
    b'.Valid() && b'.begin == b.begin && b'.end == b.end && b.left <= b'.left && b'.right <= b.right
  }

  lemma HousedStays(text: string, text': string, r: Ref, b: Extent, b': Extent)
    requires Housed(text, r, b) && b.Valid() && b.end <= |text| && Grown(b, b') && Rewritten(text, text', b.left, b'.left)
    ensures Housed(text', r, b') && CStr(text', r.p) == CStr(text, r.p)
    ensures InPool(text, r.p, b) ==> InPool(text', r.p, b')
  {
    if InPool(text, r.p, b) {
      StringStays(text, text', r.p, b.left, b.left, b'.left);
      TerminatedLater(text', r.p, b.left, b'.left);
    }
    if Outside(text, r.p, b) {
      OutsideStays(text, text', r.p, b, b.left, b'.left);
    }
  }

  lemma OutsideStays(text: string, text': string, p: nat, b: Extent, lo: nat, hi: nat)
    requires Outside(text, p, b) && b.begin <= lo <= hi <= b.end <= |text| && Rewritten(text, text', lo, hi)
    ensures Outside(text', p, b) && CStr(text', p) == CStr(text, p)
  {
    if Terminated(text, p, b.begin) {
      StringStays(text, text', p, b.begin, lo, hi);
    } else {
      StringStays(text, text', p, |text|, lo, hi);
    }
  }

  // ----- changing one place -----

  /** The slots of a changed collection are old ones or new ones. */
  ghost predicate Fresh(items: seq<Item>, prior: seq<Item>, b: Extent, b': Extent) {
    forall a :: a in AddrsOf(items) ==> a in AddrsOf(prior) || (OnGrid(a, b'.right, b.end) && a < b.right)
  }

  ghost predicate RefsHoused(text: string, cells: Cells, before: set<Ref>, t: Item, b: Extent) {
    forall r :: r in Refs(cells, t) ==> r in before || Housed(text, r, b)
  }

  ghost predicate RefsInPool(text: string, cells: Cells, before: set<Ref>, t: Item, b: Extent) {
    forall r :: r in Refs(cells, t) ==> r in before || (r.owned ==> InPool(text, r.p, b))
  }

  /** One place of a sound document gets another value, using what the pool has given out
      since: the document is sound, and its image has changed at that place only. */
  lemma Changed(text: string, text': string, cells: Cells, cells': Cells, t: Item, path: seq<nat>, items: seq<Item>, b: Extent, b': Extent)
    requires Sound(text, cells, t, b) && IsTreePath(t, path) && Grown(b, b') && Rewritten(text, text', b.left, b'.left)
    requires Replaced(cells, cells', t, ItemAt(t, path), items, path == [])
    requires Apart(Item(ItemAt(t, path).at, items)) && Fresh(items, ItemAt(t, path).items, b, b')
    requires RefsHoused(text', cells', Refs(cells, t), Item(ItemAt(t, path).at, items), b')
    ensures Sound(text', cells', WithItems(t, path, items), b')
    ensures IsPath(Image(text, cells, t), path)
    ensures Image(text', cells', WithItems(t, path, items)) ==
            With(Image(text, cells, t), path, Image(text', cells', Item(ItemAt(t, path).at, items)))
    ensures AllInPool(text, Refs(cells, t), b) && RefsInPool(text', cells', Refs(cells, t), Item(ItemAt(t, path).at, items), b') ==>
            AllInPool(text', Refs(cells', WithItems(t, path, items)), b')
    ensures Refs(cells', WithItems(t, path, items)) <= Refs(cells, t) + Refs(cells', Item(ItemAt(t, path).at, items))
  {
    var s, t' := ItemAt(t, path), WithItems(t, path, items);
    hide Laid, Apart, AddrsOf, Refs, Image, Replaced, OnGrid;
    forall r | r in Refs(cells, t)
      ensures Housed(text', r, b') && CStr(text', r.p) == CStr(text, r.p)
      ensures InPool(text, r.p, b) ==> InPool(text', r.p, b')
    {
      HousedStays(text, text', r, b, b');
    }
    assert SameText(text, text', Refs(cells, t));
    Planted(cells, cells', t, path, items);
    PlantedImage(text, text', cells, cells', t, path, items);
    PlantedRefs(cells, cells', t, path, items);
    ChangedAddrs(cells, t, path, items, b, b');
  }

  lemma ChangedAddrs(cells: Cells, t: Item, path: seq<nat>, items: seq<Item>, b: Extent, b': Extent)
    requires Laid(cells, t) && Apart(t) && IsTreePath(t, path) && Placed(AddrsOf(t.items), b) && !(b.begin <= t.at < b.end)
    requires b.Valid() && Grown(b, b')
    requires Apart(Item(ItemAt(t, path).at, items)) && Fresh(items, ItemAt(t, path).items, b, b')
    ensures Apart(WithItems(t, path, items)) && Placed(AddrsOf(WithItems(t, path, items).items), b')
  {
    var s, t' := ItemAt(t, path), WithItems(t, path, items);
    assert Addrs(t) == {t.at} + AddrsOf(t.items);
    assert Addrs(t') == {t'.at} + AddrsOf(t'.items);
    forall a | a in AddrsOf(items) && a !in AddrsOf(s.items)
      ensures a !in Addrs(t)
    {
      assert a in AddrsOf(t.items) ==> OnGrid(a, b.right, b.end);
    }
    PlantedAddrs(t, path, items);
  }

  /** Every owned string is in the pool, and the pool counts all that is live. */
  ghost predicate Tidy(text: string, cells: Cells, t: Item, b: Extent) {
    AllInPool(text, Refs(cells, t), b) && Usage(Image(text, cells, t)) <= b.Size()
  }

  /** A slot that holds nothing yet but perhaps its key. */
  ghost predicate NewCell(text: string, cell: Cell, b: Extent) {
    cell.content == Plain(Null) && cell.next == 0 && (cell.key != 0 ==> Housed(text, Ref(cell.key, cell.ownsKey), b))
  }

  ghost predicate OwnKey(text: string, cell: Cell, b: Extent) {
    cell.key != 0 && cell.ownsKey ==> InPool(text, cell.key, b)
  }

  ghost predicate Collection(cells: Cells, t: Item, path: seq<nat>) {
    IsTreePath(t, path) && IsLinks(cells, ItemAt(t, path).at)
  }

  /** The place and what is below it. */
  lemma Inside(text: string, cells: Cells, t: Item, path: seq<nat>, b: Extent)
    requires Sound(text, cells, t, b) && IsTreePath(t, path)
    ensures var s := ItemAt(t, path);
            && Laid(cells, s) && Apart(s) && s.at in cells && s.at != 0
            && Placed(AddrsOf(s.items), b) && Refs(cells, s) <= Refs(cells, t)
            && (path == [] || OnGrid(s.at, b.right, b.end))
            && IsPath(Image(text, cells, t), path) && Place(Image(text, cells, t), path) == Image(text, cells, s)
  {
    PlaceInside(text, cells, t, path);
    var s := ItemAt(t, path);
    LaidAt(cells, s);
    if path != [] {
      assert s.at in AddrsOf(t.items) && OnGrid(s.at, b.right, b.end);
      assert AddrsOf(s.items) <= AddrsOf(t.items) by {
        assert Addrs(t) == {t.at} + AddrsOf(t.items) && Addrs(s) == {s.at} + AddrsOf(s.items);
        AtRoot(t, path);
      }
    }
  }

  lemma {:induction false} AtRoot(t: Item, path: seq<nat>)
    requires Apart(t) && IsTreePath(t, path) && path != []
    ensures t.at !in Addrs(ItemAt(t, path))
    decreases |path|
  {
    ItemInside(t.items, path[0]);
    if path[1..] != [] {
      DeeperInside(t.items[path[0]], path[1..]);
    }
  }

  lemma {:induction false} DeeperInside(t: Item, path: seq<nat>)
    requires Apart(t) && IsTreePath(t, path)
    ensures Addrs(ItemAt(t, path)) <= Addrs(t)
    decreases |path|
  {
    if path != [] {
      ItemInside(t.items, path[0]);
      DeeperInside(t.items[path[0]], path[1..]);
    }
  }
}
