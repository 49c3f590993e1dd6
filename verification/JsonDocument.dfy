/** A document in its pool, and the operations on it.  Each operation names the variant it works
    on by its address, and the place of that variant in the document. */
module JsonDocument {
  import opened Document
  import opened OwnedDocument
  import opened StoredDocument
  import opened SlotMemory
  import opened SlotLists
  import opened SlotTrees
  import opened MemoryPool
  import opened CollectionData
  import opened PooledTree
  import opened PooledSteps

  /** No variant has changed but the one at `at`, and those in [lo, hi). */
  ghost predicate Beside(cells: Cells, cells': Cells, at: nat, lo: nat, hi: nat) {
    forall a :: a in cells && a != at && !(lo <= a < hi) ==> a in cells' && cells'[a] == cells[a]
  }

  /** Nothing has changed but the variant at `at`, and what lies in [lo, hi). */
  ghost predicate Elsewhere(text: string, text': string, cells: Cells, cells': Cells, at: nat, lo: nat, hi: nat) {
    Rewritten(text, text', lo, hi) && Beside(cells, cells', at, lo, hi)
  }

  /** The variants on the way to a place, and the slots beside them, are still at their addresses. */
  ghost predicate SameSpine(t: Item, t': Item, path: seq<nat>)
    decreases |path|
  {
    && t'.at == t.at
    && (path != [] ==>
      && path[0] < |t.items| && SameSlots(t.items, t'.items)
      && SameSpine(t.items[path[0]], t'.items[path[0]], path[1..]))
  }

  predicate SameSlots(items: seq<Item>, items': seq<Item>) {
    |items'| == |items| && forall k :: 0 <= k < |items| ==> items'[k].at == items[k].at
  }

  /** A slot in [lo, hi) was linked to the collection at `at`, and perhaps unlinked again. */
  ghost predicate OnlyLinked(cells: Cells, cells': Cells, at: nat, lo: nat, hi: nat) {
    && IsLinks(cells, at)
    && var tail := cells[at].content.tail;
    && forall a :: a in cells && a != at && !(lo <= a < hi) && (a != tail || tail == 0) ==> a in cells' && cells'[a] == cells[a]
  }

  /** A value that can be read while the variant at `at` and [lo, hi) are written; the strings it
      shares are not in the block b. */
  ghost predicate Readable(text: string, cells: Cells, s: Item, at: nat, lo: nat, hi: nat, b: Extent) {
    && Laid(cells, s)
    && (forall a :: a in Addrs(s) ==> a != at && !(lo <= a < hi))
    && (forall r :: r in Refs(cells, s) ==> Shareable(text, r, lo, hi, b))
  }

  predicate Shareable(text: string, r: Ref, lo: nat, hi: nat, b: Extent) {
    r.p != 0 && Settled(text, r.p, lo, hi) && (r.owned || Outside(text, r.p, b))
  }

  class JsonDocument {
    const ram: Ram
    /** Where the root variant is. */
    const root: nat
    var pool: Pool
    ghost var tree: Item

    ghost predicate Valid()
      reads this, pool, ram
    {
      pool.ram == ram && pool.Valid() && tree.at == root && Sound(ram.text, ram.cells, tree, pool.Bounds())
    }

    ghost function Contents(): Doc
      reads this, ram
    {
      Image(ram.text, ram.cells, tree)
    }

    /** No owned string was left in an input, and the pool counts all that is live. */
    ghost predicate IsTidy()
      reads this, pool, ram
    {
      Tidy(ram.text, ram.cells, tree, pool.Bounds())
    }

    /** The variant at `at` is at this place of the document. */
    ghost predicate Holds(at: nat, path: seq<nat>)
      reads this, ram
    {
      && IsTreePath(tree, path) && ItemAt(tree, path).at == at
      && IsPath(Contents(), path) && Place(Contents(), path) == Image(ram.text, ram.cells, ItemAt(tree, path))
    }

    /** A string the document may refer to without owning it. */
    ghost predicate Foreign(p: nat)
      reads this, pool, ram
    {
      p != 0 && Outside(ram.text, p, pool.Bounds())
    }

    /** A string that can be copied into the pool, also one that the pool holds. */
    ghost predicate Steady(p: nat)
      reads this, pool, ram
    {
      Settled(ram.text, p, pool.left, pool.right)
    }

    /** If there is room for one more slot, the last slot of the collection can be linked to it. */
    ghost predicate LinkFits(at: nat)
      reads this, pool, ram
    {
      IsLinks(ram.cells, at) ==>
        var tail := ram.cells[at].content.tail; tail == 0 || pool.right < pool.left + SLOT_SIZE || InReach(tail, pool.right - SLOT_SIZE)
    }

    constructor (ram: Ram, root: nat, pool: Pool)
      requires pool.Valid() && pool.ram == ram
      requires root != 0 && !(pool.begin <= root < pool.end)
      modifies ram`cells
      ensures this.ram == ram && this.root == root && this.pool == pool
      ensures Valid() && Contents() == Atom(Null) && IsTidy()
      ensures Holds(root, [])
      ensures Elsewhere(ram.text, ram.text, old(ram.cells), ram.cells, root, pool.begin, pool.end)
    {
      this.ram, this.root, this.pool := ram, root, pool;
      tree := Item(root, []);
      new;
      ram.cells := ram.cells[root := EMPTY_CELL];
      Empty(ram.text, ram.cells, root, pool.Bounds());
    }

    // ----- the whole document -----

    /** Forgets everything; the pool is empty again. */
    method Clear()
      requires Valid()
      modifies this`tree, pool, ram`cells
      ensures Valid() && Contents() == Atom(Null) && IsTidy() && Holds(root, []) && Refs(ram.cells, tree) == {}
      ensures var b := old(pool.Bounds()); pool.Bounds() == Extent(b.begin, b.begin, b.end, b.end)
      ensures Elsewhere(ram.text, ram.text, old(ram.cells), ram.cells, root, pool.begin, pool.end)
    {
      LaidAt(ram.cells, tree);
      pool.Clear();
      ram.cells := ram.cells[root := ram.cells[root].(content := Plain(Null))];
      tree := Item(root, []);
      Empty(ram.text, ram.cells, root, pool.Bounds());
    }

    /** Becomes a copy of another document, as far as the pool has room. */
    method Set(other: JsonDocument) returns (ok: bool)
      requires Valid() && other.Valid() && Separate(other)
      requires CopyFits(other.Contents(), pool.Bounds().Capacity())
      modifies this`tree, pool, ram
      ensures Valid() && IsTidy() && pool.begin == old(pool.begin) && pool.end == old(pool.end)
      ensures var r := Copy(old(other.Contents()), pool.Bounds().Capacity());
              ok == r.ok && Contents() == r.doc && pool.Bounds().Room() == r.room
      ensures other.Valid() && Separate(other) && other.Contents() == old(other.Contents())
      ensures Elsewhere(old(ram.text), ram.text, old(ram.cells), ram.cells, root, pool.begin, pool.end)
    {
      hide Sound, Tidy, Image, Copy, Outside, Refs, Addrs, Laid, Settled, CopyFits;
      ghost var text, cells, t, o, b := ram.text, ram.cells, other.tree, other.pool.Bounds(), pool.Bounds();
      Clear();
      SameBlock(text, cells, t, root, b, pool.Bounds());
      OtherStands(text, ram.text, cells, ram.cells, t, root, o, pool.Bounds());
      ghost var text1, cells1, b1 := ram.text, ram.cells, pool.Bounds();
      ok := CopyFrom(root, other.root, [], other.tree);
      SameBlock(text1, cells1, t, root, b1, pool.Bounds());
      OtherStands(text1, ram.text, cells1, ram.cells, t, root, o, pool.Bounds());
    }

    /** Another document in the same memory, with a block of its own, that does not use this
        one's. */
    ghost predicate Separate(other: JsonDocument)
      reads this, pool, other, other.pool, ram
    {
      && other != this && other.ram == ram && other.pool != pool && other.root != root
      && (other.pool.end <= pool.begin || pool.end <= other.pool.begin)
      && !(other.pool.begin <= root < other.pool.end)
      && Readable(ram.text, ram.cells, other.tree, root, pool.begin, pool.end, pool.Bounds())
    }

    // ----- single values -----

    /** Writes a value without slots, after strings were saved for it. */
    method Assign(at: nat, ghost path: seq<nat>, c: Content, ghost text: string, ghost b: Extent)
      requires pool.ram == ram && pool.Valid() && tree.at == root && Sound(text, ram.cells, tree, b)
      requires IsTreePath(tree, path) && ItemAt(tree, path).at == at
      requires Grown(b, pool.Bounds()) && Rewritten(text, ram.text, b.left, pool.left)
      requires Slotless(c) && AllHoused(ram.text, ContentRefs(c), pool.Bounds())
      modifies this`tree, ram`cells
      ensures Valid() && Holds(at, path) && IsPath(old(Image(text, ram.cells, tree)), path)
      ensures Contents() == With(old(Image(text, ram.cells, tree)), path, ContentImage(ram.text, c))
      ensures at in ram.cells && ram.cells[at].content == c
      ensures Refs(ram.cells, tree) <= old(Refs(ram.cells, tree)) + ContentRefs(c)
      ensures (&& old(Tidy(text, ram.cells, tree, b)) && AllInPool(ram.text, ContentRefs(c), pool.Bounds())
               && Usage(ContentImage(ram.text, c)) <= pool.Bounds().Size() - b.Size()) ==> IsTidy()
      ensures SameSpine(old(tree), tree, path)
      ensures Elsewhere(ram.text, ram.text, old(ram.cells), ram.cells, at, 0, 0)
    {
      hide Sound, Tidy, AllHoused, AllInPool, Image, With, Usage;
      Inside(text, ram.cells, tree, path, b);
      ghost var cells, t := ram.cells, tree;
      ram.cells := ram.cells[at := ram.cells[at].(content := c)];
      tree := WithItems(tree, path, []);
      Assigned(text, ram.text, cells, t, path, c, b, pool.Bounds());
      Settle(t, path, []);
    }

    method SetAtom(at: nat, v: Atomic, ghost path: seq<nat>)
      requires Valid() && Holds(at, path)
      modifies this`tree, ram`cells
      ensures Valid() && Holds(at, path) && Contents() == With(old(Contents()), path, Atom(v))
      ensures Refs(ram.cells, tree) <= old(Refs(ram.cells, tree))
      ensures old(IsTidy()) ==> IsTidy()
      ensures SameSpine(old(tree), tree, path)
      ensures Elsewhere(ram.text, ram.text, old(ram.cells), ram.cells, at, 0, 0)
    {
      Assign(at, path, Plain(v), ram.text, pool.Bounds());
    }

    /** toArray and toObject: the variant becomes an empty collection. */
    method ToCollection(at: nat, obj: bool, ghost path: seq<nat>)
      requires Valid() && Holds(at, path)
      modifies this`tree, ram`cells
      ensures Valid() && Holds(at, path) && Contents() == With(old(Contents()), path, Group(obj, []))
      ensures at in ram.cells && ram.cells[at].content == Links(obj, 0, 0)
      ensures Refs(ram.cells, tree) <= old(Refs(ram.cells, tree))
      ensures old(IsTidy()) ==> IsTidy()
      ensures SameSpine(old(tree), tree, path)
      ensures Elsewhere(ram.text, ram.text, old(ram.cells), ram.cells, at, 0, 0)
    {
      assert Usage(Group(obj, [])) == 0;
      Assign(at, path, Links(obj, 0, 0), ram.text, pool.Bounds());
    }

    /** Shares a string; a null pointer makes the value null. */
    method SetLinkedString(at: nat, p: nat, ghost path: seq<nat>)
      requires Valid() && Holds(at, path) && (p != 0 ==> Foreign(p))
      modifies this`tree, ram`cells
      ensures Valid() && Holds(at, path)
      ensures Contents() == With(old(Contents()), path, if p == 0 then Atom(Null) else Line(Text(CStr(ram.text, p), false)))
      ensures old(IsTidy()) ==> IsTidy()
      ensures SameSpine(old(tree), tree, path)
      ensures Elsewhere(ram.text, ram.text, old(ram.cells), ram.cells, at, 0, 0)
    {
      Assign(at, path, if p == 0 then Plain(Null) else Chars(p, false), ram.text, pool.Bounds());
    }

    /** A string parsed in place is owned, although the pool does not hold it. */
    method SetOwnedInPlace(at: nat, p: nat, ghost path: seq<nat>)
      requires Valid() && Holds(at, path) && Foreign(p)
      modifies this`tree, ram`cells
      ensures Valid() && Holds(at, path)
      ensures Contents() == With(old(Contents()), path, Line(Text(CStr(ram.text, p), true)))
      ensures SameSpine(old(tree), tree, path)
      ensures Elsewhere(ram.text, ram.text, old(ram.cells), ram.cells, at, 0, 0)
    {
      Assign(at, path, Chars(p, true), ram.text, pool.Bounds());
    }

    /** Copies a string into the pool; without room, and for a null pointer, the value becomes
        null. */
    method SetOwnedString(at: nat, p: nat, ghost path: seq<nat>) returns (ok: bool)
      requires Valid() && Holds(at, path) && (p != 0 ==> Steady(p))
      modifies this`tree, pool`left, ram
      ensures Valid() && Holds(at, path)
      ensures var t := Text(CStr(old(ram.text), p), true);
              && ok == (p != 0 && TextUsage(t) <= old(pool.Bounds()).Room())
              && Contents() == With(old(Contents()), path, if ok then Line(t) else Atom(Null))
              && pool.Bounds().Room() == old(pool.Bounds()).Room() - if ok then TextUsage(t) else 0
      ensures Grown(old(pool.Bounds()), pool.Bounds()) && pool.right == old(pool.right)
      ensures old(IsTidy()) ==> IsTidy()
      ensures SameSpine(old(tree), tree, path)
      ensures Elsewhere(old(ram.text), ram.text, old(ram.cells), ram.cells, at, old(pool.left), pool.left)
    {
      var dup := pool.Save(p);
      ok := dup != 0;
      Assign(at, path, if ok then Chars(dup, true) else Plain(Null), old(ram.text), old(pool.Bounds()));
    }

    // ----- collections -----

    /** Adds a slot, which stays unnamed. */
    method AddElement(at: nat, ghost path: seq<nat>) returns (slot: nat)
      requires Valid() && Holds(at, path) && Place(Contents(), path).Group? && LinkFits(at)
      modifies this`tree, pool`right, ram`cells
      ensures Valid() && Holds(at, path) && Grown(old(pool.Bounds()), pool.Bounds()) && LinkFits(at)
      ensures (slot != 0) == (old(pool.Bounds()).Room() >= SLOT_SIZE)
      ensures var g := Place(old(Contents()), path);
              if slot == 0 then Contents() == old(Contents()) && pool.right == old(pool.right) && ram.cells == old(ram.cells) && tree == old(tree)
              else
                && Contents() == With(old(Contents()), path, g.(slots := g.slots + [DocSlot(None, Atom(Null))]))
                && Holds(slot, path + [|g.slots|]) && pool.right == old(pool.right) - SLOT_SIZE == slot
                && ram.cells == LinkLast(old(ram.cells), at, slot, EMPTY_CELL)
                && IsLinks(ram.cells, at) && ram.cells[at].content.tail == slot
                && tree == WithItems(old(tree), path, ItemAt(old(tree), path).items + [Item(slot, [])])
      ensures old(IsTidy()) ==> IsTidy()
      ensures SameSpine(old(tree), tree, path)
      ensures Elsewhere(ram.text, ram.text, old(ram.cells), ram.cells, root, pool.begin, pool.end)
      ensures OnlyLinked(old(ram.cells), ram.cells, at, pool.left, old(pool.right))
      ensures Refs(ram.cells, tree) <= old(Refs(ram.cells, tree))
    {
      hide Tidy, AllHoused, AllInPool, With, Usage, Laid, Apart, Refs, Addrs, LinkLast, OnGrid, Place, IsPath, Sound, Terminated;
      ghost var b, cells, t := pool.Bounds(), ram.cells, tree;
      GroupIsList(path);
      PlaceOutside(ram.text, ram.cells, tree, path, b);
      slot := AddSlot(pool, at);
      SpineTwice(t, t, t, path);
      if slot != 0 {
        Appended(ram.text, ram.text, cells, t, path, EMPTY_CELL, b, pool.Bounds());
        tree := WithItems(t, path, ItemAt(t, path).items + [Item(slot, [])]);
        Settle(t, path, ItemAt(t, path).items + [Item(slot, [])]);
        LastChild(path);
        LinkedElsewhere(cells, at, slot, EMPTY_CELL, root, b);
        LinkedTail(cells, at, slot, EMPTY_CELL, b.left, b.right);
      }
    }

    /** Unlinks a slot of a collection; its memory is not given back. */
    method RemoveAt(at: nat, slot: nat, ghost path: seq<nat>, ghost k: nat)
      requires Valid() && Holds(at, path) && Place(Contents(), path).Group?
      requires k < |ItemAt(tree, path).items| && ItemAt(tree, path).items[k].at == slot && Bridged(ItemAt(tree, path).items, k)
      modifies this`tree, ram`cells
      ensures Valid() && Holds(at, path)
      ensures var g := Place(old(Contents()), path);
              && |ItemAt(old(tree), path).items| == |g.slots|
              && Contents() == With(old(Contents()), path, g.(slots := g.slots[..k] + g.slots[k + 1..]))
      ensures old(IsTidy()) ==> IsTidy()
      ensures SameSpine(old(tree), tree, path)
      ensures Elsewhere(ram.text, ram.text, old(ram.cells), ram.cells, root, pool.begin, pool.end)
      ensures var items := ItemAt(old(tree), path).items;
              && IsLinks(old(ram.cells), at) && ram.cells == Unlink(old(ram.cells), at, PrevAt(items, k), slot, NextAt(items, k))
              && ItemAt(tree, path).items == Without(items, k)
    {
      hide Tidy, AllHoused, AllInPool, With, Usage, Laid, Apart, Refs, Addrs, Unlink, OnGrid;
      ghost var b, cells, t := pool.Bounds(), ram.cells, tree;
      ghost var s := ItemAt(t, path);
      GroupIsList(path);
      PlaceOutside(ram.text, ram.cells, tree, path, b);
      RemoveSlot(ram, at, slot, s.items, k);
      Removed(ram.text, cells, t, path, k, b);
      tree := WithItems(t, path, Without(s.items, k));
      Settle(t, path, Without(s.items, k));
      UnlinkedElsewhere(cells, s, k, root, b);
    }

    /** Removes the element at an index; past the end nothing happens. */
    method RemoveElement(at: nat, index: nat, ghost path: seq<nat>)
      requires Valid() && Holds(at, path) && Place(Contents(), path).Group? && Place(Contents(), path).slots != []
      requires index < |ItemAt(tree, path).items| ==> Bridged(ItemAt(tree, path).items, index)
      modifies this`tree, ram`cells
      ensures Valid() && Holds(at, path)
      ensures var g := Place(old(Contents()), path);
              Contents() == if index < |g.slots| then With(old(Contents()), path, g.(slots := g.slots[..index] + g.slots[index + 1..]))
                            else old(Contents())
      ensures old(IsTidy()) ==> IsTidy()
      ensures Elsewhere(ram.text, ram.text, old(ram.cells), ram.cells, root, pool.begin, pool.end)
    {
      GroupIsList(path);
      ghost var items := ItemAt(tree, path).items;
      if index < |items| {
        InChain(ram.cells, items, index);
      }
      var slot := GetSlotAt(ram, at, index, items);
      if slot != 0 {
        RemoveAt(at, slot, path, index);
      }
    }

    /** Adds a slot named by a string in memory: a linked key is shared, an owned one is copied.
        When the copy does not fit, or there is no key, the slot is unlinked, but its memory stays
        taken. */
    method AddMember(at: nat, key: nat, owned: bool, ghost path: seq<nat>) returns (slot: nat)
      requires Valid() && Holds(at, path) && Place(Contents(), path).Group? && LinkFits(at)
      requires if owned then key != 0 ==> Steady(key) else Foreign(key)
      modifies this`tree, pool`left, pool`right, ram
      ensures Valid() && Holds(at, path) && Grown(old(pool.Bounds()), pool.Bounds())
      ensures var room, t, g := old(pool.Bounds()).Room(), Text(CStr(old(ram.text), key), owned), Place(old(Contents()), path);
              && (slot != 0) == (key != 0 && SLOT_SIZE + TextUsage(t) <= room)
              && pool.Bounds().Room() == room - (if slot != 0 then SLOT_SIZE + TextUsage(t) else if SLOT_SIZE <= room then SLOT_SIZE else 0)
              && if slot == 0 then Contents() == old(Contents())
                 else
                   && Contents() == With(old(Contents()), path, g.(slots := g.slots + [DocSlot(Some(t), Atom(Null))]))
                   && Holds(slot, path + [|g.slots|]) && slot == pool.right == old(pool.right) - SLOT_SIZE
                   && IsLinks(ram.cells, at) && ram.cells[at].content.tail == slot
      ensures old(IsTidy()) ==> IsTidy()
      ensures SameSpine(old(tree), tree, path)
      ensures Elsewhere(old(ram.text), ram.text, old(ram.cells), ram.cells, root, pool.begin, pool.end)
      ensures Rewritten(old(ram.text), ram.text, old(pool.left), pool.left)
      ensures OnlyLinked(old(ram.cells), ram.cells, at, old(pool.left), old(pool.right))
      ensures slot == 0 ==> IsLinks(ram.cells, at) && ram.cells[at].content.tail == old(ram.cells[at].content.tail)
    {
      hide Tidy, AllHoused, AllInPool, With, Usage, Laid, Apart, Refs, Addrs, LinkLast, Unlink, OnGrid, Terminated, Place, CStr, Image, ImageSlots, WithItems, ItemAt, IsTreePath, SameSpine, IsPath, Aligned, WholeSlots, Placed, Chained, Linked, ApartAll, AddrsOf, RefsOf, Settled, InReach, KeyOf, Elsewhere, OnlyLinked;
      ghost var b, text, cells, t, d := pool.Bounds(), ram.text, ram.cells, tree, Contents();
      ghost var s := ItemAt(t, path);
      GroupIsList(path);
      slot := AddElement(at, path);
      if slot == 0 {
        return;
      }
      WithItemsAt(t, path, s.items + [Item(slot, [])]);
      Renamed(cells, at, slot, EMPTY_CELL);
      StillSteady(ram.text, key, b, pool.Bounds());
      ghost var cells1 := ram.cells;
      var name := key;
      if owned {
        name := pool.Save(key);
      }
      if name == 0 {
        assert ram.text == text;
        WithTwice(d, path, Place(Contents(), path), Place(d, path));
        ghost var t1 := tree;
        LastRemoved(at, slot, path, s.items, d);
        SpineTwice(t, t1, tree, path);
        GroupIsList(path);
        Relinked(text, cells, cells1, ram.cells, root, at, slot, b, pool.left);
        return 0;
      }
      SetKey(at, slot, name, owned, path, text, cells, t, b);
      Named(text, ram.text, cells, cells1, ram.cells, root, at, slot, b, pool.left);
    }

    /** Names the slot that was just added to a sound document. */
    method SetKey(at: nat, slot: nat, name: nat, owned: bool, ghost path: seq<nat>, ghost text: string, ghost cells: Cells, ghost t: Item, ghost b: Extent)
      requires pool.ram == ram && pool.Valid() && t.at == root && Sound(text, cells, t, b) && Collection(cells, t, path) && ItemAt(t, path).at == at
      requires Grown(b, pool.Bounds()) && Rewritten(text, ram.text, b.left, pool.left)
      requires slot == pool.right == b.right - SLOT_SIZE && slot != 0
      requires ItemAt(t, path).items == [] || InReach(LastAt(ItemAt(t, path).items), slot)
      requires ram.cells == LinkLast(cells, at, slot, EMPTY_CELL) && tree == WithItems(t, path, ItemAt(t, path).items + [Item(slot, [])])
      requires name != 0 && Housed(ram.text, Ref(name, owned), pool.Bounds())
      modifies ram`cells
      ensures Valid() && Holds(at, path) && Holds(slot, path + [|ItemAt(t, path).items|])
      ensures var s, key := ItemAt(t, path), Text(CStr(ram.text, name), owned);
              && IsPath(Image(text, cells, t), path)
              && Contents() == With(Image(text, cells, t), path,
                   Group(cells[at].content.obj, ImageSlots(text, cells, s.items) + [DocSlot(Some(key), Atom(Null))]))
              && (Tidy(text, cells, t, b) && (owned ==> InPool(ram.text, name, pool.Bounds())) && TextUsage(key) <= pool.left - b.left
                  ==> IsTidy())
      ensures forall a :: a in old(ram.cells) && a != slot ==> a in ram.cells && ram.cells[a] == old(ram.cells[a])
      ensures Refs(ram.cells, tree) <= Refs(cells, t) + {Ref(name, owned)}
    {
      hide Tidy, AllHoused, AllInPool, With, Usage, Laid, Apart, Refs, Addrs, LinkLast, OnGrid, Image, ImageSlots;
      ghost var cell := EMPTY_CELL.(key := name, ownsKey := owned);
      ghost var items := ItemAt(t, path).items + [Item(slot, [])];
      Renamed(cells, at, slot, cell);
      ram.cells := ram.cells[slot := ram.cells[slot].(key := name, ownsKey := owned)];
      Appended(text, ram.text, cells, t, path, cell, b, pool.Bounds());
      Settle(t, path, items);
      LastChild(path);
    }

    /** Takes back the slot that was just added. */
    method LastRemoved(at: nat, slot: nat, ghost path: seq<nat>, ghost items: seq<Item>, ghost d: Doc)
      requires Valid() && Holds(at, path) && IsPath(d, path) && Place(d, path).Group?
      requires ItemAt(tree, path).items == items + [Item(slot, [])]
      requires var g := Place(d, path); Contents() == With(d, path, g.(slots := g.slots + [DocSlot(None, Atom(Null))]))
      modifies this`tree, ram`cells
      ensures Valid() && Holds(at, path) && Contents() == d && ItemAt(tree, path).items == items
      ensures old(IsTidy()) ==> IsTidy()
      ensures SameSpine(old(tree), tree, path)
      ensures Elsewhere(ram.text, ram.text, old(ram.cells), ram.cells, root, pool.begin, pool.end)
      ensures forall a :: a in old(ram.cells) && a != at && (a != LastAt(items) || items == []) ==> a in ram.cells && ram.cells[a] == old(ram.cells[a])
    {
      ghost var g := Place(d, path);
      ghost var more := g.(slots := g.slots + [DocSlot(None, Atom(Null))]);
      WithPlace(d, path, more);
      GroupIsList(path);
      RemoveAt(at, slot, path, |items|);
      assert Without(items + [Item(slot, [])], |items|) == items;
      assert more.slots[..|g.slots|] + more.slots[|g.slots| + 1..] == g.slots;
      WithTwice(d, path, more, g);
    }

    // ----- access by key -----

    /** The first member whose key compares equal to the string at `key`; a null key finds a slot
        without a key. */
    method GetMember(at: nat, key: nat, ghost path: seq<nat>) returns (slot: nat, ghost k: nat)
      requires Valid() && Holds(at, path) && Place(Contents(), path).Group?
      ensures k == FindKey(Place(Contents(), path).slots, NameAt(ram.text, key))
      ensures var slots := Place(Contents(), path).slots;
              var first := FindKey(slots, NameAt(ram.text, key));
              && |ItemAt(tree, path).items| == |slots| && (slot != 0) == (first < |slots|)
              && (slot != 0 ==> Holds(slot, path + [first]) && slot == ItemAt(tree, path).items[first].at)
    {
      GroupIsList(path);
      hide Sound, Laid, Apart, Image;
      slot, k := GetSlotNamed(ram, at, key, ItemAt(tree, path).items);
      if slot != 0 {
        Child(path, k);
      }
    }

    /** The member with a key; if there is none, one is added, as by `AddMember`.  A null key gives
        none. */
    method GetOrAddMember(at: nat, key: nat, owned: bool, ghost path: seq<nat>) returns (slot: nat)
      requires Valid() && Holds(at, path) && Place(Contents(), path).Group?
      requires key != 0 && Missing(path, key) ==> LinkFits(at) && if owned then Steady(key) else Foreign(key)
      modifies this`tree, pool`left, pool`right, ram
      ensures Valid() && Holds(at, path) && Grown(old(pool.Bounds()), pool.Bounds())
      ensures var g, room, k := Place(old(Contents()), path), old(pool.Bounds()).Room(), old(FindKey(Place(Contents(), path).slots, NameAt(ram.text, key)));
              var r := GotMember(g, key != 0, Text(CStr(old(ram.text), key), owned), room);
              && (slot != 0) == r.ok && pool.Bounds().Room() == r.room
              && Contents() == With(old(Contents()), path, r.doc)
              && (slot != 0 ==> Holds(slot, path + [k]))
      ensures old(IsTidy()) ==> IsTidy()
      ensures Elsewhere(old(ram.text), ram.text, old(ram.cells), ram.cells, root, pool.begin, pool.end)
      ensures Rewritten(old(ram.text), ram.text, old(pool.left), pool.left)
    {
      hide Sound, Tidy, Laid, Apart, Image, Place, With, CStr, Outside, Settled, FindKey, Usage, Refs, ItemAt, IsTreePath, LinkFits, SameSpine, OnlyLinked, Linked;
      WithTwice(Contents(), path, Place(Contents(), path), Place(Contents(), path));
      if key == 0 {
        return 0;
      }
      ghost var k;
      slot, k := GetMember(at, key, path);
      if slot == 0 {
        slot := AddMember(at, key, owned, path);
      }
    }

    ghost predicate Missing(path: seq<nat>, key: nat)
      reads this, ram
      requires IsPath(Contents(), path) && Place(Contents(), path).Group?
    {
      var slots := Place(Contents(), path).slots;
      FindKey(slots, NameAt(ram.text, key)) == |slots|
    }

    /** Unlinks the first member with a key, if there is one. */
    method RemoveMember(at: nat, key: nat, ghost path: seq<nat>)
      requires Valid() && Holds(at, path) && Place(Contents(), path).Group?
      requires var k := FindKey(Place(Contents(), path).slots, NameAt(ram.text, key));
               k < |ItemAt(tree, path).items| ==> Bridged(ItemAt(tree, path).items, k)
      modifies this`tree, ram`cells
      ensures Valid() && Holds(at, path)
      ensures var g := Place(old(Contents()), path);
              Contents() == With(old(Contents()), path, WithoutKey(g, NameAt(ram.text, key)))
      ensures old(IsTidy()) ==> IsTidy()
      ensures Elsewhere(ram.text, ram.text, old(ram.cells), ram.cells, root, pool.begin, pool.end)
    {
      hide Sound, Tidy, Laid, Apart, Image, Place, With, CStr, FindKey, Usage, Refs, ItemAt, IsTreePath, Linked;
      WithTwice(Contents(), path, Place(Contents(), path), Place(Contents(), path));
      var slot, k := GetMember(at, key, path);
      if slot != 0 {
        RemoveAt(at, slot, path, k);
      }
    }

    // ----- indexed access -----

    /** The element at an index; an array that is too short is padded with nulls, as far as the
        pool has room. */
    method GetOrAddElement(at: nat, index: nat, ghost path: seq<nat>) returns (slot: nat)
      requires Valid() && Holds(at, path) && Place(Contents(), path).Group?
      requires index >= |Place(Contents(), path).slots| ==> LinkFits(at)
      modifies this`tree, pool`right, ram`cells
      ensures Valid() && Holds(at, path) && Grown(old(pool.Bounds()), pool.Bounds())
      ensures var r := GotElement(Place(old(Contents()), path), index, old(pool.Bounds()).Room());
              && (slot != 0) == r.ok && pool.Bounds().Room() == r.room
              && Contents() == With(old(Contents()), path, r.doc)
              && (slot != 0 ==> Holds(slot, path + [index]))
      ensures old(IsTidy()) ==> IsTidy()
      ensures Elsewhere(ram.text, ram.text, old(ram.cells), ram.cells, root, pool.begin, pool.end)
    {
      hide Tidy, With, Usage, Laid, Apart, Refs, Addrs, LinkLast, OnGrid, Image, IsList, Nulls, Place, Sound, IsPath;
      ghost var d, g, room := Contents(), Place(Contents(), path), pool.Bounds().Room();
      ghost var fit := room / SLOT_SIZE;
      var missing;
      slot, missing := Seek(at, index, path);
      ghost var total, j: nat := missing, 0;
      NoNulls(d, path);
      while missing > 0
        invariant Valid() && Holds(at, path) && 0 <= missing <= total
        invariant j == if total - missing <= fit then total - missing else fit
        invariant Contents() == With(d, path, g.(slots := g.slots + Nulls(j)))
        invariant Grown(old(pool.Bounds()), pool.Bounds()) && pool.Bounds().Room() == room - SLOT_SIZE * j
        invariant total == 0 ==> slot != 0 && Holds(slot, path + [index])
        invariant missing < total ==> (slot != 0) == (total - missing <= fit)
        invariant missing < total && slot != 0 ==> Holds(slot, path + [|g.slots| + j - 1])
        invariant old(IsTidy()) ==> IsTidy()
        invariant Elsewhere(ram.text, ram.text, old(ram.cells), ram.cells, root, pool.begin, pool.end)
        invariant missing > 0 ==> LinkFits(at)
      {
        Fits(room, j);
        slot := Pad(at, path, d, j);
        j := if slot != 0 then j + 1 else j;
        missing := missing - 1;
      }
      assert index >= |g.slots| ==> |g.slots| + total - 1 == index;
    }

    /** One more null element, if there is room. */
    method Pad(at: nat, ghost path: seq<nat>, ghost d: Doc, ghost j: nat) returns (slot: nat)
      requires Valid() && Holds(at, path) && IsPath(d, path) && Place(d, path).Group? && LinkFits(at)
      requires var g := Place(d, path); Contents() == With(d, path, g.(slots := g.slots + Nulls(j)))
      modifies this`tree, pool`right, ram`cells
      ensures Valid() && Holds(at, path) && Grown(old(pool.Bounds()), pool.Bounds()) && LinkFits(at)
      ensures (slot != 0) == (old(pool.Bounds()).Room() >= SLOT_SIZE)
      ensures var g, j' := Place(d, path), if slot != 0 then j + 1 else j;
              && Contents() == With(d, path, g.(slots := g.slots + Nulls(j')))
              && (slot != 0 ==> Holds(slot, path + [|g.slots| + j]))
      ensures pool.right == old(pool.right) - if slot != 0 then SLOT_SIZE else 0
      ensures old(IsTidy()) ==> IsTidy()
      ensures Elsewhere(ram.text, ram.text, old(ram.cells), ram.cells, root, pool.begin, pool.end)
    {
      hide Tidy, With, Usage, Laid, Apart, Refs, Addrs, LinkLast, OnGrid, Image, IsList, Place, Sound;
      ghost var g := Place(d, path);
      ghost var more := g.(slots := g.slots + Nulls(j));
      WithPlace(d, path, more);
      WithTwice(d, path, more, g.(slots := g.slots + Nulls(j + 1)));
      assert more.slots + [DocSlot(None, Atom(Null))] == g.slots + Nulls(j + 1);
      slot := AddElement(at, path);
    }

    /** The slot at an index, or how many slots are missing. */
    method Seek(at: nat, index: nat, ghost path: seq<nat>) returns (slot: nat, missing: nat)
      requires Valid() && Holds(at, path) && Place(Contents(), path).Group?
      ensures var n := |Place(Contents(), path).slots|;
              && missing == (if index < n then 0 else index + 1 - n)
              && (slot != 0) == (index < n)
              && (slot != 0 ==> Holds(slot, path + [index]))
    {
      GroupIsList(path);
      ghost var items := ItemAt(tree, path).items;
      ListStarts(ram.cells, at, items);
      hide Sound, IsList, Laid, Linked, Apart, ApartAll, Chained, Place, Image, ImageSlots;
      if items != [] {
        InChain(ram.cells, items, 0);
      }
      slot, missing := ram.cells[at].content.head, index;
      ghost var i := 0;
      while slot != 0 && missing > 0
        invariant i <= |items| && i + missing == index
        invariant slot == (if i < |items| then items[i].at else 0) && (slot == 0 <==> i == |items|)
        decreases missing
      {
        InChain(ram.cells, items, i);
        slot := Next(ram.cells[slot], slot);
        missing := missing - 1;
        i := i + 1;
        if i < |items| {
          InChain(ram.cells, items, i);
        }
      }
      if slot == 0 {
        missing := missing + 1;
      } else {
        Child(path, index);
      }
    }

    // ----- copying -----

    /** Copies a value that is elsewhere in memory, or elsewhere in this document: its owned strings
        are copied into the pool, its linked strings are shared. */
    method CopyFrom(at: nat, src: nat, ghost path: seq<nat>, ghost s: Item) returns (ok: bool)
      requires Valid() && Holds(at, path) && s.at == src && CopyFits(Image(ram.text, ram.cells, s), pool.right - pool.left)
      requires Readable(ram.text, ram.cells, s, at, pool.left, pool.right, pool.Bounds())
      modifies this`tree, pool`left, pool`right, ram
      ensures Valid() && Holds(at, path) && Grown(old(pool.Bounds()), pool.Bounds())
      ensures var r := Copy(old(Image(ram.text, ram.cells, s)), old(pool.Bounds()).Room());
              ok == r.ok && Contents() == With(old(Contents()), path, r.doc) && pool.Bounds().Room() == r.room
      ensures ok ==> pool.right == old(pool.right - SLOT_SIZE * SlotCount(Image(ram.text, ram.cells, s)))
      ensures old(IsTidy()) ==> IsTidy()
      ensures SameSpine(old(tree), tree, path)
      ensures Elsewhere(old(ram.text), ram.text, old(ram.cells), ram.cells, at, old(pool.left), old(pool.right))
      decreases s, 2
    {
      hide Tidy, With, Usage, Apart, Addrs, Place, Sound, CopySlots, LinksFit;
      LaidAt(ram.cells, s);
      match ram.cells[src].content
      case Plain(v) =>
        SetAtom(at, v, path);
        ok := true;
      case Chars(p, owned) =>
        assert Ref(p, owned) in Refs(ram.cells, s);
        if owned {
          ok := SetOwnedString(at, p, path);
        } else {
          SetLinkedString(at, p, path);
          ok := true;
        }
      case Links(obj, _, _) =>
        ok := CopyCollection(at, src, obj, path, s);
    }

    method CopyCollection(at: nat, src: nat, obj: bool, ghost path: seq<nat>, ghost s: Item) returns (ok: bool)
      requires Valid() && Holds(at, path) && s.at == src
      requires Readable(ram.text, ram.cells, s, at, pool.left, pool.right, pool.Bounds())
      requires IsLinks(ram.cells, src) && obj == ram.cells[src].content.obj
      requires LinksFit(ImageSlots(ram.text, ram.cells, s.items), 0, pool.right - pool.left)
      modifies this`tree, pool`left, pool`right, ram
      ensures Valid() && Holds(at, path) && Grown(old(pool.Bounds()), pool.Bounds())
      ensures var r := Copy(Group(obj, old(ImageSlots(ram.text, ram.cells, s.items))), old(pool.Bounds()).Room());
              ok == r.ok && Contents() == With(old(Contents()), path, r.doc) && pool.Bounds().Room() == r.room
      ensures ok ==> pool.right == old(pool.right - SLOT_SIZE * SlotsCount(ImageSlots(ram.text, ram.cells, s.items)))
      ensures old(IsTidy()) ==> IsTidy()
      ensures SameSpine(old(tree), tree, path)
      ensures Elsewhere(old(ram.text), ram.text, old(ram.cells), ram.cells, at, old(pool.left), old(pool.right))
      decreases s, 1
    {
      hide Tidy, With, Usage, Apart, Addrs, Refs, Place, Sound, Outside, CopySlots, Image, ImageSlots, Laid, Linked, IsPath, Readable, SameSpine, ItemAt, IsTreePath, Elsewhere, ImageSlot, CopySlot, SlotsCount, ValueCount, SlotFits, LinksFit, InReach, Settled, TailSince, TailIn, Next, Walking, FirstAt, IsLinks;
      ghost var d, text, cells, slots, b := Contents(), ram.text, ram.cells, ImageSlots(ram.text, ram.cells, s.items), pool.Bounds();
      ToCollection(at, obj, path);
      var slot: nat := WalkStarts(src, s, slots, at, text, cells, b);
      ghost var i: nat, since: nat, done := 0, 0, [];
      ok := true;
      assert slots[0..] == slots;
      NewList(at, obj, b);
      while slot != 0 && ok
        invariant Valid() && Holds(at, path) && Grown(b, pool.Bounds()) && IsPath(d, path) && SameSpine(old(tree), tree, path)
        invariant Walking(text, ram.text, cells, ram.cells, s, slots, i, slot, at, b) && i <= |slots| && (slot == 0 <==> i == |slots|)
        invariant Contents() == With(d, path, Group(obj, done))
        invariant CopySlots(slots, [], b.Room()) ==
                  if ok then CopySlots(slots[i..], done, pool.Bounds().Room()) else SlotsCopied(false, done, pool.Bounds().Room())
        invariant ok ==> pool.right == b.right - SLOT_SIZE * (SlotsCount(slots) - SlotsCount(slots[i..]))
        invariant TailIn(at, b) && (ok ==> TailSince(at, since) && LinksFit(slots[i..], since, pool.right - pool.left))
        invariant old(IsTidy()) ==> IsTidy()
        decreases |slots| - i
      {
        ghost var text1, cells1, t1, one, b1 := ram.text, ram.cells, tree, CopySlot(slots[i], done, pool.Bounds().Room()), pool.Bounds();
        WalkNow(text, text1, cells, cells1, s, slots, i, slot, at, b);
        NextCopy(slots, i, since, done, pool.Bounds().Room());
        ok := CopyOne(at, slot, path, s.items[i], obj, d, done, since, b);
        WalkOn(text, text1, ram.text, cells, cells1, ram.cells, s, slots, i, slot, at, b);
        SpineTwice(old(tree), t1, tree, path);
        slot := Next(ram.cells[slot], slot);
        done := one.slots;
        if ok {
          NextTaken(at, slots, i, b1, b);
        }
        since := 1 + ValueCount(slots[i]);
        i := i + 1;
      }
      CopyEnds(text, ram.text, cells, ram.cells, s, slots, i, slot, at, b, done, pool.Bounds().Room());
    }

    /** The first slot of the list that is copied. */
    method WalkStarts(src: nat, ghost s: Item, ghost slots: seq<DocSlot>, ghost at: nat, ghost text: string, ghost cells: Cells, ghost b: Extent) returns (slot: nat)
      requires Readable(text, cells, s, at, b.left, b.right, b) && ImageSlots(text, cells, s.items) == slots && IsLinks(cells, src) && s.at == src
      requires Elsewhere(text, ram.text, cells, ram.cells, at, 0, 0) && b.Valid() && b.end <= |text|
      ensures Walking(text, ram.text, cells, ram.cells, s, slots, 0, slot, at, b) && (slot == 0 <==> |slots| == 0)
    {
      ElsewhereWider(text, ram.text, cells, ram.cells, at, 0, 0, b.left, b.right);
      StillReadable(text, ram.text, cells, ram.cells, s, at, b.left, b.right, b);
      ReadableList(ram.text, ram.cells, s, at, b.left, b.right, b);
      slot := ram.cells[src].content.head;
      assert s.items[0..] == s.items;
    }

    /** The last slot of the collection being copied is one of the new slots. */
    ghost predicate TailIn(at: nat, b: Extent)
      reads ram
    {
      IsLinks(ram.cells, at) && var tail := ram.cells[at].content.tail; tail == 0 || b.left <= tail < b.right
    }

    /** The last slot of the collection is the `since`-th one from the free region on. */
    ghost predicate TailSince(at: nat, since: nat)
      reads this, pool, ram
    {
      IsLinks(ram.cells, at) && ram.cells[at].content.tail == if since == 0 then 0 else pool.right + SLOT_SIZE * (since - 1)
    }

    lemma NewList(at: nat, obj: bool, b: Extent)
      requires at in ram.cells && ram.cells[at].content == Links(obj, 0, 0)
      ensures TailIn(at, b) && TailSince(at, 0)
    {
    }

    lemma SinceFits(at: nat, since: nat)
      requires TailSince(at, since) && (pool.right - pool.left >= SLOT_SIZE ==> since <= MAX_SPAN)
      ensures LinkFits(at)
    {
    }

    /** After the i-th slot and all that is below it. */
    lemma NextTaken(at: nat, slots: seq<DocSlot>, i: nat, b1: Extent, b: Extent)
      requires i < |slots| && TailIn(at, b) && ram.cells[at].content.tail == b1.right - SLOT_SIZE
      requires pool.right == b1.right - SLOT_SIZE * (1 + ValueCount(slots[i]))
      requires b1.right == b.right - SLOT_SIZE * (SlotsCount(slots) - SlotsCount(slots[i..]))
      ensures pool.right == b.right - SLOT_SIZE * (SlotsCount(slots) - SlotsCount(slots[i + 1..]))
      ensures TailSince(at, 1 + ValueCount(slots[i]))
    {
      assert slots[i..][1..] == slots[i + 1..];
      assert SlotsCount(slots[i..]) == 1 + ValueCount(slots[i]) + SlotsCount(slots[i + 1..]);
    }

    /** A slot with the same key as one elsewhere in memory. */
    method AddCopy(at: nat, slot: nat, ghost path: seq<nat>, obj: bool, ghost d: Doc, ghost done: seq<DocSlot>, ghost b: Extent) returns (added: nat)
      requires Valid() && Holds(at, path) && IsPath(d, path) && Contents() == With(d, path, Group(obj, done))
      requires slot in ram.cells && LinkFits(at) && TailIn(at, b) && b.left <= pool.left && pool.right <= b.right
      requires forall r :: r in KeyRefs(ram.cells[slot]) ==> r.p != 0 && if r.owned then Steady(r.p) else Foreign(r.p)
      modifies this`tree, pool`left, pool`right, ram
      ensures Valid() && Holds(at, path) && Grown(old(pool.Bounds()), pool.Bounds())
      ensures var key, room := old(KeyOf(ram.text, ram.cells[slot])), old(pool.Bounds()).Room();
              && (added != 0) == (SLOT_SIZE + KeyUsage(key) <= room)
              && pool.Bounds().Room() == room - (if added != 0 then SLOT_SIZE + KeyUsage(key) else if SLOT_SIZE <= room then SLOT_SIZE else 0)
              && Contents() == With(d, path, Group(obj, if added != 0 then done + [DocSlot(key, Atom(Null))] else done))
              && (added != 0 ==> Holds(added, path + [|done|]))
      ensures TailIn(at, b)
      ensures added != 0 ==> added == pool.right == old(pool.right) - SLOT_SIZE && ram.cells[at].content.tail == added
      ensures old(IsTidy()) ==> IsTidy()
      ensures SameSpine(old(tree), tree, path)
      ensures Elsewhere(old(ram.text), ram.text, old(ram.cells), ram.cells, at, b.left, b.right)
    {
      hide Tidy, With, Place, Sound, Outside, Image, IsPath, CStr, SameSpine, ItemAt, IsTreePath, InReach, Settled, LinkLast, WithItems, Usage, Refs, Nulls, TextUsage, Elsewhere, OnlyLinked;
      ghost var key, text, cells, b0 := KeyOf(ram.text, ram.cells[slot]), ram.text, ram.cells, pool.Bounds();
      WithPlace(d, path, Group(obj, done));
      WithTwice(d, path, Group(obj, done), Group(obj, done + [DocSlot(key, Atom(Null))]));
      var name := ram.cells[slot].key;
      if name != 0 {
        assert Ref(name, ram.cells[slot].ownsKey) in KeyRefs(ram.cells[slot]);
        added := AddMember(at, name, ram.cells[slot].ownsKey, path);
      } else {
        added := AddElement(at, path);
      }
      GroupIsList(path);
      LinkedInside(text, ram.text, cells, ram.cells, at, b0, pool.left, b);
    }

    /** The copy of one slot, after the ones copied so far. */
    method CopyOne(at: nat, slot: nat, ghost path: seq<nat>, ghost child: Item, obj: bool, ghost d: Doc, ghost done: seq<DocSlot>, ghost since: nat, ghost b: Extent) returns (ok: bool)
      requires Valid() && Holds(at, path) && IsPath(d, path) && Contents() == With(d, path, Group(obj, done))
      requires child.at == slot && slot in ram.cells && TailSince(at, since) && TailIn(at, b) && b.Valid() && Grown(b, pool.Bounds())
      requires Readable(ram.text, ram.cells, child, at, b.left, b.right, b)
      requires forall r :: r in KeyRefs(ram.cells[slot]) ==> Shareable(ram.text, r, b.left, b.right, b)
      requires SlotFits(ImageSlot(ram.text, ram.cells, child), since, pool.right - pool.left)
      modifies this`tree, pool`left, pool`right, ram
      ensures Valid() && Holds(at, path) && Grown(old(pool.Bounds()), pool.Bounds())
      ensures var one := CopySlot(old(ImageSlot(ram.text, ram.cells, child)), done, old(pool.Bounds()).Room());
              ok == one.ok && Contents() == With(d, path, Group(obj, one.slots)) && pool.Bounds().Room() == one.room
      ensures TailIn(at, b)
      ensures ok ==>
        && ram.cells[at].content.tail == old(pool.right) - SLOT_SIZE
        && pool.right == old(pool.right - SLOT_SIZE * (1 + ValueCount(ImageSlot(ram.text, ram.cells, child))))
      ensures old(IsTidy()) ==> IsTidy()
      ensures SameSpine(old(tree), tree, path)
      ensures Elsewhere(old(ram.text), ram.text, old(ram.cells), ram.cells, at, b.left, b.right)
      decreases child, 3
    {
      hide Tidy, With, Usage, Apart, Addrs, Refs, Place, Sound, Outside, Image, Laid, Readable, IsPath, Copy, KeyOf, SameSpine, ItemAt, IsTreePath, InReach, Settled, CopyFits, SlotCount, LinkFits;
      ghost var text, cells, t := ram.text, ram.cells, tree;
      ghost var slots := ImageSlot(ram.text, ram.cells, child);
      KeysShareable(ram.text, ram.cells[slot], b, pool.Bounds());
      PlaceOutside(ram.text, ram.cells, tree, path, pool.Bounds());
      SinceFits(at, since);
      var added := AddCopy(at, slot, path, obj, d, done, b);
      StillReadable(text, ram.text, cells, ram.cells, child, at, b.left, b.right, b);
      if added == 0 {
        return false;
      }
      ghost var text1, cells1, t1, b1 := ram.text, ram.cells, tree, pool.Bounds();
      FilledLast(d, path, obj, done, slots.key, CopyValue(slots, b1.Room()).doc);
      ReadableGrown(text1, cells1, child, at, added, b, b1);
      ok := CopyFrom(added, slot, path + [|done|], child);
      ElsewhereWithin(text1, ram.text, cells1, ram.cells, at, added, b1, b);
      Copied(t, t1, path, |done|, text, text1, cells, cells1, at, b);
    }

    /** Copies a value to another place of the document, one that is not inside it. */
    method CopyWithin(at: nat, src: nat, ghost path: seq<nat>, ghost from: seq<nat>) returns (ok: bool)
      requires Valid() && Holds(at, path) && Holds(src, from) && !(from <= path) && CopyFits(Place(Contents(), from), pool.right - pool.left)
      modifies this`tree, pool`left, pool`right, ram
      ensures Valid() && Holds(at, path) && Grown(old(pool.Bounds()), pool.Bounds())
      ensures Elsewhere(old(ram.text), ram.text, old(ram.cells), ram.cells, at, old(pool.left), old(pool.right))
      ensures var r := Copy(Place(old(Contents()), from), old(pool.Bounds()).Room());
              ok == r.ok && Contents() == With(old(Contents()), path, r.doc) && pool.Bounds().Room() == r.room
      ensures old(IsTidy()) ==> IsTidy()
    {
      InsideReadable(path, from);
      ok := CopyFrom(at, src, path, ItemAt(tree, from));
    }

    lemma OwnString(at: nat, path: seq<nat>)
      requires Valid() && Holds(at, path)
      ensures at in ram.cells
      ensures var c := ram.cells[at].content; c.Chars? ==> c.p != 0 && if c.owned then Steady(c.p) else Foreign(c.p)
    {
      Inside(ram.text, ram.cells, tree, path, pool.Bounds());
      var c := ram.cells[at].content;
      if c.Chars? {
        assert Ref(c.p, c.owned) in Refs(ram.cells, ItemAt(tree, path));
        HousedSettled(ram.text, Ref(c.p, c.owned), pool.Bounds());
      }
    }

    /** Copies a value onto itself: an owned string is saved once more, and a collection has been
        cleared before its first slot is read. */
    method CopyOnto(at: nat, ghost path: seq<nat>) returns (ok: bool)
      requires Valid() && Holds(at, path)
      modifies this`tree, pool`left, pool`right, ram
      ensures Valid() && Holds(at, path) && Grown(old(pool.Bounds()), pool.Bounds())
      ensures Elsewhere(old(ram.text), ram.text, old(ram.cells), ram.cells, at, old(pool.left), old(pool.right))
      ensures var r := CopyOntoItself(Place(old(Contents()), path), old(pool.Bounds()).Room());
              ok == r.ok && Contents() == With(old(Contents()), path, r.doc) && pool.Bounds().Room() == r.room
      ensures old(IsTidy()) ==> IsTidy()
    {
      hide Sound, Tidy, With, Usage, Apart, Addrs, Place, Laid, Outside, Settled, Refs, SameSpine, IsPath, ItemAt, IsTreePath;
      OwnString(at, path);
      match ram.cells[at].content
      case Plain(v) =>
        SetAtom(at, v, path);
        ok := true;
      case Chars(p, owned) =>
        if owned {
          ok := SetOwnedString(at, p, path);
        } else {
          SetLinkedString(at, p, path);
          ok := true;
        }
      case Links(obj, _, _) =>
        ToCollection(at, obj, path);
        assert ram.cells[at].content.head == 0;
        ok := true;
    }

    /** What still holds after the copy below a place. */
    lemma Copied(t: Item, t1: Item, path: seq<nat>, k: nat, text: string, text1: string, cells: Cells, cells1: Cells, at: nat, b: Extent)
      requires Valid() && IsTreePath(t, path)
      requires SameSpine(t, t1, path) && SameSpine(t1, tree, path + [k])
      requires Elsewhere(text, text1, cells, cells1, at, b.left, b.right) && Elsewhere(text1, ram.text, cells1, ram.cells, at, b.left, b.right)
      ensures Holds(ItemAt(t, path).at, path) && SameSpine(t, tree, path)
      ensures Elsewhere(text, ram.text, cells, ram.cells, at, b.left, b.right)
    {
      ElsewhereTwice(text, text1, ram.text, cells, cells1, ram.cells, at, b.left, b.right);
      SpineAbove(t1, tree, path, k);
      SpineTwice(t, t1, tree, path);
      SpineHolds(t, tree, path);
      Inside(ram.text, ram.cells, tree, path, pool.Bounds());
    }

    /** A value of the document can be copied to a place that is not inside it. */
    lemma InsideReadable(path: seq<nat>, from: seq<nat>)
      requires Valid() && IsTreePath(tree, path) && IsTreePath(tree, from) && !(from <= path)
      ensures Readable(ram.text, ram.cells, ItemAt(tree, from), ItemAt(tree, path).at, pool.left, pool.right, pool.Bounds())
      ensures IsPath(Contents(), from) && Image(ram.text, ram.cells, ItemAt(tree, from)) == Place(Contents(), from)
    {
      hide Laid, Image, Refs, Outside, Terminated;
      var s, b := ItemAt(tree, from), pool.Bounds();
      Inside(ram.text, ram.cells, tree, from, b);
      NotInside(tree, path, from);
      DeeperInside(tree, from);
      assert Addrs(tree) == {tree.at} + AddrsOf(tree.items);
      forall a | a in Addrs(s)
        ensures !(b.left <= a < b.right)
      {
        assert a in AddrsOf(tree.items) ==> OnGrid(a, b.right, b.end);
      }
      forall r | r in Refs(ram.cells, s)
        ensures Shareable(ram.text, r, b.left, b.right, b)
      {
        assert Housed(ram.text, r, b);
        HousedSettled(ram.text, r, b);
      }
    }

    /** While the slots in use take no more than a mebibyte, every link fits. */
    lemma FewSlotsFit(at: nat, path: seq<nat>)
      requires Valid() && Holds(at, path) && Place(Contents(), path).Group? && pool.end - pool.right <= REACH
      ensures LinkFits(at) && forall k :: 0 <= k < |ItemAt(tree, path).items| ==> Bridged(ItemAt(tree, path).items, k)
    {
      GroupIsList(path);
      var items := ItemAt(tree, path).items;
      AllInUse(items, pool.Bounds());
      ListStarts(ram.cells, at, items);
    }

    /** A group is a list of slots in memory. */
    lemma GroupIsList(path: seq<nat>)
      requires Valid() && IsTreePath(tree, path) && IsPath(Contents(), path)
      ensures var s := ItemAt(tree, path);
              && Place(Contents(), path) == Image(ram.text, ram.cells, s)
              && (Place(Contents(), path).Group? <==> IsLinks(ram.cells, s.at))
              && (IsLinks(ram.cells, s.at) ==>
                && IsList(ram.cells, s.at, s.items) && ram.cells[s.at].content.tail == LastAt(s.items) && (LastAt(s.items) == 0 <==> s.items == [])
                && Placed(AddrsOf(s.items), pool.Bounds())
                && Place(Contents(), path) == Group(ram.cells[s.at].content.obj, ImageSlots(ram.text, ram.cells, s.items)))
      ensures var s := ItemAt(tree, path);
              IsLinks(ram.cells, s.at) ==> var tail := ram.cells[s.at].content.tail;
                                           tail != 0 ==> tail in ram.cells && pool.begin <= tail < pool.end
    {
      Inside(ram.text, ram.cells, tree, path, pool.Bounds());
      var s := ItemAt(tree, path);
      assert s == Item(s.at, s.items);
      if IsLinks(ram.cells, s.at) {
        TailInside(ram.cells, s);
        if s.items != [] {
          InChain(ram.cells, s.items, |s.items| - 1);
        }
        TailOnGrid(s.items, pool.Bounds());
      }
    }

    lemma Child(path: seq<nat>, k: nat)
      requires Valid() && IsTreePath(tree, path) && k < |ItemAt(tree, path).items|
      ensures Holds(ItemAt(tree, path).items[k].at, path + [k])
    {
      DeeperPath(tree, path, k);
      Inside(ram.text, ram.cells, tree, path + [k], pool.Bounds());
    }

    lemma LastChild(path: seq<nat>)
      requires Valid() && IsTreePath(tree, path) && ItemAt(tree, path).items != []
      ensures var s := ItemAt(tree, path);
              Holds(LastAt(s.items), path + [|s.items| - 1])
    {
      Child(path, |ItemAt(tree, path).items| - 1);
    }

    /** The changed place is where it was. */
    lemma Settle(t: Item, path: seq<nat>, items: seq<Item>)
      requires IsTreePath(t, path) && tree == WithItems(t, path, items) && Valid()
      ensures Holds(ItemAt(t, path).at, path) && ItemAt(tree, path) == Item(ItemAt(t, path).at, items)
      ensures SameSpine(t, tree, path)
    {
      WithItemsAt(t, path, items);
      Inside(ram.text, ram.cells, tree, path, pool.Bounds());
    }
  }

  lemma Fits(room: nat, j: nat)
    ensures SLOT_SIZE * j + SLOT_SIZE <= room <==> j < room / SLOT_SIZE
  {
  }

  lemma NoNulls(d: Doc, path: seq<nat>)
    requires IsPath(d, path) && Place(d, path).Group?
    ensures var g := Place(d, path); With(d, path, g.(slots := g.slots + Nulls(0))) == d
  {
    var g := Place(d, path);
    assert g.slots + Nulls(0) == g.slots;
    WithTwice(d, path, g, g);
  }

  // ----- reading while the document grows -----

  lemma StillReadable(text: string, text': string, cells: Cells, cells': Cells, s: Item, at: nat, lo: nat, hi: nat, b: Extent)
    requires Readable(text, cells, s, at, lo, hi, b) && Elsewhere(text, text', cells, cells', at, lo, hi)
    requires b.Valid() && b.end <= |text| && b.begin <= lo <= hi <= b.end
    ensures Readable(text', cells', s, at, lo, hi, b) && s.at in cells && s.at in cells' && cells'[s.at] == cells[s.at]
    ensures Image(text', cells', s) == Image(text, cells, s) && ImageSlots(text', cells', s.items) == ImageSlots(text, cells, s.items)
  {
    Present(cells, s);
    assert Addrs(s) == {s.at} + AddrsOf(s.items);
    assert Same(cells, cells', Addrs(s));
    forall r | r in Refs(cells, s)
      ensures CStr(text', r.p) == CStr(text, r.p) && Shareable(text', r, lo, hi, b)
    {
      SettledStays(text, text', r.p, lo, hi);
      if Outside(text, r.p, b) {
        OutsideStays(text, text', r.p, b, lo, hi);
      }
    }
    LaidElsewhere(cells, cells', s);
    ImageElsewhere(text, text', cells, cells', s);
    SlotsElsewhere(text, text', cells, cells', s.items);
  }

  /** A sound document stands while another one, in a block of its own, grows. */
  lemma OtherStands(text: string, text': string, cells: Cells, cells': Cells, t: Item, root: nat, o: Extent, b: Extent)
    requires Sound(text, cells, t, o) && Readable(text, cells, t, root, b.begin, b.end, b) && Elsewhere(text, text', cells, cells', root, b.begin, b.end)
    requires b.Valid() && b.end <= |text| && (o.end <= b.begin || b.end <= o.begin)
    ensures Sound(text', cells', t, o) && Readable(text', cells', t, root, b.begin, b.end, b) && Image(text', cells', t) == Image(text, cells, t)
    ensures cells'[t.at] == cells[t.at]
  {
    StillReadable(text, text', cells, cells', t, root, b.begin, b.end, b);
    Present(cells, t);
    assert Addrs(t) == {t.at} + AddrsOf(t.items);
    LaidElsewhere(cells, cells', t);
    forall r | r in Refs(cells, t)
      ensures Housed(text', r, o)
    {
      assert Housed(text, r, o) && Shareable(text, r, b.begin, b.end, b);
      OtherHoused(text, text', r, o, b);
    }
  }

  lemma OtherHoused(text: string, text': string, r: Ref, o: Extent, b: Extent)
    requires Housed(text, r, o) && Outside(text, r.p, b) && Rewritten(text, text', b.begin, b.end)
    requires o.Valid() && b.Valid() && o.end <= |text| && b.end <= |text| && (o.end <= b.begin || b.end <= o.begin)
    ensures Housed(text', r, o)
  {
    if InPool(text, r.p, o) {
      StringStays(text, text', r.p, o.left, b.begin, b.end);
    }
    if Terminated(text, r.p, b.begin) {
      if Terminated(text, r.p, o.begin) {
        var w := if o.begin <= b.begin then o.begin else b.begin;
        StringStays(text, text', r.p, w, b.begin, b.end);
        TerminatedLater(text', r.p, w, o.begin);
      } else if o.end <= r.p {
        StringStays(text, text', r.p, b.begin, b.begin, b.end);
        TerminatedLater(text', r.p, b.begin, |text'|);
      }
    } else {
      if Terminated(text, r.p, o.begin) {
        StringStays(text, text', r.p, o.begin, b.begin, b.end);
      } else if o.end <= r.p {
        StringStays(text, text', r.p, |text|, b.begin, b.end);
      }
    }
  }

  lemma FilledLast(d: Doc, path: seq<nat>, obj: bool, done: seq<DocSlot>, key: Option<Text>, e: Doc)
    requires IsPath(d, path)
    ensures var r := With(d, path, Group(obj, done + [DocSlot(key, Atom(Null))]));
            && IsPath(r, path + [|done|])
            && With(r, path + [|done|], e) == With(d, path, Group(obj, done + [DocSlot(key, e)]))
  {
    var more := Group(obj, done + [DocSlot(key, Atom(Null))]);
    WithPlace(d, path, more);
    WithDeeper(With(d, path, more), path, |done|, e);
    assert more.slots[|done| := DocSlot(key, e)] == done + [DocSlot(key, e)];
    WithTwice(d, path, more, Group(obj, done + [DocSlot(key, e)]));
  }

  lemma ReadableList(text: string, cells: Cells, s: Item, at: nat, lo: nat, hi: nat, b: Extent)
    requires Readable(text, cells, s, at, lo, hi, b) && IsLinks(cells, s.at)
    ensures cells[s.at].content.head == FirstAt(s.items) && Chained(cells, s.items)
    ensures s.items != [] ==> s.items[0].at != 0
  {
    LaidLinks(cells, s.at, s.items);
    if s.items != [] {
      InChain(cells, s.items, 0);
    }
  }

  lemma ReadableChild(text: string, cells: Cells, s: Item, at: nat, lo: nat, hi: nat, b: Extent, i: nat)
    requires Readable(text, cells, s, at, lo, hi, b) && IsLinks(cells, s.at) && i < |s.items|
    ensures var t := s.items[i];
            && Readable(text, cells, t, at, lo, hi, b) && t.at in cells
            && (forall r :: r in KeyRefs(cells[t.at]) ==> Shareable(text, r, lo, hi, b))
            && ImageSlots(text, cells, s.items)[i] == ImageSlot(text, cells, t)
            && ImageSlot(text, cells, t).value == Image(text, cells, t)
            && Next(cells[t.at], t.at) == FirstAt(s.items[i + 1..])
            && (i + 1 < |s.items| ==> s.items[i + 1].at != 0)
  {
    var t := s.items[i];
    LaidLinks(cells, s.at, s.items);
    InChain(cells, s.items, i);
    Split(cells, s.items, i);
    if i + 1 < |s.items| {
      InChain(cells, s.items, i + 1);
    }
    assert SlotRefs(cells, t) == KeyRefs(cells[t.at]) + Refs(cells, t);
    assert Addrs(s) == {s.at} + AddrsOf(s.items);
  }

  lemma SameBlock(text: string, cells: Cells, s: Item, at: nat, b: Extent, b': Extent)
    requires Readable(text, cells, s, at, b.begin, b.end, b) && b'.begin == b.begin && b'.end == b.end
    ensures Readable(text, cells, s, at, b'.begin, b'.end, b')
  {
  }

  /** What can be read while much is written can be read while less is. */
  lemma ReadableGrown(text: string, cells: Cells, s: Item, at: nat, at': nat, b: Extent, b': Extent)
    requires Readable(text, cells, s, at, b.left, b.right, b) && Grown(b, b') && b.Valid() && b.end <= |text|
    requires at' == at || b.left <= at' < b.right
    ensures Readable(text, cells, s, at', b'.left, b'.right, b')
  {
    forall r | r in Refs(cells, s)
      ensures Shareable(text, r, b'.left, b'.right, b')
    {
      SteadyGrown(text, r.p, b, b');
    }
  }

  lemma SteadyGrown(text: string, p: nat, b: Extent, b': Extent)
    requires Settled(text, p, b.left, b.right) && Grown(b, b') && b.Valid() && b.end <= |text|
    ensures Settled(text, p, b'.left, b'.right)
  {
    if Terminated(text, p, b.left) {
      TerminatedLater(text, p, b.left, b'.left);
    }
  }

  lemma KeysShareable(text: string, cell: Cell, b: Extent, b': Extent)
    requires Grown(b, b') && b.Valid() && b.end <= |text|
    requires forall r :: r in KeyRefs(cell) ==> Shareable(text, r, b.left, b.right, b)
    ensures forall r :: r in KeyRefs(cell) ==> Shareable(text, r, b'.left, b'.right, b')
  {
    forall r | r in KeyRefs(cell)
      ensures Shareable(text, r, b'.left, b'.right, b')
    {
      SteadyGrown(text, r.p, b, b');
    }
  }

  /** The walk over a list that is elsewhere, whatever was written since. */
  ghost predicate Walking(text: string, text': string, cells: Cells, cells': Cells, s: Item, slots: seq<DocSlot>, i: nat, slot: int, at: nat, b: Extent) {
    && Elsewhere(text, text', cells, cells', at, b.left, b.right) && b.Valid() && b.end <= |text|
    && Readable(text', cells', s, at, b.left, b.right, b) && ImageSlots(text', cells', s.items) == slots
    && IsLinks(cells', s.at) && i <= |s.items| && slot == FirstAt(s.items[i..])
  }

  lemma WalkNow(text: string, text': string, cells: Cells, cells': Cells, s: Item, slots: seq<DocSlot>, i: nat, slot: nat, at: nat, b: Extent)
    requires Walking(text, text', cells, cells', s, slots, i, slot, at, b) && i < |slots|
    ensures |s.items| == |slots| && s.items[i].at == slot && slot in cells'
    ensures Readable(text', cells', s.items[i], at, b.left, b.right, b) && ImageSlot(text', cells', s.items[i]) == slots[i]
    ensures forall r :: r in KeyRefs(cells'[slot]) ==> Shareable(text', r, b.left, b.right, b)
  {
    ReadableChild(text', cells', s, at, b.left, b.right, b, i);
  }

  lemma WalkOn(text: string, text1: string, text2: string, cells: Cells, cells1: Cells, cells2: Cells, s: Item, slots: seq<DocSlot>, i: nat, slot: nat, at: nat, b: Extent)
    requires Walking(text, text1, cells, cells1, s, slots, i, slot, at, b) && i < |slots|
    requires Elsewhere(text1, text2, cells1, cells2, at, b.left, b.right)
    ensures slot in cells2 && Walking(text, text2, cells, cells2, s, slots, i + 1, Next(cells2[slot], slot), at, b)
    ensures Next(cells2[slot], slot) >= 0 && (Next(cells2[slot], slot) == 0 <==> i + 1 == |slots|)
  {
    hide Elsewhere, Readable;
    ElsewhereTwice(text, text1, text2, cells, cells1, cells2, at, b.left, b.right);
    assert |text1| == |text| by { SameLength(text, text1, cells, cells1, at, b.left, b.right); }
    StillReadable(text1, text2, cells1, cells2, s, at, b.left, b.right, b);
    ReadableChild(text2, cells2, s, at, b.left, b.right, b, i);
  }

  lemma SameLength(text: string, text': string, cells: Cells, cells': Cells, at: nat, lo: nat, hi: nat)
    requires Elsewhere(text, text', cells, cells', at, lo, hi)
    ensures |text'| == |text|
  {
  }

  lemma CopyEnds(text: string, text': string, cells: Cells, cells': Cells, s: Item, slots: seq<DocSlot>, i: nat, slot: nat, at: nat, b: Extent, done: seq<DocSlot>, room: nat)
    requires Walking(text, text', cells, cells', s, slots, i, slot, at, b) && i <= |slots|
    ensures i == |slots| ==> CopySlots(slots[i..], done, room) == SlotsCopied(true, done, room) && SlotsCount(slots[i..]) == 0
    ensures Elsewhere(text, text', cells, cells', at, b.left, b.right)
  {
  }

  lemma ElsewhereTwice(text: string, text1: string, text2: string, cells: Cells, cells1: Cells, cells2: Cells, at: nat, lo: nat, hi: nat)
    requires Elsewhere(text, text1, cells, cells1, at, lo, hi) && Elsewhere(text1, text2, cells1, cells2, at, lo, hi)
    ensures Elsewhere(text, text2, cells, cells2, at, lo, hi)
  {
  }

  lemma ElsewhereWider(text: string, text': string, cells: Cells, cells': Cells, at: nat, lo: nat, hi: nat, lo': nat, hi': nat)
    requires Elsewhere(text, text', cells, cells', at, lo, hi) && (lo' <= lo <= hi <= hi' || lo == hi)
    ensures Elsewhere(text, text', cells, cells', at, lo', hi')
  {
  }

  /** What is written below a new slot is written in the room there was. */
  lemma ElsewhereWithin(text: string, text': string, cells: Cells, cells': Cells, at: nat, added: nat, b1: Extent, b: Extent)
    requires Elsewhere(text, text', cells, cells', added, b1.left, b1.right) && Grown(b, b1) && b.left <= added < b.right
    ensures Elsewhere(text, text', cells, cells', at, b.left, b.right)
  {
  }

  lemma Empty(text: string, cells: Cells, root: nat, b: Extent)
    requires root in cells && cells[root].content == Plain(Null) && b.Valid() && b.end <= |text|
    requires root != 0 && !(b.begin <= root < b.end)
    ensures Sound(text, cells, Item(root, []), b) && Tidy(text, cells, Item(root, []), b)
    ensures Image(text, cells, Item(root, [])) == Atom(Null)
  {
    assert Refs(cells, Item(root, [])) == {};
    assert Apart(Item(root, []));
  }

  lemma {:induction false} DeeperPath(t: Item, path: seq<nat>, k: nat)
    requires IsTreePath(t, path) && k < |ItemAt(t, path).items|
    ensures IsTreePath(t, path + [k]) && ItemAt(t, path + [k]) == ItemAt(t, path).items[k]
    decreases |path|
  {
    if path == [] {
      assert (path + [k])[1..] == [];
    } else {
      assert (path + [k])[1..] == path[1..] + [k];
      DeeperPath(t.items[path[0]], path[1..], k);
    }
  }

  lemma Renamed(cells: Cells, at: nat, slot: nat, cell: Cell)
    requires IsLinks(cells, at)
    ensures LinkLast(cells, at, slot, EMPTY_CELL)[slot := cell] == LinkLast(cells, at, slot, cell)
    ensures slot in LinkLast(cells, at, slot, EMPTY_CELL) && LinkLast(cells, at, slot, EMPTY_CELL)[slot] == EMPTY_CELL
  {
  }

  lemma UnlinkedElsewhere(cells: Cells, s: Item, k: nat, root: nat, b: Extent)
    requires IsList(cells, s.at, s.items) && k < |s.items| && (s.at == root || b.begin <= s.at < b.end)
    requires Placed(AddrsOf(s.items), b) && b.Valid()
    ensures var cells' := Unlink(cells, s.at, PrevAt(s.items, k), s.items[k].at, NextAt(s.items, k));
            forall a :: a in cells && a != root && !(b.begin <= a < b.end) ==> a in cells' && cells'[a] == cells[a]
  {
    AllOnGrid(s.items, b);
    assert k > 0 ==> OnGrid(s.items[k - 1].at, b.begin, b.end);
  }

  lemma LinkedElsewhere(cells: Cells, at: nat, slot: nat, cell: Cell, root: nat, b: Extent)
    requires IsLinks(cells, at) && (at == root || b.begin <= at < b.end) && b.begin <= slot < b.end
    requires var tail := cells[at].content.tail; tail != 0 ==> b.begin <= tail < b.end
    ensures forall a :: a in cells && a != root && !(b.begin <= a < b.end) ==>
              a in LinkLast(cells, at, slot, cell) && LinkLast(cells, at, slot, cell)[a] == cells[a]
  {
  }

  /** A string that can be copied, after one more slot was taken. */
  lemma StillSteady(text: string, p: nat, b: Extent, b': Extent)
    requires b'.begin == b.begin && b'.left == b.left && b'.right <= b.right && b'.end == b.end
    ensures Settled(text, p, b.left, b.right) ==> Settled(text, p, b'.left, b'.right)
    ensures Outside(text, p, b) ==> Outside(text, p, b')
  {
  }

  /** A place is not inside another one unless its path goes through it. */
  lemma {:induction false} NotInside(t: Item, path: seq<nat>, from: seq<nat>)
    requires Apart(t) && IsTreePath(t, path) && IsTreePath(t, from) && !(from <= path)
    ensures ItemAt(t, path).at !in Addrs(ItemAt(t, from))
    decreases |path|
  {
    if path == [] {
      AtRoot(t, from);
    } else {
      var i, j := path[0], from[0];
      ItemInside(t.items, i);
      ItemInside(t.items, j);
      DeeperInside(t.items[i], path[1..]);
      DeeperInside(t.items[j], from[1..]);
      assert ItemAt(t, path).at in Addrs(ItemAt(t, path));
      if i == j {
        assert path == [i] + path[1..] && from == [i] + from[1..];
        NotInside(t.items[i], path[1..], from[1..]);
      } else {
        ItemApart(t.items, i, j);
      }
    }
  }

  lemma AllInUse(items: seq<Item>, b: Extent)
    requires Placed(AddrsOf(items), b) && b.Valid() && ApartAll(items) && b.end - b.right <= REACH
    ensures forall k :: 0 <= k < |items| ==> Bridged(items, k)
    ensures items != [] ==> b.right <= LastAt(items) && LastAt(items) + SLOT_SIZE <= b.end
  {
    forall k | 0 <= k < |items|
      ensures b.right <= items[k].at && items[k].at + SLOT_SIZE <= b.end
    {
      ItemInside(items, k);
      assert OnGrid(items[k].at, b.right, b.end);
    }
  }

  /** Naming a new slot changes no other one. */
  lemma Named(text: string, text': string, cells: Cells, cells1: Cells, cells2: Cells, root: nat, at: nat, slot: nat, b: Extent, left: nat)
    requires OnlyLinked(cells, cells1, at, b.left, b.right) && Elsewhere(text, text, cells, cells1, root, b.begin, b.end)
    requires forall a :: a in cells1 && a != slot ==> a in cells2 && cells2[a] == cells1[a]
    requires b.Valid() && b.left <= slot < b.right && Rewritten(text, text', b.left, left) && left <= b.right
    ensures OnlyLinked(cells, cells2, at, b.left, b.right) && Elsewhere(text, text', cells, cells2, root, b.begin, b.end)
  {
  }

  /** Unlinking the new slot again changes no other slot either. */
  lemma Relinked(text: string, cells: Cells, cells1: Cells, cells2: Cells, root: nat, at: nat, slot: nat, b: Extent, left: nat)
    requires OnlyLinked(cells, cells1, at, b.left, b.right) && Elsewhere(text, text, cells, cells1, root, b.begin, b.end)
    requires forall a :: a in cells1 && a != at && (a != cells[at].content.tail || cells[at].content.tail == 0) ==> a in cells2 && cells2[a] == cells1[a]
    requires Elsewhere(text, text, cells1, cells2, root, b.begin, b.end)
    ensures OnlyLinked(cells, cells2, at, b.left, b.right) && Elsewhere(text, text, cells, cells2, root, b.begin, b.end)
  {
  }

  /** What was linked to a collection of new slots lies with them. */
  lemma LinkedInside(text: string, text': string, cells: Cells, cells': Cells, at: nat, b0: Extent, left: nat, b: Extent)
    requires OnlyLinked(cells, cells', at, b0.left, b0.right) && Rewritten(text, text', b0.left, left)
    requires b.left <= b0.left && left <= b0.right <= b.right
    requires var tail := cells[at].content.tail; tail == 0 || b.left <= tail < b.right
    ensures Elsewhere(text, text', cells, cells', at, b.left, b.right)
  {
  }

  lemma LinkedTail(cells: Cells, at: nat, slot: nat, cell: Cell, lo: nat, hi: nat)
    requires IsLinks(cells, at) && slot != at && lo <= slot < hi
    ensures IsLinks(LinkLast(cells, at, slot, cell), at) && LinkLast(cells, at, slot, cell)[at].content.tail == slot
    ensures OnlyLinked(cells, LinkLast(cells, at, slot, cell), at, lo, hi)
  {
  }

  lemma {:induction false} SpineTwice(t: Item, t1: Item, t2: Item, path: seq<nat>)
    requires IsTreePath(t, path)
    ensures SameSpine(t, t, path)
    ensures SameSpine(t, t1, path) && SameSpine(t1, t2, path) ==> SameSpine(t, t2, path)
    decreases |path|
  {
    if path != [] {
      var k := path[0];
      if k < |t1.items| && k < |t2.items| {
        SpineTwice(t.items[k], t1.items[k], t2.items[k], path[1..]);
      } else {
        SpineTwice(t.items[k], t.items[k], t.items[k], path[1..]);
      }
    }
  }

  lemma {:induction false} SpineAbove(t: Item, t': Item, path: seq<nat>, k: nat)
    requires SameSpine(t, t', path + [k])
    ensures SameSpine(t, t', path)
    decreases |path|
  {
    if path != [] {
      assert (path + [k])[1..] == path[1..] + [k];
      SpineAbove(t.items[path[0]], t'.items[path[0]], path[1..], k);
    }
  }

  /** The slots of a collection, after something changed at or below one of them. */
  lemma {:induction false} SpineSlots(t: Item, t': Item, path: seq<nat>, k: nat)
    requires SameSpine(t, t', path + [k]) && IsTreePath(t, path) && k < |ItemAt(t, path).items|
    ensures IsTreePath(t', path) && SameSlots(ItemAt(t, path).items, ItemAt(t', path).items)
    decreases |path|
  {
    if path != [] {
      assert (path + [k])[1..] == path[1..] + [k];
      SpineSlots(t.items[path[0]], t'.items[path[0]], path[1..], k);
    }
  }

  lemma {:induction false} SpineHolds(t: Item, t': Item, path: seq<nat>)
    requires SameSpine(t, t', path) && IsTreePath(t, path)
    ensures IsTreePath(t', path) && ItemAt(t', path).at == ItemAt(t, path).at
    decreases |path|
  {
    if path != [] {
      SpineHolds(t.items[path[0]], t'.items[path[0]], path[1..]);
    }
  }

  lemma {:induction false} WithItemsAt(t: Item, path: seq<nat>, items: seq<Item>)
    requires IsTreePath(t, path)
    ensures IsTreePath(WithItems(t, path, items), path)
    ensures ItemAt(WithItems(t, path, items), path) == Item(ItemAt(t, path).at, items)
    ensures SameSpine(t, WithItems(t, path, items), path)
    decreases |path|
  {
    if path != [] {
      WithItemsAt(t.items[path[0]], path[1..], items);
    }
  }

  lemma PlaceOutside(text: string, cells: Cells, t: Item, path: seq<nat>, b: Extent)
    requires Sound(text, cells, t, b) && IsTreePath(t, path)
    ensures var a := ItemAt(t, path).at; (a == t.at || b.right <= a < b.end) && !(b.left <= a < b.right)
  {
    Inside(text, cells, t, path, b);
  }
}
