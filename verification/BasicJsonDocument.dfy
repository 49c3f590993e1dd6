/** Documents whose pool is on the heap: giving memory back, and collecting garbage. */
module BasicJsonDocument {
  import opened Document
  import opened OwnedDocument
  import opened StoredDocument
  import opened SlotMemory
  import opened SlotLists
  import opened MemoryPool
  import opened PooledTree
  import opened JsonDocument
  import opened Relocation

  // ----- adjusting pointers -----

  /** Only the variant at `at` and moved slots have changed. */
  ghost predicate OnlyMoved(cells: Cells, cells': Cells, at: nat, addrs: set<nat>, slots: int) {
    forall a :: a in cells && a != at && a - slots !in addrs ==> a in cells' && cells'[a] == cells[a]
  }

  /** Adjusts the variant at `at`, whose slots have already been copied to their new addresses,
      and everything below it.  `cells` and `t` tell how they were before. */
  method MoveVariant(ram: Ram, at: nat, strings: int, slots: int, ghost t: Item, ghost cells: Cells)
    requires Laid(cells, t) && Apart(t) && Movable(AddrsOf(t.items), slots)
    requires at in ram.cells && ram.cells[at].content == cells[t.at].content
    requires CopiedTo(cells, ram.cells, AddrsOf(t.items), slots) && at - slots !in AddrsOf(t.items)
    modifies ram`cells
    ensures at in ram.cells && ram.cells[at] == old(ram.cells[at]).(content := MovedContent(cells[t.at].content, strings, slots))
    ensures MovedTo(cells, ram.cells, AddrsOf(t.items), strings, slots)
    ensures OnlyMoved(old(ram.cells), ram.cells, at, AddrsOf(t.items), slots)
    decreases t, 0
  {
    match ram.cells[at].content
    case Plain(_) =>
    case Chars(p, owned) =>
      if owned {
        ram.cells := ram.cells[at := ram.cells[at].(content := Chars(Displaced(p, strings), true))];
      }
    case Links(obj, head, tail) =>
      LaidLinks(cells, t.at, t.items);
      ram.cells := ram.cells[at := ram.cells[at].(content := Links(obj, MovedLink(head, slots), MovedLink(tail, slots)))];
      MoveSlots(ram, MovedLink(head, slots), strings, slots, t.items, cells, at);
  }

  /** Adjusts a chain of slots. */
  method MoveSlots(ram: Ram, head: nat, strings: int, slots: int, ghost items: seq<Item>, ghost cells: Cells, ghost at: nat)
    requires Chained(cells, items) && ApartAll(items) && Movable(AddrsOf(items), slots)
    requires head == MovedLink(FirstAt(items), slots) && CopiedTo(cells, ram.cells, AddrsOf(items), slots)
    requires at in ram.cells && at - slots !in AddrsOf(items)
    modifies ram`cells
    ensures MovedTo(cells, ram.cells, AddrsOf(items), strings, slots)
    ensures OnlyMoved(old(ram.cells), ram.cells, at, AddrsOf(items), slots)
    ensures at in ram.cells && ram.cells[at] == old(ram.cells[at])
    decreases items
  {
    hide Laid, Linked, Apart, ApartAll, Chained, AddrsOf, Addrs, MovedCell, CopiedTo, OnlyMoved, MovedTo;
    Start(cells, ram.cells, items, at, strings, slots);
    if items != [] {
      Position(cells, items, 0, strings, slots);
    }
    var slot := head;
    ghost var i := 0;
    while slot != 0
      invariant i <= |items| && slot == MovedLink(FirstAt(items[i..]), slots) && (slot == 0 <==> i == |items|)
      invariant MovedTo(cells, ram.cells, AddrsOf(items[..i]), strings, slots)
      invariant CopiedTo(cells, ram.cells, AddrsOf(items[i..]), slots)
      invariant OnlyMoved(old(ram.cells), ram.cells, at, AddrsOf(items), slots)
      invariant at in ram.cells && ram.cells[at] == old(ram.cells[at])
      decreases |items| - i
    {
      Position(cells, items, i, strings, slots);
      Around(items, i);
      ghost var before := ram.cells;
      CopiedPart(cells, before, AddrsOf(items[i..]), Addrs(items[i]), slots);
      MoveSlot(ram, slot, strings, slots, items[i], cells);
      OneMoved(cells, before, ram.cells, AddrsOf(items[..i]), Addrs(items[i]), AddrsOf(items[i + 1..]), slot, strings, slots);
      StillOnlyMoved(old(ram.cells), before, ram.cells, at, AddrsOf(items), slot, Addrs(items[i]), slots);
      assert ram.cells[slot] == MovedCell(cells[items[i].at], strings, slots);
      slot := Next(ram.cells[slot], slot);
      i := i + 1;
      if i < |items| {
        Position(cells, items, i, strings, slots);
      }
    }
    assert items[..i] == items;
  }

  lemma Start(cells: Cells, cells': Cells, items: seq<Item>, at: nat, strings: int, slots: int)
    ensures items[0..] == items && FirstAt(items[0..]) == FirstAt(items)
    ensures MovedTo(cells, cells', AddrsOf(items[..0]), strings, slots) && OnlyMoved(cells', cells', at, AddrsOf(items), slots)
  {
  }

  /** The slots before, at and after the i-th one. */
  lemma Around(items: seq<Item>, i: nat)
    requires ApartAll(items) && i < |items|
    ensures var here, done, rest := Addrs(items[i]), AddrsOf(items[..i]), AddrsOf(items[i + 1..]);
            && done !! here && done !! rest && here !! rest && items[i].at in here
            && AddrsOf(items) == done + here + rest
            && AddrsOf(items[..i + 1]) == done + here && AddrsOf(items[i..]) == here + rest
  {
    hide ApartAll, Apart, RefsOf;
    Split(map[], items, i);
    assert items[..i + 1] == items[..i] + [items[i]] && items[i..] == [items[i]] + items[i + 1..];
    AddrsConcat(items[..i], [items[i]]);
    assert AddrsOf([items[i]]) == Addrs(items[i]) + AddrsOf([]);
    AddrsConcat([items[i]], items[i + 1..]);
  }

  lemma CopiedPart(cells: Cells, cells': Cells, addrs: set<nat>, part: set<nat>, slots: int)
    requires CopiedTo(cells, cells', addrs, slots) && part <= addrs
    ensures CopiedTo(cells, cells', part, slots)
  {
  }

  lemma OneMoved(cells: Cells, before: Cells, after: Cells, done: set<nat>, here: set<nat>, rest: set<nat>, slot: nat, strings: int, slots: int)
    requires MovedTo(cells, before, done, strings, slots) && CopiedTo(cells, before, here + rest, slots)
    requires MovedTo(cells, after, here, strings, slots) && OnlyMoved(before, after, slot, here, slots)
    requires slot - slots in here && done !! here && here !! rest
    ensures MovedTo(cells, after, done + here, strings, slots) && CopiedTo(cells, after, rest, slots)
  {
    hide MovedCell;
    assert forall a :: a in rest ==> a in here + rest;
  }

  lemma StillOnlyMoved(c0: Cells, c1: Cells, c2: Cells, at: nat, addrs: set<nat>, slot: nat, here: set<nat>, slots: int)
    requires OnlyMoved(c0, c1, at, addrs, slots) && OnlyMoved(c1, c2, slot, here, slots)
    requires here <= addrs && slot - slots in here && at - slots !in addrs
    ensures OnlyMoved(c0, c2, at, addrs, slots)
    ensures at in c1 ==> at in c2 && c2[at] == c1[at]
  {
  }

  /** What a walk along the slots knows at the i-th one. */
  lemma Position(cells: Cells, items: seq<Item>, i: nat, strings: int, slots: int)
    requires Chained(cells, items) && ApartAll(items) && Movable(AddrsOf(items), slots) && i < |items|
    ensures var t := items[i];
            && Laid(cells, t) && Apart(t) && t.at in cells && Movable(Addrs(t), slots)
            && MovedLink(FirstAt(items[i..]), slots) == t.at + slots > 0
            && Next(MovedCell(cells[t.at], strings, slots), t.at + slots) == MovedLink(FirstAt(items[i + 1..]), slots)
  {
    var t := items[i];
    InChain(cells, items, i);
    ItemInside(items, i);
    if i + 1 < |items| {
      ItemInside(items, i + 1);
    }
    hide Laid, Linked, Apart, ApartAll, Chained, AddrsOf, Addrs;
    assert FirstAt(items[i..]) == t.at;
    assert FirstAt(items[i + 1..]) == NextAt(items, i);
  }

  /** Adjusts a slot: its key, and its value. */
  method MoveSlot(ram: Ram, slot: nat, strings: int, slots: int, ghost t: Item, ghost cells: Cells)
    requires Laid(cells, t) && Apart(t) && Movable(Addrs(t), slots) && slot == t.at + slots
    requires CopiedTo(cells, ram.cells, Addrs(t), slots)
    modifies ram`cells
    ensures MovedTo(cells, ram.cells, Addrs(t), strings, slots)
    ensures OnlyMoved(old(ram.cells), ram.cells, slot, Addrs(t), slots)
    decreases t, 1
  {
    assert Addrs(t) == {t.at} + AddrsOf(t.items);
    var cell := ram.cells[slot];
    if cell.ownsKey {
      ram.cells := ram.cells[slot := cell.(key := MovedLink(cell.key, strings))];
    }
    MoveVariant(ram, slot, strings, slots, t, cells);
  }

  // ----- shrinking -----

  /** What realloc makes of the characters: the first n of the block are at the new address. */
  function Relocated(text: string, from: nat, to: nat, n: nat): (r: string)
    requires from + n <= |text| && to + n <= |text|
    ensures |r| == |text|
  {
    text[..to] + text[from..from + n] + text[to + n..]
  }

  /** The block is moved to an address the allocator chooses. */
  method Reallocate(ram: Ram, from: nat, to: nat, n: nat)
    requires from + n <= |ram.text| && to + n <= |ram.text|
    modifies ram
    ensures ram.text == Relocated(old(ram.text), from, to, n)
    ensures ram.cells == Slide(old(ram.cells), from, from + n, to - from)
  {
    ram.text := ram.text[..to] + ram.text[from..from + n] + ram.text[to + n..];
    ram.cells := Slide(ram.cells, from, from + n, to - from);
  }

  /** A pool whose slots have slid towards its strings. */
  predicate Slides(b: Extent, s: Extent) {
    && b.Valid() && s.Valid() && s.begin == b.begin && s.left == b.left
    && s.right < b.right && s.end - s.right == b.end - b.right
  }

  /** The pool once the space between strings and slots is gone. */
  function Squashed(b: Extent): (s: Extent)
    requires b.Valid()
    ensures s == b || Slides(b, s)
  {
    if Padded(b.left) >= b.right then b
    else
      PaddedSlots(Padded(b.left), b.end - b.right);
      Extent(b.begin, b.left, Padded(b.left), Padded(b.left) + b.end - b.right)
  }

  lemma SquashedBy(b: Extent, s: Extent, reclaimed: int)
    requires b.Valid()
    requires if Padded(b.left) >= b.right then reclaimed == 0 && s == b
             else reclaimed == b.right - Padded(b.left) && s == b.(right := b.right - reclaimed, end := b.end - reclaimed)
    ensures s == Squashed(b) && (reclaimed == 0 <==> s == b) && reclaimed == b.right - s.right
  {
  }

  /** The same pool in a block at another address. */
  function At(b: Extent, to: nat): Extent
    requires b.Valid()
  {
    Extent(to, to + b.left - b.begin, to + b.right - b.begin, to + b.end - b.begin)
  }

  /** An allocator's answer to a request for n bytes: for none it may also be null. */
  predicate IsBlock(to: nat, n: int) { Aligned(to) && (to == 0 ==> n == 0) }

  lemma AtValid(s: Extent, to: nat)
    requires s.Valid() && IsBlock(to, s.Capacity())
    ensures At(s, to).Valid() && At(s, to).Size() == s.Size() && At(s, to).Capacity() == s.Capacity()
  {
    hide Aligned, WholeSlots;
    AlignedSum(s.end, s.begin);
    AlignedSum(to, s.end - s.begin);
  }

  /** The allocator may give this address to a block that has shrunk from b to s: it is aligned,
      and nothing that is alive lies in it; a block of no bytes may become null. */
  ghost predicate Available(text: string, refs: set<Ref>, root: nat, b: Extent, s: Extent, to: nat) {
    s.Valid() && var n := s.Capacity();
    && IsBlock(to, n) && to + n <= |text|
    && (to == b.begin || to + n <= b.begin || b.end <= to)
    && !(to <= root < to + n)
    && (forall r :: r in refs && Outside(text, r.p, b) ==> Outside(text, r.p, At(s, to)))
  }

  /** No owned string is misplaced by the move: the block stays where it is, or every owned
      string is in it. */
  ghost predicate Faithful(text: string, refs: set<Ref>, b: Extent, to: nat) {
    to == b.begin || AllInPool(text, refs, b)
  }

  lemma {:induction false} StringMoves(a: string, b: string, p: nat, w: nat, distance: int)
    requires w <= |a| && Terminated(a, p, w) && p + distance >= 0 && w + distance <= |b|
    requires forall k :: p <= k < w ==> b[k + distance] == a[k]
    ensures CStr(b, p + distance) == CStr(a, p) && Terminated(b, p + distance, w + distance)
    decreases w - p
  {
    if a[p] != '\0' {
      StringMoves(a, b, p + 1, w, distance);
    }
  }

  lemma PooledMoves(text: string, p: nat, b: Extent, s: Extent, to: nat)
    requires InPool(text, p, b) && Slides(b, s) && s.end <= |text| && to + s.Capacity() <= |text|
    ensures var q, text' := p + to - b.begin, Relocated(text, b.begin, to, s.Capacity());
            && q >= to && Terminated(text', q, At(s, to).left) && CStr(text', q) == CStr(text, p)
  {
    StringMoves(text, Relocated(text, b.begin, to, s.Capacity()), p, b.left, to - b.begin);
  }

  lemma OutsideMoves(text: string, p: nat, s: Extent, to: nat)
    requires s.Valid() && s.end <= |text| && to + s.Capacity() <= |text| && Outside(text, p, At(s, to))
    ensures var text' := Relocated(text, s.begin, to, s.Capacity());
            Outside(text', p, At(s, to)) && CStr(text', p) == CStr(text, p)
  {
    var text' := Relocated(text, s.begin, to, s.Capacity());
    assert Rewritten(text, text', to, to + s.Capacity());
    OutsideStays(text, text', p, At(s, to), to, to + s.Capacity());
  }

  /** What a pointer is after the move. */
  ghost predicate Follows(text: string, text': string, r: Ref, b: Extent, b': Extent) {
    var r' := MovedRef(r, b'.begin - b.begin);
    && CStr(text', r'.p) == CStr(text, r.p) && r'.p != 0 && Housed(text', r', b')
    && (r.owned && InPool(text, r.p, b) ==> InPool(text', r'.p, b'))
  }

  lemma RefMoves(text: string, r: Ref, refs: set<Ref>, root: nat, b: Extent, s: Extent, to: nat)
    requires Housed(text, r, b) && r in refs && Slides(b, s) && Available(text, refs, root, b, s, to) && b.end <= |text|
    requires to == b.begin || (r.owned ==> InPool(text, r.p, b))
    ensures s.Capacity() >= 0 && Follows(text, Relocated(text, b.begin, to, s.Capacity()), r, b, At(s, to))
  {
    hide Relocated, Terminated, CStr, Outside;
    if InPool(text, r.p, b) {
      PooledMoves(text, r.p, b, s, to);
    }
    if Outside(text, r.p, b) {
      OutsideMoves(text, r.p, s, to);
    }
  }

  /** How far slots move. */
  function SlotShift(b: Extent, s: Extent, to: nat): int {
    to - b.begin - (b.right - s.right)
  }

  lemma SlotsMove(addrs: set<nat>, moved: set<nat>, b: Extent, s: Extent, to: nat)
    requires Slides(b, s) && Placed(addrs, b) && IsBlock(to, s.Capacity())
    ensures Movable(addrs, SlotShift(b, s, to))
    ensures MovedFrom(addrs, moved, SlotShift(b, s, to)) ==> Placed(moved, At(s, to))
  {
    var d, b' := SlotShift(b, s, to), At(s, to);
    forall a | a in addrs
      ensures a != 0 && a + d > 0
    {
      assert OnGrid(a, b.right, b.end);
    }
    if MovedFrom(addrs, moved, d) {
      forall a | a in moved
        ensures OnGrid(a, b'.right, b'.end)
      {
        assert OnGrid(a - d, b.right, b.end);
        assert b'.end - a == b.end - (a - d);
      }
    }
  }

  lemma AtFits(text: string, refs: set<Ref>, root: nat, b: Extent, s: Extent, to: nat)
    requires Slides(b, s) && Available(text, refs, root, b, s, to)
    ensures var b' := At(s, to);
            && b'.Valid() && b'.begin == to && b'.end <= |text| && b'.Capacity() == s.Capacity() && b'.Size() == b.Size()
            && !(b'.begin <= root < b'.end) && IsBlock(to, s.Capacity())
  {
    AtValid(s, to);
  }

  /** The moved document is sound, and is the same document. */
  lemma Shrunk(text: string, cells: Cells, cells': Cells, t: Item, b: Extent, s: Extent, to: nat)
    requires Sound(text, cells, t, b) && Slides(b, s)
    requires Available(text, Refs(cells, t), t.at, b, s, to) && Faithful(text, Refs(cells, t), b, to)
    requires MovedTo(cells, cells', AddrsOf(t.items), to - b.begin, SlotShift(b, s, to))
    requires t.at in cells' && t.at in cells && cells'[t.at].content == MovedContent(cells[t.at].content, to - b.begin, SlotShift(b, s, to))
    ensures s.Capacity() >= 0
    ensures var t', text', b' := Item(t.at, MovedItems(t.items, SlotShift(b, s, to))), Relocated(text, b.begin, to, s.Capacity()), At(s, to);
            && Sound(text', cells', t', b') && Image(text', cells', t') == Image(text, cells, t)
            && (Tidy(text, cells, t, b) ==> Tidy(text', cells', t', b'))
  {
    AtFits(text, Refs(cells, t), t.at, b, s, to);
    var d, b' := SlotShift(b, s, to), At(s, to);
    SlotsMove(AddrsOf(t.items), AddrsOf(MovedItems(t.items, d)), b, s, to);
    AllFollow(text, Refs(cells, t), t.at, b, s, to);
    hide Laid, Apart, Refs, AddrsOf, Image, Usage, Relocated, MovedContent, AllHoused, AllInPool, Placed, Follows, Movable, MovedTo, MovedFrom, MovedText, MovedItems, At, Slides, Available, SlotShift;
    MovedDocument(text, Relocated(text, b.begin, to, s.Capacity()), cells, cells', t, b, b', d);
  }

  /** A document whose slots have moved by d into another block, and whose strings have followed,
      is as before. */
  lemma MovedDocument(text: string, text': string, cells: Cells, cells': Cells, t: Item, b: Extent, b': Extent, d: int)
    requires Sound(text, cells, t, b)
    requires b'.Valid() && b'.end <= |text'| && b'.Size() == b.Size() && !(b'.begin <= t.at < b'.end)
    requires Movable(AddrsOf(t.items), d) && MovedTo(cells, cells', AddrsOf(t.items), b'.begin - b.begin, d)
    requires var moved := AddrsOf(MovedItems(t.items, d)); MovedFrom(AddrsOf(t.items), moved, d) ==> Placed(moved, b')
    requires t.at in cells' && t.at in cells && cells'[t.at].content == MovedContent(cells[t.at].content, b'.begin - b.begin, d)
    requires MovedText(text, text', Refs(cells, t), b'.begin - b.begin)
    requires forall r :: r in Refs(cells, t) ==> Follows(text, text', r, b, b')
    ensures var t' := Item(t.at, MovedItems(t.items, d));
            && Sound(text', cells', t', b') && Image(text', cells', t') == Image(text, cells, t)
            && (Tidy(text, cells, t, b) ==> Tidy(text', cells', t', b'))
  {
    var offset, t' := b'.begin - b.begin, Item(t.at, MovedItems(t.items, d));
    hide Laid, Apart, Refs, AddrsOf, Image, Usage, MovedContent, AllHoused, AllInPool, Placed, Follows, Movable, MovedTo, MovedFrom, MovedItems;
    MovedImage(text, text', cells, cells', t, t.at, offset, d);
    MovedRefsBelow(cells, cells', t, t.at, offset, d);
    MovedRoot(cells, cells', t, offset, d, b');
    RefsFollow(text, text', Refs(cells, t), Refs(cells', t'), b, b');
  }

  lemma RefsFollow(text: string, text': string, refs: set<Ref>, refs': set<Ref>, b: Extent, b': Extent)
    requires refs' <= MovedRefs(refs, b'.begin - b.begin)
    requires forall r :: r in refs ==> Follows(text, text', r, b, b')
    ensures AllHoused(text', refs', b') && (AllInPool(text, refs, b) ==> AllInPool(text', refs', b'))
  {
    hide Outside, InPool;
    forall r' | r' in refs'
      ensures Housed(text', r', b') && (AllInPool(text, refs, b) && r'.owned ==> InPool(text', r'.p, b'))
    {
      var r :| r in refs && r' == MovedRef(r, b'.begin - b.begin);
      assert Follows(text, text', r, b, b');
    }
  }

  lemma AllFollow(text: string, refs: set<Ref>, root: nat, b: Extent, s: Extent, to: nat)
    requires AllHoused(text, refs, b) && Slides(b, s) && Available(text, refs, root, b, s, to) && b.end <= |text|
    requires Faithful(text, refs, b, to)
    ensures s.Capacity() >= 0
    ensures forall r :: r in refs ==> Follows(text, Relocated(text, b.begin, to, s.Capacity()), r, b, At(s, to))
    ensures MovedText(text, Relocated(text, b.begin, to, s.Capacity()), refs, to - b.begin)
  {
    forall r | r in refs
      ensures Follows(text, Relocated(text, b.begin, to, s.Capacity()), r, b, At(s, to))
    {
      assert Housed(text, r, b);
      RefMoves(text, r, refs, root, b, s, to);
    }
  }

  lemma MovedRoot(cells: Cells, cells': Cells, t: Item, strings: int, slots: int, b: Extent)
    requires Laid(cells, t) && Apart(t) && Movable(AddrsOf(t.items), slots) && MovedTo(cells, cells', AddrsOf(t.items), strings, slots)
    requires t.at in cells' && t.at in cells && cells'[t.at].content == MovedContent(cells[t.at].content, strings, slots)
    requires MovedFrom(AddrsOf(t.items), AddrsOf(MovedItems(t.items, slots)), slots) ==> Placed(AddrsOf(MovedItems(t.items, slots)), b)
    requires !(b.begin <= t.at < b.end) && b.Valid()
    ensures var t' := Item(t.at, MovedItems(t.items, slots)); Laid(cells', t') && Apart(t') && Placed(AddrsOf(t'.items), b)
  {
    MovedAddrs(t.items, slots);
    if cells[t.at].content.Links? {
      LaidLinks(cells, t.at, t.items);
      MovedChain(cells, cells', t.items, strings, slots);
    }
    assert t.at in AddrsOf(MovedItems(t.items, slots)) ==> OnGrid(t.at, b.right, b.end);
  }

  /** The slots after both moves. */
  function Moves(cells: Cells, b: Extent, s: Extent, to: nat): Cells
    requires Slides(b, s)
  {
    Slide(Slide(cells, b.right, b.end, s.right - b.right), s.begin, s.end, to - s.begin)
  }

  lemma SlotMoves(cells: Cells, b: Extent, s: Extent, to: nat, a: nat)
    requires Slides(b, s) && a in cells && OnGrid(a, b.right, b.end)
    ensures a + SlotShift(b, s, to) in Moves(cells, b, s, to)
    ensures Moves(cells, b, s, to)[a + SlotShift(b, s, to)] == cells[a]
  {
    hide Slide, Aligned, WholeSlots;
    var down, offset := s.right - b.right, to - s.begin;
    SlideInside(cells, b.right, b.end, down, a);
    SlideInside(Slide(cells, b.right, b.end, down), s.begin, s.end, offset, a + down);
    assert a + down + offset == a + SlotShift(b, s, to);
  }

  /** Slots outside the old and the new block stay. */
  lemma OtherStays(cells: Cells, b: Extent, s: Extent, to: nat, a: nat)
    requires Slides(b, s) && a in cells && !(b.begin <= a < b.end) && !(to <= a < to + s.Capacity())
    ensures a in Moves(cells, b, s, to) && Moves(cells, b, s, to)[a] == cells[a]
  {
    hide Slide, Aligned, WholeSlots;
    SlideOutside(cells, b.right, b.end, s.right - b.right, a);
    SlideOutside(Slide(cells, b.right, b.end, s.right - b.right), s.begin, s.end, to - s.begin, a);
  }

  /** A slot that moves stays in the blocks. */
  lemma ShiftStaysIn(b: Extent, s: Extent, to: nat, a: nat)
    requires Slides(b, s) && OnGrid(a, b.right, b.end)
    ensures to <= a + SlotShift(b, s, to) < to + s.Capacity()
  {
    hide Aligned, WholeSlots;
  }

  /** After the block has moved the slots are at their new addresses. */
  lemma Slid(cells: Cells, t: Item, b: Extent, s: Extent, to: nat)
    requires Slides(b, s) && Placed(AddrsOf(t.items), b) && Laid(cells, t)
    requires !(b.begin <= t.at < b.end) && !(to <= t.at < to + s.Capacity())
    ensures CopiedTo(cells, Moves(cells, b, s, to), AddrsOf(t.items), SlotShift(b, s, to))
    ensures t.at in cells && t.at in Moves(cells, b, s, to) && Moves(cells, b, s, to)[t.at] == cells[t.at]
    ensures t.at - SlotShift(b, s, to) !in AddrsOf(t.items)
  {
    hide Moves, AddrsOf, Laid, Aligned, WholeSlots, SlotShift, OnGrid, Slides;
    Present(cells, t);
    assert Addrs(t) == {t.at} + AddrsOf(t.items);
    hide Addrs;
    OtherStays(cells, b, s, to, t.at);
    forall a | a in AddrsOf(t.items)
      ensures a in cells && a + SlotShift(b, s, to) in Moves(cells, b, s, to)
      ensures Moves(cells, b, s, to)[a + SlotShift(b, s, to)] == cells[a]
    {
      assert OnGrid(a, b.right, b.end);
      SlotMoves(cells, b, s, to, a);
    }
    forall a | a in AddrsOf(t.items)
      ensures a + SlotShift(b, s, to) != t.at
    {
      assert OnGrid(a, b.right, b.end);
      ShiftStaysIn(b, s, to, a);
    }
  }

  ghost predicate CanShrinkTo(doc: JsonDocument, to: nat)
    reads doc, doc.pool, doc.ram
  {
    && doc.Valid()
    && var b := doc.pool.Bounds(); Available(doc.ram.text, Refs(doc.ram.cells, doc.tree), doc.root, b, Squashed(b), to)
  }

  /** The block stays where it is, or the pool holds all the owned strings, or there is nothing
      to give back. */
  ghost predicate KeepsStrings(doc: JsonDocument, to: nat)
    reads doc, doc.pool, doc.ram
    requires doc.Valid()
  {
    var b := doc.pool.Bounds();
    Squashed(b) == b || Faithful(doc.ram.text, Refs(doc.ram.cells, doc.tree), b, to)
  }

  ghost predicate Shrank(b: Extent, b': Extent, to: nat) {
    b.Valid() && b' == if Squashed(b) == b then b else At(Squashed(b), to)
  }

  /** Gives back the memory between strings and slots. */
  method ShrinkToFit(doc: JsonDocument, to: nat)
    requires CanShrinkTo(doc, to)
    modifies doc`tree, doc.pool, doc.ram
    ensures Shrank(old(doc.pool.Bounds()), doc.pool.Bounds(), to)
    ensures doc.pool.Bounds().Size() == old(doc.pool.Bounds().Size())
    ensures old(KeepsStrings(doc, to)) ==> doc.Valid() && doc.Contents() == old(doc.Contents()) && (old(doc.IsTidy()) ==> doc.IsTidy())
  {
    hide Sound, Tidy, Image, AddrsOf, Refs, Slide, Aligned, WholeSlots, Padded, Squashed, Available, AllInPool, At;
    ghost var text, cells, t, b := doc.ram.text, doc.ram.cells, doc.tree, doc.pool.Bounds();
    var reclaimed := doc.pool.Squash();
    SquashedBy(b, doc.pool.Bounds(), reclaimed);
    if reclaimed > 0 {
      MoveBlock(doc, to, reclaimed, cells, b);
    }
  }

  /** Moves the block after the slots have slid, and adjusts all pointers. */
  method MoveBlock(doc: JsonDocument, to: nat, reclaimed: int, ghost cells: Cells, ghost b: Extent)
    requires doc.pool.ram == doc.ram && doc.tree.at == doc.root && Sound(doc.ram.text, cells, doc.tree, b)
    requires Slides(b, doc.pool.Bounds()) && reclaimed == b.right - doc.pool.right
    requires doc.ram.cells == Slide(cells, b.right, b.end, -reclaimed)
    requires Available(doc.ram.text, Refs(cells, doc.tree), doc.root, b, doc.pool.Bounds(), to)
    modifies doc`tree, doc.pool, doc.ram
    ensures doc.pool.Bounds() == At(old(doc.pool.Bounds()), to) && doc.pool.Bounds().Size() == b.Size()
    ensures Faithful(old(doc.ram.text), Refs(cells, old(doc.tree)), b, to) ==>
      && doc.Valid() && doc.Contents() == Image(old(doc.ram.text), cells, old(doc.tree))
      && (Tidy(old(doc.ram.text), cells, old(doc.tree), b) ==> doc.IsTidy())
  {
    hide Sound, Tidy, Image, AddrsOf, Refs, Slide, Relocated, MovedTo, MovedItems, AllInPool, Outside, Aligned, WholeSlots, Laid, Apart, Placed, CopiedTo, Movable, Addrs;
    ghost var text, t, s := doc.ram.text, doc.tree, doc.pool.Bounds();
    SoundParts(text, cells, t, b);
    AtValid(s, to);
    var from := doc.pool.begin;
    Reallocate(doc.ram, from, to, doc.pool.end - from);
    var offset := to - from;
    doc.pool.MovePointers(offset);
    SlotsMove(AddrsOf(t.items), {}, b, s, to);
    Slid(cells, t, b, s, to);
    MoveVariant(doc.ram, doc.root, offset, offset - reclaimed, t, cells);
    doc.tree := Item(t.at, MovedItems(t.items, offset - reclaimed));
    if Faithful(text, Refs(cells, t), b, to) {
      Shrunk(text, cells, doc.ram.cells, t, b, s, to);
    }
  }

  lemma SoundParts(text: string, cells: Cells, t: Item, b: Extent)
    requires Sound(text, cells, t, b)
    ensures b.Valid() && b.end <= |text| && Laid(cells, t) && Apart(t) && Placed(AddrsOf(t.items), b) && !(b.begin <= t.at < b.end)
  {
  }

  // ----- when shrinking misplaces strings -----

  /** Where a string is after the move: a string in the pool has moved with it. */
  function NewPlace(text: string, r: Ref, b: Extent, to: nat): nat {
    if InPool(text, r.p, b) then Displaced(r.p, to - b.begin) else r.p
  }

  /** After the move all pointers lead to their strings exactly when the block has not moved or
      all owned strings are in the pool; a string that was parsed in place is not. */
  lemma PointersFollow(text: string, refs: set<Ref>, b: Extent, to: nat)
    requires AllHoused(text, refs, b) && b.Valid() && b.begin < ADDRESSES && to < ADDRESSES && b.end <= |text|
    ensures (forall r :: r in refs ==> MovedRef(r, to - b.begin).p == NewPlace(text, r, b, to)) <==> Faithful(text, refs, b, to)
  {
    forall r | r in refs
      ensures MovedRef(r, to - b.begin).p == NewPlace(text, r, b, to) <==> to == b.begin || !r.owned || InPool(text, r.p, b)
    {
      assert Housed(text, r, b);
      if !r.owned {
        OutsideNotInPool(text, r.p, b);
      } else if r.p + to - b.begin < 0 {
        assert (r.p + to - b.begin) % ADDRESSES == r.p + to - b.begin + ADDRESSES;
      }
    }
  }

  lemma OutsideNotInPool(text: string, p: nat, b: Extent)
    requires Outside(text, p, b) && b.Valid() && b.end <= |text|
    ensures !InPool(text, p, b)
  {
  }

  /** Memory that is all NULs but for a run of letters from p on. */
  function Letters(size: nat, p: nat, n: nat): (text: string)
    ensures |text| == size && forall k :: 0 <= k < size ==> text[k] == if p <= k < p + n then 'a' else '\0'
  {
    seq(size, k requires 0 <= k < size => if p <= k < p + n then 'a' else '\0')
  }

  lemma {:induction false} LettersRead(size: nat, p: nat, n: nat, k: nat, w: nat)
    requires p + n < w <= size && k <= n
    ensures |CStr(Letters(size, p, n), p + k)| == n - k && Terminated(Letters(size, p, n), p + k, w)
    decreases n - k
  {
    if k < n {
      LettersRead(size, p, n, k + 1, w);
    }
  }

  /** The document ["a"], parsed in place: its slot is in the pool, its string in the input.  When
      shrinking moves the block, the slot follows and the string is lost. */
  lemma ShrinkingLosesString()
    ensures var text, t, b, to: nat := Letters(256, 36, 1), Item(8, [Item(128, [])]), Extent(64, 64, 128, 160), 200;
            var cells := map[8 := Cell(Links(false, 128, 128), 0, 0, false), 128 := Cell(Chars(36, true), 0, 0, false)];
            var s := Squashed(b);
            var offset, d := to - b.begin, SlotShift(b, s, to);
            && Sound(text, cells, t, b)
            && s == Extent(64, 64, 64, 96) && Available(text, Refs(cells, t), 8, b, s, to) && 128 + d == 200
            && Image(text, cells, t) == Group(false, [DocSlot(None, Line(Text("a", true)))])
            && Image(Relocated(text, 64, to, 32), map[8 := MovedCell(cells[8], offset, d), 200 := MovedCell(cells[128], offset, d)],
                     Item(8, MovedItems(t.items, d))) == Group(false, [DocSlot(None, Line(Text("", true)))])
  {
    var text, slot, t, b, to: nat := Letters(256, 36, 1), Item(128, []), Item(8, [Item(128, [])]), Extent(64, 64, 128, 160), 200;
    var cells: Cells := map[8 := Cell(Links(false, 128, 128), 0, 0, false), 128 := Cell(Chars(36, true), 0, 0, false)];
    var s := Squashed(b);
    LettersRead(256, 36, 1, 0, 64);
    LettersRead(256, 36, 1, 0, 200);
    assert CStr(text, 37) == "" && CStr(text, 36) == "a";
    assert Laid(cells, slot) && Linked(cells, slot, 0) && NextAt(t.items, 0) == 0;
    assert AddrsOf(t.items) == {128} && Apart(slot) && Apart(t);
    assert OnGrid(128, 128, 160);
    assert SlotRefs(cells, slot) == {Ref(36, true)};
    assert Refs(cells, t) == {Ref(36, true)};
    assert ImageSlot(text, cells, slot) == DocSlot(None, Line(Text("a", true)));
    assert ImageSlots(text, cells, t.items) == [ImageSlot(text, cells, slot)];
    var text' := Relocated(text, 64, to, 32);
    var moved: Cells := map[8 := MovedCell(cells[8], 136, 72), 200 := MovedCell(cells[128], 136, 72)];
    var slot' := Item(200, []);
    assert MovedItems(t.items, 72) == [slot'];
    assert text'[172] == '\0' && CStr(text', 172) == "";
    assert ImageSlot(text', moved, slot') == DocSlot(None, Line(Text("", true)));
    assert ImageSlots(text', moved, [slot']) == [ImageSlot(text', moved, slot')];
  }

  // ----- collecting garbage -----

  function EmptyBlock(to: nat, capacity: nat): Extent { Extent(to, to, to + capacity, to + capacity) }

  /** The allocator may give this address to a second block of the same capacity, and the links of
      a copy fit. */
  ghost predicate CanCopyTo(doc: JsonDocument, to: nat, tmp: nat)
    reads doc, doc.pool, doc.ram
    requires doc.Valid()
  {
    var b := doc.pool.Bounds();
    var n: nat := b.Capacity();
    && to != 0 && Aligned(to) && to + n <= |doc.ram.text| && (to + n <= b.begin || b.end <= to)
    && !(to <= doc.root < to + n)
    && tmp != 0 && tmp != doc.root && !(to <= tmp < to + n) && !(b.begin <= tmp < b.end)
    && Readable(doc.ram.text, doc.ram.cells, doc.tree, tmp, to, to + n, EmptyBlock(to, n))
    && CopyFits(doc.Contents(), n)
  }

  lemma PaddedCapacity(b: Extent)
    requires b.Valid()
    ensures Padded(b.Capacity()) == b.Capacity() && Aligned(b.Capacity())
  {
    var x, y := b.begin / 8, b.end / 8;
    assert b.begin == 8 * x && b.end == 8 * y;
    assert b.Capacity() == 8 * (y - x);
  }

  /** The variant of the copy is moved to the document's own root. */
  lemma Adopted(text: string, cells: Cells, root: nat, t: Item, b: Extent)
    requires Sound(text, cells, t, b) && root in cells && root != 0 && root != t.at && !(b.begin <= root < b.end) && t.at in cells
    ensures var cells', t' := cells[root := cells[root].(content := cells[t.at].content)], Item(root, t.items);
            && Sound(text, cells', t', b) && Image(text, cells', t') == Image(text, cells, t)
            && (Tidy(text, cells, t, b) ==> Tidy(text, cells', t', b))
  {
    var cells', t' := cells[root := cells[root].(content := cells[t.at].content)], Item(root, t.items);
    assert root in AddrsOf(t.items) ==> OnGrid(root, b.right, b.end);
    Present(cells, t);
    assert Addrs(t) == {t.at} + AddrsOf(t.items);
    ChainedElsewhere(cells, cells', t.items);
    RefsElsewhere(cells, cells', t.items);
    assert SameText(text, text, RefsOf(cells, t.items));
    SlotsElsewhere(text, text, cells, cells', t.items);
    assert Refs(cells', t') == Refs(cells, t);
  }

  /** The copy constructor, and the assignment that follows it. */
  method Duplicate(doc: JsonDocument, to: nat, tmp: nat) returns (copy: JsonDocument)
    requires doc.Valid() && doc.pool.Bounds().Capacity() > 0 && CanCopyTo(doc, to, tmp)
    modifies doc.ram
    ensures fresh(copy) && fresh(copy.pool) && copy.ram == doc.ram && copy.root == tmp && copy.Valid() && copy.IsTidy()
    ensures copy.pool.begin == to && copy.pool.Bounds().Capacity() == doc.pool.Bounds().Capacity()
    ensures var r := Copy(old(doc.Contents()), doc.pool.Bounds().Capacity());
            copy.Contents() == r.doc && copy.pool.Bounds().Room() == r.room
    ensures doc.root in doc.ram.cells
  {
    hide Sound, Tidy, Image, Copy, CopyFits, Readable, Usage, Padded, Aligned, WholeSlots;
    RootPresent(doc);
    PaddedCapacity(doc.pool.Bounds());
    var capacity := doc.pool.end - doc.pool.begin;
    var block := new Pool(doc.ram, to, Padded(capacity));
    ghost var text, cells := doc.ram.text, doc.ram.cells;
    copy := new JsonDocument(doc.ram, tmp, block);
    OtherStands(text, text, cells, doc.ram.cells, doc.tree, tmp, doc.pool.Bounds(), block.Bounds());
    var ok := copy.Set(doc);
    ok := copy.Set(doc);
    RootPresent(doc);
  }

  /** Copies the document into a new block and frees the old one, even if the copy is not
      complete. */
  method GarbageCollect(doc: JsonDocument, to: nat, tmp: nat) returns (ok: bool)
    requires doc.Valid() && (doc.pool.Bounds().Capacity() != 0 ==> CanCopyTo(doc, to, tmp))
    modifies doc`tree, doc`pool, doc.ram
    ensures ok == (old(doc.pool.Bounds()).Capacity() != 0)
    ensures !ok ==> doc.Valid() && doc.pool == old(doc.pool) && doc.Contents() == old(doc.Contents())
    ensures ok ==> doc.Valid() && doc.IsTidy() && doc.pool.Bounds().Capacity() == old(doc.pool.Bounds()).Capacity()
    ensures var capacity := old(doc.pool.Bounds()).Capacity();
            var fits := old(Usage(doc.Contents())) <= capacity;
            && (ok ==> (doc.Contents() == old(doc.Contents()) <==> fits))
            && (ok && fits ==> doc.pool.Bounds().Size() == Usage(doc.Contents()))
    ensures ok && old(doc.IsTidy()) ==> doc.Contents() == old(doc.Contents()) && doc.pool.Bounds().Size() == Usage(doc.Contents())
  {
    hide Sound, Tidy, Image, Copy, CopyFits, Readable, Usage, Padded, Aligned, WholeSlots;
    ok := false;
    var capacity := doc.pool.end - doc.pool.begin;
    if capacity == 0 {
      return;
    }
    if doc.IsTidy() {
      TidyFits(doc);
    }
    CopySame(doc.Contents(), capacity);
    RootPresent(doc);
    var ram := doc.ram;
    var copy := Duplicate(doc, to, tmp);
    RootPresent(copy);
    Adopted(ram.text, ram.cells, doc.root, copy.tree, copy.pool.Bounds());
    ram.cells := ram.cells[doc.root := ram.cells[doc.root].(content := ram.cells[tmp].content)];
    doc.pool := copy.pool;
    doc.tree := Item(doc.root, copy.tree.items);
    ok := true;
  }

  lemma RootPresent(doc: JsonDocument)
    requires doc.Valid()
    ensures doc.root in doc.ram.cells && doc.root != 0
  {
    LaidAt(doc.ram.cells, doc.tree);
  }

  /** What is live always fits in the block, unless strings were left in an input. */
  lemma TidyFits(doc: JsonDocument)
    requires doc.Valid() && doc.IsTidy()
    ensures Usage(doc.Contents()) <= doc.pool.Bounds().Size() <= doc.pool.Bounds().Capacity()
  {
  }

  /** A string of 40 letters, parsed in place with a pool of 32 bytes: a copy has no room for it, so
      collecting garbage loses it. */
  lemma CollectingLosesString()
    ensures var text, t, b := Letters(128, 16, 40), Item(8, []), Extent(64, 64, 96, 96);
            var cells := map[8 := Cell(Chars(16, true), 0, 0, false)];
            var d := Image(text, cells, t);
            && Sound(text, cells, t, b) && d.Line? && |d.text.chars| == 40
            && Usage(d) == 41 > b.Capacity() && Copy(d, b.Capacity()) == Copied(false, Atom(Null), 32)
  {
    var text, t, b := Letters(128, 16, 40), Item(8, []), Extent(64, 64, 96, 96);
    var cells: Cells := map[8 := Cell(Chars(16, true), 0, 0, false)];
    LettersRead(128, 16, 40, 0, 64);
    assert Refs(cells, t) == {Ref(16, true)} && Apart(t);
  }
}
