/** The collection operations, on the slots in memory. */
module CollectionData {
  import opened Document
  import opened OwnedDocument
  import opened StoredDocument
  import opened SlotMemory
  import opened SlotLists
  import opened MemoryPool

  /** Takes a slot from the pool and links it after the last one. */
  method AddSlot(pool: Pool, at: nat) returns (slot: nat)
    requires pool.Valid() && IsLinks(pool.ram.cells, at)
    requires var tail := pool.ram.cells[at].content.tail; tail != 0 ==> tail in pool.ram.cells
    modifies pool`right, pool.ram`cells
    ensures pool.Valid()
    ensures if old(pool.Bounds()).Room() >= SLOT_SIZE then
              && slot == pool.right == old(pool.right) - SLOT_SIZE && slot != 0 && OnGrid(slot, pool.left, pool.end)
              && pool.ram.cells == LinkLast(old(pool.ram.cells), at, slot, EMPTY_CELL)
            else
              slot == 0 && pool.right == old(pool.right) && pool.ram.cells == old(pool.ram.cells)
  {
    slot := pool.AllocVariant();
    if slot == 0 {
      return;
    }
    var ram := pool.ram;
    var tail := ram.cells[at].content.tail;
    if tail != 0 {
      ram.cells := ram.cells[tail := ram.cells[tail].(next := Distance(tail, slot))];
      ram.cells := ram.cells[at := ram.cells[at].(content := ram.cells[at].content.(tail := slot))];
    } else {
      ram.cells := ram.cells[at := ram.cells[at].(content := ram.cells[at].content.(head := slot))];
      ram.cells := ram.cells[at := ram.cells[at].(content := ram.cells[at].content.(tail := slot))];
    }
    ram.cells := ram.cells[slot := EMPTY_CELL];
  }

  ghost predicate IsList(cells: Cells, at: nat, items: seq<Item>) {
    IsLinks(cells, at) && Laid(cells, Item(at, items)) && Apart(Item(at, items))
  }

  lemma ListStarts(cells: Cells, at: nat, items: seq<Item>)
    requires IsList(cells, at, items)
    ensures cells[at].content.head == FirstAt(items) && cells[at].content.tail == LastAt(items) && Chained(cells, items) && ApartAll(items)
  {
  }

  /** Different positions hold different slots. */
  lemma SlotsDiffer(items: seq<Item>, i: nat, j: nat)
    requires ApartAll(items) && i < |items| && j < |items| && i != j
    ensures items[i].at != items[j].at
  {
    ItemApart(items, i, j);
    ItemInside(items, j);
  }

  /** The slot whose link leads to `target`, or 0. */
  method GetPreviousSlot(ram: Ram, at: nat, target: nat, ghost items: seq<Item>, ghost k: nat) returns (prev: nat)
    requires IsList(ram.cells, at, items) && k < |items| && items[k].at == target
    ensures prev == PrevAt(items, k)
  {
    hide Next;
    ListStarts(ram.cells, at, items);
    hide IsList, Laid, Linked, Apart, ApartAll, Chained;
    InChain(ram.cells, items, 0);
    var current := ram.cells[at].content.head;
    ghost var i := 0;
    while current != 0
      invariant i <= |items| && current == (if i < |items| then items[i].at else 0)
      invariant (current == 0 <==> i == |items|) && (k == 0 || i < k)
      decreases |items| - i
    {
      InChain(ram.cells, items, i);
      var next := Next(ram.cells[current], current);
      if next == target {
        if i + 1 != k {
          SlotsDiffer(items, i + 1, k);
        }
        return current;
      }
      current := next;
      i := i + 1;
      if i < |items| {
        InChain(ram.cells, items, i);
      }
    }
    prev := 0;
  }

  /** Unlinks a slot; its memory is not given back. */
  method RemoveSlot(ram: Ram, at: nat, slot: nat, ghost items: seq<Item>, ghost k: nat)
    requires IsList(ram.cells, at, items) && k < |items| && items[k].at == slot
    modifies ram`cells
    ensures ram.cells == Unlink(old(ram.cells), at, PrevAt(items, k), slot, NextAt(items, k))
  {
    ListStarts(ram.cells, at, items);
    InChain(ram.cells, items, k);
    var prev := GetPreviousSlot(ram, at, slot, items, k);
    var next := Next(ram.cells[slot], slot);
    if k > 0 {
      InChain(ram.cells, items, k - 1);
      ItemInside(items, k - 1);
    }
    if prev != 0 {
      ram.cells := ram.cells[prev := ram.cells[prev].(next := Distance(prev, next))];
    } else {
      ram.cells := ram.cells[at := ram.cells[at].(content := ram.cells[at].content.(head := next))];
    }
    if next == 0 {
      ram.cells := ram.cells[at := ram.cells[at].(content := ram.cells[at].content.(tail := prev))];
    }
  }

  /** The slot at an index, or 0 past the end. */
  method GetSlotAt(ram: Ram, at: nat, index: nat, ghost items: seq<Item>) returns (slot: nat)
    requires IsList(ram.cells, at, items) && items != []
    ensures slot == if index < |items| then items[index].at else 0
  {
    hide Laid, Linked, Apart, ApartAll, Chained;
    ListStarts(ram.cells, at, items);
    slot := ram.cells[at].content.head;
    var distance := index;
    InChain(ram.cells, items, 0);
    ghost var i := 0;
    while distance > 0
      invariant 0 <= distance && i + distance == index && i < |items|
      invariant slot == items[i].at && slot in ram.cells
    {
      InChain(ram.cells, items, i);
      if i + 1 < |items| {
        InChain(ram.cells, items, i + 1);
      }
      if ram.cells[slot].next == 0 {
        return 0;
      }
      slot := Next(ram.cells[slot], slot);
      distance := distance - 1;
      i := i + 1;
    }
  }

  /** The name a key pointer stands for. */
  function NameAt(text: string, p: nat): Option<string> {
    if p == 0 then None else Some(CStr(text, p))
  }

  /** The first slot whose key compares equal to the one at `key`, or 0; a null key finds a slot
      without a key. */
  method GetSlotNamed(ram: Ram, at: nat, key: nat, ghost items: seq<Item>) returns (slot: nat, ghost k: nat)
    requires IsList(ram.cells, at, items)
    ensures k == FindKey(ImageSlots(ram.text, ram.cells, items), NameAt(ram.text, key))
    ensures var first := FindKey(ImageSlots(ram.text, ram.cells, items), NameAt(ram.text, key));
            slot == (if first < |items| then items[first].at else 0) && (slot == 0 <==> first == |items|)
  {
    hide Laid, Linked, Apart, ApartAll, Chained, Image, CStr;
    ListStarts(ram.cells, at, items);
    ghost var slots := ImageSlots(ram.text, ram.cells, items);
    if items != [] {
      InChain(ram.cells, items, 0);
    }
    slot, k := ram.cells[at].content.head, 0;
    while slot != 0
      invariant k <= |items| && slot == (if k < |items| then items[k].at else 0) && (slot == 0 <==> k == |items|)
      invariant forall i :: 0 <= i < k ==> KeyChars(slots[i]) != NameAt(ram.text, key)
      decreases |items| - k
    {
      InChain(ram.cells, items, k);
      assert slots[k] == ImageSlot(ram.text, ram.cells, items[k]);
      var cell := ram.cells[slot];
      if cell.key == key || (cell.key != 0 && key != 0 && CStr(ram.text, cell.key) == CStr(ram.text, key)) {
        return;
      }
      slot := Next(cell, slot);
      k := k + 1;
      if k < |items| {
        InChain(ram.cells, items, k);
      }
    }
  }

  /** How many slots there are. */
  method Size(ram: Ram, at: nat, ghost items: seq<Item>) returns (n: nat)
    requires IsList(ram.cells, at, items)
    ensures n == |items|
  {
    ListStarts(ram.cells, at, items);
    hide IsList, Laid, Linked, Apart, ApartAll, Chained;
    if items != [] {
      InChain(ram.cells, items, 0);
    }
    var slot := ram.cells[at].content.head;
    n := 0;
    while slot != 0
      invariant n <= |items| && slot == (if n < |items| then items[n].at else 0) && (slot == 0 <==> n == |items|)
      decreases |items| - n
    {
      InChain(ram.cells, items, n);
      slot := Next(ram.cells[slot], slot);
      n := n + 1;
      if n < |items| {
        InChain(ram.cells, items, n);
      }
    }
  }
}
