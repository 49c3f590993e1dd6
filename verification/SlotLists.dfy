/** The list operations of a collection on the slots of the pool. */
module SlotLists {
  import opened Document
  import opened SlotMemory

  predicate IsLinks(cells: Cells, at: nat) { at in cells && cells[at].content.Links? }

  /** The cells after addSlot has linked `slot` to the collection at `at`. */
  function LinkLast(cells: Cells, at: nat, slot: nat, cell: Cell): Cells
    requires IsLinks(cells, at)
  {
    var c := cells[at].content;
    var linked := if c.tail != 0 && c.tail in cells then cells[c.tail := cells[c.tail].(next := Distance(c.tail, slot))] else cells;
    linked[at := linked[at].(content := Links(c.obj, if c.tail == 0 then slot else c.head, slot))][slot := cell]
  }

  /** The cells after removeSlot has unlinked `slot`, whose predecessor is `prev` and whose
      successor is `next`. */
  function Unlink(cells: Cells, at: nat, prev: nat, slot: nat, next: nat): Cells
    requires IsLinks(cells, at)
  {
    var c := cells[at].content;
    var linked := if prev != 0 && prev in cells then cells[prev := cells[prev].(next := Distance(prev, next))] else cells;
    linked[at := linked[at].(content := Links(c.obj, if prev == 0 then next else c.head, if next == 0 then prev else c.tail))]
  }

  lemma {:induction false} ItemApart(items: seq<Item>, i: nat, j: nat)
    requires ApartAll(items) && i < |items| && j < |items| && i != j
    ensures Addrs(items[i]) !! Addrs(items[j])
    ensures Apart(items[i]) && items[i].at !in AddrsOf(items[i].items) && items[i].at in Addrs(items[i])
    ensures items[i].at in AddrsOf(items) && AddrsOf(items[i].items) <= Addrs(items[i]) <= AddrsOf(items)
  {
    Split(map[], items, i);
    Split(map[], items, j);
    if i < j {
      assert items[..j][i] == items[i];
      Split(map[], items[..j], i);
    } else {
      assert items[j + 1..][i - j - 1] == items[i];
      Split(map[], items[j + 1..], i - j - 1);
    }
  }

  lemma ItemInside(items: seq<Item>, i: nat)
    requires ApartAll(items) && i < |items|
    ensures Apart(items[i]) && items[i].at !in AddrsOf(items[i].items) && items[i].at in Addrs(items[i])
    ensures items[i].at in AddrsOf(items) && AddrsOf(items[i].items) <= Addrs(items[i]) <= AddrsOf(items)
  {
    Split(map[], items, i);
  }

  /** A slot whose link, and nothing else below, may have changed. */
  lemma RelinkedItem(cells: Cells, cells': Cells, t: Item, old_next: nat, next: nat)
    requires Linked(cells, t, old_next) && SameContent(cells, cells', t.at) && Same(cells, cells', AddrsOf(t.items))
    requires LeadsTo(cells'[t.at], t.at, next)
    ensures Linked(cells', t, next)
  {
    LaidElsewhere(cells, cells', t);
  }

  /** All slots are on the grid that ends at `end`. */
  predicate OnGrid(a: nat, low: nat, end: nat) {
    low <= a && a + SLOT_SIZE <= end && WholeSlots(end - a)
  }

  predicate WholeSlots(n: int) { n % SLOT_SIZE == 0 }

  /** How far a link reaches: 2^15 slots of 32 bytes. */
  const REACH: nat := 0x10_0000

  /** A link fits its 16 bits. */
  predicate InReach(from: nat, slot: nat) {
    slot == 0 || (from <= slot + REACH && slot < from + REACH)
  }

  lemma GridLink(cell: Cell, from: nat, slot: nat, low: nat, end: nat)
    requires OnGrid(from, low, end) && OnGrid(slot, low, end) && from != slot && slot != 0
    ensures LeadsTo(cell.(next := Distance(from, slot)), from, slot) <==> InReach(from, slot)
  {
    var p, q := (end - from) / SLOT_SIZE, (end - slot) / SLOT_SIZE;
    assert end - from == SLOT_SIZE * p && end - slot == SLOT_SIZE * q;
    assert slot - from == SLOT_SIZE * (p - q);
    LinkReadsBack(cell, from, slot);
  }

  lemma InChain(cells: Cells, items: seq<Item>, i: nat)
    requires Chained(cells, items) && i < |items|
    ensures items[i].at != 0 && items[i].at in cells && Laid(cells, items[i])
    ensures LeadsTo(cells[items[i].at], items[i].at, NextAt(items, i)) && Linked(cells, items[i], NextAt(items, i))
  {
    assert Linked(cells, items[i], NextAt(items, i));
    LaidAt(cells, items[i]);
  }

  lemma LaidAt(cells: Cells, t: Item)
    requires Laid(cells, t)
    ensures t.at in cells
  {
  }

  lemma {:induction false} Present(cells: Cells, t: Item)
    requires Laid(cells, t)
    ensures Addrs(t) <= cells.Keys
    decreases t
  {
    forall i | 0 <= i < |t.items|
      ensures Laid(cells, t.items[i])
    {
      InChain(cells, t.items, i);
    }
    ChainPresent(cells, t.items);
  }

  lemma {:induction false} ChainPresent(cells: Cells, items: seq<Item>)
    requires forall i :: 0 <= i < |items| ==> Laid(cells, items[i])
    ensures AddrsOf(items) <= cells.Keys
    decreases items
  {
    if items != [] {
      Present(cells, items[0]);
      ChainPresent(cells, items[1..]);
    }
  }

  /** What is written when the slots in `but` change, and perhaps the link of `relinked`. */
  predicate SameBut(cells: Cells, cells': Cells, but: set<nat>, relinked: nat) {
    && (forall a :: a in cells && a !in but && a != relinked ==> a in cells' && cells'[a] == cells[a])
    && (relinked in cells && relinked !in but ==> SameContent(cells, cells', relinked))
  }

  /** An item of a collection after one link of the collection was changed. */
  lemma KeptItem(cells: Cells, cells': Cells, items: seq<Item>, i: nat, but: set<nat>, relinked: nat, next: nat)
    requires i < |items| && ApartAll(items) && Chained(cells, items)
    requires SameBut(cells, cells', but, relinked) && but !! AddrsOf(items)
    requires relinked !in AddrsOf(items[i].items)
    requires items[i].at == relinked ==> relinked in cells' && LeadsTo(cells'[relinked], relinked, next)
    requires items[i].at != relinked ==> next == NextAt(items, i)
    ensures Linked(cells', items[i], next)
  {
    assert Linked(cells, items[i], NextAt(items, i));
    ItemInside(items, i);
    Present(cells, items[i]);
    RelinkedItem(cells, cells', items[i], NextAt(items, i), next);
  }

  /** Appending a slot makes a longer list exactly when the last slot's link can reach it. */
  lemma LinkLastLaid(cells: Cells, at: nat, items: seq<Item>, slot: nat, cell: Cell, low: nat, end: nat)
    requires IsLinks(cells, at) && Laid(cells, Item(at, items)) && Apart(Item(at, items))
    requires slot != 0 && slot !in Addrs(Item(at, items)) && OnGrid(slot, low, end)
    requires items != [] ==> OnGrid(LastAt(items), low, end)
    requires cell.next == 0 && !cell.content.Links?
    ensures Laid(LinkLast(cells, at, slot, cell), Item(at, items + [Item(slot, [])])) <==> items == [] || InReach(LastAt(items), slot)
  {
    if items == [] || InReach(LastAt(items), slot) {
      LinkLastReached(cells, at, items, slot, cell, low, end);
    } else {
      var cells', items', k := LinkLast(cells, at, slot, cell), items + [Item(slot, [])], |items| - 1;
      InChain(cells, items, k);
      ItemInside(items, k);
      GridLink(cells[LastAt(items)], LastAt(items), slot, low, end);
      if Laid(cells', Item(at, items')) {
        InChain(cells', items', k);
      }
    }
  }

  lemma LinkLastReached(cells: Cells, at: nat, items: seq<Item>, slot: nat, cell: Cell, low: nat, end: nat)
    requires IsLinks(cells, at) && Laid(cells, Item(at, items)) && Apart(Item(at, items))
    requires slot != 0 && slot !in Addrs(Item(at, items)) && OnGrid(slot, low, end)
    requires items != [] ==> OnGrid(LastAt(items), low, end) && InReach(LastAt(items), slot)
    requires cell.next == 0 && !cell.content.Links?
    ensures Laid(LinkLast(cells, at, slot, cell), Item(at, items + [Item(slot, [])]))
  {
    var cells' := LinkLast(cells, at, slot, cell);
    var items' := items + [Item(slot, [])];
    var tail := LastAt(items);
    if items != [] {
      InChain(cells, items, |items| - 1);
    }
    forall i | 0 <= i < |items'|
      ensures Linked(cells', items'[i], NextAt(items', i))
    {
      if i < |items| {
        ItemInside(items, |items| - 1);
        GridLink(cells[tail], tail, slot, low, end);
        if i + 1 < |items| {
          ItemApart(items, |items| - 1, i);
        }
        KeptItem(cells, cells', items, i, {at, slot}, tail, NextAt(items', i));
      } else {
        assert Laid(cells', Item(slot, []));
      }
    }
  }

  function PrevAt(items: seq<Item>, k: nat): nat
    requires k < |items|
  {
    if k == 0 then 0 else items[k - 1].at
  }

  function Without(items: seq<Item>, k: nat): seq<Item>
    requires k < |items|
  {
    items[..k] + items[k + 1..]
  }

  /** The link around the k-th slot fits. */
  predicate Bridged(items: seq<Item>, k: nat)
    requires k < |items|
  {
    k > 0 ==> InReach(items[k - 1].at, NextAt(items, k))
  }

  /** A slot that stays when the k-th one is unlinked. */
  lemma UnlinkedNeighbour(cells: Cells, cells': Cells, at: nat, items: seq<Item>, k: nat, i: nat, low: nat, end: nat)
    requires IsLinks(cells, at) && Chained(cells, items) && Apart(Item(at, items)) && k < |items| && i < |items| && i != k
    requires Bridged(items, k) && forall i :: 0 <= i < |items| ==> OnGrid(items[i].at, low, end)
    requires cells' == Unlink(cells, at, PrevAt(items, k), items[k].at, NextAt(items, k))
    ensures Linked(cells', items[i], if i + 1 == k then NextAt(items, k) else NextAt(items, i))
  {
    hide OnGrid, Laid, LeadsTo, Distance, AddrsOf, Linked;
    ItemInside(items, i);
    InChain(cells, items, i);
    assert at !in AddrsOf(items);
    if k == 0 {
      KeptItem(cells, cells', items, i, {at}, at, NextAt(items, i));
    } else {
      var prev, next := PrevAt(items, k), NextAt(items, k);
      ItemInside(items, k - 1);
      InChain(cells, items, k - 1);
      if i != k - 1 {
        ItemApart(items, k - 1, i);
      } else if next != 0 {
        ItemApart(items, k - 1, k + 1);
        GridLink(cells[prev], prev, next, low, end);
      } else {
        NoLink(cells[prev], prev);
      }
      KeptItem(cells, cells', items, i, {at}, prev, if i + 1 == k then next else NextAt(items, i));
    }
  }

  lemma NoLink(cell: Cell, from: nat)
    ensures LeadsTo(cell.(next := Distance(from, 0)), from, 0)
  {
  }

  /** Removing the k-th slot leaves the list of the others exactly when its neighbours' link fits. */
  lemma UnlinkLaid(cells: Cells, at: nat, items: seq<Item>, k: nat, low: nat, end: nat)
    requires IsLinks(cells, at) && Laid(cells, Item(at, items)) && Apart(Item(at, items)) && k < |items|
    requires forall i :: 0 <= i < |items| ==> OnGrid(items[i].at, low, end)
    ensures Laid(Unlink(cells, at, PrevAt(items, k), items[k].at, NextAt(items, k)), Item(at, Without(items, k))) <==> Bridged(items, k)
  {
    if Bridged(items, k) {
      UnlinkBridged(cells, at, items, k, low, end);
    } else {
      var cells', items' := Unlink(cells, at, PrevAt(items, k), items[k].at, NextAt(items, k)), Without(items, k);
      InChain(cells, items, k - 1);
      ItemInside(items, k - 1);
      ItemApart(items, k - 1, k + 1);
      InChain(cells, items, k + 1);
      GridLink(cells[items[k - 1].at], items[k - 1].at, items[k + 1].at, low, end);
      assert items'[k - 1] == items[k - 1] && items'[k] == items[k + 1];
      if Laid(cells', Item(at, items')) {
        InChain(cells', items', k - 1);
      }
    }
  }

  lemma UnlinkBridged(cells: Cells, at: nat, items: seq<Item>, k: nat, low: nat, end: nat)
    requires IsLinks(cells, at) && Laid(cells, Item(at, items)) && Apart(Item(at, items)) && k < |items|
    requires Bridged(items, k) && forall i :: 0 <= i < |items| ==> OnGrid(items[i].at, low, end)
    ensures Laid(Unlink(cells, at, PrevAt(items, k), items[k].at, NextAt(items, k)), Item(at, Without(items, k)))
  {
    hide Unlink, OnGrid, Linked, Apart, Laid;
    var cells' := Unlink(cells, at, PrevAt(items, k), items[k].at, NextAt(items, k));
    var items' := Without(items, k);
    assert Chained(cells, items) by { LaidLinks(cells, at, items); }
    forall j | 0 <= j < |items'|
      ensures Linked(cells', items'[j], NextAt(items', j))
    {
      UnlinkedNeighbour(cells, cells', at, items, k, if j < k then j else j + 1, low, end);
    }
    assert Chained(cells', items');
    UnlinkedEnds(cells, at, items, k);
  }

  lemma LaidLinks(cells: Cells, at: nat, items: seq<Item>)
    requires IsLinks(cells, at)
    ensures Laid(cells, Item(at, items)) <==>
      cells[at].content.head == FirstAt(items) && cells[at].content.tail == LastAt(items) && Chained(cells, items)
  {
  }

  lemma UnlinkedEnds(cells: Cells, at: nat, items: seq<Item>, k: nat)
    requires IsLinks(cells, at) && Laid(cells, Item(at, items)) && k < |items|
    requires var cells' := Unlink(cells, at, PrevAt(items, k), items[k].at, NextAt(items, k));
             Chained(cells', Without(items, k))
    ensures Laid(Unlink(cells, at, PrevAt(items, k), items[k].at, NextAt(items, k)), Item(at, Without(items, k)))
  {
    if k > 0 {
      InChain(cells, items, k - 1);
    }
    if k + 1 < |items| {
      InChain(cells, items, k + 1);
    }
  }
}
