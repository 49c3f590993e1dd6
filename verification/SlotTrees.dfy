/** Changing one place of a document, in memory and in its image. */
module SlotTrees {
  import opened OwnedDocument
  import opened SlotMemory
  import opened SlotLists

  predicate IsTreePath(t: Item, path: seq<nat>)
    decreases |path|
  {
    path == [] || (path[0] < |t.items| && IsTreePath(t.items[path[0]], path[1..]))
  }

  function ItemAt(t: Item, path: seq<nat>): Item
    requires IsTreePath(t, path)
    decreases |path|
  {
    if path == [] then t else ItemAt(t.items[path[0]], path[1..])
  }

  function WithItems(t: Item, path: seq<nat>, items: seq<Item>): (r: Item)
    requires IsTreePath(t, path)
    ensures r.at == t.at
    decreases |path|
  {
    if path == [] then t.(items := items)
    else t.(items := t.items[path[0] := WithItems(t.items[path[0]], path[1..], items)])
  }

  /** A place in memory is the same place in the image. */
  lemma {:induction false} PlaceInside(text: string, cells: Cells, t: Item, path: seq<nat>)
    requires Laid(cells, t) && Apart(t) && IsTreePath(t, path)
    ensures IsPath(Image(text, cells, t), path)
    ensures var s := ItemAt(t, path);
            && Place(Image(text, cells, t), path) == Image(text, cells, s)
            && Laid(cells, s) && Apart(s) && s.at in Addrs(s)
            && Addrs(s) <= Addrs(t) && Refs(cells, s) <= Refs(cells, t)
            && (path != [] ==> s.at in AddrsOf(t.items))
    decreases |path|
  {
    if path != [] {
      var k := path[0];
      Step(cells, t, k);
      Split(cells, t.items, k);
      ImageStep(text, cells, t, k);
      PlaceInside(text, cells, t.items[k], path[1..]);
    }
  }

  lemma ImageStep(text: string, cells: Cells, t: Item, k: nat)
    requires IsLinks(cells, t.at) && k < |t.items|
    ensures var d := Image(text, cells, t);
            && d == Group(cells[t.at].content.obj, ImageSlots(text, cells, t.items))
            && d.slots[k] == ImageSlot(text, cells, t.items[k]) && d.slots[k].value == Image(text, cells, t.items[k])
  {
  }

  /** How memory may change for the item at a place to get other slots. */
  predicate Replaced(cells: Cells, cells': Cells, t: Item, s: Item, items: seq<Item>, root: bool) {
    && Laid(cells', Item(s.at, items))
    && Same(cells, cells', Addrs(t) - Addrs(s))
    && s.at in cells && s.at in cells'
    && (!root ==> cells'[s.at] == cells[s.at].(content := cells'[s.at].content))
  }

  lemma {:induction false} Planted(cells: Cells, cells': Cells, t: Item, path: seq<nat>, items: seq<Item>)
    requires Laid(cells, t) && Apart(t) && IsTreePath(t, path)
    requires Replaced(cells, cells', t, ItemAt(t, path), items, path == [])
    ensures Laid(cells', WithItems(t, path, items))
    ensures path != [] ==> t.at in cells && t.at in cells' && cells'[t.at] == cells[t.at]
    decreases |path|
  {
    hide Addrs, AddrsOf, Apart, ApartAll, Laid, Linked;
    if path != [] {
      var k := path[0];
      var child, s, r := t.items[k], ItemAt(t, path), WithItems(t, path, items);
      Step(cells, t, k);
      PlaceInside("", cells, child, path[1..]);
      ChildReplaced(cells, cells', t, k, s, items, path[1..] == []);
      Planted(cells, cells', child, path[1..], items);
      LaidLinks(cells, t.at, t.items);
      forall i | 0 <= i < |r.items|
        ensures Linked(cells', r.items[i], NextAt(r.items, i))
      {
        InChain(cells, t.items, i);
        assert NextAt(r.items, i) == NextAt(t.items, i);
        if i != k {
          Sibling(cells, cells', t, k, i, s, items, path[1..] == []);
        } else {
          StillLinked(cells, cells', child, r.items[k], NextAt(t.items, k));
        }
      }
      assert Chained(cells', r.items);
      LaidLinks(cells', t.at, r.items);
    }
  }

  lemma StillLinked(cells: Cells, cells': Cells, t: Item, t': Item, next: nat)
    requires Linked(cells, t, next) && Laid(cells', t') && t'.at == t.at && t.at in cells'
    requires t.at in cells && cells'[t.at].next == cells[t.at].next
    ensures Linked(cells', t', next)
  {
  }

  lemma Step(cells: Cells, t: Item, k: nat)
    requires Laid(cells, t) && Apart(t) && k < |t.items|
    ensures IsLinks(cells, t.at) && Chained(cells, t.items) && Laid(cells, t.items[k]) && Apart(t.items[k])
    ensures t.at !in Addrs(t.items[k]) && t.at in Addrs(t) && Addrs(t.items[k]) <= AddrsOf(t.items) <= Addrs(t)
    ensures t.items[k].at in Addrs(t.items[k])
  {
    LaidAt(cells, t);
    assert Chained(cells, t.items);
    InChain(cells, t.items, k);
    ItemInside(t.items, k);
  }

  lemma ChildReplaced(cells: Cells, cells': Cells, t: Item, k: nat, s: Item, items: seq<Item>, root: bool)
    requires Laid(cells, t) && Apart(t) && k < |t.items| && Addrs(s) <= Addrs(t.items[k])
    requires Replaced(cells, cells', t, s, items, false)
    ensures Replaced(cells, cells', t.items[k], s, items, root)
  {
    Step(cells, t, k);
  }

  lemma Sibling(cells: Cells, cells': Cells, t: Item, k: nat, i: nat, s: Item, items: seq<Item>, root: bool)
    requires Laid(cells, t) && Apart(t) && k < |t.items| && i < |t.items| && i != k && Addrs(s) <= Addrs(t.items[k])
    requires Replaced(cells, cells', t, s, items, false)
    ensures Linked(cells', t.items[i], NextAt(t.items, i)) && Same(cells, cells', Addrs(t.items[i]))
  {
    Step(cells, t, i);
    InChain(cells, t.items, i);
    ItemApart(t.items, i, k);
    RelinkedItem(cells, cells', t.items[i], NextAt(t.items, i), NextAt(t.items, i));
  }

  lemma {:induction false} PlantedImage(text: string, text': string, cells: Cells, cells': Cells, t: Item, path: seq<nat>, items: seq<Item>)
    requires Laid(cells, t) && Apart(t) && IsTreePath(t, path)
    requires Replaced(cells, cells', t, ItemAt(t, path), items, path == [])
    requires SameText(text, text', Refs(cells, t))
    ensures IsPath(Image(text, cells, t), path)
    ensures Image(text', cells', WithItems(t, path, items)) ==
            With(Image(text, cells, t), path, Image(text', cells', Item(ItemAt(t, path).at, items)))
    decreases |path|
  {
    if path == [] {
    } else {
      var k := path[0];
      var child, s, root := t.items[k], ItemAt(t, path), path[1..] == [];
      Step(cells, t, k);
      Split(cells, t.items, k);
      PlaceInside(text, cells, child, path[1..]);
      ChildReplaced(cells, cells', t, k, s, items, root);
      PlantedImage(text, text', cells, cells', child, path[1..], items);
      Planted(cells, cells', t, path, items);
      Planted(cells, cells', child, path[1..], items);
      LaidAt(cells, child);
      OneChild(text, text', cells, cells', t, k, WithItems(child, path[1..], items), s, items, root);
    }
  }

  /** The image after one child has changed. */
  lemma OneChild(text: string, text': string, cells: Cells, cells': Cells, t: Item, k: nat, child': Item, s: Item, items: seq<Item>, root: bool)
    requires Laid(cells, t) && Apart(t) && k < |t.items| && Addrs(s) <= Addrs(t.items[k])
    requires Replaced(cells, cells', t, s, items, false) && SameText(text, text', Refs(cells, t))
    requires child'.at == t.items[k].at && child'.at in cells && child'.at in cells'
    requires cells'[child'.at] == cells[child'.at] || s.at == child'.at
    requires t.at in cells' && cells'[t.at] == cells[t.at]
    ensures Image(text', cells', t.(items := t.items[k := child'])) ==
            Group(cells[t.at].content.obj, ImageSlots(text, cells, t.items)[k := ImageSlot(text, cells, t.items[k]).(value := Image(text', cells', child'))])
  {
    hide Laid, Image, Apart, Addrs;
    var r := t.(items := t.items[k := child']);
    Step(cells, t, k);
    assert SameText(text, text', RefsOf(cells, t.items));
    ChildKey(text, text', cells, cells', t.items, k, s);
    var after, before := ImageSlots(text', cells', r.items), ImageSlots(text, cells, t.items);
    forall i | 0 <= i < |r.items| && i != k
      ensures after[i] == before[i]
    {
      Sibling(cells, cells', t, k, i, s, items, root);
      SiblingImage(text, text', cells, cells', t.items, i);
    }
    assert after[k] == ImageSlot(text', cells', child') && before[k] == ImageSlot(text, cells, t.items[k]);
    assert after[k] == before[k].(value := Image(text', cells', child'));
    assert after == before[k := before[k].(value := Image(text', cells', child'))];
    ImageStep(text', cells', r, k);
  }

  lemma SiblingImage(text: string, text': string, cells: Cells, cells': Cells, items: seq<Item>, i: nat)
    requires i < |items| && Same(cells, cells', Addrs(items[i])) && SameText(text, text', RefsOf(cells, items))
    ensures ImageSlot(text', cells', items[i]) == ImageSlot(text, cells, items[i])
  {
    var t := items[i];
    Split(cells, items, i);
    assert t.at in Addrs(t);
    assert SlotRefs(cells, t) == KeyRefs(cells[t.at]) + Refs(cells, t);
    KeyElsewhere(text, text', cells[t.at]);
    ImageElsewhere(text, text', cells, cells', t);
  }

  lemma ChildKey(text: string, text': string, cells: Cells, cells': Cells, items: seq<Item>, k: nat, s: Item)
    requires k < |items| && items[k].at in cells && items[k].at in cells' && SameText(text, text', RefsOf(cells, items))
    requires var a := items[k].at; cells'[a] == cells[a] || (s.at == a && cells'[a] == cells[a].(content := cells'[a].content))
    ensures KeyOf(text', cells'[items[k].at]) == KeyOf(text, cells[items[k].at])
  {
    var t := items[k];
    Split(cells, items, k);
    assert SlotRefs(cells, t) == KeyRefs(cells[t.at]) + Refs(cells, t);
    KeyElsewhere(text, text', cells[t.at]);
  }

  // ----- the space a changed tree takes -----

  lemma {:induction false} PlantedAddrs(t: Item, path: seq<nat>, items: seq<Item>)
    requires Apart(t) && IsTreePath(t, path)
    requires var s := ItemAt(t, path); Apart(Item(s.at, items)) && AddrsOf(items) !! (Addrs(t) - AddrsOf(s.items))
    ensures Apart(WithItems(t, path, items))
    ensures Addrs(WithItems(t, path, items)) == (Addrs(t) - AddrsOf(ItemAt(t, path).items)) + AddrsOf(items)
    ensures AddrsOf(ItemAt(t, path).items) <= AddrsOf(t.items)
    decreases |path|
  {
    if path != [] {
      var k := path[0];
      var child, s := t.items[k], ItemAt(t, path);
      ItemInside(t.items, k);
      PlantedAddrs(child, path[1..], items);
      OtherChild(t, k, WithItems(child, path[1..], items), AddrsOf(s.items), AddrsOf(items));
      Split(map[], t.items, k);
    }
  }

  lemma OtherChild(t: Item, k: nat, child': Item, gone: set<nat>, come: set<nat>)
    requires Apart(t) && k < |t.items| && Apart(child') && gone <= Addrs(t.items[k]) && come !! (Addrs(t) - gone)
    requires Addrs(child') == (Addrs(t.items[k]) - gone) + come
    ensures Apart(t.(items := t.items[k := child']))
    ensures Addrs(t.(items := t.items[k := child'])) == (Addrs(t) - gone) + come
  {
    var r := t.items[k := child'];
    Split(map[], t.items, k);
    Split(map[], r, k);
    assert r[..k] == t.items[..k] && r[k + 1..] == t.items[k + 1..];
    var left, mid, right := AddrsOf(t.items[..k]), Addrs(t.items[k]), AddrsOf(t.items[k + 1..]);
    assert Addrs(t) == {t.at} + left + mid + right;
    hide Apart, ApartAll, Addrs, AddrsOf;
    assert left !! gone && right !! gone && t.at !in gone;
    assert come !! left && come !! right && t.at !in come;
    assert AddrsOf(r) == (left + mid + right - gone) + come;
  }

  lemma {:induction false} PlantedRefs(cells: Cells, cells': Cells, t: Item, path: seq<nat>, items: seq<Item>)
    requires Laid(cells, t) && Apart(t) && IsTreePath(t, path)
    requires Replaced(cells, cells', t, ItemAt(t, path), items, path == [])
    ensures Refs(cells', WithItems(t, path, items)) <= Refs(cells, t) + Refs(cells', Item(ItemAt(t, path).at, items))
    decreases |path|
  {
    if path != [] {
      var k := path[0];
      var child, s, r := t.items[k], ItemAt(t, path), WithItems(t, path, items);
      Step(cells, t, k);
      PlaceInside("", cells, child, path[1..]);
      ChildReplaced(cells, cells', t, k, s, items, path[1..] == []);
      PlantedRefs(cells, cells', child, path[1..], items);
      Planted(cells, cells', t, path, items);
      Planted(cells, cells', child, path[1..], items);
      LaidAt(cells, child);
      SiblingRefs(cells, cells', t, k, s, items);
      Split(cells, t.items, k);
      Split(cells', r.items, k);
      assert r.items[..k] == t.items[..k] && r.items[k + 1..] == t.items[k + 1..];
      assert KeyRefs(cells'[child.at]) == KeyRefs(cells[child.at]);
    }
  }

  lemma SiblingRefs(cells: Cells, cells': Cells, t: Item, k: nat, s: Item, items: seq<Item>)
    requires Laid(cells, t) && Apart(t) && k < |t.items| && Addrs(s) <= Addrs(t.items[k])
    requires Replaced(cells, cells', t, s, items, false)
    ensures RefsOf(cells', t.items[..k]) == RefsOf(cells, t.items[..k])
    ensures RefsOf(cells', t.items[k + 1..]) == RefsOf(cells, t.items[k + 1..])
  {
    Step(cells, t, k);
    Split(cells, t.items, k);
    RefsElsewhere(cells, cells', t.items[..k]);
    RefsElsewhere(cells, cells', t.items[k + 1..]);
  }
}
