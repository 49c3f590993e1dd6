/** The library's `operator==` on documents in memory: it is decided by the contents, except that a
    variant is equal to itself without a look at them. */
module DocumentComparison {
  import opened Document
  import opened DocumentEquality
  import opened OwnedDocument
  import opened StoredDocument
  import opened SlotMemory
  import opened SlotLists
  import opened SlotTrees
  import opened MemoryPool
  import opened CollectionData
  import opened PooledTree
  import opened JsonDocument

  // ----- the value of a document -----

  /** A document without the ownership of its strings. */
  function Bare(d: Doc): Value
    decreases d
  {
    match d
    case Atom(v) => v
    case Line(text) => Str(text.chars)
    case Group(obj, slots) => Wrap(obj, BareSlots(slots))
  }

  function BareSlots(slots: seq<DocSlot>): (r: seq<Slot>)
    ensures |r| == |slots|
    decreases slots
  {
    seq(|slots|, k requires 0 <= k < |slots| => BareSlot(slots[k]))
  }

  function BareSlot(slot: DocSlot): Slot
    decreases slot
  {
    if slot.key.Some? then Member(slot.key.value.chars, Bare(slot.value)) else Element(Bare(slot.value))
  }

  /** A key is looked up the same way. */
  lemma {:induction false} BareFind(slots: seq<DocSlot>, slot: DocSlot)
    ensures FindLike(BareSlots(slots), BareSlot(slot)) == FindKey(slots, KeyChars(slot))
  {
    if slots != [] {
      assert BareSlots(slots)[1..] == BareSlots(slots[1..]);
      BareFind(slots[1..], slot);
    }
  }

  // ----- variants that are compared -----

  /** Slots that the comparison of two variants brings together are different ones. */
  predicate NeverSame(s: Item, t: Item)
    decreases s
  {
    s.at != t.at && forall i, j :: 0 <= i < |s.items| && 0 <= j < |t.items| ==> NeverSame(s.items[i], t.items[j])
  }

  ghost predicate Comparable(cells: Cells, s: Item, t: Item) {
    Laid(cells, s) && Laid(cells, t) && Apart(s) && Apart(t) && (s.at == t.at || NeverSame(s, t))
  }

  lemma ComparableChild(cells: Cells, s: Item, t: Item, i: nat, j: nat)
    requires Comparable(cells, s, t) && s.at != t.at && i < |s.items| && j < |t.items|
    ensures Comparable(cells, s.items[i], t.items[j]) && s.items[i].at != t.items[j].at
  {
    Step(cells, s, i);
    Step(cells, t, j);
    assert NeverSame(s, t);
    assert NeverSame(s.items[i], t.items[j]);
  }

  // ----- comparing -----

  /** variantEquals, and VariantData::equals for different variants. */
  method VariantEquals(ram: Ram, a: nat, b: nat, ghost s: Item, ghost t: Item) returns (r: bool)
    requires Comparable(ram.cells, s, t) && s.at == a && t.at == b
    ensures r == (a == b || Equals(Bare(Image(ram.text, ram.cells, s)), Bare(Image(ram.text, ram.cells, t))))
    decreases s, 1
  {
    hide Chained, Apart, NeverSame, CStr;
    if a == b {
      return true;
    }
    LaidAt(ram.cells, s);
    LaidAt(ram.cells, t);
    var c, d := ram.cells[a].content, ram.cells[b].content;
    match c
    case Plain(v) =>
      return d.Plain? && EqualsPlain(v, d.v);
    case Chars(p, _) =>
      return d.Chars? && CStr(ram.text, p) == CStr(ram.text, d.p);
    case Links(obj, _, _) =>
      if !d.Links? || obj != d.obj {
        return false;
      }
      if obj {
        r := ObjectEquals(ram, a, b, s, t);
      } else {
        r := ArrayEquals(ram, a, b, s, t);
      }
  }

  /** equalsArray: both lists are walked until they meet, which they do only at their ends. */
  method ArrayEquals(ram: Ram, a: nat, b: nat, ghost s: Item, ghost t: Item) returns (r: bool)
    requires Comparable(ram.cells, s, t) && s.at == a && t.at == b && a != b && IsLinks(ram.cells, a) && IsLinks(ram.cells, b)
    ensures r == EqualsArray(BareSlots(ImageSlots(ram.text, ram.cells, s.items)), BareSlots(ImageSlots(ram.text, ram.cells, t.items)))
    decreases s, 0
  {
    hide Laid, Linked, Apart, ApartAll, Chained, NeverSame, CStr, Image, Bare, Comparable;
    ghost var m, n := BareSlots(ImageSlots(ram.text, ram.cells, s.items)), BareSlots(ImageSlots(ram.text, ram.cells, t.items));
    ListBegins(ram.cells, s, t);
    var s1, s2 := ram.cells[a].content.head, ram.cells[b].content.head;
    ghost var i := 0;
    assert m[0..] == m && n[0..] == n;
    while true
      invariant i <= |s.items| && i <= |t.items| && Comparable(ram.cells, s, t)
      invariant s1 == FirstAt(s.items[i..]) && (s1 == 0 <==> i == |s.items|)
      invariant s2 == FirstAt(t.items[i..]) && (s2 == 0 <==> i == |t.items|)
      invariant EqualsArray(m, n) == EqualsArray(m[i..], n[i..])
      decreases |s.items| - i
    {
      if s1 != 0 && s2 != 0 {
        ComparableChild(ram.cells, s, t, i, i);
      }
      if s1 == s2 {
        return true;
      }
      if s1 == 0 || s2 == 0 {
        return false;
      }
      NextSlot(ram.cells, s, i);
      NextSlot(ram.cells, t, i);
      ItemBare(ram.text, ram.cells, s.items, i);
      ItemBare(ram.text, ram.cells, t.items, i);
      var same := VariantEquals(ram, s1, s2, s.items[i], t.items[i]);
      assert m[i..][1..] == m[i + 1..] && n[i..][1..] == n[i + 1..];
      if !same {
        return false;
      }
      s1, s2 := Next(ram.cells[s1], s1), Next(ram.cells[s2], s2);
      i := i + 1;
    }
  }

  /** equalsObject: every member is looked up in the other object, and the sizes are compared. */
  method ObjectEquals(ram: Ram, a: nat, b: nat, ghost s: Item, ghost t: Item) returns (r: bool)
    requires Comparable(ram.cells, s, t) && s.at == a && t.at == b && a != b && IsLinks(ram.cells, a) && IsLinks(ram.cells, b)
    ensures var m, n := BareSlots(ImageSlots(ram.text, ram.cells, s.items)), BareSlots(ImageSlots(ram.text, ram.cells, t.items));
            r == (EqualsMembers(m, n) && |m| == |n|)
    decreases s, 0
  {
    hide Laid, Linked, Apart, ApartAll, Chained, NeverSame, CStr, Image, ImageSlot, Bare, BareSlot, Comparable, EqualsMembers, FindLike, FindKey, KeyChars;
    ghost var m, n := BareSlots(ImageSlots(ram.text, ram.cells, s.items)), BareSlots(ImageSlots(ram.text, ram.cells, t.items));
    ListBegins(ram.cells, s, t);
    var count, slot := 0, ram.cells[a].content.head;
    assert m[0..] == m;
    while slot != 0
      invariant count <= |s.items| && Comparable(ram.cells, s, t)
      invariant slot == FirstAt(s.items[count..]) && (slot == 0 <==> count == |s.items|)
      invariant EqualsMembers(m, n) == EqualsMembers(m[count..], n)
      decreases |s.items| - count
    {
      NextSlot(ram.cells, s, count);
      ItemBare(ram.text, ram.cells, s.items, count);
      MembersStep(ImageSlots(ram.text, ram.cells, s.items), ImageSlots(ram.text, ram.cells, t.items), count);
      var other, k := GetSlotNamed(ram, b, ram.cells[slot].key, t.items);
      if other == 0 {
        return false;
      }
      NextSlot(ram.cells, t, k);
      ItemBare(ram.text, ram.cells, t.items, k);
      ComparableChild(ram.cells, s, t, count, k);
      var same := VariantEquals(ram, slot, other, s.items[count], t.items[k]);
      if !same {
        return false;
      }
      slot := Next(ram.cells[slot], slot);
      count := count + 1;
    }
    NoMembers(m, count, n);
    var size := Size(ram, b, t.items);
    return count == size;
  }

  lemma MembersStep(s: seq<DocSlot>, t: seq<DocSlot>, i: nat)
    requires i < |s|
    ensures var m, n, k := BareSlots(s), BareSlots(t), FindKey(t, KeyChars(s[i]));
            EqualsMembers(m[i..], n) == (k < |n| && EqualsSlot(m[i], n[k].value) && EqualsMembers(m[i + 1..], n))
  {
    BareFind(t, s[i]);
    assert BareSlots(s)[i..][1..] == BareSlots(s)[i + 1..];
  }

  lemma NoMembers(m: seq<Slot>, i: nat, n: seq<Slot>)
    requires i == |m|
    ensures EqualsMembers(m[i..], n)
  {
  }

  lemma ListBegins(cells: Cells, s: Item, t: Item)
    requires Comparable(cells, s, t) && IsLinks(cells, s.at) && IsLinks(cells, t.at)
    ensures IsList(cells, s.at, s.items) && cells[s.at].content.head == FirstAt(s.items) && (FirstAt(s.items) == 0 <==> s.items == [])
    ensures IsList(cells, t.at, t.items) && cells[t.at].content.head == FirstAt(t.items) && (FirstAt(t.items) == 0 <==> t.items == [])
  {
    assert s == Item(s.at, s.items) && t == Item(t.at, t.items);
    if s.items != [] {
      Step(cells, s, 0);
      InChain(cells, s.items, 0);
    }
    if t.items != [] {
      Step(cells, t, 0);
      InChain(cells, t.items, 0);
    }
  }

  lemma NextSlot(cells: Cells, s: Item, i: nat)
    requires Laid(cells, s) && Apart(s) && i < |s.items|
    ensures s.items[i].at in cells && FirstAt(s.items[i..]) == s.items[i].at
    ensures Next(cells[s.items[i].at], s.items[i].at) == FirstAt(s.items[i + 1..])
    ensures FirstAt(s.items[i + 1..]) == 0 <==> i + 1 == |s.items|
  {
    Step(cells, s, i);
    InChain(cells, s.items, i);
    if i + 1 < |s.items| {
      InChain(cells, s.items, i + 1);
    }
  }

  lemma ItemBare(text: string, cells: Cells, items: seq<Item>, i: nat)
    requires i < |items| && items[i].at in cells
    ensures var slots := ImageSlots(text, cells, items);
            && BareSlots(slots)[i] == BareSlot(slots[i]) && slots[i] == ImageSlot(text, cells, items[i])
            && BareSlots(slots)[i].value == Bare(Image(text, cells, items[i]))
            && KeyChars(slots[i]) == NameAt(text, cells[items[i].at].key)
  {
  }

  // ----- places of documents -----

  lemma {:induction false} PlacesDiffer(t: Item, path: seq<nat>, from: seq<nat>)
    requires Apart(t) && IsTreePath(t, path) && IsTreePath(t, from) && path != from
    ensures ItemAt(t, path).at != ItemAt(t, from).at
    decreases |path|
  {
    if path == [] {
      AtRoot(t, from);
      assert ItemAt(t, from).at in Addrs(ItemAt(t, from));
    } else if from == [] {
      AtRoot(t, path);
      assert ItemAt(t, path).at in Addrs(ItemAt(t, path));
    } else {
      var i, j := path[0], from[0];
      ItemInside(t.items, i);
      ItemInside(t.items, j);
      if i == j {
        assert path == [i] + path[1..] && from == [i] + from[1..];
        PlacesDiffer(t.items[i], path[1..], from[1..]);
      } else {
        DeeperInside(t.items[i], path[1..]);
        DeeperInside(t.items[j], from[1..]);
        assert ItemAt(t, path).at in Addrs(ItemAt(t, path)) && ItemAt(t, from).at in Addrs(ItemAt(t, from));
        ItemApart(t.items, i, j);
      }
    }
  }

  /** Different places of a document, also one inside the other, share no slot at the same depth. */
  lemma {:induction false} PlacesNeverSame(t: Item, path: seq<nat>, from: seq<nat>)
    requires Apart(t) && IsTreePath(t, path) && IsTreePath(t, from) && path != from
    ensures NeverSame(ItemAt(t, path), ItemAt(t, from))
    decreases ItemAt(t, path)
  {
    var s, o := ItemAt(t, path), ItemAt(t, from);
    PlacesDiffer(t, path, from);
    forall i, j | 0 <= i < |s.items| && 0 <= j < |o.items|
      ensures NeverSame(s.items[i], o.items[j])
    {
      DeeperPath(t, path, i);
      DeeperPath(t, from, j);
      assert (path + [i])[..|path|] == path && (from + [j])[..|from|] == from;
      PlacesNeverSame(t, path + [i], from + [j]);
    }
  }

  lemma {:induction false} DisjointNeverSame(s: Item, t: Item)
    requires Addrs(s) !! Addrs(t) && Apart(s) && Apart(t)
    ensures NeverSame(s, t)
    decreases s
  {
    assert s.at in Addrs(s) && t.at in Addrs(t);
    forall i, j | 0 <= i < |s.items| && 0 <= j < |t.items|
      ensures NeverSame(s.items[i], t.items[j])
    {
      ItemInside(s.items, i);
      ItemInside(t.items, j);
      DisjointNeverSame(s.items[i], t.items[j]);
    }
  }

  /** Compares two places of a document: a place is equal to itself, different ones are compared by
      their contents. */
  method ComparePlaces(doc: JsonDocument, a: nat, b: nat, ghost path: seq<nat>, ghost from: seq<nat>) returns (r: bool)
    requires doc.Valid() && doc.Holds(a, path) && doc.Holds(b, from)
    ensures r == (path == from || Equals(Bare(Place(doc.Contents(), path)), Bare(Place(doc.Contents(), from))))
  {
    hide Image, Laid, Refs;
    Inside(doc.ram.text, doc.ram.cells, doc.tree, path, doc.pool.Bounds());
    Inside(doc.ram.text, doc.ram.cells, doc.tree, from, doc.pool.Bounds());
    if path != from {
      PlacesNeverSame(doc.tree, path, from);
      PlacesDiffer(doc.tree, path, from);
    }
    r := VariantEquals(doc.ram, a, b, ItemAt(doc.tree, path), ItemAt(doc.tree, from));
  }

  /** Two documents in the same memory, each with a block of its own. */
  ghost predicate Disjoint(doc: JsonDocument, other: JsonDocument)
    reads doc, doc.pool, other, other.pool
  {
    && other.ram == doc.ram && other.root != doc.root
    && (other.pool.end <= doc.pool.begin || doc.pool.end <= other.pool.begin)
    && !(other.pool.begin <= doc.root < other.pool.end) && !(doc.pool.begin <= other.root < doc.pool.end)
  }

  /** Compares documents: one that is compared with itself is equal, whatever it holds; two are
      compared by their contents. */
  method CompareDocuments(doc: JsonDocument, other: JsonDocument) returns (r: bool)
    requires doc.Valid() && other.Valid() && (doc == other || Disjoint(doc, other))
    ensures r == (doc == other || Equals(Bare(doc.Contents()), Bare(other.Contents())))
  {
    hide Image, Laid, Refs;
    if doc != other {
      Slots(doc);
      Slots(other);
      DisjointNeverSame(doc.tree, other.tree);
    }
    r := VariantEquals(doc.ram, doc.root, other.root, doc.tree, other.tree);
  }

  lemma Slots(doc: JsonDocument)
    requires doc.Valid()
    ensures forall a :: a in Addrs(doc.tree) ==> a == doc.root || doc.pool.begin <= a < doc.pool.end
  {
    assert Addrs(doc.tree) == {doc.root} + AddrsOf(doc.tree.items);
    assert forall a :: a in AddrsOf(doc.tree.items) ==> OnGrid(a, doc.pool.right, doc.pool.end);
  }

  /** Copies a document and compares it with its copy.  A complete copy is equal exactly when there
      is no NaN and all slots that repeat a key agree. */
  method CompareWithCopy(doc: JsonDocument, other: JsonDocument) returns (ok: bool, r: bool)
    requires doc.Valid() && other.Valid() && doc.Separate(other) && !(doc.pool.begin <= other.root < doc.pool.end)
    requires CopyFits(other.Contents(), doc.pool.Bounds().Capacity())
    modifies doc`tree, doc.pool, doc.ram
    ensures doc.Valid() && other.Valid() && other.Contents() == old(other.Contents())
    ensures ok == (Usage(old(other.Contents())) <= old(doc.pool.Bounds().Capacity()))
    ensures ok ==> r == RepeatsAgree(Bare(other.Contents()))
  {
    hide Sound, Image, Copy, Usage, RepeatsAgree, CopyFits, Laid;
    ok := doc.Set(other);
    CopyComplete(other.Contents(), doc.pool.Bounds().Capacity());
    r := CompareDocuments(doc, other);
    EqualsCopy(Bare(other.Contents()));
  }
}
