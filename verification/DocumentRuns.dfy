/** Runs of operations on a document in its pool. */
module DocumentRuns {
  import opened Document
  import opened OwnedDocument
  import opened StoredDocument
  import opened SlotMemory
  import opened SlotLists
  import opened SlotTrees
  import opened MemoryPool
  import opened CollectionData
  import opened PooledTree
  import opened JsonDocument

  /** What may be done at a place of a document; strings are given by their addresses. */
  datatype Command =
    | SetPlain(path: seq<nat>, v: Atomic)
    | Share(path: seq<nat>, p: nat)
    | Save(path: seq<nat>, p: nat)
    | Become(path: seq<nat>, obj: bool)
    | AddElement(path: seq<nat>)
    | GetOrAddElement(path: seq<nat>, index: nat)
    | GetOrAddMember(path: seq<nat>, key: nat, owned: bool)
    | RemoveElement(path: seq<nat>, index: nat)
    | RemoveMember(path: seq<nat>, key: nat)
    | CopyFrom(path: seq<nat>, from: seq<nat>)

  // ----- what the commands mean -----

  /** A document, or a part of it, and the room left in the pool. */
  datatype State = State(doc: Doc, room: nat)

  predicate IsGroup(e: Doc, obj: bool) { e.Group? && e.obj == obj }

  /** A null becomes a collection when something is added to it. */
  function AsGroup(e: Doc, obj: bool): Doc {
    if e == Atom(Null) then Group(obj, []) else e
  }

  function Outcome(r: Copied): State { State(r.doc, r.room) }

  /** The new value at the place of the command, and the room left. */
  function Effect(text: string, st: State, c: Command): State
    requires IsPath(st.doc, c.path)
  {
    var e, room := Place(st.doc, c.path), st.room;
    match c
    case SetPlain(_, v) => State(Atom(v), room)
    case Share(_, p) => State(if p == 0 then Atom(Null) else Line(Text(CStr(text, p), false)), room)
    case Save(_, p) => if p == 0 then State(Atom(Null), room) else Outcome(Copy(Line(Text(CStr(text, p), true)), room))
    case Become(_, obj) => State(Group(obj, []), room)
    case AddElement(_) =>
      var g := AsGroup(e, false);
      if IsGroup(g, false) then Outcome(GotElement(g, |g.slots|, room)) else State(e, room)
    case GetOrAddElement(_, index) =>
      var g := AsGroup(e, false);
      if IsGroup(g, false) then Outcome(GotElement(g, index, room)) else State(e, room)
    case GetOrAddMember(_, key, owned) =>
      var g := AsGroup(e, true);
      if IsGroup(g, true) then Outcome(GotMember(g, key != 0, Text(CStr(text, key), owned), room)) else State(e, room)
    case RemoveElement(_, index) => State(if IsGroup(e, false) then WithoutElement(e, index) else e, room)
    case RemoveMember(_, key) => State(if IsGroup(e, true) then WithoutKey(e, NameAt(text, key)) else e, room)
    case CopyFrom(_, from) =>
      if !IsPath(st.doc, from) then State(Atom(Null), room)
      else if from == c.path then Outcome(CopyOntoItself(e, room))
      else Outcome(Copy(Place(st.doc, from), room))
  }

  /** Nothing happens at a place that is not there. */
  function After(text: string, st: State, c: Command): State {
    if IsPath(st.doc, c.path) then
      var r := Effect(text, st, c);
      State(With(st.doc, c.path, r.doc), r.room)
    else st
  }

  function AfterAll(text: string, st: State, commands: seq<Command>): State {
    if commands == [] then st
    else After(text, AfterAll(text, st, commands[..|commands| - 1]), commands[|commands| - 1])
  }

  /** No value is copied into its own inside, and no element is removed from an empty array. */
  predicate Sensible(d: Doc, c: Command) {
    IsPath(d, c.path) ==>
      match c
      case RemoveElement(_, _) => Place(d, c.path) != Group(false, [])
      case CopyFrom(path, from) => IsPath(d, from) && from <= path ==> from == path
      case _ => true
  }

  predicate SensibleRun(text: string, st: State, commands: seq<Command>) {
    forall i :: 0 <= i < |commands| ==> Sensible(AfterAll(text, st, commands[..i]).doc, commands[i])
  }

  /** Every link that the command makes fits its 16 bits. */
  ghost predicate Linkable(doc: JsonDocument, s: Item, c: Command)
    requires doc.Valid() && IsPath(doc.Contents(), c.path)
    reads doc, doc.pool, doc.ram
  {
    var e, text := Place(doc.Contents(), c.path), doc.ram.text;
    match c
    case AddElement(_) => IsGroup(e, false) ==> doc.LinkFits(s.at)
    case GetOrAddElement(_, index) => IsGroup(e, false) && index >= |e.slots| ==> doc.LinkFits(s.at)
    case GetOrAddMember(_, key, _) => IsGroup(e, true) && key != 0 && FindKey(e.slots, NameAt(text, key)) == |e.slots| ==> doc.LinkFits(s.at)
    case RemoveElement(_, index) => IsGroup(e, false) && index < |s.items| ==> Bridged(s.items, index)
    case RemoveMember(_, key) =>
      IsGroup(e, true) ==> var k := FindKey(e.slots, NameAt(text, key)); k < |s.items| ==> Bridged(s.items, k)
    case CopyFrom(path, from) =>
      IsPath(doc.Contents(), from) && from != path ==> CopyFits(Place(doc.Contents(), from), doc.pool.right - doc.pool.left)
    case _ => true
  }

  ghost predicate Carried(doc: JsonDocument, c: Command)
    requires doc.Valid()
    reads doc, doc.pool, doc.ram
  {
    && Sensible(doc.Contents(), c)
    && (IsPath(doc.Contents(), c.path) && IsTreePath(doc.tree, c.path) ==> Linkable(doc, ItemAt(doc.tree, c.path), c))
  }

  /** In a pool of a mebibyte all sensible commands can be carried out. */
  lemma SmallPool(doc: JsonDocument, c: Command)
    requires doc.Valid() && doc.pool.end - doc.pool.begin <= REACH && Sensible(doc.Contents(), c)
    ensures Carried(doc, c)
  {
    if IsPath(doc.Contents(), c.path) && IsTreePath(doc.tree, c.path) {
      hide Sound, Image, FindKey, Place;
      var at := ItemAt(doc.tree, c.path).at;
      doc.GroupIsList(c.path);
      if Place(doc.Contents(), c.path).Group? {
        doc.FewSlotsFit(at, c.path);
      }
      if c.CopyFrom? && IsPath(doc.Contents(), c.from) {
        SmallFits(Place(doc.Contents(), c.from), doc.pool.right - doc.pool.left);
      }
    }
  }

  // ----- strings -----

  /** The strings of the commands lie outside the pool. */
  ghost predicate StringsForeign(doc: JsonDocument, commands: seq<Command>)
    reads doc, doc.pool, doc.ram
  {
    forall i :: 0 <= i < |commands| ==> StringForeign(doc, commands[i])
  }

  function StringOf(c: Command): nat {
    match c
    case Share(_, p) => p
    case Save(_, p) => p
    case GetOrAddMember(_, key, _) => key
    case RemoveMember(_, key) => key
    case _ => 0
  }

  ghost predicate StringForeign(doc: JsonDocument, c: Command)
    reads doc, doc.pool, doc.ram
  {
    StringOf(c) != 0 ==> doc.Foreign(StringOf(c))
  }

  lemma ForeignStays(text: string, text': string, p: nat, b: Extent, b': Extent)
    requires b.Valid() && b.end <= |text| && OnlyBlock(text, text', b, b')
    ensures Outside(text, p, b) ==> Outside(text', p, b') && CStr(text', p) == CStr(text, p)
  {
    if Outside(text, p, b) {
      OutsideStays(text, text', p, b, b.begin, b.end);
    }
  }

  lemma SameEffect(text: string, text': string, st: State, c: Command)
    requires StringOf(c) != 0 ==> CStr(text', StringOf(c)) == CStr(text, StringOf(c))
    ensures After(text', st, c) == After(text, st, c)
  {
  }

  // ----- places -----

  lemma {:induction false} PathStops(d: Doc, path: seq<nat>, i: nat)
    requires IsPath(d, path) && i < |path|
    ensures IsPath(d, path[..i]) && Place(d, path[..i]).Group? && path[i] < |Place(d, path[..i]).slots|
    decreases i
  {
    if i > 0 {
      PathStops(d.slots[path[0]].value, path[1..], i - 1);
      assert path[..i][1..] == path[1..][..i - 1];
    }
  }

  /** The variant at a place, or 0 if there is no such place. */
  method Locate(doc: JsonDocument, path: seq<nat>) returns (at: nat)
    requires doc.Valid()
    ensures at == 0 <==> !IsPath(doc.Contents(), path)
    ensures at != 0 ==> doc.Holds(at, path) && at in doc.ram.cells
  {
    hide Sound, Laid, Apart, Image, Place;
    at := doc.root;
    AtStart(doc);
    for i := 0 to |path|
      invariant at != 0 && at in doc.ram.cells && doc.Holds(at, path[..i])
    {
      if IsPath(doc.Contents(), path) {
        PathStops(doc.Contents(), path, i);
      }
      doc.GroupIsList(path[..i]);
      ghost var items := ItemAt(doc.tree, path[..i]).items;
      if !doc.ram.cells[at].content.Links? || doc.ram.cells[at].content.tail == 0 {
        return 0;
      }
      if path[i] < |items| {
        SlotIsThere(doc, path[..i], path[i]);
      }
      var slot := GetSlotAt(doc.ram, at, path[i], items);
      if slot == 0 {
        return 0;
      }
      doc.Child(path[..i], path[i]);
      assert path[..i + 1] == path[..i] + [path[i]];
      at := slot;
    }
    assert path[..|path|] == path;
  }

  lemma AtStart(doc: JsonDocument)
    requires doc.Valid()
    ensures doc.root != 0 && doc.root in doc.ram.cells && doc.Holds(doc.root, [])
  {
    Inside(doc.ram.text, doc.ram.cells, doc.tree, [], doc.pool.Bounds());
  }

  lemma SlotIsThere(doc: JsonDocument, path: seq<nat>, k: nat)
    requires doc.Valid() && IsTreePath(doc.tree, path) && k < |ItemAt(doc.tree, path).items|
    ensures ItemAt(doc.tree, path).items[k].at in doc.ram.cells && ItemAt(doc.tree, path).items[k].at != 0
  {
    Inside(doc.ram.text, doc.ram.cells, doc.tree, path, doc.pool.Bounds());
    InChain(doc.ram.cells, ItemAt(doc.tree, path).items, k);
  }

  // ----- carrying out a command -----

  /** Only characters of the block have changed, and it is where it was. */
  ghost predicate OnlyBlock(text: string, text': string, b: Extent, b': Extent) {
    b'.begin == b.begin && b'.end == b.end && Rewritten(text, text', b.begin, b.end)
  }

  ghost function Now(doc: JsonDocument): State
    requires doc.Valid()
    reads doc, doc.pool, doc.ram
  {
    State(doc.Contents(), doc.pool.right - doc.pool.left)
  }

  /** The document is what the command makes of it, or as before if the command is not carried
      out. */
  ghost predicate Executed(doc: JsonDocument, done: bool, text: string, st: State, b: Extent, c: Command)
    reads doc, doc.pool, doc.ram
  {
    && doc.Valid() && doc.IsTidy() && OnlyBlock(text, doc.ram.text, b, doc.pool.Bounds())
    && Now(doc) == if done then After(text, st, c) else st
  }

  /** setBoolean, setLinkedString, setOwnedString, toArray and their like. */
  method Assign(doc: JsonDocument, at: nat, c: Command)
    requires doc.Valid() && doc.IsTidy() && doc.Holds(at, c.path) && StringForeign(doc, c)
    requires c.SetPlain? || c.Share? || c.Save? || c.Become?
    modifies doc`tree, doc.pool, doc.ram
    ensures Executed(doc, true, old(doc.ram.text), old(Now(doc)), old(doc.pool.Bounds()), c)
  {
    hide Sound, Tidy, Laid, Image, Place, With, Outside, IsPath, ItemAt, IsTreePath, SameSpine, Refs, CStr;
    match c {
      case SetPlain(_, v) =>
        doc.SetAtom(at, v, c.path);
      case Share(_, p) =>
        doc.SetLinkedString(at, p, c.path);
      case Save(_, p) =>
        if p != 0 {
          HousedSettled(doc.ram.text, Ref(p, false), doc.pool.Bounds());
        }
        var ok := doc.SetOwnedString(at, p, c.path);
      case Become(_, obj) =>
        doc.ToCollection(at, obj, c.path);
    }
  }

  /** Makes a null an empty collection; tells whether there is a collection of that kind then. */
  method Collect(doc: JsonDocument, at: nat, obj: bool, path: seq<nat>) returns (ready: bool)
    requires doc.Valid() && doc.IsTidy() && doc.Holds(at, path) && at in doc.ram.cells
    modifies doc`tree, doc.ram`cells
    ensures doc.Valid() && doc.IsTidy() && doc.Holds(at, path) && at in doc.ram.cells
    ensures var g := AsGroup(Place(old(doc.Contents()), path), obj);
            doc.Contents() == With(old(doc.Contents()), path, g) && Place(doc.Contents(), path) == g && ready == IsGroup(g, obj)
    ensures ready ==> IsLinks(doc.ram.cells, at)
    ensures if Place(old(doc.Contents()), path) == Atom(Null) then doc.LinkFits(at) else doc.ram.cells == old(doc.ram.cells) && doc.tree == old(doc.tree)
  {
    hide Sound, Tidy, Laid, Place, With, Outside, IsPath, ItemAt, IsTreePath, SameSpine, Refs, Elsewhere;
    doc.GroupIsList(path);
    ContentShown(doc, at, path);
    WithTwice(doc.Contents(), path, Place(doc.Contents(), path), Place(doc.Contents(), path));
    if doc.ram.cells[at].content == Plain(Null) {
      WithPlace(doc.Contents(), path, Group(obj, []));
      doc.ToCollection(at, obj, path);
    }
    ready := doc.ram.cells[at].content.Links? && doc.ram.cells[at].content.obj == obj;
  }

  lemma ContentShown(doc: JsonDocument, at: nat, path: seq<nat>)
    requires doc.Valid() && doc.Holds(at, path) && at in doc.ram.cells
    ensures Place(doc.Contents(), path) == Atom(Null) <==> doc.ram.cells[at].content == Plain(Null)
    ensures forall obj :: IsGroup(Place(doc.Contents(), path), obj) <==> IsLinks(doc.ram.cells, at) && doc.ram.cells[at].content.obj == obj
  {
  }

  /** Whether the last slot of a collection can be linked to one more. */
  method TailFits(doc: JsonDocument, at: nat) returns (fits: bool)
    requires doc.Valid() && IsLinks(doc.ram.cells, at)
    ensures fits == doc.LinkFits(at)
  {
    var tail := doc.ram.cells[at].content.tail;
    fits := tail == 0 || doc.pool.right < doc.pool.left + SLOT_SIZE || InReach(tail, doc.pool.right - SLOT_SIZE);
  }

  /** VariantData::addElement. */
  method Append(doc: JsonDocument, at: nat, c: Command) returns (done: bool)
    requires doc.Valid() && doc.IsTidy() && doc.Holds(at, c.path) && at in doc.ram.cells && c.AddElement?
    modifies doc`tree, doc.pool, doc.ram
    ensures done == old(Carried(doc, c)) && Executed(doc, done, old(doc.ram.text), old(Now(doc)), old(doc.pool.Bounds()), c)
    ensures !done ==> unchanged(doc, doc.pool, doc.ram)
  {
    hide Sound, Tidy, Laid, Image, Place, With, Outside, IsPath, ItemAt, IsTreePath, SameSpine, Refs, CStr, Nulls, Elsewhere, LinkLast, WithItems, OnlyLinked;
    ghost var d := doc.Contents();
    var ready := Collect(doc, at, false, c.path);
    if !ready {
      return true;
    }
    ghost var g := Place(doc.Contents(), c.path);
    WithTwice(d, c.path, g, g);
    done := TailFits(doc, at);
    if done {
      OneElement(g, doc.pool.right - doc.pool.left);
      var slot := doc.AddElement(at, c.path);
      Rewrites(d, c.path, g);
    }
  }

  /** VariantData::getOrAddElement. */
  method AppendUpTo(doc: JsonDocument, at: nat, c: Command) returns (done: bool)
    requires doc.Valid() && doc.IsTidy() && doc.Holds(at, c.path) && at in doc.ram.cells && c.GetOrAddElement?
    modifies doc`tree, doc.pool, doc.ram
    ensures done == old(Carried(doc, c)) && Executed(doc, done, old(doc.ram.text), old(Now(doc)), old(doc.pool.Bounds()), c)
    ensures !done ==> unchanged(doc, doc.pool, doc.ram)
  {
    hide Sound, Tidy, Laid, Image, Place, With, Outside, IsPath, ItemAt, IsTreePath, SameSpine, GotElement, Refs, CStr, Nulls, Elsewhere, LinkLast, WithItems, OnlyLinked;
    ghost var d := doc.Contents();
    var ready := Collect(doc, at, false, c.path);
    if !ready {
      return true;
    }
    ghost var g := Place(doc.Contents(), c.path);
    WithTwice(d, c.path, g, g);
    var fits := TailFits(doc, at);
    var found, missing := doc.Seek(at, c.index, c.path);
    done := missing == 0 || fits;
    if done {
      var slot := doc.GetOrAddElement(at, c.index, c.path);
      Rewrites(d, c.path, g);
    }
  }

  /** What is written over a new value is written over the old one. */
  lemma Rewrites(d: Doc, path: seq<nat>, g: Doc)
    requires IsPath(d, path)
    ensures IsPath(With(d, path, g), path) && forall e :: With(With(d, path, g), path, e) == With(d, path, e)
  {
    forall e
      ensures IsPath(With(d, path, g), path) && With(With(d, path, g), path, e) == With(d, path, e)
    {
      WithTwice(d, path, g, e);
    }
  }

  lemma OneElement(g: Doc, room: nat)
    requires g.Group?
    ensures GotElement(g, |g.slots|, room) ==
            if room >= SLOT_SIZE then Copied.Copied(true, g.(slots := g.slots + [DocSlot(None, Atom(Null))]), room - SLOT_SIZE)
            else Copied.Copied(false, g, room)
  {
    assert g.slots + Nulls(0) == g.slots;
    assert Nulls(1) == [DocSlot(None, Atom(Null))];
  }

  /** VariantData::getOrAddMember. */
  method NameMember(doc: JsonDocument, at: nat, c: Command) returns (done: bool)
    requires doc.Valid() && doc.IsTidy() && doc.Holds(at, c.path) && at in doc.ram.cells && c.GetOrAddMember? && StringForeign(doc, c)
    modifies doc`tree, doc.pool, doc.ram
    ensures done == old(Carried(doc, c)) && Executed(doc, done, old(doc.ram.text), old(Now(doc)), old(doc.pool.Bounds()), c)
    ensures !done ==> unchanged(doc, doc.pool, doc.ram)
  {
    hide Sound, Tidy, Laid, Image, Place, With, Outside, IsPath, ItemAt, IsTreePath, SameSpine, Refs, CStr, Elsewhere, FindKey, Settled, Effect, GotMember;
    ghost var d := doc.Contents();
    MemberEffect(doc.ram.text, Now(doc), c);
    var ready := Collect(doc, at, true, c.path);
    if !ready {
      return true;
    }
    var fits := TailFits(doc, at);
    ghost var g := Place(doc.Contents(), c.path);
    WithTwice(d, c.path, g, g);
    if c.key != 0 {
      var found, k := doc.GetMember(at, c.key, c.path);
      if found == 0 && !fits {
        return false;
      }
      HousedSettled(doc.ram.text, Ref(c.key, false), doc.pool.Bounds());
    }
    var slot := doc.GetOrAddMember(at, c.key, c.owned, c.path);
    Rewrites(d, c.path, g);
    done := true;
  }

  lemma MemberEffect(text: string, st: State, c: Command)
    requires c.GetOrAddMember? && IsPath(st.doc, c.path)
    ensures var e, g := Place(st.doc, c.path), AsGroup(Place(st.doc, c.path), true);
            Effect(text, st, c) ==
            if IsGroup(g, true) then Outcome(GotMember(g, c.key != 0, Text(CStr(text, c.key), c.owned), st.room)) else State(e, st.room)
  {
  }

  /** Whether the link around a slot fits. */
  method BridgeFits(doc: JsonDocument, at: nat, slot: nat, ghost path: seq<nat>, ghost k: nat) returns (fits: bool)
    requires doc.Valid() && doc.Holds(at, path) && Place(doc.Contents(), path).Group?
    requires k < |ItemAt(doc.tree, path).items| && ItemAt(doc.tree, path).items[k].at == slot
    ensures fits == Bridged(ItemAt(doc.tree, path).items, k)
  {
    doc.GroupIsList(path);
    ghost var items := ItemAt(doc.tree, path).items;
    ListStarts(doc.ram.cells, at, items);
    hide Sound, Laid, Apart, Image, Linked, Chained;
    InChain(doc.ram.cells, items, k);
    var prev := GetPreviousSlot(doc.ram, at, slot, items, k);
    if k > 0 {
      InChain(doc.ram.cells, items, k - 1);
    }
    fits := prev == 0 || InReach(prev, Next(doc.ram.cells[slot], slot));
  }

  /** VariantData::remove, of an element or of a member. */
  method Remove(doc: JsonDocument, at: nat, c: Command) returns (done: bool)
    requires doc.Valid() && doc.IsTidy() && doc.Holds(at, c.path) && at in doc.ram.cells && (c.RemoveElement? || c.RemoveMember?)
    modifies doc`tree, doc.ram`cells
    ensures done == old(Carried(doc, c)) && Executed(doc, done, old(doc.ram.text), old(Now(doc)), old(doc.pool.Bounds()), c)
    ensures !done ==> unchanged(doc, doc.pool, doc.ram)
  {
    hide Sound, Tidy, Laid, Image, Place, With, Outside, IsPath, ItemAt, IsTreePath, SameSpine, Refs, CStr, Elsewhere, FindKey;
    ghost var d := doc.Contents();
    doc.GroupIsList(c.path);
    ContentShown(doc, at, c.path);
    WithTwice(d, c.path, Place(d, c.path), Place(d, c.path));
    var content := doc.ram.cells[at].content;
    if !content.Links? || content.obj != c.RemoveMember? {
      return true;
    }
    done := true;
    match c {
      case RemoveElement(_, index) =>
        if content.tail == 0 {
          return false;
        }
        if index < |ItemAt(doc.tree, c.path).items| {
          SlotIsThere(doc, c.path, index);
        }
        var slot := GetSlotAt(doc.ram, at, index, ItemAt(doc.tree, c.path).items);
        if slot != 0 {
          done := BridgeFits(doc, at, slot, c.path, index);
        }
        if done {
          doc.RemoveElement(at, index, c.path);
        }
      case RemoveMember(_, key) =>
        var slot, k := doc.GetMember(at, key, c.path);
        if slot != 0 {
          done := BridgeFits(doc, at, slot, c.path, k);
        }
        if done {
          doc.RemoveMember(at, key, c.path);
        }
    }
  }

  /** Whether every link of a copy will fit, and how far the copy will get: whether it is complete,
      the room left, and then the slots it takes. */
  method WillFit(ram: Ram, src: nat, room: nat, ghost s: Item) returns (fits: bool, ok: bool, rest: nat, n: nat)
    requires Laid(ram.cells, s) && Apart(s) && s.at == src
    ensures var d := Image(ram.text, ram.cells, s);
            fits == CopyFits(d, room) && ok == Copy(d, room).ok && rest == Copy(d, room).room && (ok ==> n == SlotCount(d))
    decreases s, 1
  {
    LaidAt(ram.cells, s);
    fits, ok, rest, n := true, true, room, 0;
    match ram.cells[src].content
    case Plain(_) =>
    case Chars(p, owned) =>
      var need := if owned then |CStr(ram.text, p)| + 1 else 0;
      ok := need <= room;
      rest := if ok then room - need else room;
    case Links(_, _, _) =>
      GroupImage(ram.text, ram.cells, s, room);
      fits, ok, rest, n := ListWillFit(ram, src, room, s);
  }

  method ListWillFit(ram: Ram, src: nat, room: nat, ghost s: Item) returns (fits: bool, ok: bool, rest: nat, n: nat)
    requires Laid(ram.cells, s) && Apart(s) && s.at == src && IsLinks(ram.cells, src)
    ensures var slots := ImageSlots(ram.text, ram.cells, s.items);
            var r := CopySlots(slots, [], room);
            fits == LinksFit(slots, 0, room) && ok == r.ok && rest == r.room && (ok ==> n == SlotsCount(slots))
    decreases s, 0
  {
    hide Laid, Apart, Image, ImageSlots, ImageSlot, CStr, LinksFit, SlotFits, CopySlots, CopySlot, SlotsCount, ValueCount, FirstAt;
    ghost var slots := ImageSlots(ram.text, ram.cells, s.items);
    ListHead(ram.cells, s);
    var slot, since: nat := ram.cells[src].content.head, 0;
    ghost var i: nat, done := 0, [];
    assert slots[0..] == slots && s.items[0..] == s.items;
    fits, ok, rest, n := true, true, room, 0;
    while slot != 0 && ok
      invariant i <= |slots| && slot == FirstAt(s.items[i..]) && (slot == 0 <==> i == |slots|)
      invariant CopySlots(slots, [], room) == if ok then CopySlots(slots[i..], done, rest) else SlotsCopied(false, done, rest)
      invariant LinksFit(slots, 0, room) == (fits && (ok ==> LinksFit(slots[i..], since, rest)))
      invariant ok ==> n == SlotsCount(slots) - SlotsCount(slots[i..])
      decreases |slots| - i
    {
      ghost var one := CopySlot(slots[i], done, rest);
      NextItem(ram.text, ram.cells, s, i);
      NextCopy(slots, i, since, done, rest);
      var f;
      f, ok, rest, since := SlotWillFit(ram, slot, since, rest, done, s.items[i]);
      fits := fits && f;
      if ok {
        n := n + since;
      }
      done := one.slots;
      slot := Next(ram.cells[slot], slot);
      i := i + 1;
    }
    NothingLeft(slots, i, since, done, rest);
  }

  /** The same for one slot, and the count of the slots from it on. */
  method SlotWillFit(ram: Ram, slot: nat, since: nat, room: nat, ghost done: seq<DocSlot>, ghost t: Item) returns (fits: bool, ok: bool, rest: nat, next: nat)
    requires Laid(ram.cells, t) && Apart(t) && t.at == slot && slot in ram.cells
    ensures var one := CopySlot(ImageSlot(ram.text, ram.cells, t), done, room);
            && fits == SlotFits(ImageSlot(ram.text, ram.cells, t), since, room)
            && ok == one.ok && rest == one.room && (ok ==> next == 1 + ValueCount(ImageSlot(ram.text, ram.cells, t)))
    decreases t, 2
  {
    hide Laid, Apart, Image, CStr, CopyFits;
    if room < SLOT_SIZE {
      return true, false, room, 0;
    }
    fits, rest := since <= MAX_SPAN, room - SLOT_SIZE;
    var cell := ram.cells[slot];
    var need := if cell.key != 0 && cell.ownsKey then |CStr(ram.text, cell.key)| + 1 else 0;
    if rest < need {
      return fits, false, rest, 0;
    }
    var f, n;
    f, ok, rest, n := WillFit(ram, slot, rest - need, t);
    fits, next := fits && f, n + 1;
  }

  lemma GroupImage(text: string, cells: Cells, s: Item, room: nat)
    requires Laid(cells, s) && IsLinks(cells, s.at)
    ensures var d, slots := Image(text, cells, s), ImageSlots(text, cells, s.items);
            && CopyFits(d, room) == LinksFit(slots, 0, room) && SlotCount(d) == SlotsCount(slots)
            && Copy(d, room).ok == CopySlots(slots, [], room).ok && Copy(d, room).room == CopySlots(slots, [], room).room
  {
  }

  lemma ListHead(cells: Cells, s: Item)
    requires Laid(cells, s) && IsLinks(cells, s.at)
    ensures cells[s.at].content.head == FirstAt(s.items) && (FirstAt(s.items) == 0 <==> s.items == [])
  {
    if s.items != [] {
      InChain(cells, s.items, 0);
    }
  }

  lemma NextItem(text: string, cells: Cells, s: Item, i: nat)
    requires Laid(cells, s) && Apart(s) && i < |s.items|
    ensures var t := s.items[i];
            && Laid(cells, t) && Apart(t) && t.at in cells && FirstAt(s.items[i..]) == t.at
            && ImageSlots(text, cells, s.items)[i] == ImageSlot(text, cells, t)
            && Next(cells[t.at], t.at) == FirstAt(s.items[i + 1..]) && (FirstAt(s.items[i + 1..]) == 0 <==> i + 1 == |s.items|)
  {
    Step(cells, s, i);
    InChain(cells, s.items, i);
    if i + 1 < |s.items| {
      InChain(cells, s.items, i + 1);
    }
  }

  lemma NothingLeft(slots: seq<DocSlot>, i: nat, since: nat, done: seq<DocSlot>, room: nat)
    ensures i == |slots| ==>
      CopySlots(slots[i..], done, room) == SlotsCopied(true, done, room) && LinksFit(slots[i..], since, room) && SlotsCount(slots[i..]) == 0
  {
  }

  /** variantCopyFrom; without a source the value becomes null. */
  method CopyTo(doc: JsonDocument, at: nat, c: Command) returns (done: bool)
    requires doc.Valid() && doc.IsTidy() && doc.Holds(at, c.path) && c.CopyFrom?
    modifies doc`tree, doc.pool, doc.ram
    ensures done == old(Carried(doc, c)) && Executed(doc, done, old(doc.ram.text), old(Now(doc)), old(doc.pool.Bounds()), c)
    ensures !done ==> unchanged(doc, doc.pool, doc.ram)
  {
    hide Sound, Tidy, Laid, Image, Place, With, Outside, IsPath, ItemAt, IsTreePath, SameSpine, Refs, CStr, Copy, CopyFits, Apart;
    var src := Locate(doc, c.from);
    if src == 0 {
      doc.SetAtom(at, Null, c.path);
      return true;
    }
    if c.from == c.path {
      var ok := doc.CopyOnto(at, c.path);
      return true;
    }
    if c.from <= c.path {
      return false;
    }
    ghost var s := ItemAt(doc.tree, c.from);
    Inside(doc.ram.text, doc.ram.cells, doc.tree, c.from, doc.pool.Bounds());
    var ok, rest, n;
    done, ok, rest, n := WillFit(doc.ram, src, doc.pool.right - doc.pool.left, s);
    if done {
      ok := doc.CopyWithin(at, src, c.path, c.from);
    }
  }

  /** Carries out a command, unless it makes no sense or a link does not fit: the document and the
      room left are what the command means. */
  method Execute(doc: JsonDocument, c: Command) returns (done: bool)
    requires doc.Valid() && doc.IsTidy() && StringForeign(doc, c)
    modifies doc`tree, doc.pool, doc.ram
    ensures done == old(Carried(doc, c)) && Executed(doc, done, old(doc.ram.text), old(Now(doc)), old(doc.pool.Bounds()), c)
    ensures !done ==> unchanged(doc, doc.pool, doc.ram)
  {
    hide Sound, Tidy, Laid, Image, Place, With, IsPath, ItemAt, IsTreePath, Effect;
    var at := Locate(doc, c.path);
    done := true;
    if at == 0 {
      return;
    }
    match c {
      case SetPlain(_, _) => Assign(doc, at, c);
      case Share(_, _) => Assign(doc, at, c);
      case Save(_, _) => Assign(doc, at, c);
      case Become(_, _) => Assign(doc, at, c);
      case AddElement(_) => done := Append(doc, at, c);
      case GetOrAddElement(_, _) => done := AppendUpTo(doc, at, c);
      case GetOrAddMember(_, _, _) => done := NameMember(doc, at, c);
      case RemoveElement(_, _) => done := Remove(doc, at, c);
      case RemoveMember(_, _) => done := Remove(doc, at, c);
      case CopyFrom(_, _) => done := CopyTo(doc, at, c);
    }
  }

  lemma Ends(doc: JsonDocument)
    requires doc.Valid()
    ensures doc.pool.Bounds().Valid() && doc.pool.end <= |doc.ram.text|
  {
  }

  ghost predicate StringsKept(text: string, text': string, commands: seq<Command>) {
    forall i :: 0 <= i < |commands| && StringOf(commands[i]) != 0 ==> CStr(text', StringOf(commands[i])) == CStr(text, StringOf(commands[i]))
  }

  lemma StringsStay(text: string, text': string, b: Extent, b': Extent, start: string, doc: JsonDocument, commands: seq<Command>)
    requires b.Valid() && b.end <= |text| && OnlyBlock(text, text', b, b') && StringsKept(start, text, commands)
    requires doc.ram.text == text' && doc.pool.Bounds() == b'
    requires forall i :: 0 <= i < |commands| && StringOf(commands[i]) != 0 ==> Outside(text, StringOf(commands[i]), b)
    ensures StringsForeign(doc, commands) && StringsKept(start, text', commands)
  {
    forall i | 0 <= i < |commands| && StringOf(commands[i]) != 0
      ensures Outside(text', StringOf(commands[i]), b') && CStr(text', StringOf(commands[i])) == CStr(text, StringOf(commands[i]))
    {
      ForeignStays(text, text', StringOf(commands[i]), b, b');
    }
  }

  /** Carries out commands, up to the first one that makes no sense or whose links do not fit; in a
      pool of a mebibyte links always fit.  The document and the room left are what the commands
      mean.  The document stays tidy: what is live is counted by the pool, and a copy into a block
      of the same capacity has room for all of it. */
  method Run(doc: JsonDocument, commands: seq<Command>) returns (n: nat)
    requires doc.Valid() && doc.IsTidy() && StringsForeign(doc, commands)
    modifies doc`tree, doc.pool, doc.ram
    ensures doc.Valid() && doc.IsTidy() && doc.pool.begin == old(doc.pool.begin) && doc.pool.end == old(doc.pool.end)
    ensures n <= |commands| && Now(doc) == AfterAll(old(doc.ram.text), old(Now(doc)), commands[..n])
    ensures n < |commands| ==> !Carried(doc, commands[n])
    ensures doc.pool.end - doc.pool.begin <= REACH && SensibleRun(old(doc.ram.text), old(Now(doc)), commands) ==> n == |commands|
    ensures Usage(doc.Contents()) <= doc.pool.Bounds().Size() <= doc.pool.Bounds().Capacity()
    ensures Copy(doc.Contents(), doc.pool.Bounds().Capacity()).doc == doc.Contents()
  {
    hide Sound, Laid, Image, Outside, Usage, Copy, After, Carried, Sensible;
    ghost var start, b, st := doc.ram.text, doc.pool.Bounds(), Now(doc);
    n := 0;
    var done := true;
    while n < |commands| && done
      invariant doc.Valid() && doc.IsTidy() && OnlyBlock(start, doc.ram.text, b, doc.pool.Bounds())
      invariant n <= |commands| && Now(doc) == AfterAll(start, st, commands[..n])
      invariant StringsForeign(doc, commands) && StringsKept(start, doc.ram.text, commands)
      invariant !done ==> n < |commands| && !Carried(doc, commands[n])
      invariant !done && b.Capacity() <= REACH ==> !Sensible(AfterAll(start, st, commands[..n]).doc, commands[n])
      decreases |commands| - n, done
    {
      ghost var text, b1 := doc.ram.text, doc.pool.Bounds();
      Ends(doc);
      if Sensible(doc.Contents(), commands[n]) && doc.pool.end - doc.pool.begin <= REACH {
        SmallPool(doc, commands[n]);
      }
      done := Execute(doc, commands[n]);
      StringsStay(text, doc.ram.text, b1, doc.pool.Bounds(), start, doc, commands);
      if done {
        SameEffect(start, text, AfterAll(start, st, commands[..n]), commands[n]);
        assert commands[..n + 1][..n] == commands[..n];
        n := n + 1;
      }
    }
    CopySame(doc.Contents(), doc.pool.Bounds().Capacity());
  }
}
