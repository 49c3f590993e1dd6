/** What access by key and by index, removal and truncated copies leave of a collection. */
module DocumentLaws {
  import opened Document
  import opened OwnedDocument
  import opened StoredDocument
  import opened DocumentRuns

  // ----- access by key -----

  predicate Present(slots: seq<DocSlot>, name: string) {
    exists k :: 0 <= k < |slots| && KeyChars(slots[k]) == Some(name)
  }

  /** The value of the first member with that name is e. */
  ghost predicate Looks(slots: seq<DocSlot>, name: string, e: Doc) {
    exists k :: 0 <= k < |slots| && KeyChars(slots[k]) == Some(name) && slots[k].value == e && !Present(slots[..k], name)
  }

  lemma FindPresent(slots: seq<DocSlot>, name: string)
    ensures var k := FindKey(slots, Some(name));
            && (k < |slots| <==> Present(slots, name))
            && (k < |slots| ==> Looks(slots, name, slots[k].value) && !Present(slots[..k], name))
  {
    var k := FindKey(slots, Some(name));
    assert forall i :: 0 <= i < k ==> KeyChars(slots[..k][i]) != Some(name);
  }

  /** Getting or adding a member changes no slot that is there.  A member that is there is given back
      as it is; else a null is added behind all others, exactly when the name is not null and slot
      and name fit. */
  lemma MemberGot(g: Doc, named: bool, key: Text, room: nat)
    requires g.Group?
    ensures var r := GotMember(g, named, key, room);
            && r.doc.Group? && r.doc.obj == g.obj && g.slots <= r.doc.slots
            && (r.ok <==> named && (Present(g.slots, key.chars) || SLOT_SIZE + TextUsage(key) <= room))
            && (r.ok ==> Present(r.doc.slots, key.chars))
            && (r.ok && Present(g.slots, key.chars) ==> r.doc == g && r.room == room)
            && (r.ok && !Present(g.slots, key.chars) ==>
                  r.doc.slots == g.slots + [DocSlot(Some(key), Atom(Null))] && Looks(r.doc.slots, key.chars, Atom(Null)))
            && (!r.ok ==> r.doc == g)
            && Usage(g) + room - (if r.ok then 0 else SLOT_SIZE) <= Usage(r.doc) + r.room <= Usage(g) + room
    ensures forall name, e :: Looks(g.slots, name, e) ==> Looks(GotMember(g, named, key, room).doc.slots, name, e)
  {
    var r := GotMember(g, named, key, room);
    FindPresent(g.slots, key.chars);
    if r.doc != g {
      var slot := DocSlot(Some(key), Atom(Null));
      UsageConcat(g.slots, [slot]);
      OneUsage(slot);
      assert r.doc.slots[|g.slots|] == slot && r.doc.slots[..|g.slots|] == g.slots;
    }
    forall name, e | Looks(g.slots, name, e)
      ensures Looks(r.doc.slots, name, e)
    {
      var k :| 0 <= k < |g.slots| && KeyChars(g.slots[k]) == Some(name) && g.slots[k].value == e && !Present(g.slots[..k], name);
      assert r.doc.slots[..k] == g.slots[..k] && r.doc.slots[k] == g.slots[k];
    }
  }

  /** A removed name is found no more if it was there once, and all other names are found as before. */
  lemma KeyRemoved(g: Doc, name: string)
    requires g.Group?
    ensures var r := WithoutKey(g, Some(name));
            && r.Group? && r.obj == g.obj && |r.slots| == |g.slots| - (if Present(g.slots, name) then 1 else 0)
            && (!Present(g.slots, name) ==> r == g)
    ensures forall other, e :: other != name && Looks(g.slots, other, e) ==> Looks(WithoutKey(g, Some(name)).slots, other, e)
    ensures (forall i, j :: 0 <= i < j < |g.slots| && KeyChars(g.slots[i]) == Some(name) ==> KeyChars(g.slots[j]) != Some(name)) ==>
              !Present(WithoutKey(g, Some(name)).slots, name)
  {
    var k, r := FindKey(g.slots, Some(name)), WithoutKey(g, Some(name));
    FindPresent(g.slots, name);
    if k == |g.slots| {
      return;
    }
    forall other, e | other != name && Looks(g.slots, other, e)
      ensures Looks(r.slots, other, e)
    {
      KeyStays(g.slots, k, other, e);
    }
    assert r.slots == g.slots[..k] + g.slots[k + 1..];
    assert forall i :: 0 <= i < |r.slots| ==> r.slots[i] == g.slots[if i < k then i else i + 1];
  }

  lemma KeyStays(slots: seq<DocSlot>, k: nat, other: string, e: Doc)
    requires k < |slots| && KeyChars(slots[k]) != Some(other) && Looks(slots, other, e)
    ensures Looks(slots[..k] + slots[k + 1..], other, e)
  {
    var rest := slots[..k] + slots[k + 1..];
    var i :| 0 <= i < |slots| && KeyChars(slots[i]) == Some(other) && slots[i].value == e && !Present(slots[..i], other);
    var j := if i < k then i else i - 1;
    assert rest[j] == slots[i];
    forall m | 0 <= m < j
      ensures KeyChars(rest[..j][m]) != Some(other)
    {
      var n := if m < k then m else m + 1;
      assert KeyChars(slots[..i][n]) != Some(other);
      assert rest[..j][m] == slots[n];
    }
  }

  // ----- access by index -----

  /** Getting or adding an element changes no slot that is there, and adds no more nulls than it must;
      without room it fills what there is. */
  lemma ElementGot(g: Doc, index: nat, room: nat)
    requires g.Group?
    ensures var r := GotElement(g, index, room);
            && r.doc.Group? && r.doc.obj == g.obj && g.slots <= r.doc.slots
            && (forall k :: |g.slots| <= k < |r.doc.slots| ==> r.doc.slots[k] == DocSlot(None, Atom(Null)))
            && (r.ok <==> index < |r.doc.slots|)
            && (index < |g.slots| ==> r.doc == g && r.room == room)
            && (r.ok && index >= |g.slots| ==> |r.doc.slots| == index + 1)
            && (!r.ok ==> r.room < SLOT_SIZE)
            && room - r.room == SLOT_SIZE * (|r.doc.slots| - |g.slots|)
  {
    var r := GotElement(g, index, room);
    assert room / SLOT_SIZE * SLOT_SIZE + room % SLOT_SIZE == room;
  }

  /** The others keep their order. */
  lemma ElementRemoved(g: Doc, index: nat)
    requires g.Group?
    ensures var r := WithoutElement(g, index);
            && r.Group? && r.obj == g.obj
            && (index >= |g.slots| ==> r == g)
            && (index < |g.slots| ==>
              && |r.slots| == |g.slots| - 1
              && (forall k :: 0 <= k < index ==> r.slots[k] == g.slots[k])
              && (forall k :: index <= k < |r.slots| ==> r.slots[k] == g.slots[k + 1]))
  {
  }

  // ----- copies that are cut off -----

  /** What may be left of a value when its copy is cut off: all slots but the last are complete. */
  predicate Cut(c: Doc, d: Doc)
    decreases d
  {
    match d
    case Atom(_) => c == d
    case Line(_) => c == d || c == Atom(Null)
    case Group(obj, slots) =>
      && c.Group? && c.obj == obj && |c.slots| <= |slots|
      && forall k :: 0 <= k < |c.slots| ==> if k + 1 < |c.slots| then c.slots[k] == slots[k] else SlotCut(c.slots[k], slots[k])
  }

  predicate SlotCut(c: DocSlot, slot: DocSlot)
    decreases slot
  {
    c.key == slot.key && Cut(c.value, slot.value)
  }

  /** Some owned string of the value is too long for this room. */
  predicate TooLong(d: Doc, room: nat)
    decreases d
  {
    match d
    case Atom(_) => false
    case Line(text) => TextUsage(text) > room
    case Group(_, slots) => exists k :: 0 <= k < |slots| && SlotTooLong(slots[k], room)
  }

  predicate SlotTooLong(slot: DocSlot, room: nat)
    decreases slot
  {
    KeyUsage(slot.key) > room || TooLong(slot.value, room)
  }

  /** A copy that is not complete is the original cut off; it stops only when a slot or a string does
      not fit, and at most one slot of the room it took is not used. */
  lemma {:induction false} CopyCut(d: Doc, room: nat)
    ensures var r := Copy(d, room);
            && Cut(r.doc, d) && (r.ok ==> r.doc == d)
            && (!r.ok ==> r.room < SLOT_SIZE || TooLong(d, r.room))
            && room - SLOT_SIZE <= Usage(r.doc) + r.room <= room
    decreases d
  {
    CutWhole(d);
    CopyComplete(d, room);
    CopyAccounted(d, room);
    if d.Group? {
      assert [] + d.slots == d.slots;
      CopySlotsCut(d.obj, d.slots, 0, room);
      assert d.slots[0..] == d.slots && d.slots[..0] == [];
    }
  }

  lemma {:induction false} CutWhole(d: Doc)
    ensures Cut(d, d)
    decreases d
  {
    if d.Group? && d.slots != [] {
      var k := |d.slots| - 1;
      CutWhole(d.slots[k].value);
      assert SlotCut(d.slots[k], d.slots[k]);
    }
  }

  lemma {:induction false} CopySlotsCut(obj: bool, slots: seq<DocSlot>, i: nat, room: nat)
    requires i <= |slots|
    ensures var r := CopySlots(slots[i..], slots[..i], room);
            && Cut(Group(obj, r.slots), Group(obj, slots))
            && (!r.ok ==> r.room < SLOT_SIZE || exists k :: i <= k < |slots| && SlotTooLong(slots[k], r.room))
            && SlotsUsage(slots[..i]) + room - SLOT_SIZE <= SlotsUsage(r.slots) + r.room
    decreases slots[i..], 1
  {
    hide CopySlot, Cut, SlotTooLong, SlotsUsage;
    if i == |slots| {
      CutWhole(Group(obj, slots));
      assert slots[..i] == slots && slots[i..] == [];
    } else {
      NextCopy(slots, i, 0, slots[..i], room);
      OneSlotCut(obj, slots, i, room);
      var one := CopySlot(slots[i], slots[..i], room);
      if one.ok {
        CopySlotsCut(obj, slots, i + 1, one.room);
      }
    }
  }

  lemma {:induction false} OneSlotCut(obj: bool, slots: seq<DocSlot>, i: nat, room: nat)
    requires i < |slots|
    ensures var one := CopySlot(slots[i], slots[..i], room);
            && (one.ok ==> one.slots == slots[..i + 1] && SlotsUsage(one.slots) + one.room == SlotsUsage(slots[..i]) + room)
            && (!one.ok ==> Cut(Group(obj, one.slots), Group(obj, slots)) && (one.room < SLOT_SIZE || SlotTooLong(slots[i], one.room))
                            && SlotsUsage(slots[..i]) + room - SLOT_SIZE <= SlotsUsage(one.slots) + one.room)
    decreases slots[i..], 0
  {
    hide CopyValue, KeyUsage;
    FirstSlots(obj, slots, i);
    if room >= SLOT_SIZE && room - SLOT_SIZE >= KeyUsage(slots[i].key) {
      var rest := room - SLOT_SIZE - KeyUsage(slots[i].key);
      var copy := DocSlot(slots[i].key, CopyValue(slots[i], rest).doc);
      CopyValueCut(slots[i], rest);
      CopyValueComplete(slots[i], rest);
      UsageConcat(slots[..i], [copy]);
      OneUsage(copy);
      assert CopyValue(slots[i], rest).ok ==> slots[..i] + [copy] == slots[..i + 1];
      assert SlotCut(copy, slots[i]);
    }
  }

  lemma FirstSlots(obj: bool, slots: seq<DocSlot>, i: nat)
    requires i <= |slots|
    ensures Cut(Group(obj, slots[..i]), Group(obj, slots))
  {
    if i > 0 {
      CutWhole(slots[i - 1].value);
      assert SlotCut(slots[i - 1], slots[i - 1]);
    }
  }

  lemma {:induction false} CopyValueCut(slot: DocSlot, room: nat)
    ensures var r := CopyValue(slot, room);
            && Cut(r.doc, slot.value) && (!r.ok ==> r.room < SLOT_SIZE || TooLong(slot.value, r.room))
            && room - SLOT_SIZE <= Usage(r.doc) + r.room <= room
    decreases slot
  {
    CopyCut(slot.value, room);
  }

  // ----- the rest of the document -----

  /** Changing one place leaves every other one that is not on the way to it, also the slots below
      that stay in front. */
  lemma {:induction false} OtherPlaces(d: Doc, path: seq<nat>, e: Doc, q: seq<nat>)
    requires IsPath(d, path) && IsPath(d, q) && !(q <= path)
    requires path <= q ==> e.Group? && Place(d, path).Group? && Place(d, path).slots <= e.slots
    ensures IsPath(With(d, path, e), q) && Place(With(d, path, e), q) == Place(d, q)
    decreases |path|
  {
    if path != [] && path[0] == q[0] {
      assert path == [path[0]] + path[1..] && q == [q[0]] + q[1..];
      OtherPlaces(d.slots[path[0]].value, path[1..], e, q[1..]);
    }
  }

  /** Adding to a collection, by index or by key, changes no value that is in the document already. */
  lemma AddingKeeps(text: string, st: State, c: Command, q: seq<nat>)
    requires c.AddElement? || c.GetOrAddElement? || c.GetOrAddMember?
    requires IsPath(st.doc, q) && !(q <= c.path)
    ensures IsPath(After(text, st, c).doc, q) && Place(After(text, st, c).doc, q) == Place(st.doc, q)
  {
    if IsPath(st.doc, c.path) {
      var e := Place(st.doc, c.path);
      if c.path <= q {
        Below(st.doc, c.path, q);
      }
      if c.GetOrAddMember? {
        var g := AsGroup(e, true);
        if g.Group? {
          MemberGot(g, c.key != 0, Text(CStr(text, c.key), c.owned), st.room);
        }
      }
      OtherPlaces(st.doc, c.path, Effect(text, st, c).doc, q);
    }
  }

  lemma {:induction false} Below(d: Doc, path: seq<nat>, q: seq<nat>)
    requires IsPath(d, path) && IsPath(d, q) && path <= q && path != q
    ensures Place(d, path).Group?
    decreases |path|
  {
    if path != [] {
      Below(d.slots[path[0]].value, path[1..], q[1..]);
    }
  }

  /** A collection on the way to a place that changes keeps its slots and their keys, and all values but
      the one on the way. */
  lemma {:induction false} OnTheWay(d: Doc, path: seq<nat>, e: Doc, n: nat)
    requires IsPath(d, path) && n < |path|
    ensures IsPath(d, path[..n]) && IsPath(With(d, path, e), path[..n])
    ensures var a, b, k := Place(d, path[..n]), Place(With(d, path, e), path[..n]), path[n];
            && a.Group? && b.Group? && b.obj == a.obj && |b.slots| == |a.slots| && k < |a.slots|
            && forall i :: 0 <= i < |a.slots| ==> b.slots[i].key == a.slots[i].key && (i != k ==> b.slots[i] == a.slots[i])
    decreases |path|
  {
    if n > 0 {
      OnTheWay(d.slots[path[0]].value, path[1..], e, n - 1);
      assert path[..n] == [path[0]] + path[1..][..n - 1];
    }
  }

  /** The string at p: the characters up to a NUL or the end. */
  lemma {:induction false} StringAt(text: string, p: nat)
    ensures var t := CStr(text, p);
            && (p <= |text| ==> p + |t| <= |text| && t == text[p..p + |t|] && (p + |t| < |text| ==> text[p + |t|] == '\0')) && NulFree(t)
            && (p > |text| ==> t == "")
    decreases |text| - p
  {
    if p < |text| && text[p] != '\0' {
      StringAt(text, p + 1);
    }
  }

  /** What a string at p becomes when it is stored: nothing for a null pointer, and null if there is no
      room for it and its NUL. */
  predicate Stored(text: string, p: nat, owned: bool, room: nat, d: Doc, left: nat) {
    var t := CStr(text, p);
    if p == 0 || (owned && |t| >= room) then d == Atom(Null) && left == room
    else d == Line(Text(t, owned)) && left == if owned then room - |t| - 1 else room
  }

  /** What is at the place of a command afterwards, and the room that is left; adding makes a collection
      of a null, and what is no collection of the kind stays. */
  predicate Done(text: string, st: State, c: Command, r: State)
    requires IsPath(st.doc, c.path) && IsPath(r.doc, c.path)
  {
    var e, d, kept := Place(st.doc, c.path), Place(r.doc, c.path), r == st;
    match c
    case SetPlain(_, v) => d == Atom(v) && r.room == st.room
    case Share(_, p) => Stored(text, p, false, st.room, d, r.room)
    case Save(_, p) => Stored(text, p, true, st.room, d, r.room)
    case Become(_, obj) => d == Group(obj, []) && r.room == st.room
    case AddElement(_) =>
      if e != Atom(Null) && !IsGroup(e, false) then kept
      else
        && IsGroup(d, false) && |d.slots| == (if e.Group? then |e.slots| else 0) + (if st.room >= SLOT_SIZE then 1 else 0)
        && (st.room >= SLOT_SIZE ==> d.slots[|d.slots| - 1] == DocSlot(None, Atom(Null)) && r.room == st.room - SLOT_SIZE)
    case GetOrAddElement(_, index) =>
      if e != Atom(Null) && !IsGroup(e, false) then kept else IsGroup(d, false) && (|d.slots| > index || r.room < SLOT_SIZE)
    case GetOrAddMember(_, key, owned) =>
      if e != Atom(Null) && !IsGroup(e, true) then kept
      else IsGroup(d, true) && (key != 0 && SLOT_SIZE + |CStr(text, key)| < st.room ==> Present(d.slots, CStr(text, key)))
    case RemoveElement(_, index) => if IsGroup(e, false) then d == WithoutElement(e, index) && r.room == st.room else kept
    case RemoveMember(_, key) =>
      if IsGroup(e, true) then d == WithoutKey(e, if key == 0 then None else Some(CStr(text, key))) && r.room == st.room else kept
    case CopyFrom(_, from) =>
      if !IsPath(st.doc, from) then d == Atom(Null) && r.room == st.room
      else if from == c.path && e.Group? then d == Group(e.obj, []) && r.room == st.room
      else Cut(d, Place(st.doc, from)) && (Usage(Place(st.doc, from)) <= st.room ==> d == Place(st.doc, from))
  }

  lemma PlaceAfter(text: string, st: State, c: Command)
    requires IsPath(st.doc, c.path)
    ensures IsPath(After(text, st, c).doc, c.path) && Done(text, st, c, After(text, st, c))
  {
    var e, room := Place(st.doc, c.path), st.room;
    WithPlace(st.doc, c.path, Effect(text, st, c).doc);
    WithTwice(st.doc, c.path, e, e);
    match c
    case GetOrAddMember(_, key, owned) =>
      var g := AsGroup(e, true);
      if g.Group? {
        MemberGot(g, key != 0, Text(CStr(text, key), owned), room);
      }
    case GetOrAddElement(_, index) =>
      var g := AsGroup(e, false);
      if g.Group? {
        ElementGot(g, index, room);
      }
    case AddElement(_) =>
      var g := AsGroup(e, false);
      if g.Group? {
        ElementGot(g, |g.slots|, room);
      }
    case CopyFrom(_, from) =>
      if IsPath(st.doc, from) {
        CopyCut(Place(st.doc, from), room);
        CopyComplete(Place(st.doc, from), room);
      }
    case _ =>
  }
}
