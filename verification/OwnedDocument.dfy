/** Documents with the ownership of their strings, which decides what a copy costs: the copy of
    an owned string goes into the pool, a linked string is shared. */
module OwnedDocument {
  import opened Document

  /** A value that takes no memory but its variant. */
  type Atomic = v: Value | !v.Str? && !v.Arr? && !v.Obj? witness Null

  datatype Text = Text(chars: string, owned: bool)

  datatype Doc =
    | Atom(v: Atomic)
    | Line(text: Text)
    | Group(obj: bool, slots: seq<DocSlot>)

  datatype DocSlot = DocSlot(key: Option<Text>, value: Doc)

  function KeyChars(slot: DocSlot): Option<string> {
    if slot.key.Some? then Some(slot.key.value.chars) else None
  }

  /** The position of the first slot with that key, or without a key; or |slots|. */
  function FindKey(slots: seq<DocSlot>, name: Option<string>): (k: nat)
    ensures k <= |slots|
    ensures k < |slots| ==> KeyChars(slots[k]) == name
    ensures forall i :: 0 <= i < k ==> KeyChars(slots[i]) != name
  {
    if slots == [] then 0
    else if KeyChars(slots[0]) == name then 0
    else
      assert forall i :: 0 < i < |slots| ==> slots[i] == slots[1..][i - 1];
      1 + FindKey(slots[1..], name)
  }

  /** What getOrAddMember comes to: whether there is such a member, the object, and the room left.
      When the copy of a new key does not fit, the slot for it stays taken. */
  function GotMember(g: Doc, named: bool, key: Text, room: nat): Copied
    requires g.Group?
  {
    if !named then Copied(false, g, room)
    else if FindKey(g.slots, Some(key.chars)) < |g.slots| then Copied(true, g, room)
    else if room < SLOT_SIZE then Copied(false, g, room)
    else if room - SLOT_SIZE < TextUsage(key) then Copied(false, g, room - SLOT_SIZE)
    else Copied(true, g.(slots := g.slots + [DocSlot(Some(key), Atom(Null))]), room - SLOT_SIZE - TextUsage(key))
  }

  /** What getOrAddElement comes to: nulls are added as far as there is room. */
  function GotElement(g: Doc, index: nat, room: nat): (r: Copied)
    requires g.Group?
    ensures r.doc.Group? && g.slots <= r.doc.slots
    ensures r.ok <==> index < |r.doc.slots|
  {
    var missing, fit := if index < |g.slots| then 0 else index + 1 - |g.slots|, room / SLOT_SIZE;
    var added := if missing <= fit then missing else fit;
    Copied(missing <= fit, g.(slots := g.slots + Nulls(added)), room - SLOT_SIZE * added)
  }

  function Nulls(n: nat): (r: seq<DocSlot>)
    ensures |r| == n
  {
    seq(n, _ => DocSlot(None, Atom(Null)))
  }

  function WithoutElement(g: Doc, index: nat): Doc
    requires g.Group?
  {
    if index < |g.slots| then g.(slots := g.slots[..index] + g.slots[index + 1..]) else g
  }

  function WithoutKey(g: Doc, name: Option<string>): Doc
    requires g.Group?
  {
    WithoutElement(g, FindKey(g.slots, name))
  }

  // ----- live memory -----

  function TextUsage(t: Text): nat {
    if t.owned then |t.chars| + 1 else 0
  }

  function KeyUsage(key: Option<Text>): nat {
    if key.Some? then TextUsage(key.value) else 0
  }

  /** What memoryUsage() counts: a slot for each element or member, and the owned strings. */
  function Usage(d: Doc): nat
    decreases d
  {
    match d
    case Atom(_) => 0
    case Line(text) => TextUsage(text)
    case Group(_, slots) => SlotsUsage(slots)
  }

  function SlotUsage(slot: DocSlot): nat
    decreases slot
  {
    SLOT_SIZE + KeyUsage(slot.key) + Usage(slot.value)
  }

  function SlotsUsage(slots: seq<DocSlot>): nat
    decreases slots
  {
    if slots == [] then 0 else SlotUsage(slots[0]) + SlotsUsage(slots[1..])
  }

  /** The slots of a value. */
  function SlotCount(d: Doc): nat
    decreases d
  {
    match d
    case Group(_, slots) => SlotsCount(slots)
    case _ => 0
  }

  function SlotsCount(slots: seq<DocSlot>): nat
    decreases slots
  {
    if slots == [] then 0 else 1 + ValueCount(slots[0]) + SlotsCount(slots[1..])
  }

  function ValueCount(slot: DocSlot): nat
    decreases slot
  {
    SlotCount(slot.value)
  }

  /** No value but the last one of a collection has 2^15 slots; see `CompleteFits`. */
  predicate Shortlinked(d: Doc)
    decreases d
  {
    d.Group? ==> SlotsShortlinked(d.slots, 0)
  }

  predicate SlotsShortlinked(slots: seq<DocSlot>, i: nat)
    decreases slots, 1
  {
    forall k :: i <= k < |slots| ==> SlotShortlinked(slots, k)
  }

  predicate SlotShortlinked(slots: seq<DocSlot>, k: nat)
    requires k < |slots|
    decreases slots, 0
  {
    (k + 1 < |slots| ==> ValueCount(slots[k]) < MAX_SPAN) && ValueShortlinked(slots[k])
  }

  predicate ValueShortlinked(slot: DocSlot)
    decreases slot
  {
    Shortlinked(slot.value)
  }

  const MAX_SPAN: nat := 0x8000

  lemma UsageConcat(a: seq<DocSlot>, b: seq<DocSlot>)
    ensures SlotsUsage(a + b) == SlotsUsage(a) + SlotsUsage(b)
  {
    if a == [] {
      assert a + b == b;
    } else {
      assert (a + b)[1..] == a[1..] + b;
      UsageConcat(a[1..], b);
    }
  }

  lemma OneUsage(slot: DocSlot)
    ensures SlotsUsage([slot]) == SlotUsage(slot)
  {
    assert [slot][1..] == [];
  }

  lemma UsageSplit(slots: seq<DocSlot>, k: nat)
    requires k < |slots|
    ensures SlotsUsage(slots) == SlotsUsage(slots[..k]) + SlotUsage(slots[k]) + SlotsUsage(slots[k + 1..])
  {
    assert slots == slots[..k] + slots[k..];
    UsageConcat(slots[..k], slots[k..]);
    assert slots[k..][1..] == slots[k + 1..];
  }

  // ----- places in a document -----

  predicate IsPath(d: Doc, path: seq<nat>)
    decreases |path|
  {
    path == [] || (d.Group? && path[0] < |d.slots| && IsPath(d.slots[path[0]].value, path[1..]))
  }

  function Place(d: Doc, path: seq<nat>): Doc
    requires IsPath(d, path)
    decreases |path|
  {
    if path == [] then d else Place(d.slots[path[0]].value, path[1..])
  }

  /** The document with another value at a place. */
  function With(d: Doc, path: seq<nat>, e: Doc): Doc
    requires IsPath(d, path)
    decreases |path|
  {
    if path == [] then e
    else d.(slots := d.slots[path[0] := d.slots[path[0]].(value := With(d.slots[path[0]].value, path[1..], e))])
  }

  lemma {:induction false} WithUsage(d: Doc, path: seq<nat>, e: Doc)
    requires IsPath(d, path)
    ensures Usage(With(d, path, e)) == Usage(d) - Usage(Place(d, path)) + Usage(e)
    decreases |path|
  {
    if path != [] {
      var k := path[0];
      WithUsage(d.slots[k].value, path[1..], e);
      var r := With(d, path, e);
      UsageSplit(d.slots, k);
      UsageSplit(r.slots, k);
      assert r.slots[..k] == d.slots[..k] && r.slots[k + 1..] == d.slots[k + 1..];
    }
  }

  lemma {:induction false} WithPlace(d: Doc, path: seq<nat>, e: Doc)
    requires IsPath(d, path)
    ensures IsPath(With(d, path, e), path) && Place(With(d, path, e), path) == e
    decreases |path|
  {
    if path != [] {
      WithPlace(d.slots[path[0]].value, path[1..], e);
    }
  }

  lemma {:induction false} WithTwice(d: Doc, path: seq<nat>, e: Doc, e': Doc)
    requires IsPath(d, path)
    ensures IsPath(With(d, path, e), path) && With(With(d, path, e), path, e') == With(d, path, e')
    ensures With(d, path, Place(d, path)) == d
    decreases |path|
  {
    if path != [] {
      WithTwice(d.slots[path[0]].value, path[1..], e, e');
    }
  }

  /** Changing the k-th slot of the collection at a place. */
  lemma {:induction false} WithDeeper(d: Doc, path: seq<nat>, k: nat, e: Doc)
    requires IsPath(d, path) && Place(d, path).Group? && k < |Place(d, path).slots|
    ensures IsPath(d, path + [k]) && Place(d, path + [k]) == Place(d, path).slots[k].value
    ensures var g := Place(d, path);
            With(d, path + [k], e) == With(d, path, g.(slots := g.slots[k := g.slots[k].(value := e)]))
    decreases |path|
  {
    if path == [] {
      assert (path + [k])[1..] == [];
    } else {
      assert (path + [k])[1..] == path[1..] + [k];
      WithDeeper(d.slots[path[0]].value, path[1..], k, e);
    }
  }

  // ----- copying -----

  datatype Copied = Copied(ok: bool, doc: Doc, room: nat)

  datatype SlotsCopied = SlotsCopied(ok: bool, slots: seq<DocSlot>, room: nat)

  /** A deep copy into a pool with the given room; when the room runs out the copy stops with
      what it has. */
  function Copy(d: Doc, room: nat): (r: Copied)
    ensures r.room <= room
    decreases d
  {
    match d
    case Atom(_) => Copied(true, d, room)
    case Line(text) =>
      if TextUsage(text) <= room then Copied(true, d, room - TextUsage(text))
      else Copied(false, Atom(Null), room)
    case Group(obj, slots) =>
      var r := CopySlots(slots, [], room);
      Copied(r.ok, Group(obj, r.slots), r.room)
  }

  /** A collection that is copied onto itself is empty when its first slot is looked for. */
  function CopyOntoItself(d: Doc, room: nat): Copied {
    if d.Group? then Copied(true, d.(slots := []), room) else Copy(d, room)
  }

  function CopySlots(slots: seq<DocSlot>, done: seq<DocSlot>, room: nat): (r: SlotsCopied)
    ensures r.room <= room
    decreases slots
  {
    if slots == [] then SlotsCopied(true, done, room)
    else
      var one := CopySlot(slots[0], done, room);
      if !one.ok then one else CopySlots(slots[1..], one.slots, one.room)
  }

  /** The copy of one slot after the others; when its key does not fit it is unlinked again, but
      its memory stays taken. */
  function CopySlot(slot: DocSlot, done: seq<DocSlot>, room: nat): (r: SlotsCopied)
    ensures r.room <= room
    decreases slot, 1
  {
    if room < SLOT_SIZE then SlotsCopied(false, done, room)
    else if room - SLOT_SIZE < KeyUsage(slot.key) then SlotsCopied(false, done, room - SLOT_SIZE)
    else
      var v := CopyValue(slot, room - SLOT_SIZE - KeyUsage(slot.key));
      SlotsCopied(v.ok, done + [DocSlot(slot.key, v.doc)], v.room)
  }

  function CopyValue(slot: DocSlot, room: nat): (r: Copied)
    ensures r.room <= room
    decreases slot, 0
  {
    Copy(slot.value, room)
  }

  /** A copy is complete exactly when the live memory of the original fits. */
  lemma {:induction false} CopyComplete(d: Doc, room: nat)
    ensures var r := Copy(d, room);
            && (r.ok <==> Usage(d) <= room)
            && (r.ok ==> r.doc == d && r.room == room - Usage(d))
    decreases d
  {
    match d
    case Group(obj, slots) =>
      CopySlotsComplete(slots, [], room);
      assert [] + slots == slots;
    case _ =>
  }

  lemma {:induction false} CopySlotsComplete(slots: seq<DocSlot>, done: seq<DocSlot>, room: nat)
    ensures var r := CopySlots(slots, done, room);
            && (r.ok <==> SlotsUsage(slots) <= room)
            && (r.ok ==> r.slots == done + slots && r.room == room - SlotsUsage(slots))
    decreases slots
  {
    if slots != [] {
      var key := slots[0].key;
      var one := CopySlot(slots[0], done, room);
      if room >= SLOT_SIZE + KeyUsage(key) {
        CopyValueComplete(slots[0], room - SLOT_SIZE - KeyUsage(key));
        CopySlotsComplete(slots[1..], one.slots, one.room);
        assert one.ok ==> done + [slots[0]] + slots[1..] == done + slots;
      }
    } else {
      assert done + slots == done;
    }
  }

  lemma {:induction false} CopyValueComplete(slot: DocSlot, room: nat)
    ensures var r := CopyValue(slot, room);
            && (r.ok <==> Usage(slot.value) <= room)
            && (r.ok ==> r.doc == slot.value && r.room == room - Usage(slot.value))
    decreases slot
  {
    CopyComplete(slot.value, room);
  }

  /** Whatever was copied is live in the room that was taken. */
  lemma {:induction false} CopyAccounted(d: Doc, room: nat)
    ensures Usage(Copy(d, room).doc) + Copy(d, room).room <= room
    decreases d
  {
    match d
    case Group(obj, slots) => CopySlotsAccounted(slots, [], room);
    case _ =>
  }

  lemma {:induction false} CopySlotsAccounted(slots: seq<DocSlot>, done: seq<DocSlot>, room: nat)
    ensures var r := CopySlots(slots, done, room); SlotsUsage(r.slots) + r.room <= SlotsUsage(done) + room
    decreases slots
  {
    if slots != [] {
      var key := slots[0].key;
      if room >= SLOT_SIZE + KeyUsage(key) {
        var v, one := CopyValue(slots[0], room - SLOT_SIZE - KeyUsage(key)), CopySlot(slots[0], done, room);
        CopyValueAccounted(slots[0], room - SLOT_SIZE - KeyUsage(key));
        UsageConcat(done, [DocSlot(key, v.doc)]);
        CopySlotsAccounted(slots[1..], one.slots, one.room);
      }
    }
  }

  lemma {:induction false} CopyValueAccounted(slot: DocSlot, room: nat)
    ensures Usage(CopyValue(slot, room).doc) + CopyValue(slot, room).room <= room
    decreases slot
  {
    CopyAccounted(slot.value, room);
  }

  /** A copy is the same document exactly when the live memory of the original fits. */
  lemma CopySame(d: Doc, room: nat)
    ensures Copy(d, room).doc == d <==> Usage(d) <= room
    ensures Usage(d) <= room ==> Copy(d, room).room == room - Usage(d)
  {
    CopyComplete(d, room);
    CopyAccounted(d, room);
  }

  // ----- the links of a copy -----

  /** Every link that the copy makes spans at most 2^15 slots, and so fits its 16 bits: the copy puts
      the slots of each value right after its own slot. */
  predicate CopyFits(d: Doc, room: nat)
    decreases d
  {
    d.Group? ==> LinksFit(d.slots, 0, room)
  }

  /** `since` counts the slots from the last one of the collection on; it is 0 if there is none. */
  predicate LinksFit(slots: seq<DocSlot>, since: nat, room: nat)
    decreases slots
  {
    slots != [] ==>
      && SlotFits(slots[0], since, room)
      && var one := CopySlot(slots[0], [], room);
         one.ok ==> LinksFit(slots[1..], 1 + ValueCount(slots[0]), one.room)
  }

  predicate SlotFits(slot: DocSlot, since: nat, room: nat)
    decreases slot, 1
  {
    room >= SLOT_SIZE ==>
      && since <= MAX_SPAN
      && (KeyUsage(slot.key) <= room - SLOT_SIZE ==> ValueFits(slot, room - SLOT_SIZE - KeyUsage(slot.key)))
  }

  predicate ValueFits(slot: DocSlot, room: nat)
    decreases slot, 0
  {
    CopyFits(slot.value, room)
  }

  /** One slot is copied, and then the others. */
  lemma NextCopy(slots: seq<DocSlot>, i: nat, since: nat, done: seq<DocSlot>, room: nat)
    requires i < |slots|
    ensures var one := CopySlot(slots[i], done, room);
            && CopySlots(slots[i..], done, room) == (if !one.ok then one else CopySlots(slots[i + 1..], one.slots, one.room))
            && LinksFit(slots[i..], since, room) ==
               (SlotFits(slots[i], since, room) && (one.ok ==> LinksFit(slots[i + 1..], 1 + ValueCount(slots[i]), one.room)))
            && SlotsCount(slots[i..]) == 1 + ValueCount(slots[i]) + SlotsCount(slots[i + 1..])
  {
    assert slots[i..][1..] == slots[i + 1..];
  }

  /** The links of a complete copy fit exactly when no value but the last one of a collection has
      2^15 slots. */
  lemma {:induction false} CompleteFits(d: Doc, room: nat)
    requires Usage(d) <= room
    ensures CopyFits(d, room) <==> Shortlinked(d)
    decreases d
  {
    if d.Group? {
      assert d.slots[0..] == d.slots;
      CompleteLinksFit(d.slots, 0, 0, room);
    }
  }

  lemma {:induction false} CompleteLinksFit(slots: seq<DocSlot>, i: nat, since: nat, room: nat)
    requires i <= |slots| && SlotsUsage(slots[i..]) <= room
    ensures LinksFit(slots[i..], since, room) <==>
            (i < |slots| ==> since <= MAX_SPAN) && SlotsShortlinked(slots, i)
    decreases slots[i..]
  {
    if i < |slots| {
      var rest := room - SLOT_SIZE - KeyUsage(slots[i].key);
      assert slots[i..][1..] == slots[i + 1..];
      ValueCompleteFits(slots[i], rest);
      CopyValueComplete(slots[i], rest);
      CompleteLinksFit(slots, i + 1, 1 + ValueCount(slots[i]), rest - Usage(slots[i].value));
      assert SlotsUsage(slots[i..]) == SlotUsage(slots[i]) + SlotsUsage(slots[i + 1..]);
      assert SlotsShortlinked(slots, i) <==> SlotShortlinked(slots, i) && SlotsShortlinked(slots, i + 1);
    }
  }

  lemma {:induction false} ValueCompleteFits(slot: DocSlot, room: nat)
    requires Usage(slot.value) <= room
    ensures ValueFits(slot, room) <==> ValueShortlinked(slot)
    decreases slot
  {
    CompleteFits(slot.value, room);
  }

  /** In a mebibyte every link of a copy fits. */
  lemma {:induction false} SmallFits(d: Doc, room: nat)
    requires room <= SLOT_SIZE * MAX_SPAN
    ensures CopyFits(d, room)
    decreases d
  {
    if d.Group? {
      SmallLinksFit(d.slots, 0, room);
    }
  }

  lemma {:induction false} SmallLinksFit(slots: seq<DocSlot>, since: nat, room: nat)
    requires SLOT_SIZE * since + room <= SLOT_SIZE * MAX_SPAN
    ensures LinksFit(slots, since, room)
    decreases slots
  {
    if slots != [] && SLOT_SIZE + KeyUsage(slots[0].key) <= room {
      var rest := room - SLOT_SIZE - KeyUsage(slots[0].key);
      ValueSmallFits(slots[0], rest);
      CopyValueComplete(slots[0], rest);
      ValueSlots(slots[0]);
      var one := CopySlot(slots[0], [], room);
      if one.ok {
        SmallLinksFit(slots[1..], 1 + ValueCount(slots[0]), one.room);
      }
    }
  }

  lemma {:induction false} ValueSmallFits(slot: DocSlot, room: nat)
    requires room <= SLOT_SIZE * MAX_SPAN
    ensures ValueFits(slot, room)
    decreases slot
  {
    SmallFits(slot.value, room);
  }

  lemma {:induction false} SlotsTaken(d: Doc)
    ensures SLOT_SIZE * SlotCount(d) <= Usage(d)
    decreases d
  {
    if d.Group? {
      AllSlotsTaken(d.slots);
    }
  }

  lemma {:induction false} AllSlotsTaken(slots: seq<DocSlot>)
    ensures SLOT_SIZE * SlotsCount(slots) <= SlotsUsage(slots)
    decreases slots
  {
    if slots != [] {
      ValueSlots(slots[0]);
      AllSlotsTaken(slots[1..]);
    }
  }

  lemma {:induction false} ValueSlots(slot: DocSlot)
    ensures SLOT_SIZE * ValueCount(slot) <= Usage(slot.value)
    decreases slot
  {
    SlotsTaken(slot.value);
  }
}
