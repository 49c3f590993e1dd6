/** Keys stay unique over whole runs of operations: whatever is done to a document of unique keys,
    no object of it gets two members with the same key, so that it equals its copies. */
module DocumentKeys {
  import opened Document
  import opened DocumentEquality
  import opened OwnedDocument
  import opened StoredDocument
  import opened CollectionData
  import opened DocumentComparison
  import opened DocumentRuns
  import opened PooledParser
  import JsonGrammar
  import JsonKeys

  lemma SlotsOf(obj: bool, slots: seq<DocSlot>, k: nat)
    requires k < |slots|
    ensures Bare(Group(obj, slots)) == Wrap(obj, BareSlots(slots)) && BareSlots(slots)[k].value == Bare(slots[k].value)
    ensures Regular(Bare(Group(obj, slots))) ==> Regular(Bare(slots[k].value))
  {
    var all := BareSlots(slots);
    assert all[k] == BareSlot(slots[k]);
    if Regular(Wrap(obj, all)) {
      assert AllRegular(all) && SlotRegular(all[k]);
    }
  }

  lemma SlotSet(obj: bool, slots: seq<DocSlot>, k: nat, e: Doc)
    requires k < |slots| && Regular(Bare(Group(obj, slots))) && Regular(Bare(e))
    ensures Regular(Bare(Group(obj, slots[k := slots[k].(value := e)])))
  {
    assert BareSlots(slots[k := slots[k].(value := e)]) == SetValue(BareSlots(slots), k, Bare(e));
    SetRegular(obj, BareSlots(slots), k, Bare(e));
  }

  lemma {:induction false} PlaceRegular(d: Doc, path: seq<nat>)
    requires Regular(Bare(d)) && IsPath(d, path)
    ensures Regular(Bare(Place(d, path)))
    decreases |path|
  {
    if path != [] {
      SlotsOf(d.obj, d.slots, path[0]);
      PlaceRegular(d.slots[path[0]].value, path[1..]);
    }
  }

  lemma {:induction false} WithRegular(d: Doc, path: seq<nat>, e: Doc)
    requires Regular(Bare(d)) && IsPath(d, path) && Regular(Bare(e))
    ensures Regular(Bare(With(d, path, e)))
    decreases |path|
  {
    if path != [] {
      var k := path[0];
      SlotsOf(d.obj, d.slots, k);
      WithRegular(d.slots[k].value, path[1..], e);
      SlotSet(d.obj, d.slots, k, With(d.slots[k].value, path[1..], e));
    }
  }

  /** What is left of a list of slots, in its order. */
  lemma PartRegular(obj: bool, a: seq<DocSlot>, b: seq<DocSlot>, c: seq<DocSlot>)
    requires Regular(Bare(Group(obj, a + b + c)))
    ensures Regular(Bare(Group(obj, a + c)))
  {
    var all, rest := BareSlots(a + b + c), BareSlots(a + c);
    forall k | 0 <= k < |rest|
      ensures exists j :: 0 <= j < |all| && rest[k] == all[j] && SlotRegular(all[j])
    {
      var j := if k < |a| then k else k + |b|;
      assert (a + b + c)[j] == (a + c)[k];
      assert all[j] == rest[k];
    }
    assert AllRegular(rest);
    if obj {
      forall i, j | 0 <= i < j < |rest|
        ensures rest[i].Member? && rest[j].Member? && rest[i].key != rest[j].key
      {
        var i', j' := if i < |a| then i else i + |b|, if j < |a| then j else j + |b|;
        assert all[i'] == rest[i] && all[j'] == rest[j];
      }
    }
  }

  /** One more slot, whose key is new if it is in an object. */
  lemma MoreRegular(obj: bool, slots: seq<DocSlot>, slot: DocSlot)
    requires Regular(Bare(Group(obj, slots))) && Regular(Bare(slot.value))
    requires obj ==> slot.key.Some? && FindKey(slots, KeyChars(slot)) == |slots|
    ensures Regular(Bare(Group(obj, slots + [slot])))
  {
    var all, last := BareSlots(slots), BareSlot(slot);
    assert BareSlots(slots + [slot]) == all + [last];
    if obj {
      forall k | 0 <= k < |all|
        ensures all[k].Member? && all[k].key != last.key
      {
        assert all[k] == BareSlot(slots[k]) && KeyChars(slots[k]) != KeyChars(slot);
      }
    }
    hide Bare, BareSlot, FindKey, BareSlots;
    ListRegular(obj, all, last);
  }

  lemma ListRegular(obj: bool, all: seq<Slot>, last: Slot)
    requires Regular(Wrap(obj, all)) && SlotRegular(last)
    requires obj ==> last.Member? && forall k :: 0 <= k < |all| ==> all[k].Member? && all[k].key != last.key
    ensures Regular(Wrap(obj, all + [last]))
  {
    assert AllRegular(all);
  }

  lemma {:induction false} NullsRegular(slots: seq<DocSlot>, n: nat)
    requires Regular(Bare(Group(false, slots)))
    ensures Regular(Bare(Group(false, slots + Nulls(n))))
    decreases n
  {
    if n == 0 {
      assert slots + Nulls(0) == slots;
    } else {
      NullsRegular(slots, n - 1);
      MoreRegular(false, slots + Nulls(n - 1), DocSlot(None, Atom(Null)));
      assert slots + Nulls(n) == slots + Nulls(n - 1) + [DocSlot(None, Atom(Null))];
    }
  }

  lemma {:induction false} CopyRegular(d: Doc, room: nat)
    requires Regular(Bare(d))
    ensures Regular(Bare(Copy(d, room).doc))
    decreases d
  {
    if d.Group? {
      assert [] + d.slots == d.slots;
      CopySlotsRegular(d.obj, d.slots, [], room);
    }
  }

  lemma {:induction false} CopySlotsRegular(obj: bool, slots: seq<DocSlot>, done: seq<DocSlot>, room: nat)
    requires Regular(Bare(Group(obj, done + slots)))
    ensures Regular(Bare(Group(obj, CopySlots(slots, done, room).slots)))
    decreases slots
  {
    if slots == [] {
      assert done + slots == done;
    } else {
      var one := CopySlot(slots[0], done, room);
      if one.slots == done {
        assert done + slots + [] == done + slots && done + [] == done;
        PartRegular(obj, done, slots, []);
      } else {
        var v := CopyValue(slots[0], room - SLOT_SIZE - KeyUsage(slots[0].key));
        SlotsOf(obj, done + slots, |done|);
        CopyValueRegular(slots[0], room - SLOT_SIZE - KeyUsage(slots[0].key));
        SlotSet(obj, done + slots, |done|, v.doc);
        assert (done + slots)[|done| := slots[0].(value := v.doc)] == one.slots + slots[1..];
        if one.ok {
          CopySlotsRegular(obj, slots[1..], one.slots, one.room);
        } else {
          assert one.slots + slots[1..] + [] == one.slots + slots[1..] && one.slots + [] == one.slots;
          PartRegular(obj, one.slots, slots[1..], []);
        }
      }
    }
  }

  lemma {:induction false} CopyValueRegular(slot: DocSlot, room: nat)
    requires Regular(Bare(slot.value))
    ensures Regular(Bare(CopyValue(slot, room).doc))
    decreases slot
  {
    CopyRegular(slot.value, room);
  }

  lemma WithoutRegular(g: Doc, index: nat)
    requires g.Group? && Regular(Bare(g))
    ensures Regular(Bare(WithoutElement(g, index)))
  {
    if index < |g.slots| {
      assert g.slots == g.slots[..index] + [g.slots[index]] + g.slots[index + 1..];
      PartRegular(g.obj, g.slots[..index], [g.slots[index]], g.slots[index + 1..]);
    }
  }

  // ----- runs -----

  /** The numbers that are set are no NaN. */
  ghost predicate PlainRegular(c: Command) {
    c.SetPlain? ==> Regular(c.v)
  }

  lemma EffectRegular(text: string, st: State, c: Command)
    requires IsPath(st.doc, c.path) && Regular(Bare(st.doc)) && PlainRegular(c)
    ensures Regular(Bare(Effect(text, st, c).doc))
  {
    hide Regular, Copy, FindKey;
    var e := Place(st.doc, c.path);
    PlaceRegular(st.doc, c.path);
    NoSlots();
    match c
    case AddElement(_) =>
      var g := AsGroup(e, false);
      if IsGroup(g, false) {
        ElementsRegular(g, |g.slots|, st.room);
      }
    case GetOrAddElement(_, index) =>
      var g := AsGroup(e, false);
      if IsGroup(g, false) {
        ElementsRegular(g, index, st.room);
      }
    case GetOrAddMember(_, key, owned) =>
      var g := AsGroup(e, true);
      if IsGroup(g, true) {
        MemberRegular(g, key != 0, Text(CStr(text, key), owned), st.room);
      }
    case RemoveElement(_, index) =>
      if IsGroup(e, false) {
        WithoutRegular(e, index);
      }
    case RemoveMember(_, key) =>
      if IsGroup(e, true) {
        WithoutRegular(e, FindKey(e.slots, NameAt(text, key)));
      }
    case CopyFrom(_, from) =>
      if IsPath(st.doc, from) && from != c.path {
        PlaceRegular(st.doc, from);
        CopyRegular(Place(st.doc, from), st.room);
      } else {
        CopyRegular(e, st.room);
      }
    case Save(_, p) => CopyRegular(Line(Text(CStr(text, p), true)), st.room);
    case _ =>
  }

  lemma NoSlots()
    ensures forall obj :: Regular(Bare(Group(obj, [])))
    ensures forall t :: Regular(Bare(Line(t)))
    ensures Regular(Bare(Atom(Null)))
  {
  }

  lemma ElementsRegular(g: Doc, index: nat, room: nat)
    requires IsGroup(g, false) && Regular(Bare(g))
    ensures Regular(Bare(GotElement(g, index, room).doc))
  {
    var r := GotElement(g, index, room).doc;
    NullsRegular(g.slots, |r.slots| - |g.slots|);
  }

  lemma MemberRegular(g: Doc, named: bool, key: Text, room: nat)
    requires IsGroup(g, true) && Regular(Bare(g))
    ensures Regular(Bare(GotMember(g, named, key, room).doc))
  {
    if FindKey(g.slots, Some(key.chars)) == |g.slots| {
      MoreRegular(true, g.slots, DocSlot(Some(key), Atom(Null)));
    }
  }

  /** After any run on a document of unique keys its keys are unique, and the document equals every
      copy of it. */
  lemma {:induction false} RunRegular(text: string, st: State, commands: seq<Command>)
    requires Regular(Bare(st.doc)) && forall i :: 0 <= i < |commands| ==> PlainRegular(commands[i])
    ensures var v := Bare(AfterAll(text, st, commands).doc); Regular(v) && Equals(v, v)
    decreases |commands|
  {
    if commands != [] {
      var n := |commands| - 1;
      RunRegular(text, st, commands[..n]);
      var before := AfterAll(text, st, commands[..n]);
      if IsPath(before.doc, commands[n].path) {
        EffectRegular(text, before, commands[n]);
        WithRegular(before.doc, commands[n].path, Effect(text, before, commands[n]).doc);
      }
    }
    RegularAgrees(Bare(AfterAll(text, st, commands).doc));
    EqualsCopy(Bare(AfterAll(text, st, commands).doc));
  }

  // ----- documents that were parsed -----

  lemma {:induction false} BareOwn(v: Value)
    ensures Bare(Own(v)) == v
    decreases v
  {
    match v
    case Arr(slots) => BareOwnSlots(slots);
    case Obj(slots) => BareOwnSlots(slots);
    case _ =>
  }

  lemma {:induction false} BareOwnSlots(slots: seq<Slot>)
    ensures BareSlots(OwnSlots(slots)) == slots
    decreases slots
  {
    forall k | 0 <= k < |slots|
      ensures BareSlot(OwnSlot(slots[k])) == slots[k]
    {
      BareOwnSlot(slots[k]);
    }
  }

  lemma {:induction false} BareOwnSlot(slot: Slot)
    ensures BareSlot(OwnSlot(slot)) == slot
    decreases slot
  {
    BareOwn(slot.value);
  }

  /** A document that was parsed from JSON, whatever the text, and then changed by any run. */
  lemma ParsedAndRun(s: string, limit: nat, mem: Memory, text: string, room: nat, commands: seq<Command>)
    requires forall i :: 0 <= i < |commands| ==> PlainRegular(commands[i])
    ensures var st := State(Own(JsonGrammar.Deserialize(s, limit, mem).value), room);
            var v := Bare(AfterAll(text, st, commands).doc);
            Regular(v) && Equals(v, v)
  {
    var parsed := JsonGrammar.Deserialize(s, limit, mem).value;
    BareOwn(parsed);
    JsonKeys.DeserializedEqualsCopy(s, limit, mem);
    RunRegular(text, State(Own(parsed), room), commands);
  }
}
