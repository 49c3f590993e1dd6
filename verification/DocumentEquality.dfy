/** The library's `operator==` on documents, and what it decides. */
module DocumentEquality {
  import opened Document

  /** Compares two variants that share no memory: objects by looking up each member, arrays slot by
      slot. */
  predicate Equals(a: Value, b: Value)
    decreases a
  {
    match a
    case Arr(slots) => b.Arr? && EqualsArray(slots, b.slots)
    case Obj(slots) => b.Obj? && EqualsMembers(slots, b.slots) && |slots| == |b.slots|
    case _ => EqualsPlain(a, b)
  }

  /** Floats are compared by their operands; a NaN differs from every float. */
  predicate EqualsPlain(a: Value, b: Value) {
    a == b && (a.Float? ==> !IsNaN(a.number))
  }

  /** An exponent of ones, and a mantissa that is not zero. */
  predicate IsNaN(x: Real) {
    x.Bits? && if x.width == 32 then x.bits % 0x8000_0000 > 0x7F80_0000 else x.bits % 0x8000_0000_0000_0000 > 0x7FF0_0000_0000_0000
  }

  predicate EqualsArray(s: seq<Slot>, t: seq<Slot>)
    decreases s
  {
    if s == [] || t == [] then s == [] && t == []
    else EqualsSlot(s[0], t[0].value) && EqualsArray(s[1..], t[1..])
  }

  predicate EqualsMembers(s: seq<Slot>, t: seq<Slot>)
    decreases s
  {
    if s == [] then true
    else
      var k := FindLike(t, s[0]);
      k < |t| && EqualsSlot(s[0], t[k].value) && EqualsMembers(s[1..], t)
  }

  predicate EqualsSlot(s: Slot, v: Value)
    decreases s
  {
    Equals(s.value, v)
  }

  /** The position of the first slot that is named like s, or unnamed like s; or |slots|. */
  function FindLike(slots: seq<Slot>, s: Slot): (k: nat)
    ensures k <= |slots|
    ensures k < |slots| ==> NamedLike(slots[k], s)
    ensures forall i :: 0 <= i < k ==> !NamedLike(slots[i], s)
  {
    if slots == [] then 0
    else if NamedLike(slots[0], s) then 0
    else
      assert forall i :: 0 < i < |slots| ==> slots[i] == slots[1..][i - 1];
      1 + FindLike(slots[1..], s)
  }

  predicate NamedLike(a: Slot, b: Slot) {
    if b.Member? then a.Member? && a.key == b.key else a.Element?
  }

  lemma {:induction false} FindLikeMember(slots: seq<Slot>, s: Slot)
    requires s.Member?
    ensures FindLike(slots, s) == Find(slots, s.key)
  {
    if slots != [] {
      FindLikeMember(slots[1..], s);
    }
  }

  /** A value with its objects as maps, so that the order of members is forgotten. */
  datatype Meaning =
    | Plain(value: Value)
    | List(items: seq<Meaning>)
    | Record(members: map<string, Meaning>)

  function Mean(v: Value): Meaning
    decreases v
  {
    match v
    case Arr(slots) => List(MeanItems(slots))
    case Obj(slots) => Record(MeanMembers(slots))
    case _ => Plain(v)
  }

  function MeanSlot(s: Slot): Meaning
    decreases s
  {
    Mean(s.value)
  }

  function MeanItems(slots: seq<Slot>): (r: seq<Meaning>)
    decreases slots
  {
    if slots == [] then [] else [MeanSlot(slots[0])] + MeanItems(slots[1..])
  }

  function MeanMembers(slots: seq<Slot>): map<string, Meaning>
    decreases slots
  {
    if slots == [] then map[]
    else if slots[0].Member? then MeanMembers(slots[1..])[slots[0].key := MeanSlot(slots[0])]
    else MeanMembers(slots[1..])
  }

  lemma {:induction false} MembersFound(slots: seq<Slot>, key: string)
    requires CleanSlots(true, slots)
    ensures key in MeanMembers(slots) <==> Find(slots, key) < |slots|
    ensures key in MeanMembers(slots) ==> MeanMembers(slots)[key] == MeanSlot(slots[Find(slots, key)])
  {
    if slots != [] {
      assert CleanSlot(true, slots[0]);
      MembersFound(slots[1..], key);
    }
  }

  lemma {:induction false} MembersCounted(slots: seq<Slot>)
    requires CleanSlots(true, slots) && DistinctKeys(slots)
    ensures |MeanMembers(slots)| == |slots|
  {
    if slots != [] {
      assert CleanSlot(true, slots[0]);
      assert DistinctKeys(slots[1..]);
      MembersCounted(slots[1..]);
      MembersFound(slots[1..], slots[0].key);
      assert Find(slots[1..], slots[0].key) == |slots[1..]|;
    }
  }

  /** On float-free, uniquely keyed documents `==` holds exactly when the documents agree up
      to the order of object members. */
  lemma {:induction false} EqualsDecides(a: Value, b: Value)
    requires Clean(a) && Clean(b) && UniquelyKeyed(a) && UniquelyKeyed(b)
    ensures Equals(a, b) <==> Mean(a) == Mean(b)
    decreases a, 1
  {
    if a.Arr? && b.Arr? {
      ArrayDecides(a.slots, b.slots);
    } else if a.Obj? && b.Obj? {
      ObjectDecides(a.slots, b.slots);
    }
  }

  lemma {:induction false} ArrayDecides(s: seq<Slot>, t: seq<Slot>)
    requires CleanSlots(false, s) && CleanSlots(false, t) && SlotsUniquelyKeyed(s) && SlotsUniquelyKeyed(t)
    ensures EqualsArray(s, t) <==> MeanItems(s) == MeanItems(t)
    decreases s, 0
  {
    if s != [] && t != [] {
      assert CleanSlot(false, s[0]) && CleanSlot(false, t[0]) && SlotUniquelyKeyed(s[0]) && SlotUniquelyKeyed(t[0]);
      SlotDecides(s[0], t[0].value);
      ArrayDecides(s[1..], t[1..]);
      var m, n := MeanItems(s), MeanItems(t);
      assert m[0] == MeanSlot(s[0]) && n[0] == MeanSlot(t[0]);
      assert m[1..] == MeanItems(s[1..]) && n[1..] == MeanItems(t[1..]);
      assert m == [m[0]] + m[1..] && n == [n[0]] + n[1..];
    }
  }

  lemma {:induction false} SlotDecides(s: Slot, v: Value)
    requires Clean(s.value) && Clean(v) && UniquelyKeyed(s.value) && UniquelyKeyed(v)
    ensures EqualsSlot(s, v) <==> MeanSlot(s) == Mean(v)
    decreases s, 2
  {
    EqualsDecides(s.value, v);
  }

  /** Every member of s has an equal counterpart in t. */
  lemma {:induction false} MembersDecide(s: seq<Slot>, t: seq<Slot>)
    requires CleanSlots(true, s) && CleanSlots(true, t) && SlotsUniquelyKeyed(s) && SlotsUniquelyKeyed(t)
    ensures EqualsMembers(s, t) <==>
            forall k :: 0 <= k < |s| ==> s[k].Member? && s[k].key in MeanMembers(t) && MeanMembers(t)[s[k].key] == MeanSlot(s[k])
    decreases s, 0
  {
    if s != [] {
      assert CleanSlot(true, s[0]) && SlotUniquelyKeyed(s[0]);
      FindLikeMember(t, s[0]);
      MembersFound(t, s[0].key);
      var k := Find(t, s[0].key);
      if k < |t| {
        assert CleanSlot(true, t[k]) && SlotUniquelyKeyed(t[k]);
        SlotDecides(s[0], t[k].value);
      }
      MembersDecide(s[1..], t);
      assert forall i :: 1 <= i < |s| ==> s[i] == s[1..][i - 1];
    }
  }

  lemma {:induction false} ObjectDecides(s: seq<Slot>, t: seq<Slot>)
    requires CleanSlots(true, s) && CleanSlots(true, t) && SlotsUniquelyKeyed(s) && SlotsUniquelyKeyed(t)
    requires DistinctKeys(s) && DistinctKeys(t)
    ensures Equals(Obj(s), Obj(t)) <==> MeanMembers(s) == MeanMembers(t)
    decreases s, 1
  {
    MembersDecide(s, t);
    MembersCounted(s);
    MembersCounted(t);
    var m, n := MeanMembers(s), MeanMembers(t);
    forall k | 0 <= k < |s| ensures s[k].Member? && s[k].key in m && m[s[k].key] == MeanSlot(s[k]) {
      assert CleanSlot(true, s[k]);
      MembersFound(s, s[k].key);
    }
    forall key | key in m ensures exists k :: 0 <= k < |s| && s[k].key == key {
      MembersFound(s, key);
    }
    if Equals(Obj(s), Obj(t)) {
      assert m.Keys <= n.Keys;
      SameSize(m.Keys, n.Keys);
      assert m == n;
    }
  }

  lemma SameSize<T>(a: set<T>, b: set<T>)
    requires a <= b && |a| >= |b|
    ensures a == b
  {
    if b - a == {} {
      assert b <= a;
    } else {
      var x :| x in b - a;
      SubsetSize(a, b - {x});
    }
  }

  lemma {:induction false} SubsetSize<T>(a: set<T>, b: set<T>)
    requires a <= b
    ensures |a| <= |b|
  {
    if a != {} {
      var x :| x in a;
      SubsetSize(a - {x}, b - {x});
    }
  }

  // ----- copies -----

  /** There is no NaN, and in every object a slot that repeats a key, or the lack of a key, repeats
      the value, too. */
  predicate RepeatsAgree(v: Value)
    decreases v
  {
    match v
    case Float(x) => !IsNaN(x)
    case Arr(slots) => forall k :: 0 <= k < |slots| ==> SlotRepeatsAgree(slots[k])
    case Obj(slots) => forall k :: 0 <= k < |slots| ==> MemberAgrees(slots, k)
    case _ => true
  }

  predicate SlotRepeatsAgree(slot: Slot)
    decreases slot
  {
    RepeatsAgree(slot.value)
  }

  predicate MemberAgrees(slots: seq<Slot>, k: nat)
    requires k < |slots|
    decreases slots
  {
    var first := FindLike(slots, slots[k]);
    if first == k then SlotRepeatsAgree(slots[k]) else first < |slots| && EqualsSlot(slots[k], slots[first].value)
  }

  /** A document equals a copy of it exactly when it has no NaN and, in each of its objects, every
      slot that repeats a key equals the first slot with that key. */
  lemma {:induction false} EqualsCopy(v: Value)
    ensures Equals(v, v) <==> RepeatsAgree(v)
    decreases v, 1
  {
    match v
    case Arr(slots) => ArrayEqualsCopy(slots);
    case Obj(slots) => ObjectEqualsCopy(slots);
    case _ =>
  }

  lemma {:induction false} ArrayEqualsCopy(slots: seq<Slot>)
    ensures Equals(Arr(slots), Arr(slots)) <==> RepeatsAgree(Arr(slots))
    decreases slots, 1
  {
    hide EqualsSlot, SlotRepeatsAgree;
    ItemsEqual(slots, 0);
    forall k | 0 <= k < |slots|
      ensures EqualsSlot(slots[k], slots[k].value) <==> SlotRepeatsAgree(slots[k])
    {
      SlotEqualsCopy(slots[k]);
    }
    assert slots[0..] == slots;
  }

  lemma {:induction false} ObjectEqualsCopy(slots: seq<Slot>)
    ensures Equals(Obj(slots), Obj(slots)) <==> RepeatsAgree(Obj(slots))
    decreases slots, 1
  {
    hide EqualsSlot, SlotRepeatsAgree;
    MembersEqual(slots, slots, 0);
    forall k | 0 <= k < |slots|
      ensures FindLike(slots, slots[k]) <= k
      ensures EqualsSlot(slots[k], slots[FindLike(slots, slots[k])].value) <==> MemberAgrees(slots, k)
    {
      assert NamedLike(slots[k], slots[k]);
      SlotEqualsCopy(slots[k]);
    }
    assert slots[0..] == slots;
  }

  lemma {:induction false} SlotEqualsCopy(slot: Slot)
    ensures EqualsSlot(slot, slot.value) <==> SlotRepeatsAgree(slot)
    decreases slot, 2
  {
    EqualsCopy(slot.value);
  }

  lemma {:induction false} ItemsEqual(slots: seq<Slot>, i: nat)
    requires i <= |slots|
    ensures EqualsArray(slots[i..], slots[i..]) <==> forall k :: i <= k < |slots| ==> EqualsSlot(slots[k], slots[k].value)
    decreases |slots| - i
  {
    if i < |slots| {
      assert slots[i..][1..] == slots[i + 1..];
      ItemsEqual(slots, i + 1);
    }
  }

  lemma {:induction false} MembersEqual(s: seq<Slot>, t: seq<Slot>, i: nat)
    requires i <= |s|
    ensures EqualsMembers(s[i..], t) <==>
            forall k :: i <= k < |s| ==> FindLike(t, s[k]) < |t| && EqualsSlot(s[k], t[FindLike(t, s[k])].value)
    decreases |s| - i
  {
    if i < |s| {
      assert s[i..][1..] == s[i + 1..];
      MembersEqual(s, t, i + 1);
    }
  }

  /** There is no NaN, and every slot of an object has a key of its own. */
  ghost predicate Regular(v: Value)
    decreases v
  {
    match v
    case Float(x) => !IsNaN(x)
    case Arr(slots) => AllRegular(slots)
    case Obj(slots) => AllRegular(slots) && DistinctKeys(slots) && forall k :: 0 <= k < |slots| ==> slots[k].Member?
    case _ => true
  }

  ghost predicate AllRegular(slots: seq<Slot>)
    decreases slots
  {
    forall k :: 0 <= k < |slots| ==> SlotRegular(slots[k])
  }

  ghost predicate SlotRegular(slot: Slot)
    decreases slot
  {
    Regular(slot.value)
  }

  lemma {:induction false} RegularAgrees(v: Value)
    requires Regular(v)
    ensures RepeatsAgree(v)
    decreases v
  {
    match v
    case Arr(slots) =>
      forall k | 0 <= k < |slots|
        ensures SlotRepeatsAgree(slots[k])
      {
        SlotRegularAgrees(slots[k]);
      }
    case Obj(slots) =>
      forall k | 0 <= k < |slots|
        ensures MemberAgrees(slots, k)
      {
        assert NamedLike(slots[k], slots[k]);
        SlotRegularAgrees(slots[k]);
      }
    case _ =>
  }

  lemma {:induction false} SlotRegularAgrees(slot: Slot)
    requires SlotRegular(slot)
    ensures SlotRepeatsAgree(slot)
    decreases slot
  {
    RegularAgrees(slot.value);
  }

  lemma SetRegular(obj: bool, slots: seq<Slot>, k: nat, v: Value)
    requires k < |slots| && Regular(Wrap(obj, slots)) && Regular(v)
    ensures Regular(Wrap(obj, SetValue(slots, k, v)))
  {
    var r := SetValue(slots, k, v);
    forall i | 0 <= i < |r|
      ensures SlotRegular(r[i])
    {
      assert i != k ==> SlotRegular(slots[i]);
    }
  }

  /** A repeated key is no harm if its value is repeated, too; else the look-up of the second
      member finds the first one, and the document differs from its copies. */
  lemma RepeatedKeyDiffers(n: nat)
    requires n <= UINT_MAX
    ensures var v := Repeated(n); Clean(v) && !UniquelyKeyed(v) && (Equals(v, v) <==> n == 1)
  {
    var slots := Repeated(n).slots;
    assert CleanSlot(true, slots[0]) && CleanSlot(true, slots[1]);
    assert slots[0].key == slots[1].key;
    assert !DistinctKeys(slots);
    assert NamedLike(slots[0], slots[1]) && FindLike(slots, slots[1]) == 0 == FindLike(slots, slots[0]);
    EqualsCopy(Obj(slots));
    assert EqualsSlot(slots[1], slots[0].value) == (n == 1);
    assert MemberAgrees(slots, 1) == (n == 1);
    assert SlotRepeatsAgree(slots[0]) && MemberAgrees(slots, 0);
  }

  /** The document {"a":1,"a":n}. */
  function Repeated(n: nat): Value {
    Obj([Member("a", Pos(1)), Member("a", Pos(n))])
  }
}
