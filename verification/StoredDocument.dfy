/** Documents as a deserializer builds them: strings are pointers into a character buffer, the
    memory pool or the input itself, and end at the first NUL. */
module StoredDocument {
  import opened Document

  datatype Node =
    | NullNode
    | BoolNode(flag: bool)
    | PosNode(n: nat)
    | NegNode(n: nat)
    | FloatNode(number: Real)
    | StrNode(text: nat)
    | ArrNode(slots: seq<NodeSlot>)
    | ObjNode(slots: seq<NodeSlot>)

  datatype NodeSlot =
    | ElementNode(value: Node)
    | MemberNode(key: nat, value: Node)

  function WrapNode(obj: bool, slots: seq<NodeSlot>): Node {
    if obj then ObjNode(slots) else ArrNode(slots)
  }

  /** The C string at p. */
  function CStr(a: string, p: nat): (t: string)
    ensures NulFree(t)
    decreases |a| - p
  {
    if p < |a| && a[p] != '\0' then [a[p]] + CStr(a, p + 1) else ""
  }

  /** A stored string is read back as a C string: up to its first NUL. */
  function UpToNul(t: string): (r: string)
    ensures |r| <= |t| && NulFree(r)
  {
    if t == "" || t[0] == '\0' then "" else [t[0]] + UpToNul(t[1..])
  }

  /** The string at p ends before w. */
  predicate Terminated(a: string, p: nat, w: nat)
    requires w <= |a|
    decreases w - p
  {
    p < w && (a[p] == '\0' || Terminated(a, p + 1, w))
  }

  // ----- meaning -----

  function Denote(v: Node, a: string): Value
    decreases v
  {
    match v
    case NullNode => Null
    case BoolNode(flag) => Bool(flag)
    case PosNode(n) => Pos(n)
    case NegNode(n) => Neg(n)
    case FloatNode(number) => Float(number)
    case StrNode(text) => Str(CStr(a, text))
    case ArrNode(slots) => Arr(DenoteSlots(slots, a))
    case ObjNode(slots) => Obj(DenoteSlots(slots, a))
  }

  function DenoteSlots(slots: seq<NodeSlot>, a: string): (r: seq<Slot>)
    ensures |r| == |slots|
    decreases slots
  {
    seq(|slots|, i requires 0 <= i < |slots| => DenoteSlot(slots[i], a))
  }

  function DenoteSlot(slot: NodeSlot, a: string): Slot
    decreases slot
  {
    match slot
    case ElementNode(v) => Element(Denote(v, a))
    case MemberNode(key, v) => Member(CStr(a, key), Denote(v, a))
  }

  /** Every string of the value ends before w. */
  ghost predicate Stored(v: Node, a: string, w: nat)
    requires w <= |a|
    decreases v
  {
    match v
    case StrNode(text) => Terminated(a, text, w)
    case ArrNode(slots) => StoredSlots(slots, a, w)
    case ObjNode(slots) => StoredSlots(slots, a, w)
    case _ => true
  }

  ghost predicate StoredSlots(slots: seq<NodeSlot>, a: string, w: nat)
    requires w <= |a|
    decreases slots
  {
    forall i :: 0 <= i < |slots| ==> StoredSlot(slots[i], a, w)
  }

  ghost predicate StoredSlot(slot: NodeSlot, a: string, w: nat)
    requires w <= |a|
    decreases slot
  {
    (slot.MemberNode? ==> Terminated(a, slot.key, w)) && Stored(slot.value, a, w)
  }

  // ----- what is stored survives later writes -----

  /** The buffer has only changed at or after w. */
  ghost predicate Extends(a: string, b: string, w: nat) {
    w <= |a| == |b| && forall k :: 0 <= k < w ==> b[k] == a[k]
  }

  lemma {:induction false} TextSurvives(a: string, b: string, p: nat, w: nat, w2: nat)
    requires Extends(a, b, w) && w <= w2 <= |b| && Terminated(a, p, w)
    ensures CStr(b, p) == CStr(a, p) && Terminated(b, p, w2)
    decreases w - p
  {
    if a[p] != '\0' {
      TextSurvives(a, b, p + 1, w, w2);
    }
  }

  lemma {:induction false} NodeSurvives(v: Node, a: string, b: string, w: nat, w2: nat)
    requires Extends(a, b, w) && w <= w2 <= |b| && Stored(v, a, w)
    ensures Denote(v, b) == Denote(v, a) && Stored(v, b, w2)
    decreases v
  {
    match v
    case StrNode(text) => TextSurvives(a, b, text, w, w2);
    case ArrNode(slots) => SlotsSurvive(slots, a, b, w, w2);
    case ObjNode(slots) => SlotsSurvive(slots, a, b, w, w2);
    case _ =>
  }

  lemma {:induction false} SlotsSurvive(slots: seq<NodeSlot>, a: string, b: string, w: nat, w2: nat)
    requires Extends(a, b, w) && w <= w2 <= |b| && StoredSlots(slots, a, w)
    ensures DenoteSlots(slots, b) == DenoteSlots(slots, a) && StoredSlots(slots, b, w2)
    decreases slots
  {
    forall i | 0 <= i < |slots|
      ensures DenoteSlot(slots[i], b) == DenoteSlot(slots[i], a) && StoredSlot(slots[i], b, w2)
    {
      SlotSurvives(slots[i], a, b, w, w2);
    }
  }

  lemma {:induction false} SlotSurvives(slot: NodeSlot, a: string, b: string, w: nat, w2: nat)
    requires Extends(a, b, w) && w <= w2 <= |b| && StoredSlot(slot, a, w)
    ensures DenoteSlot(slot, b) == DenoteSlot(slot, a) && StoredSlot(slot, b, w2)
    decreases slot
  {
    if slot.MemberNode? {
      TextSurvives(a, b, slot.key, w, w2);
    }
    NodeSurvives(slot.value, a, b, w, w2);
  }

  /** A string that has just been written and closed with a NUL reads back up to its first NUL. */
  lemma {:induction false} TextWritten(a: string, p: nat, text: string, w: nat)
    requires p + |text| < w <= |a|
    requires a[p..p + |text|] == text && a[p + |text|] == '\0'
    ensures CStr(a, p) == UpToNul(text) && Terminated(a, p, w)
    decreases |text|
  {
    if text != "" {
      assert a[p] == text[0];
      assert a[p + 1..p + |text|] == text[1..];
      TextWritten(a, p + 1, text[1..], w);
    }
  }

  lemma {:induction false} UpToNulFree(t: string)
    requires NulFree(t)
    ensures UpToNul(t) == t
  {
    if t != "" {
      assert t[0] in t;
      assert forall c :: c in t[1..] ==> c in t;
      UpToNulFree(t[1..]);
    }
  }

  /** A slot whose value was stored since. */
  lemma FilledSlot(slots: seq<NodeSlot>, k: nat, v: Node, a: string, w: nat)
    requires k < |slots| && w <= |a| && StoredSlots(slots, a, w) && Stored(v, a, w)
    ensures StoredSlots(slots[k := slots[k].(value := v)], a, w)
    ensures DenoteSlots(slots[k := slots[k].(value := v)], a) == SetValue(DenoteSlots(slots, a), k, Denote(v, a))
  {
    assert StoredSlot(slots[k], a, w);
    var rows := slots[k := slots[k].(value := v)];
    forall i | 0 <= i < |rows|
      ensures StoredSlot(rows[i], a, w)
    {
      assert i != k ==> StoredSlot(slots[i], a, w);
    }
  }
}
