/** The values an ArduinoJson document holds, and the measures the library defines on them.

    A collection is a list of slots, as in `CollectionData`: an array's slots are plain
    elements, an object's slots carry a key.  Text is a sequence of characters without the
    terminating NUL. */
module Document {
  import opened Arithmetic

  datatype Option<+T> = None | Some(value: T)

  datatype Error = Ok | TooDeep | NoMemory | InvalidInput | IncompleteInput | NotSupported

  /** A floating-point number, kept as the exact operand the library hands to its float
      constructor, or as raw IEEE bits. */
  datatype Real =
    | Decimal(negative: bool, mantissa: nat, exponent: int)
    | Infinite(negative: bool)
    | Tiny(negative: bool)
    | Bits(width: nat, bits: nat)

  datatype Value =
    | Null
    | Bool(flag: bool)
    | Pos(n: nat)
    | Neg(n: nat)
    | Float(number: Real)
    | Str(text: string)
    | Arr(slots: seq<Slot>)
    | Obj(slots: seq<Slot>)

  datatype Slot =
    | Element(value: Value)
    | Member(key: string, value: Value)

  const SLOT_SIZE: nat := 32

  const UINT_MAX: nat := 0xFFFF_FFFF_FFFF_FFFF

  predicate IsNumber(v: Value) { v.Pos? || v.Neg? || v.Float? }

  function Wrap(obj: bool, slots: seq<Slot>): Value {
    if obj then Obj(slots) else Arr(slots)
  }

  // ----- nesting -----

  function Nesting(v: Value): nat {
    match v
    case Arr(slots) => 1 + SlotsNesting(slots)
    case Obj(slots) => 1 + SlotsNesting(slots)
    case _ => 0
  }

  function SlotNesting(slot: Slot): nat { Nesting(slot.value) }

  function SlotsNesting(slots: seq<Slot>): nat {
    if slots == [] then 0 else Max(SlotNesting(slots[0]), SlotsNesting(slots[1..]))
  }

  lemma SlotsNestingBound(slots: seq<Slot>, limit: nat)
    ensures SlotsNesting(slots) <= limit <==> forall k :: 0 <= k < |slots| ==> Nesting(slots[k].value) <= limit
  {
    if slots != [] {
      SlotsNestingBound(slots[1..], limit);
      assert slots == [slots[0]] + slots[1..];
    }
  }

  // ----- memory -----

  /** The pool bytes a string takes: its characters and the NUL when strings are copied into
      the pool, nothing when they stay in the input. */
  function TextNeed(copies: bool, text: string): nat {
    if copies then |text| + 1 else 0
  }

  /** The pool bytes of a value: one slot for each element or member, and its strings. */
  function Need(copies: bool, v: Value): nat
    decreases v
  {
    match v
    case Str(text) => TextNeed(copies, text)
    case Arr(slots) => SlotsNeed(copies, slots)
    case Obj(slots) => SlotsNeed(copies, slots)
    case _ => 0
  }

  /** A slot and its key. */
  function HeadNeed(copies: bool, slot: Slot): nat {
    SLOT_SIZE + (if slot.Member? then TextNeed(copies, slot.key) else 0)
  }

  function SlotNeed(copies: bool, slot: Slot): nat
    decreases slot
  {
    HeadNeed(copies, slot) + Need(copies, slot.value)
  }

  function SlotsNeed(copies: bool, slots: seq<Slot>): nat
    decreases slots
  {
    if slots == [] then 0 else SlotNeed(copies, slots[0]) + SlotsNeed(copies, slots[1..])
  }

  lemma SlotsNeedAppend(copies: bool, slots: seq<Slot>, slot: Slot)
    ensures SlotsNeed(copies, slots + [slot]) == SlotsNeed(copies, slots) + SlotNeed(copies, slot)
  {
    if slots == [] {
      assert slots + [slot] == [slot];
    } else {
      assert (slots + [slot])[1..] == slots[1..] + [slot];
      SlotsNeedAppend(copies, slots[1..], slot);
    }
  }

  lemma SlotsNeedUpdate(copies: bool, slots: seq<Slot>, k: nat, slot: Slot)
    requires k < |slots|
    ensures SlotsNeed(copies, slots[k := slot]) ==
            SlotsNeed(copies, slots) - SlotNeed(copies, slots[k]) + SlotNeed(copies, slot)
  {
    if k == 0 {
      assert slots[0 := slot][1..] == slots[1..];
    } else {
      assert slots[k := slot][1..] == slots[1..][k - 1 := slot];
      SlotsNeedUpdate(copies, slots[1..], k - 1, slot);
    }
  }

  // ----- looking up members -----

  /** The position of the first slot with the given key, or |slots|. */
  function Find(slots: seq<Slot>, key: string): (k: nat)
    ensures k <= |slots|
    ensures k < |slots| ==> slots[k].Member? && slots[k].key == key
    ensures forall i :: 0 <= i < k ==> !(slots[i].Member? && slots[i].key == key)
  {
    if slots == [] then 0
    else if slots[0].Member? && slots[0].key == key then 0
    else
      assert forall i :: 0 < i < |slots| ==> slots[i] == slots[1..][i - 1];
      1 + Find(slots[1..], key)
  }

  ghost predicate DistinctKeys(slots: seq<Slot>) {
    forall i, j :: 0 <= i < j < |slots| && slots[i].Member? && slots[j].Member? ==> slots[i].key != slots[j].key
  }

  /** No object of the value has two members with the same key. */
  ghost predicate UniquelyKeyed(v: Value) {
    match v
    case Arr(slots) => SlotsUniquelyKeyed(slots)
    case Obj(slots) => SlotsUniquelyKeyed(slots) && DistinctKeys(slots)
    case _ => true
  }

  ghost predicate SlotUniquelyKeyed(slot: Slot) { UniquelyKeyed(slot.value) }

  ghost predicate SlotsUniquelyKeyed(slots: seq<Slot>) {
    forall k :: 0 <= k < |slots| ==> SlotUniquelyKeyed(slots[k])
  }

  // ----- documents the printers cover -----

  predicate NulFree(text: string) { '\0' !in text }

  /** Float-free values with 64-bit magnitudes, C strings, and keys exactly on object slots. */
  predicate Clean(v: Value) {
    match v
    case Pos(n) => n <= UINT_MAX
    case Neg(n) => n <= UINT_MAX
    case Float(_) => false
    case Str(text) => NulFree(text)
    case Arr(slots) => CleanSlots(false, slots)
    case Obj(slots) => CleanSlots(true, slots)
    case _ => true
  }

  predicate CleanSlots(obj: bool, slots: seq<Slot>)
    decreases slots
  {
    forall k :: 0 <= k < |slots| ==> CleanSlot(obj, slots[k])
  }

  predicate CleanSlot(obj: bool, slot: Slot)
    decreases slot
  {
    slot.Member? == obj && (obj ==> NulFree(slot.key)) && Clean(slot.value)
  }

  // ----- what a deserializer is given and returns -----

  /** The room left in the memory pool.  A copying deserializer also stores its strings there;
      an in-place one leaves them in the input. */
  datatype Memory = Memory(copies: bool, room: nat) {
    predicate Has(bytes: nat) { bytes <= room }

    function Take(bytes: nat): Memory
      requires Has(bytes)
    {
      this.(room := room - bytes)
    }

    /** A string under construction holds all the room until it is completed. */
    function Exhausted(): Memory { if copies then this.(room := 0) else this }
  }

  datatype Outcome = Outcome(err: Error, value: Value, pos: nat, mem: Memory)

  /** The value is read, or the limit or the room is too small for it. */
  predicate Decoded(r: Outcome, v: Value, end: nat, depth: nat, cost: nat, limit: nat, mem: Memory) {
    if depth <= limit && cost <= mem.room then r == Outcome(Ok, v, end, mem.Take(cost))
    else (r.err == TooDeep && depth > limit) || (r.err == NoMemory && cost > mem.room)
  }

  datatype TextOutcome = TextOutcome(err: Error, text: string, pos: nat, mem: Memory)

  /** The slot the next value goes to. */
  datatype Head = Head(err: Error, slots: seq<Slot>, k: nat, pos: nat, mem: Memory)

  function SetValue(slots: seq<Slot>, k: nat, v: Value): seq<Slot>
    requires k < |slots|
  {
    slots[k := slots[k].(value := v)]
  }
}
