/** What the MessagePack serializer writes and what the deserializer makes of any bytes. */
module MsgPackFormat {
  import opened Octets
  import opened Document
  import opened StoredDocument

  // ----- integers, most significant byte first -----

  function Pow256(w: nat): (p: nat)
    ensures p > 0
  {
    if w == 0 then 1 else 256 * Pow256(w - 1)
  }

  /** The low w bytes of n. */
  function BigEndian(n: nat, w: nat): (b: seq<byte>)
    ensures |b| == w
  {
    if w == 0 then [] else BigEndian(n / 256, w - 1) + [n % 256]
  }

  function FromBigEndian(b: seq<byte>): (n: nat)
    ensures n < Pow256(|b|)
  {
    if b == [] then 0 else 256 * FromBigEndian(b[..|b| - 1]) + b[|b| - 1]
  }

  // ----- texts -----

  /** A C++ char is one byte. */
  predicate Narrow(text: string) { forall k :: 0 <= k < |text| ==> text[k] as int < 256 }

  predicate NarrowValue(v: Value) {
    match v
    case Str(text) => Narrow(text)
    case Arr(slots) => NarrowSlots(slots)
    case Obj(slots) => NarrowSlots(slots)
    case _ => true
  }

  predicate NarrowSlots(slots: seq<Slot>)
    decreases slots
  {
    forall k :: 0 <= k < |slots| ==> NarrowSlot(slots[k])
  }

  predicate NarrowSlot(slot: Slot)
    decreases slot
  {
    (slot.Member? ==> Narrow(slot.key)) && NarrowValue(slot.value)
  }

  function Bytes(text: string): (b: seq<byte>)
    requires Narrow(text)
    ensures |b| == |text|
  {
    seq(|text|, k requires 0 <= k < |text| => text[k] as int)
  }

  function Chars(b: seq<byte>): (t: string)
    ensures |t| == |b|
  {
    seq(|b|, k requires 0 <= k < |b| => b[k] as char)
  }

  // ----- serializing -----

  function TextHeader(n: nat): seq<byte> {
    if n < 0x20 then [0xA0 + n]
    else if n < 0x100 then [0xD9] + BigEndian(n, 1)
    else if n < 0x1_0000 then [0xDA] + BigEndian(n, 2)
    else [0xDB] + BigEndian(n, 4)
  }

  function SlotsHeader(obj: bool, n: nat): seq<byte> {
    if n < 0x10 then [(if obj then 0x80 else 0x90) + n]
    else if n < 0x1_0000 then [if obj then 0xDE else 0xDC] + BigEndian(n, 2)
    else [if obj then 0xDF else 0xDD] + BigEndian(n, 4)
  }

  function PackPositive(n: nat): seq<byte> {
    if n <= 0x7F then [n]
    else if n <= 0xFF then [0xCC] + BigEndian(n, 1)
    else if n <= 0xFFFF then [0xCD] + BigEndian(n, 2)
    else if n <= 0xFFFF_FFFF then [0xCE] + BigEndian(n, 4)
    else [0xCF] + BigEndian(n, 8)
  }

  /** The two's complement of a magnitude, cut to the chosen width. */
  function Negated(n: nat): nat
    requires n <= UINT_MAX
  {
    if n == 0 then 0 else UINT_MAX + 1 - n
  }

  function PackNegative(n: nat): seq<byte>
    requires n <= UINT_MAX
  {
    if n <= 0x20 then BigEndian(Negated(n), 1)
    else if n <= 0x80 then [0xD0] + BigEndian(Negated(n), 1)
    else if n <= 0x8000 then [0xD1] + BigEndian(Negated(n), 2)
    else if n <= 0x8000_0000 then [0xD2] + BigEndian(Negated(n), 4)
    else [0xD3] + BigEndian(Negated(n), 8)
  }

  function PackText(text: string): seq<byte>
    requires Narrow(text)
  {
    TextHeader(|text|) + Bytes(text)
  }

  function Pack(v: Value): seq<byte>
    requires Clean(v) && NarrowValue(v)
    decreases v
  {
    match v
    case Null => [0xC0]
    case Bool(flag) => [if flag then 0xC3 else 0xC2]
    case Pos(n) => PackPositive(n)
    case Neg(n) => PackNegative(n)
    case Str(text) => PackText(text)
    case Arr(slots) => SlotsHeader(false, |slots|) + PackSlots(false, slots)
    case Obj(slots) => SlotsHeader(true, |slots|) + PackSlots(true, slots)
  }

  function PackSlots(obj: bool, slots: seq<Slot>): seq<byte>
    requires CleanSlots(obj, slots) && NarrowSlots(slots)
    decreases slots
  {
    if slots == [] then [] else PackSlot(obj, slots[0]) + PackSlots(obj, slots[1..])
  }

  function PackSlot(obj: bool, slot: Slot): seq<byte>
    requires CleanSlot(obj, slot) && NarrowSlot(slot)
    decreases slot
  {
    (if obj then PackText(slot.key) else []) + Pack(slot.value)
  }

  // ----- deserializing -----

  predicate IsFixText(code: byte) { 0xA0 <= code < 0xC0 }

  predicate IsTextCode(code: byte) { IsFixText(code) || code == 0xD9 || code == 0xDA || code == 0xDB }

  function TextWidth(code: byte): nat
    requires IsTextCode(code)
  {
    if code == 0xD9 then 1 else if code == 0xDA then 2 else if code == 0xDB then 4 else 0
  }

  function ReadChars(s: seq<byte>, i: nat, n: nat, mem: Memory): (r: TextOutcome)
    requires i <= |s|
    ensures i <= r.pos <= |s|
  {
    var need := if mem.copies then n + 1 else 0;
    if n > |s| - i then TextOutcome(IncompleteInput, "", i, mem.Exhausted())
    else if !mem.Has(need) then TextOutcome(NoMemory, "", i, mem.Exhausted())
    else TextOutcome(Ok, UpToNul(Chars(s[i..i + n])), i + n, mem.Take(need))
  }

  /** A string whose code has been read. */
  function ReadText(s: seq<byte>, i: nat, code: byte, mem: Memory): (r: TextOutcome)
    requires i <= |s| && IsTextCode(code)
    ensures i <= r.pos <= |s|
  {
    if IsFixText(code) then ReadChars(s, i, code - 0xA0, mem)
    else
      var w := TextWidth(code);
      if w > |s| - i then TextOutcome(IncompleteInput, "", i, mem)
      else ReadChars(s, i + w, FromBigEndian(s[i..i + w]), mem)
  }

  function ReadKey(s: seq<byte>, i: nat, mem: Memory): (r: TextOutcome)
    requires i <= |s|
    ensures i <= r.pos <= |s|
  {
    if i == |s| then TextOutcome(IncompleteInput, "", i, mem)
    else if IsTextCode(s[i]) then ReadText(s, i + 1, s[i], mem)
    else TextOutcome(NotSupported, "", i, mem)
  }

  /** A two's complement integer of w bytes. */
  function SignedValue(b: seq<byte>): Value {
    var n := FromBigEndian(b);
    if 2 * n < Pow256(|b|) then Pos(n) else Neg(Pow256(|b|) - n)
  }

  predicate IsScalarCode(code: byte) {
    code < 0x80 || code >= 0xE0 || code == 0xC0 || code == 0xC2 || code == 0xC3 || 0xCA <= code <= 0xD3
  }

  /** How many bytes follow a scalar's code. */
  function ScalarWidth(code: byte): nat {
    if code == 0xCC || code == 0xD0 then 1
    else if code == 0xCD || code == 0xD1 then 2
    else if code == 0xCE || code == 0xD2 || code == 0xCA then 4
    else if code == 0xCF || code == 0xD3 || code == 0xCB then 8
    else 0
  }

  function ScalarValue(code: byte, b: seq<byte>): Value
    requires IsScalarCode(code)
  {
    if code < 0x80 then Pos(code)
    else if code >= 0xE0 then Neg(256 - code)
    else if code == 0xC0 then Null
    else if code == 0xC2 || code == 0xC3 then Bool(code == 0xC3)
    else if code == 0xCA then Float(Bits(32, FromBigEndian(b)))
    else if code == 0xCB then Float(Bits(64, FromBigEndian(b)))
    else if code <= 0xCF then Pos(FromBigEndian(b))
    else SignedValue(b)
  }

  predicate IsFixSlots(code: byte) { 0x80 <= code < 0xA0 }

  predicate IsObjectCode(code: byte) { 0x80 <= code < 0x90 || code == 0xDE || code == 0xDF }

  predicate IsArrayCode(code: byte) { 0x90 <= code < 0xA0 || code == 0xDC || code == 0xDD }

  /** How many bytes of size follow a collection's code. */
  function SlotsWidth(code: byte): nat {
    if IsFixSlots(code) then 0 else if code == 0xDC || code == 0xDE then 2 else 4
  }

  function Unpack(s: seq<byte>, i: nat, limit: nat, mem: Memory): (r: Outcome)
    requires i <= |s|
    ensures i <= r.pos <= |s|
    decreases limit, 2, 0
  {
    if i == |s| then Outcome(IncompleteInput, Null, i, mem)
    else if IsScalarCode(s[i]) then UnpackScalar(s, i, mem)
    else if IsTextCode(s[i]) then
      var t := ReadText(s, i + 1, s[i], mem);
      Outcome(t.err, if t.err == Ok then Str(t.text) else Null, t.pos, t.mem)
    else if IsArrayCode(s[i]) then UnpackCollection(false, s, i, limit, mem)
    else if IsObjectCode(s[i]) then UnpackCollection(true, s, i, limit, mem)
    else Outcome(NotSupported, Null, i, mem)
  }

  function UnpackScalar(s: seq<byte>, i: nat, mem: Memory): (r: Outcome)
    requires i < |s| && IsScalarCode(s[i])
    ensures i <= r.pos <= |s|
  {
    var w := ScalarWidth(s[i]);
    if w > |s| - (i + 1) then Outcome(IncompleteInput, Null, i, mem)
    else Outcome(Ok, ScalarValue(s[i], s[i + 1..i + 1 + w]), i + 1 + w, mem)
  }

  function UnpackCollection(obj: bool, s: seq<byte>, i: nat, limit: nat, mem: Memory): (r: Outcome)
    requires i < |s|
    ensures i <= r.pos <= |s|
    decreases limit, 1, 0
  {
    var w := SlotsWidth(s[i]);
    if w > |s| - (i + 1) then Outcome(IncompleteInput, Wrap(obj, []), i, mem)
    else if limit == 0 then Outcome(TooDeep, Wrap(obj, []), i, mem)
    else
      var n := if w == 0 then s[i] % 0x10 else FromBigEndian(s[i + 1..i + 1 + w]);
      UnpackRows(obj, n, s, i + 1 + w, limit, mem, [])
  }

  /** Adds a slot, and reads its key; without one the slot stays unnamed. */
  function UnpackHead(obj: bool, s: seq<byte>, i: nat, mem: Memory, slots: seq<Slot>): (h: Head)
    requires i <= |s|
    ensures i <= h.pos <= |s| && (h.err == Ok ==> h.k < |h.slots|)
  {
    if !mem.Has(SLOT_SIZE) then Head(NoMemory, slots, 0, i, mem)
    else if !obj then Head(Ok, slots + [Element(Null)], |slots|, i, mem.Take(SLOT_SIZE))
    else
      var key := ReadKey(s, i, mem.Take(SLOT_SIZE));
      if key.err != Ok then Head(key.err, slots + [Element(Null)], |slots|, key.pos, key.mem)
      else Head(Ok, slots + [Member(key.text, Null)], |slots|, key.pos, key.mem)
  }

  function UnpackRows(obj: bool, n: nat, s: seq<byte>, i: nat, limit: nat, mem: Memory, slots: seq<Slot>): (r: Outcome)
    requires i <= |s| && limit > 0
    ensures i <= r.pos <= |s|
    decreases limit, 0, n, 1
  {
    if n == 0 then Outcome(Ok, Wrap(obj, slots), i, mem)
    else UnpackRow(obj, n, s, UnpackHead(obj, s, i, mem, slots), limit)
  }

  function UnpackRow(obj: bool, n: nat, s: seq<byte>, h: Head, limit: nat): (r: Outcome)
    requires h.pos <= |s| && limit > 0 && n > 0 && (h.err == Ok ==> h.k < |h.slots|)
    ensures h.pos <= r.pos <= |s|
    decreases limit, 0, n, 0
  {
    if h.err != Ok then Outcome(h.err, Wrap(obj, h.slots), h.pos, h.mem)
    else
      var r := Unpack(s, h.pos, limit - 1, h.mem);
      var slots := SetValue(h.slots, h.k, r.value);
      if r.err != Ok then Outcome(r.err, Wrap(obj, slots), r.pos, r.mem)
      else UnpackRows(obj, n - 1, s, r.pos, limit, r.mem, slots)
  }
}
