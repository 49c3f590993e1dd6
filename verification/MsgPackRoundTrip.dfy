/** Deserializing what the MessagePack serializer wrote. */
module MsgPackRoundTrip {
  import opened Arithmetic
  import opened Octets
  import opened Document
  import opened Occurrence
  import opened JsonLimits
  import opened StoredDocument
  import opened MsgPackFormat
  import opened MsgPackLimits

  const INT_MIN_MAGNITUDE: nat := 0x8000_0000_0000_0000

  /** What a negative integer becomes when it goes through a 64-bit two's complement. */
  function SignedNegative(n: nat): Value {
    if n == 0 then Pos(0)
    else if n <= INT_MIN_MAGNITUDE then Neg(n)
    else Pos(if n <= UINT_MAX then UINT_MAX + 1 - n else 0)
  }

  function Signed(v: Value): Value
    decreases v
  {
    match v
    case Neg(n) => SignedNegative(n)
    case Arr(slots) => Arr(SignedSlots(slots))
    case Obj(slots) => Obj(SignedSlots(slots))
    case _ => v
  }

  function SignedSlots(slots: seq<Slot>): (r: seq<Slot>)
    ensures |r| == |slots|
    decreases slots
  {
    if slots == [] then [] else [SignedSlot(slots[0])] + SignedSlots(slots[1..])
  }

  function SignedSlot(slot: Slot): Slot
    decreases slot
  {
    slot.(value := Signed(slot.value))
  }

  /** Every negative integer of the value fits a 64-bit signed integer and is not zero. */
  predicate InSignedRange(v: Value)
    decreases v
  {
    match v
    case Neg(n) => 1 <= n <= INT_MIN_MAGNITUDE
    case Arr(slots) => SlotsInSignedRange(slots)
    case Obj(slots) => SlotsInSignedRange(slots)
    case _ => true
  }

  predicate SlotsInSignedRange(slots: seq<Slot>)
    decreases slots
  {
    slots == [] || (SlotInSignedRange(slots[0]) && SlotsInSignedRange(slots[1..]))
  }

  predicate SlotInSignedRange(slot: Slot)
    decreases slot
  {
    InSignedRange(slot.value)
  }

  lemma {:induction false} SignedFixed(v: Value)
    ensures Signed(v) == v <==> InSignedRange(v)
    decreases v
  {
    match v
    case Arr(slots) => SignedSlotsFixed(slots);
    case Obj(slots) => SignedSlotsFixed(slots);
    case _ =>
  }

  lemma {:induction false} SignedSlotsFixed(slots: seq<Slot>)
    ensures SignedSlots(slots) == slots <==> SlotsInSignedRange(slots)
    decreases slots
  {
    if slots != [] {
      SignedSlotFixed(slots[0]);
      SignedSlotsFixed(slots[1..]);
      var r := SignedSlots(slots);
      assert r[0] == SignedSlot(slots[0]) && r[1..] == SignedSlots(slots[1..]);
      assert slots == [slots[0]] + slots[1..] && r == [r[0]] + r[1..];
    }
  }

  lemma {:induction false} SignedSlotFixed(slot: Slot)
    ensures SignedSlot(slot) == slot <==> SlotInSignedRange(slot)
    decreases slot
  {
    SignedFixed(slot.value);
  }

  // ----- sizes -----

  /** Strings and collections short enough for a 32-bit size. */
  predicate Sized(v: Value)
    decreases v
  {
    match v
    case Str(text) => |text| < 0x1_0000_0000
    case Arr(slots) => |slots| < 0x1_0000_0000 && SlotsSized(slots)
    case Obj(slots) => |slots| < 0x1_0000_0000 && SlotsSized(slots)
    case _ => true
  }

  predicate SlotsSized(slots: seq<Slot>)
    decreases slots
  {
    forall k :: 0 <= k < |slots| ==> SlotSized(slots[k])
  }

  predicate SlotSized(slot: Slot)
    decreases slot
  {
    (slot.Member? ==> |slot.key| < 0x1_0000_0000) && Sized(slot.value)
  }

  lemma {:induction false} BigEndianRead(n: nat, w: nat)
    ensures FromBigEndian(BigEndian(n, w)) == n % Pow256(w)
  {
    if w > 0 {
      var b := BigEndian(n, w);
      assert b[..w - 1] == BigEndian(n / 256, w - 1);
      BigEndianRead(n / 256, w - 1);
      SplitModulo(n, Pow256(w - 1));
    }
  }

  lemma SplitModulo(n: nat, p: nat)
    requires p > 0
    ensures n % (256 * p) == 256 * (n / 256 % p) + n % 256
  {
    var q, r := n / 256 / p, n / 256 % p;
    assert n / 256 == p * q + r;
    var low := 256 * r + n % 256;
    assert n == 256 * (p * q) + low;
    assert 256 * (p * q) == (256 * p) * q;
    assert low < 256 * p;
    ModuloUnique(n, 256 * p, q, low);
  }

  lemma ModuloUnique(n: nat, m: nat, q: int, r: int)
    requires m > 0 && n == m * q + r && 0 <= r < m
    ensures n % m == r
  {
    var d := n / m - q;
    assert m * d == m * (n / m) - m * q;
    MultipleApart(m, d);
  }

  lemma Powers()
    ensures Pow256(1) == 0x100 && Pow256(2) == 0x1_0000 && Pow256(4) == 0x1_0000_0000
    ensures Pow256(8) == UINT_MAX + 1
  {
    assert Pow256(3) == 0x100_0000 && Pow256(5) == 0x100_0000_0000 && Pow256(6) == 0x1_0000_0000_0000 && Pow256(7) == 0x100_0000_0000_0000;
  }

  lemma OneByte(n: nat)
    ensures BigEndian(n, 1) == [n % 256]
  {
    assert BigEndian(n / 256, 0) == [];
  }

  // ----- scalars -----

  predicate IsScalar(v: Value) { v.Null? || v.Bool? || v.Pos? || v.Neg? }

  /** A code followed by the low w bytes of n. */
  lemma CodedRead(s: seq<byte>, i: nat, code: byte, n: nat, w: nat)
    requires Occurs(s, i, [code] + BigEndian(n, w))
    ensures i + 1 + w <= |s| && s[i] == code && s[i + 1..i + 1 + w] == BigEndian(n, w)
    ensures var read := FromBigEndian(s[i + 1..i + 1 + w]);
            read == n % Pow256(w) && (n < Pow256(w) ==> read == n)
  {
    OccursConcat(s, i, [code], BigEndian(n, w));
    OccursAt(s, i, [code], 0);
    BigEndianRead(n, w);
    hide Pow256, BigEndian, FromBigEndian;
  }

  lemma PositiveRoundTrip(s: seq<byte>, i: nat, n: nat, mem: Memory)
    requires n <= UINT_MAX && Occurs(s, i, PackPositive(n))
    ensures i < |s| && IsScalarCode(s[i])
    ensures UnpackScalar(s, i, mem) == Outcome(Ok, Pos(n), i + |PackPositive(n)|, mem)
  {
    hide Pow256, BigEndian, FromBigEndian, Occurs;
    Powers();
    if n <= 0x7F {
      OccursAt(s, i, PackPositive(n), 0);
    } else if n <= 0xFF {
      CodedRead(s, i, 0xCC, n, 1);
    } else if n <= 0xFFFF {
      CodedRead(s, i, 0xCD, n, 2);
    } else if n <= 0xFFFF_FFFF {
      CodedRead(s, i, 0xCE, n, 4);
    } else {
      CodedRead(s, i, 0xCF, n, 8);
    }
  }

  /** The low bytes of a two's complement are those of the narrower two's complement. */
  lemma NegatedLow(n: nat, p: nat, q: nat)
    requires 0 < n <= p && n <= UINT_MAX && p * q == UINT_MAX + 1
    ensures Negated(n) % p == if n == p then 0 else p - n
  {
    if n == p {
      assert Negated(n) == p * (q - 1) + 0;
      ModuloUnique(Negated(n), p, q - 1, 0);
    } else {
      assert Negated(n) == p * (q - 1) + (p - n);
      ModuloUnique(Negated(n), p, q - 1, p - n);
    }
  }

  lemma FixedNegativeRoundTrip(s: seq<byte>, i: nat, n: nat, mem: Memory)
    requires n <= 0x20 && Occurs(s, i, BigEndian(Negated(n), 1))
    ensures i < |s| && IsScalarCode(s[i])
    ensures UnpackScalar(s, i, mem) == Outcome(Ok, SignedNegative(n), i + 1, mem)
  {
    hide BigEndian, FromBigEndian, Occurs;
    var m := Negated(n);
    OneByte(m);
    assert BigEndian(m, 1) == [m % 256];
    OccursAt(s, i, BigEndian(m, 1), 0);
    if n > 0 {
      NegatedLow(n, 0x100, 0x100_0000_0000_0000);
    }
  }

  /** The value of a signed integer's bytes. */
  lemma SignedRead(n: nat, w: nat, q: nat, b: seq<byte>)
    requires n <= UINT_MAX && |b| == w && FromBigEndian(b) == Negated(n) % Pow256(w)
    requires 0 < n && 2 * n <= Pow256(w) && Pow256(w) * q == UINT_MAX + 1
    ensures SignedValue(b) == Neg(n)
  {
    hide Pow256, FromBigEndian;
    NegatedLow(n, Pow256(w), q);
  }

  lemma WideNegativeRoundTrip(s: seq<byte>, i: nat, code: byte, n: nat, w: nat, q: nat, mem: Memory)
    requires n <= UINT_MAX && 0xD0 <= code <= 0xD3 && w == ScalarWidth(code) && Occurs(s, i, [code] + BigEndian(Negated(n), w))
    requires 0 < n && 2 * n <= Pow256(w) && Pow256(w) * q == UINT_MAX + 1
    ensures i < |s| && s[i] == code
    ensures UnpackScalar(s, i, mem) == Outcome(Ok, Neg(n), i + 1 + w, mem)
  {
    hide Pow256, BigEndian, FromBigEndian, Occurs, SignedValue, Negated, ScalarWidth;
    CodedRead(s, i, code, Negated(n), w);
    SignedRead(n, w, q, s[i + 1..i + 1 + w]);
  }

  /** Magnitudes above 2^63 are cut to 64 bits and read back positive. */
  lemma HugeNegativeRoundTrip(s: seq<byte>, i: nat, n: nat, mem: Memory)
    requires INT_MIN_MAGNITUDE < n <= UINT_MAX && Occurs(s, i, [0xD3] + BigEndian(Negated(n), 8))
    ensures i < |s| && s[i] == 0xD3
    ensures UnpackScalar(s, i, mem) == Outcome(Ok, SignedNegative(n), i + 9, mem)
  {
    hide Pow256, BigEndian, FromBigEndian, Occurs;
    Powers();
    CodedRead(s, i, 0xD3, Negated(n), 8);
  }

  lemma NegativeRoundTrip(s: seq<byte>, i: nat, n: nat, mem: Memory)
    requires n <= UINT_MAX && Occurs(s, i, PackNegative(n))
    ensures i < |s| && IsScalarCode(s[i])
    ensures UnpackScalar(s, i, mem) == Outcome(Ok, SignedNegative(n), i + |PackNegative(n)|, mem)
  {
    hide Pow256, BigEndian, FromBigEndian, Occurs, UnpackScalar, Negated;
    Powers();
    if n <= 0x20 {
      FixedNegativeRoundTrip(s, i, n, mem);
    } else if n <= 0x80 {
      WideNegativeRoundTrip(s, i, 0xD0, n, 1, 0x100_0000_0000_0000, mem);
    } else if n <= 0x8000 {
      WideNegativeRoundTrip(s, i, 0xD1, n, 2, 0x1_0000_0000_0000, mem);
    } else if n <= 0x8000_0000 {
      WideNegativeRoundTrip(s, i, 0xD2, n, 4, 0x1_0000_0000, mem);
    } else if n <= INT_MIN_MAGNITUDE {
      WideNegativeRoundTrip(s, i, 0xD3, n, 8, 1, mem);
    } else {
      HugeNegativeRoundTrip(s, i, n, mem);
    }
  }

  lemma ScalarRoundTrip(s: seq<byte>, i: nat, v: Value, mem: Memory)
    requires Clean(v) && NarrowValue(v) && IsScalar(v) && Occurs(s, i, Pack(v))
    ensures i < |s| && IsScalarCode(s[i])
    ensures UnpackScalar(s, i, mem) == Outcome(Ok, Signed(v), i + |Pack(v)|, mem)
  {
    match v
    case Pos(n) => PositiveRoundTrip(s, i, n, mem);
    case Neg(n) => NegativeRoundTrip(s, i, n, mem);
    case Bool(_) => OccursAt(s, i, Pack(v), 0);
    case Null => OccursAt(s, i, Pack(v), 0);
  }

  // ----- strings -----

  lemma CharsOfBytes(t: string)
    requires Narrow(t)
    ensures Chars(Bytes(t)) == t
  {
  }

  lemma BytesFound(s: seq<byte>, i: nat, b: seq<byte>)
    requires Occurs(s, i, b)
    ensures i + |b| <= |s| && s[i..i + |b|] == b
  {
  }

  lemma TextHeaderRead(s: seq<byte>, i: nat, n: nat, mem: Memory)
    requires n < 0x1_0000_0000 && Occurs(s, i, TextHeader(n))
    ensures i < i + |TextHeader(n)| <= |s| && IsTextCode(s[i])
    ensures ReadText(s, i + 1, s[i], mem) == ReadChars(s, i + |TextHeader(n)|, n, mem)
  {
    hide Pow256, BigEndian, FromBigEndian, Occurs, ReadChars;
    Powers();
    if n < 0x20 {
      OccursAt(s, i, TextHeader(n), 0);
    } else if n < 0x100 {
      CodedRead(s, i, 0xD9, n, 1);
    } else if n < 0x1_0000 {
      CodedRead(s, i, 0xDA, n, 2);
    } else {
      CodedRead(s, i, 0xDB, n, 4);
    }
  }

  lemma TextRoundTrip(s: seq<byte>, i: nat, t: string, mem: Memory)
    requires NulFree(t) && Narrow(t) && |t| < 0x1_0000_0000 && Occurs(s, i, PackText(t))
    requires mem.Has(TextNeed(mem.copies, t))
    ensures i < |s| && IsTextCode(s[i])
    ensures ReadText(s, i + 1, s[i], mem) == TextOutcome(Ok, t, i + |PackText(t)|, mem.Take(TextNeed(mem.copies, t)))
  {
    hide Occurs, TextHeader, Bytes, Chars, ReadText, UpToNul, Narrow, NulFree;
    var header := TextHeader(|t|);
    OccursConcat(s, i, header, Bytes(t));
    TextHeaderRead(s, i, |t|, mem);
    BytesFound(s, i + |header|, Bytes(t));
    CharsOfBytes(t);
    UpToNulFree(t);
  }

  // ----- collections -----

  lemma {:induction false} ValueRoundTrip(s: seq<byte>, i: nat, v: Value, limit: nat, mem: Memory)
    requires Clean(v) && NarrowValue(v) && Sized(v) && Nesting(v) <= limit && mem.Has(Need(mem.copies, v))
    requires Occurs(s, i, Pack(v))
    ensures i <= |s| && Unpack(s, i, limit, mem) == Outcome(Ok, Signed(v), i + |Pack(v)|, mem.Take(Need(mem.copies, v)))
    decreases v, 1
  {
    match v
    case Str(text) => TextRoundTrip(s, i, text, mem);
    case Arr(slots) => CollectionRoundTrip(false, s, i, slots, limit, mem);
    case Obj(slots) => CollectionRoundTrip(true, s, i, slots, limit, mem);
    case _ => ScalarRoundTrip(s, i, v, mem);
  }

  lemma HeaderRoundTrip(obj: bool, s: seq<byte>, i: nat, n: nat, limit: nat, mem: Memory)
    requires Occurs(s, i, SlotsHeader(obj, n)) && n < 0x1_0000_0000 && limit > 0
    ensures i < i + |SlotsHeader(obj, n)| <= |s|
    ensures if obj then IsObjectCode(s[i]) else IsArrayCode(s[i])
    ensures UnpackCollection(obj, s, i, limit, mem) == UnpackRows(obj, n, s, i + |SlotsHeader(obj, n)|, limit, mem, [])
  {
    hide Pow256, BigEndian, FromBigEndian, Occurs, UnpackRows;
    Powers();
    if n < 0x10 {
      OccursAt(s, i, SlotsHeader(obj, n), 0);
    } else if n < 0x1_0000 {
      CodedRead(s, i, if obj then 0xDE else 0xDC, n, 2);
    } else {
      CodedRead(s, i, if obj then 0xDF else 0xDD, n, 4);
    }
  }

  ghost predicate Packable(obj: bool, slots: seq<Slot>, limit: nat) {
    CleanSlots(obj, slots) && NarrowSlots(slots) && SlotsSized(slots) && Shallow(slots, limit)
  }

  lemma {:induction false} CollectionRoundTrip(obj: bool, s: seq<byte>, i: nat, slots: seq<Slot>, limit: nat, mem: Memory)
    requires CleanSlots(obj, slots) && NarrowSlots(slots) && SlotsSized(slots) && |slots| < 0x1_0000_0000
    requires 1 + SlotsNesting(slots) <= limit && mem.Has(SlotsNeed(mem.copies, slots))
    requires Occurs(s, i, SlotsHeader(obj, |slots|) + PackSlots(obj, slots))
    ensures i < |s| && (if obj then IsObjectCode(s[i]) else IsArrayCode(s[i]))
    ensures UnpackCollection(obj, s, i, limit, mem) ==
            Outcome(Ok, Wrap(obj, SignedSlots(slots)), i + |SlotsHeader(obj, |slots|) + PackSlots(obj, slots)|,
                    mem.Take(SlotsNeed(mem.copies, slots)))
    decreases slots, 1
  {
    hide Occurs, SlotsHeader, PackSlots, UnpackCollection, CleanSlots;
    var header := SlotsHeader(obj, |slots|);
    OccursConcat(s, i, header, PackSlots(obj, slots));
    HeaderRoundTrip(obj, s, i, |slots|, limit, mem);
    SlotsNestingBound(slots, limit - 1);
    RowsRoundTrip(obj, s, i + |header|, [], slots, limit, mem);
    assert [] + SignedSlots(slots) == SignedSlots(slots);
  }

  lemma {:induction false} RowsRoundTrip(obj: bool, s: seq<byte>, i: nat, done: seq<Slot>, rest: seq<Slot>, limit: nat, mem: Memory)
    requires i <= |s| && limit > 0 && Packable(obj, rest, limit - 1) && mem.Has(SlotsNeed(mem.copies, rest))
    requires Occurs(s, i, PackSlots(obj, rest))
    ensures UnpackRows(obj, |rest|, s, i, limit, mem, done) ==
            Outcome(Ok, Wrap(obj, done + SignedSlots(rest)), i + |PackSlots(obj, rest)|, mem.Take(SlotsNeed(mem.copies, rest)))
    decreases rest, 0
  {
    hide Occurs, Packable, PackSlots, PackSlot, SlotsNeed, SignedSlots, UnpackRow, UnpackHead, Need;
    if rest == [] {
      NothingLeft(obj, done, mem.copies);
    } else {
      var slot := rest[0];
      FirstOfRest(obj, rest, limit - 1, mem.copies);
      OccursConcat(s, i, PackSlot(obj, slot), PackSlots(obj, rest[1..]));
      HeadRoundTrip(obj, s, i, done, slot, mem);
      var h := UnpackHead(obj, s, i, mem, done);
      RowRoundTrip(obj, |rest|, s, i, h, done, slot, limit);
      var mem' := mem.Take(SlotNeed(mem.copies, slot));
      RowsRoundTrip(obj, s, i + |PackSlot(obj, slot)|, done + [SignedSlot(slot)], rest[1..], limit, mem');
      assert done + [SignedSlot(slot)] + SignedSlots(rest[1..]) == done + SignedSlots(rest);
    }
  }

  lemma NothingLeft(obj: bool, done: seq<Slot>, copies: bool)
    ensures PackSlots(obj, []) == [] && SlotsNeed(copies, []) == 0 && done + SignedSlots([]) == done
  {
  }

  lemma FirstOfRest(obj: bool, rest: seq<Slot>, limit: nat, copies: bool)
    requires rest != [] && Packable(obj, rest, limit)
    ensures CleanSlot(obj, rest[0]) && NarrowSlot(rest[0]) && SlotSized(rest[0]) && Nesting(rest[0].value) <= limit
    ensures Packable(obj, rest[1..], limit) && CleanSlots(obj, rest[1..]) && NarrowSlots(rest[1..])
    ensures CleanSlots(obj, rest) && NarrowSlots(rest) && PackSlots(obj, rest) == PackSlot(obj, rest[0]) + PackSlots(obj, rest[1..])
    ensures SlotsNeed(copies, rest) == SlotNeed(copies, rest[0]) + SlotsNeed(copies, rest[1..])
    ensures SignedSlots(rest) == [SignedSlot(rest[0])] + SignedSlots(rest[1..])
  {
  }

  function KeyBytes(obj: bool, slot: Slot): seq<byte>
    requires CleanSlot(obj, slot) && NarrowSlot(slot)
  {
    if obj then PackText(slot.key) else []
  }

  lemma HeadRoundTrip(obj: bool, s: seq<byte>, i: nat, done: seq<Slot>, slot: Slot, mem: Memory)
    requires CleanSlot(obj, slot) && NarrowSlot(slot) && SlotSized(slot)
    requires mem.Has(HeadNeed(mem.copies, slot)) && Occurs(s, i, PackSlot(obj, slot))
    ensures i + |KeyBytes(obj, slot)| <= |s|
    ensures UnpackHead(obj, s, i, mem, done) ==
            Head(Ok, done + [slot.(value := Null)], |done|, i + |KeyBytes(obj, slot)|, mem.Take(HeadNeed(mem.copies, slot)))
    ensures Occurs(s, i + |KeyBytes(obj, slot)|, Pack(slot.value))
  {
    hide Pack, TextHeader, Bytes;
    OccursConcat(s, i, KeyBytes(obj, slot), Pack(slot.value));
    if obj {
      TextRoundTrip(s, i, slot.key, mem.Take(SLOT_SIZE));
    }
  }

  lemma {:induction false} RowRoundTrip(obj: bool, n: nat, s: seq<byte>, i: nat, h: Head, done: seq<Slot>, slot: Slot, limit: nat)
    requires CleanSlot(obj, slot) && NarrowSlot(slot) && SlotSized(slot) && limit > 0 && Nesting(slot.value) <= limit - 1
    requires n > 0 && h.err == Ok && h.slots == done + [slot.(value := Null)] && h.k == |done|
    requires h.pos == i + |KeyBytes(obj, slot)| <= |s| && Occurs(s, h.pos, Pack(slot.value))
    requires h.mem.Has(Need(h.mem.copies, slot.value))
    ensures i + |PackSlot(obj, slot)| <= |s|
    ensures UnpackRow(obj, n, s, h, limit) ==
            UnpackRows(obj, n - 1, s, i + |PackSlot(obj, slot)|, limit, h.mem.Take(Need(h.mem.copies, slot.value)), done + [SignedSlot(slot)])
    decreases slot, 2
  {
    hide Pack, PackText;
    ValueRoundTrip(s, h.pos, slot.value, limit - 1, h.mem);
    assert SetValue(h.slots, h.k, Signed(slot.value)) == done + [SignedSlot(slot)];
  }

  // ----- the main result -----

  lemma Sufficient(v: Value, limit: nat, mem: Memory)
    requires Clean(v) && NarrowValue(v) && Sized(v) && Nesting(v) <= limit && mem.Has(Need(mem.copies, v))
    ensures Unpack(Pack(v), 0, limit, mem) == Outcome(Ok, Signed(v), |Pack(v)|, mem.Take(Need(mem.copies, v)))
  {
    assert Pack(v)[0..|Pack(v)|] == Pack(v);
    ValueRoundTrip(Pack(v), 0, v, limit, mem);
  }

  /** Reading back a serialized document succeeds exactly when it respects the nesting limit
      and fits in the pool; it consumes exactly the bytes written; and it gives the document
      back exactly when its negative integers lie in -2^63..-1. */
  lemma RoundTrip(v: Value, limit: nat, mem: Memory)
    requires Clean(v) && NarrowValue(v) && Sized(v)
    ensures var r := Unpack(Pack(v), 0, limit, mem);
            && (r.err == Ok <==> Nesting(v) <= limit && mem.Has(Need(mem.copies, v)))
            && (r.err == Ok ==>
              && r.pos == |Pack(v)| && r.mem == mem.Take(Need(mem.copies, v))
              && (r.value == v <==> InSignedRange(v)))
  {
    var r := Unpack(Pack(v), 0, limit, mem);
    SignedFixed(v);
    if Nesting(v) <= limit && mem.Has(Need(mem.copies, v)) {
      Sufficient(v, limit, mem);
    } else if r.err == Ok {
      var limit2, mem2 := limit + Nesting(v), mem.(room := mem.room + Need(mem.copies, v));
      Sufficient(v, limit2, mem2);
      UnpackMonotone(Pack(v), 0, limit, limit2, mem, mem2);
      UnpackBounded(Pack(v), 0, limit, mem);
      SignedMeasures(v, mem.copies);
      assert false;
    }
  }

  lemma {:induction false} SignedMeasures(v: Value, copies: bool)
    ensures Need(copies, Signed(v)) == Need(copies, v) && Nesting(Signed(v)) == Nesting(v)
    decreases v
  {
    match v
    case Arr(slots) => SignedSlotsMeasures(slots, copies);
    case Obj(slots) => SignedSlotsMeasures(slots, copies);
    case _ =>
  }

  lemma {:induction false} SignedSlotsMeasures(slots: seq<Slot>, copies: bool)
    ensures SlotsNeed(copies, SignedSlots(slots)) == SlotsNeed(copies, slots)
    ensures SlotsNesting(SignedSlots(slots)) == SlotsNesting(slots)
    decreases slots
  {
    if slots != [] {
      SignedSlotMeasures(slots[0], copies);
      SignedSlotsMeasures(slots[1..], copies);
      assert SignedSlots(slots)[1..] == SignedSlots(slots[1..]);
    }
  }

  lemma {:induction false} SignedSlotMeasures(slot: Slot, copies: bool)
    ensures SlotNeed(copies, SignedSlot(slot)) == SlotNeed(copies, slot)
    ensures SlotNesting(SignedSlot(slot)) == SlotNesting(slot)
    decreases slot
  {
    SignedMeasures(slot.value, copies);
  }
}
