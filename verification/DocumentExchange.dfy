/** Documents that go out through a serializer and come back through a deserializer. */
module DocumentExchange {
  import opened Octets
  import opened Document
  import opened Numbers
  import opened JsonGrammar
  import opened StoredDocument
  import opened StringStorage
  import opened JsonPrinter
  import JsonSerializer
  import JsonDeserializer
  import JsonRoundTrip
  import opened DocumentEquality
  import opened MsgPackFormat
  import MsgPackSerializer
  import MsgPackDeserializer
  import MsgPackRoundTrip

  method NewStorage(input: array<char>, inPlace: bool, capacity: nat) returns (storage: Storage)
    ensures fresh(storage) && storage.Valid() && storage.ptr == 0 && storage.Written() == 0
    ensures storage.inPlace == inPlace && (storage.arena == input <==> inPlace) && (!inPlace ==> fresh(storage.arena))
    ensures storage.Room() == Memory(!inPlace, capacity)
  {
    var arena := input;
    if !inPlace {
      arena := new char[capacity];
    }
    storage := new Storage(arena, inPlace, capacity);
  }

  method Copy(buffer: array<char>, n: nat) returns (input: array<char>)
    requires n <= buffer.Length
    ensures fresh(input) && input[..] == buffer[..n]
  {
    input := new char[n](i requires 0 <= i < n reads buffer => buffer[i]);
  }

  /** A document printed into a big enough buffer and read back, in place or copying, is the
      same document, exactly when it is not too deep and fits in the pool. */
  method ExchangeJson(v: Value, style: Style, buffer: array<char>, limit: nat, inPlace: bool, capacity: nat)
    returns (err: Error, w: Node, arena: array<char>)
    requires Clean(v) && UniquelyKeyed(v) && |Print(v, style, 0)| < buffer.Length
    modifies buffer
    ensures err == Ok <==> Nesting(v) <= limit && Need(!inPlace, v) <= capacity
    ensures err == Ok ==> Denote(w, arena[..]) == v
  {
    var n := JsonSerializer.SerializeJson(v, style, buffer);
    var input := Copy(buffer, n);
    var storage := NewStorage(input, inPlace, capacity);
    arena := storage.arena;
    var deserializer := new JsonDeserializer.Deserializer(input, storage);
    assert deserializer.text == Print(v, style, 0);
    JsonRoundTrip.RoundTrip(v, style, limit, storage.Room());
    err, w := deserializer.Parse(limit);
  }

  /** The same for MessagePack; negative integers below -2^63 are the exception. */
  method ExchangeMsgPack(v: Value, buffer: array<char>, limit: nat, inPlace: bool, capacity: nat)
    returns (err: Error, w: Node, arena: array<char>, consumed: nat)
    requires Clean(v) && NarrowValue(v) && MsgPackRoundTrip.Sized(v) && |Pack(v)| < buffer.Length
    modifies buffer
    ensures err == Ok <==> Nesting(v) <= limit && Need(!inPlace, v) <= capacity
    ensures err == Ok ==> consumed == |Pack(v)|
    ensures err == Ok ==> (Denote(w, arena[..]) == v <==> MsgPackRoundTrip.InSignedRange(v))
  {
    var n := MsgPackSerializer.SerializeMsgPack(v, buffer);
    var input := Copy(buffer, n);
    assert input[..] == Chars(Pack(v));
    BytesOfChars(Pack(v));
    var storage := NewStorage(input, inPlace, capacity);
    arena := storage.arena;
    var deserializer := new MsgPackDeserializer.Deserializer(input, storage);
    MsgPackRoundTrip.RoundTrip(v, limit, storage.Room());
    err, w := deserializer.Parse(limit);
    consumed := deserializer.pos;
  }

  /** The integers below -2^63, which the JSON deserializer accepts, are read back from MessagePack
      as positive ones, and a negative zero as zero. */
  lemma NegativeTurnsPositive(n: nat, limit: nat, mem: Memory)
    requires n <= UINT_MAX && !MsgPackRoundTrip.InSignedRange(Neg(n))
    ensures Deserialize("-" + Digits(n), limit, mem).err == Ok && Deserialize("-" + Digits(n), limit, mem).value == Neg(n)
    ensures Unpack(Pack(Neg(n)), 0, limit, mem) ==
            Outcome(Ok, Pos(if n == 0 then 0 else UINT_MAX + 1 - n), |Pack(Neg(n))|, mem)
  {
    assert Print(Neg(n), Compact, 0) == "-" + Digits(n);
    JsonRoundTrip.RoundTrip(Neg(n), Compact, limit, mem);
    MsgPackRoundTrip.Sufficient(Neg(n), limit, mem);
  }

  /** MessagePack keeps a repeated key, so that a document that was read differs from its copies; from
      JSON there is none (`JsonKeys.DeserializedEqualsCopy`). */
  lemma RepeatedKeyUnpacked(n: nat, limit: nat, mem: Memory)
    requires n <= UINT_MAX
    ensures Clean(Repeated(n)) && NarrowValue(Repeated(n)) && MsgPackRoundTrip.Sized(Repeated(n))
    ensures var r := Unpack(Pack(Repeated(n)), 0, limit, mem);
            && (r.err == Ok <==> limit > 0 && mem.Has(Need(mem.copies, Repeated(n))))
            && (r.err == Ok ==> r.value == Repeated(n) && (Equals(r.value, r.value) <==> n == 1))
  {
    var slots := Repeated(n).slots;
    assert forall k :: 0 <= k < |slots| ==> slots[k] == Member("a", Pos(if k == 0 then 1 else n));
    assert Clean(Pos(n)) && Clean(Pos(1));
    forall k | 0 <= k < |slots|
      ensures CleanSlot(true, slots[k]) && NarrowSlot(slots[k]) && MsgPackRoundTrip.SlotSized(slots[k])
      ensures MsgPackRoundTrip.SlotInSignedRange(slots[k]) && SlotNesting(slots[k]) == 0
    {
    }
    assert slots[1..] == [slots[1]] && [slots[1]][1..] == [];
    SlotsNestingBound(slots, 0);
    assert MsgPackRoundTrip.SlotsInSignedRange(slots) && Repeated(n) == Obj(slots);
    RepeatedKeyDiffers(n);
    MsgPackRoundTrip.RoundTrip(Repeated(n), limit, mem);
  }

  lemma BytesOfChars(b: seq<byte>)
    ensures Narrow(Chars(b)) && Bytes(Chars(b)) == b
  {
  }
}
