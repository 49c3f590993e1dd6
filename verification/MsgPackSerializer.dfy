/** The MessagePack serializer. */
module MsgPackSerializer {
  import opened Octets
  import opened Arithmetic
  import opened Document
  import opened MsgPackFormat
  import opened MsgPackDeserializer
  import opened StaticWriter

  /** How the processor lays out the low w bytes of an integer in memory. */
  function LittleEndian(n: nat, w: nat): (b: seq<byte>)
    ensures |b| == w
  {
    if w == 0 then [] else [n % 256] + LittleEndian(n / 256, w - 1)
  }

  lemma {:induction false} SwappedInteger(n: nat, w: nat)
    ensures Reverse(LittleEndian(n, w)) == BigEndian(n, w)
  {
    if w > 0 {
      SwappedInteger(n / 256, w - 1);
      var b := LittleEndian(n, w);
      assert b[1..] == LittleEndian(n / 256, w - 1);
      assert Reverse(b) == Reverse(b[1..]) + [b[0]];
    }
  }

  lemma CharsConcat(a: seq<byte>, b: seq<byte>)
    ensures Chars(a + b) == Chars(a) + Chars(b)
  {
  }

  class Serializer {
    const writer: StaticStringWriter
    var bytesWritten: nat
    /** Everything that was handed to the writer. */
    ghost var emitted: seq<byte>

    ghost predicate Valid()
      reads this, writer, writer.buffer
    {
      && writer.Valid() && bytesWritten == writer.p
      && writer.Contents() == Clip(Chars(emitted), writer.Capacity())
    }

    constructor (writer: StaticStringWriter)
      requires writer.Valid() && writer.Contents() == ""
      ensures this.writer == writer && Valid() && emitted == []
    {
      this.writer := writer;
      bytesWritten, emitted := 0, [];
    }

    method WriteByte(c: byte)
      requires Valid()
      modifies this, writer, writer.buffer
      ensures Valid() && emitted == old(emitted) + [c]
    {
      var n := writer.WriteChar(c as char);
      bytesWritten := bytesWritten + n;
      emitted := emitted + [c];
      CharsConcat(old(emitted), [c]);
      assert Chars([c]) == [c as char];
      ClipTwice(Chars(old(emitted)), [c as char], writer.Capacity());
    }

    method WriteBytes(p: seq<byte>)
      requires Valid()
      modifies this, writer, writer.buffer
      ensures Valid() && emitted == old(emitted) + p
    {
      var n := writer.Write(Chars(p));
      bytesWritten := bytesWritten + n;
      emitted := emitted + p;
      CharsConcat(old(emitted), p);
      ClipTwice(Chars(old(emitted)), Chars(p), writer.Capacity());
    }

    /** The low w bytes of an integer, most significant first. */
    method WriteInteger(value: nat, w: nat)
      requires Valid() && IsWidth(w)
      modifies this, writer, writer.buffer
      ensures Valid() && emitted == old(emitted) + BigEndian(value, w)
    {
      hide LittleEndian, BigEndian, Reverse, Clip, Chars;
      var b := LittleEndian(value, w);
      var p := new byte[w](i requires 0 <= i < w => b[i]);
      assert p[..] == b;
      FixEndianness(p);
      SwappedInteger(value, w);
      WriteBytes(p[..]);
    }

    /** A code and an integer after it. */
    method WriteCoded(code: byte, value: nat, w: nat)
      requires Valid() && IsWidth(w)
      modifies this, writer, writer.buffer
      ensures Valid() && emitted == old(emitted) + ([code] + BigEndian(value, w))
    {
      WriteByte(code);
      WriteInteger(value, w);
    }

    method VisitString(text: string)
      requires Valid() && Narrow(text)
      modifies this, writer, writer.buffer
      ensures Valid() && emitted == old(emitted) + PackText(text)
    {
      hide BigEndian, Clip;
      var n := |text|;
      if n < 0x20 {
        WriteByte(0xA0 + n);
      } else if n < 0x100 {
        WriteCoded(0xD9, n, 1);
      } else if n < 0x1_0000 {
        WriteCoded(0xDA, n, 2);
      } else {
        WriteCoded(0xDB, n, 4);
      }
      assert emitted == old(emitted) + TextHeader(n);
      WriteBytes(Bytes(text));
    }

    method VisitPositiveInteger(value: nat)
      requires Valid() && value <= UINT_MAX
      modifies this, writer, writer.buffer
      ensures Valid() && emitted == old(emitted) + PackPositive(value)
    {
      if value <= 0x7F {
        WriteInteger(value, 1);
        FixedPositive(value);
      } else if value <= 0xFF {
        WriteCoded(0xCC, value, 1);
      } else if value <= 0xFFFF {
        WriteCoded(0xCD, value, 2);
      } else if value <= 0xFFFF_FFFF {
        WriteCoded(0xCE, value, 4);
      } else {
        WriteCoded(0xCF, value, 8);
      }
    }

    method VisitNegativeInteger(value: nat)
      requires Valid() && value <= UINT_MAX
      modifies this, writer, writer.buffer
      ensures Valid() && emitted == old(emitted) + PackNegative(value)
    {
      hide BigEndian;
      // ~value + 1 in 64 bits
      var negated := (UINT_MAX - value + 1) % (UINT_MAX + 1);
      assert negated == Negated(value);
      if value <= 0x20 {
        WriteInteger(negated, 1);
      } else if value <= 0x80 {
        WriteCoded(0xD0, negated, 1);
      } else if value <= 0x8000 {
        WriteCoded(0xD1, negated, 2);
      } else if value <= 0x8000_0000 {
        WriteCoded(0xD2, negated, 4);
      } else {
        WriteCoded(0xD3, negated, 8);
      }
    }

    method WriteSize(obj: bool, n: nat)
      requires Valid()
      modifies this, writer, writer.buffer
      ensures Valid() && emitted == old(emitted) + SlotsHeader(obj, n)
    {
      hide BigEndian;
      if n < 0x10 {
        WriteByte((if obj then 0x80 else 0x90) + n);
      } else if n < 0x1_0000 {
        WriteCoded(if obj then 0xDE else 0xDC, n, 2);
      } else {
        WriteCoded(if obj then 0xDF else 0xDD, n, 4);
      }
    }

    method Visit(v: Value)
      requires Valid() && Clean(v) && NarrowValue(v)
      modifies this, writer, writer.buffer
      ensures Valid() && emitted == old(emitted) + Pack(v)
      decreases v, 1
    {
      hide PackPositive, PackNegative, PackText, SlotsHeader, Clip;
      match v
      case Null => WriteByte(0xC0);
      case Bool(flag) => WriteByte(if flag then 0xC3 else 0xC2);
      case Pos(n) => VisitPositiveInteger(n);
      case Neg(n) => VisitNegativeInteger(n);
      case Str(text) => VisitString(text);
      case Arr(slots) =>
        WriteSize(false, |slots|);
        VisitSlots(false, slots);
      case Obj(slots) =>
        WriteSize(true, |slots|);
        VisitSlots(true, slots);
    }

    method VisitSlots(obj: bool, slots: seq<Slot>)
      requires Valid() && CleanSlots(obj, slots) && NarrowSlots(slots)
      modifies this, writer, writer.buffer
      ensures Valid() && emitted == old(emitted) + PackSlots(obj, slots)
      decreases slots, 0
    {
      hide PackSlot, Clip;
      var k := 0;
      assert slots[0..] == slots;
      while k < |slots|
        invariant k <= |slots| && Valid()
        invariant emitted + PackSlots(obj, slots[k..]) == old(emitted) + PackSlots(obj, slots)
      {
        VisitSlot(obj, slots[k]);
        assert slots[k..][1..] == slots[k + 1..];
        k := k + 1;
      }
    }

    method VisitSlot(obj: bool, slot: Slot)
      requires Valid() && CleanSlot(obj, slot) && NarrowSlot(slot)
      modifies this, writer, writer.buffer
      ensures Valid() && emitted == old(emitted) + PackSlot(obj, slot)
      decreases slot, 1
    {
      hide PackText, Pack, Clip;
      if obj {
        VisitString(slot.key);
      }
      Visit(slot.value);
    }
  }

  lemma FixedPositive(n: nat)
    requires n <= 0x7F
    ensures BigEndian(n, 1) == PackPositive(n)
  {
    assert BigEndian(n / 256, 0) == [];
  }

  /** Serializes into a buffer, which must leave room for a NUL, and returns how many bytes
      were kept. */
  method SerializeMsgPack(v: Value, buffer: array<char>) returns (n: nat)
    requires Clean(v) && NarrowValue(v) && buffer.Length > 0
    modifies buffer
    ensures n == Min(|Pack(v)|, buffer.Length - 1)
    ensures buffer[..n] == Chars(Pack(v))[..n] && buffer[n] == '\0'
  {
    var writer := new StaticStringWriter(buffer);
    var serializer := new Serializer(writer);
    serializer.Visit(v);
    n := serializer.bytesWritten;
    assert serializer.emitted == Pack(v);
    assert |writer.Contents()| == n;
  }
}
