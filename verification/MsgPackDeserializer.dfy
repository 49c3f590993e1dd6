/** The MessagePack deserializer: reads bytes one by one, stores strings in the memory pool or,
    in place, in the very buffer it is reading. */
module MsgPackDeserializer {
  import opened Octets
  import opened Document
  import opened StoredDocument
  import opened StringStorage
  import opened MsgPackFormat
  import MsgPackLimits

  // ----- byte order -----

  function Reverse(b: seq<byte>): (r: seq<byte>)
    ensures |r| == |b|
  {
    seq(|b|, k requires 0 <= k < |b| => b[|b| - 1 - k])
  }

  /** How the processor reads an integer from memory. */
  function FromLittleEndian(b: seq<byte>): nat {
    if b == [] then 0 else b[0] + 256 * FromLittleEndian(b[1..])
  }

  lemma {:induction false} SwappedBytes(b: seq<byte>)
    ensures FromLittleEndian(Reverse(b)) == FromBigEndian(b)
  {
    if b != [] {
      assert Reverse(b)[1..] == Reverse(b[..|b| - 1]);
      SwappedBytes(b[..|b| - 1]);
    }
  }

  predicate IsWidth(w: nat) { w == 1 || w == 2 || w == 4 || w == 8 }

  method FixEndianness(p: array<byte>)
    requires IsWidth(p.Length)
    modifies p
    ensures p[..] == Reverse(old(p[..]))
  {
    if p.Length == 8 {
      p[0], p[7] := p[7], p[0];
      p[1], p[6] := p[6], p[1];
      p[2], p[5] := p[5], p[2];
      p[3], p[4] := p[4], p[3];
    } else if p.Length == 4 {
      p[0], p[3] := p[3], p[0];
      p[1], p[2] := p[2], p[1];
    } else if p.Length == 2 {
      p[0], p[1] := p[1], p[0];
    }
  }

  class Deserializer {
    const input: array<char>
    const storage: Storage
    ghost const bytes: seq<byte>
    var pos: nat

    ghost predicate Sound()
      reads this, input, storage
    {
      && storage.Valid() && (storage.inPlace <==> storage.arena == input)
      && |bytes| == input.Length && pos <= |bytes|
      && (forall k :: pos <= k < |bytes| ==> input[k] as int == bytes[k])
    }

    /** The write cursor is behind what has been read. */
    ghost predicate Behind()
      reads this, storage
    {
      storage.inPlace ==> storage.ptr < pos
    }

    ghost predicate Valid()
      reads this, input, storage
    {
      Sound() && (storage.inPlace ==> storage.ptr <= pos)
    }

    constructor (input: array<char>, storage: Storage)
      requires storage.Valid() && storage.ptr == 0 && (storage.inPlace <==> storage.arena == input)
      requires Narrow(input[..])
      ensures this.input == input && this.storage == storage && bytes == Bytes(input[..])
      ensures Valid() && pos == 0
    {
      this.input := input;
      this.storage := storage;
      this.bytes := Bytes(input[..]);
      pos := 0;
    }

    // ----- reading -----

    method ReadByte() returns (ok: bool, c: byte)
      requires Sound()
      modifies this`pos
      ensures Sound() && ok == (old(pos) < |bytes|)
      ensures if ok then c == bytes[old(pos)] && pos == old(pos) + 1 else pos == old(pos)
    {
      ok, c := pos < input.Length, 0;
      if ok {
        assert input[pos] as int == bytes[pos];
        c := input[pos] as int;
        pos := pos + 1;
      }
    }

    /** Reads as many bytes as there are, at most p.Length. */
    method ReadBytes(p: array<byte>) returns (ok: bool)
      requires Sound()
      modifies this`pos, p
      ensures Sound() && old(pos) <= pos && ok == (p.Length <= |bytes| - old(pos))
      ensures ok ==> pos == old(pos) + p.Length && p[..] == bytes[old(pos)..pos]
    {
      var n := 0;
      ok := true;
      while n < p.Length && ok
        invariant n <= p.Length && Sound() && pos == old(pos) + n && (!ok ==> n < p.Length && pos == |bytes|)
        invariant forall k :: 0 <= k < n ==> p[k] == bytes[old(pos) + k]
        decreases p.Length - n, ok
      {
        var c;
        ok, c := ReadByte();
        if ok {
          p[n] := c;
          n := n + 1;
        }
      }
    }

    /** An unsigned integer of w bytes. */
    method ReadInteger(w: nat) returns (ok: bool, n: nat)
      requires Sound() && IsWidth(w)
      modifies this`pos
      ensures Sound() && old(pos) <= pos && ok == (w <= |bytes| - old(pos))
      ensures ok ==> pos == old(pos) + w && n == FromBigEndian(bytes[old(pos)..pos])
    {
      hide FromBigEndian, FromLittleEndian, Reverse;
      var value := new byte[w];
      n := 0;
      ok := ReadBytes(value);
      if ok {
        FixEndianness(value);
        n := FromLittleEndian(value[..]);
        SwappedBytes(bytes[old(pos)..pos]);
      }
    }

    // ----- strings -----

    /** Everything before w is as in `a`. */
    ghost predicate Kept(a: string, w: nat)
      reads storage, storage.arena
    {
      Extends(a, storage.arena[..], w) && w <= storage.Written()
    }

    ghost predicate TextRead(err: Error, p: nat, k: TextOutcome)
      reads this, input, storage, storage.arena
      requires Valid()
    {
      && err == k.err && storage.Room() == k.mem
      && (err == Ok ==>
        && pos == k.pos
        && Terminated(storage.arena[..], p, storage.Written()) && CStr(storage.arena[..], p) == k.text)
    }

    ghost predicate Growing(a: string, b: Builder, done: string, first: Builder)
      reads this, input, storage, storage.arena
    {
      && Sound() && Behind() && storage.Holds(b, done)
      && b.start == first.start && b.capacity == first.capacity && Extends(a, storage.arena[..], b.start)
    }

    /** Moves one byte into the string. */
    method TakeChar(b: Builder, ghost done: string, ghost first: Builder, ghost a: string) returns (ok: bool, r: Builder)
      requires Growing(a, b, done, first)
      modifies this`pos, storage`ptr, storage.arena
      ensures ok == (old(pos) < |bytes|) && Growing(a, r, if ok then done + [bytes[old(pos)] as char] else done, first)
      ensures pos == if ok then old(pos) + 1 else old(pos)
    {
      var c;
      ok, c := ReadByte();
      r := b;
      if ok {
        r := storage.Append(b, c as char, done);
      }
    }

    method ReadCharacters(first: Builder, size: nat) returns (ok: bool, b: Builder, ghost done: string)
      requires Growing(storage.arena[..], first, "", first)
      modifies this`pos, storage`ptr, storage.arena
      ensures Growing(old(storage.arena[..]), b, done, first)
      ensures ok == (size <= |bytes| - old(pos))
      ensures ok ==> pos == old(pos) + size && done == Chars(bytes[old(pos)..pos])
    {
      hide Chars, Extends;
      ghost var a, from := storage.arena[..], pos;
      NoChars(bytes, from);
      b, done, ok := first, "", true;
      var n := size;
      while n > 0 && ok
        invariant 0 <= n <= size && pos <= |bytes| && (!ok ==> n > 0 && pos == |bytes|)
        invariant Growing(a, b, done, first) && pos == from + (size - n)
        invariant done == Chars(bytes[from..pos])
        decreases n, ok
      {
        ok, b := TakeChar(b, done, first, a);
        if ok {
          NextChar(bytes, from, pos - 1);
          done := done + [bytes[pos - 1] as char];
          n := n - 1;
        }
      }
    }

    method ReadCString(size: nat) returns (err: Error, p: nat)
      requires Valid() && Behind()
      modifies this`pos, storage, storage.arena
      ensures Valid() && Kept(old(storage.arena[..]), old(storage.Written()))
      ensures TextRead(err, p, ReadChars(bytes, old(pos), size, old(storage.Room())))
    {
      hide Terminated, CStr;
      var b := storage.StartString();
      p := b.start;
      var ok;
      ghost var done;
      ok, b, done := ReadCharacters(b, size);
      if !ok {
        return IncompleteInput, p;
      }
      ok := storage.Complete(b, done);
      err := if ok then Ok else NoMemory;
    }

    /** A string whose code has just been read. */
    method ReadString(code: byte) returns (err: Error, p: nat)
      requires Valid() && Behind() && IsTextCode(code)
      modifies this`pos, storage, storage.arena
      ensures Valid() && Kept(old(storage.arena[..]), old(storage.Written()))
      ensures TextRead(err, p, ReadText(bytes, old(pos), code, old(storage.Room())))
    {
      hide ReadChars, Terminated, CStr;
      if IsFixText(code) {
        err, p := ReadCString(code - 0xA0);
      } else {
        var ok, n := ReadInteger(TextWidth(code));
        if !ok {
          return IncompleteInput, 0;
        }
        err, p := ReadCString(n);
      }
    }

    method ParseKey() returns (err: Error, p: nat)
      requires Valid()
      modifies this`pos, storage, storage.arena
      ensures Valid() && Kept(old(storage.arena[..]), old(storage.Written()))
      ensures TextRead(err, p, ReadKey(bytes, old(pos), old(storage.Room())))
    {
      hide ReadText, Terminated, CStr;
      var ok, code := ReadByte();
      if !ok {
        return IncompleteInput, 0;
      }
      if !IsTextCode(code) {
        return NotSupported, 0;
      }
      err, p := ReadString(code);
    }

    // ----- values -----

    /** What a parsing method leaves behind. */
    ghost predicate Parsed(err: Error, v: Node, k: Outcome)
      reads this, input, storage, storage.arena
      requires Valid()
    {
      && err == k.err && storage.Room() == k.mem
      && Stored(v, storage.arena[..], storage.Written()) && Denote(v, storage.arena[..]) == k.value
      && (err == Ok ==> pos == k.pos)
    }

    /** A scalar whose code has just been read. */
    method ReadScalar(code: byte) returns (err: Error, v: Node)
      requires Valid() && pos > 0 && bytes[pos - 1] == code && IsScalarCode(code)
      modifies this`pos
      ensures Valid() && Parsed(err, v, UnpackScalar(bytes, old(pos) - 1, old(storage.Room())))
    {
      hide FromBigEndian, Pow256;
      err, v := Ok, NullNode;
      if code < 0x80 {
        v := PosNode(code);
      } else if code >= 0xE0 {
        v := NegNode(256 - code);
      } else if code == 0xC2 || code == 0xC3 {
        v := BoolNode(code == 0xC3);
      } else if code != 0xC0 {
        var w := ScalarWidth(code);
        var ok, n := ReadInteger(w);
        if !ok {
          return IncompleteInput, NullNode;
        }
        v := NumberNode(code, w, n);
      }
    }

    method ReadStringValue(code: byte) returns (err: Error, v: Node)
      requires Valid() && pos > 0 && Behind() && bytes[pos - 1] == code && IsTextCode(code)
      modifies this`pos, storage, storage.arena
      ensures Valid() && Kept(old(storage.arena[..]), old(storage.Written()))
      ensures Parsed(err, v, TextValue(ReadText(bytes, old(pos), code, old(storage.Room()))))
    {
      hide ReadText;
      var p;
      err, p := ReadString(code);
      v := if err == Ok then StrNode(p) else NullNode;
    }

    method Parse(limit: nat) returns (err: Error, v: Node)
      requires Valid()
      modifies this, storage, storage.arena
      ensures Valid() && Kept(old(storage.arena[..]), old(storage.Written()))
      ensures Parsed(err, v, Unpack(bytes, old(pos), limit, old(storage.Room())))
      decreases limit, 2
    {
      hide ReadText, UnpackScalar, UnpackCollection, Denote, Stored;
      var ok, code := ReadByte();
      if !ok {
        NullStored(storage.arena[..], storage.Written());
        return IncompleteInput, NullNode;
      }
      if IsScalarCode(code) {
        err, v := ReadScalar(code);
      } else if IsTextCode(code) {
        err, v := ReadStringValue(code);
      } else if IsArrayCode(code) {
        err, v := ReadCollection(false, code, limit);
      } else if IsObjectCode(code) {
        err, v := ReadCollection(true, code, limit);
      } else {
        NullStored(storage.arena[..], storage.Written());
        return NotSupported, NullNode;
      }
    }

    /** The size of a collection whose code has just been read. */
    method ReadSize(code: byte) returns (ok: bool, n: nat)
      requires Sound() && (IsArrayCode(code) || IsObjectCode(code))
      modifies this`pos
      ensures Sound() && old(pos) <= pos
      ensures var w := SlotsWidth(code);
              && ok == (w <= |bytes| - old(pos))
              && (ok ==> pos == old(pos) + w)
              && (ok ==> n == if w == 0 then code % 0x10 else FromBigEndian(bytes[old(pos)..pos]))
    {
      hide FromBigEndian;
      if IsFixSlots(code) {
        ok, n := true, code % 0x10;
      } else {
        ok, n := ReadInteger(SlotsWidth(code));
      }
    }

    method ReadCollection(obj: bool, code: byte, limit: nat) returns (err: Error, v: Node)
      requires Valid() && pos > 0 && bytes[pos - 1] == code && (if obj then IsObjectCode(code) else IsArrayCode(code))
      modifies this, storage, storage.arena
      ensures Valid() && Kept(old(storage.arena[..]), old(storage.Written()))
      ensures Parsed(err, v, UnpackCollection(obj, bytes, old(pos) - 1, limit, old(storage.Room())))
      decreases limit, 1
    {
      hide UnpackRows, FromBigEndian;
      v := WrapNode(obj, []);
      var ok, n := ReadSize(code);
      if !ok {
        return IncompleteInput, v;
      }
      if limit == 0 {
        return TooDeep, v;
      }
      err, v := ReadSlots(obj, n, limit);
    }

    /** Opens a slot, and reads its key; without one the slot stays unnamed. */
    method ReadHead(obj: bool, slots: seq<NodeSlot>) returns (err: Error, rows: seq<NodeSlot>)
      requires Valid() && StoredSlots(slots, storage.arena[..], storage.Written())
      modifies this, storage, storage.arena
      ensures Valid() && Kept(old(storage.arena[..]), old(storage.Written()))
      ensures StoredSlots(rows, storage.arena[..], storage.Written())
      ensures var h := UnpackHead(obj, bytes, old(pos), old(storage.Room()), DenoteSlots(slots, old(storage.arena[..])));
              && err == h.err && DenoteSlots(rows, storage.arena[..]) == h.slots && storage.Room() == h.mem
              && (err == Ok ==> |rows| == h.k + 1 && pos == h.pos)
    {
      hide ReadKey, Terminated, CStr;
      var ok := storage.AllocSlot();
      if !ok {
        return NoMemory, slots;
      }
      var slot := ElementNode(NullNode);
      err := Ok;
      if obj {
        var key;
        err, key := ParseKey();
        SlotsSurvive(slots, old(storage.arena[..]), storage.arena[..], old(storage.Written()), storage.Written());
        if err == Ok {
          slot := MemberNode(key, NullNode);
        }
      }
      rows := slots + [slot];
      AddedSlot(slots, slot, storage.arena[..], storage.Written());
    }

    /** One more slot and its value. */
    method ReadRow(obj: bool, limit: nat, ghost n: nat, slots: seq<NodeSlot>) returns (err: Error, rows: seq<NodeSlot>)
      requires Valid() && limit > 0 && n > 0 && StoredSlots(slots, storage.arena[..], storage.Written())
      modifies this, storage, storage.arena
      ensures Valid() && Kept(old(storage.arena[..]), old(storage.Written()))
      ensures StoredSlots(rows, storage.arena[..], storage.Written())
      ensures var before := UnpackRows(obj, n, bytes, old(pos), limit, old(storage.Room()), DenoteSlots(slots, old(storage.arena[..])));
              if err == Ok then
                before == UnpackRows(obj, n - 1, bytes, pos, limit, storage.Room(), DenoteSlots(rows, storage.arena[..]))
              else
                err == before.err && before.value == Wrap(obj, DenoteSlots(rows, storage.arena[..])) && before.mem == storage.Room()
      decreases limit, 0, 0
    {
      hide UnpackHead, Unpack, Denote, Stored, Terminated, Wrap;
      err, rows := ReadHead(obj, slots);
      if err == Ok {
        var k := |rows| - 1;
        ghost var a, w, h := storage.arena[..], storage.Written(), DenoteSlots(rows, storage.arena[..]);
        var item;
        err, item := Parse(limit - 1);
        SlotsSurvive(rows, a, storage.arena[..], w, storage.Written());
        FilledSlot(rows, k, item, storage.arena[..], storage.Written());
        rows := rows[k := rows[k].(value := item)];
      }
    }

    method ReadSlots(obj: bool, size: nat, limit: nat) returns (err: Error, v: Node)
      requires Valid() && limit > 0
      modifies this, storage, storage.arena
      ensures Valid() && Kept(old(storage.arena[..]), old(storage.Written()))
      ensures Parsed(err, v, UnpackRows(obj, size, bytes, old(pos), limit, old(storage.Room()), []))
      decreases limit, 0, 1
    {
      hide UnpackRow;
      var slots, n := [], size;
      err := Ok;
      while n > 0 && err == Ok
        invariant Valid() && Kept(old(storage.arena[..]), old(storage.Written()))
        invariant StoredSlots(slots, storage.arena[..], storage.Written())
        invariant var all := UnpackRows(obj, size, bytes, old(pos), limit, old(storage.Room()), []);
                  if err == Ok then
                    all == UnpackRows(obj, n, bytes, pos, limit, storage.Room(), DenoteSlots(slots, storage.arena[..]))
                  else
                    err == all.err && all.value == Wrap(obj, DenoteSlots(slots, storage.arena[..])) && all.mem == storage.Room()
        decreases n, err == Ok
      {
        err, slots := ReadRow(obj, limit, n, slots);
        n := n - 1;
      }
      v := WrapNode(obj, slots);
    }
  }

  /** Unpacks the same bytes with the strings copied into a pool and with the strings left in
      the input.  Each mode makes of the bytes what the format says for its memory; unless the pool
      was too small for the copies, both modes end the same way and with the same document. */
  method UnpackBothWays(text: string, capacity: nat, limit: nat)
    returns (copying: Error, v: Node, pool: array<char>, moving: Error, w: Node, buffer: array<char>)
    requires Narrow(text)
    ensures var r := Unpack(Bytes(text), 0, limit, Memory(true, capacity)); copying == r.err && Denote(v, pool[..]) == r.value
    ensures var r := Unpack(Bytes(text), 0, limit, Memory(false, capacity)); moving == r.err && Denote(w, buffer[..]) == r.value
    ensures copying != NoMemory ==> moving == copying && Denote(w, buffer[..]) == Denote(v, pool[..])
  {
    var input := new char[|text|](i requires 0 <= i < |text| => text[i]);
    assert input[..] == text;
    pool := new char[capacity];
    var copies := new Storage(pool, false, capacity);
    var copier := new Deserializer(input, copies);
    copying, v := copier.Parse(limit);
    buffer := new char[|text|](i requires 0 <= i < |text| => text[i]);
    assert buffer[..] == text;
    var moves := new Storage(buffer, true, capacity);
    var mover := new Deserializer(buffer, moves);
    MsgPackLimits.UnpackMonotone(Bytes(text), 0, limit, limit, Memory(true, capacity), Memory(false, capacity));
    moving, w := mover.Parse(limit);
  }

  function NumberNode(code: byte, w: nat, n: nat): Node {
    if code == 0xCA then FloatNode(Bits(32, n))
    else if code == 0xCB then FloatNode(Bits(64, n))
    else if code <= 0xCF || 2 * n < Pow256(w) then PosNode(n)
    else NegNode(if n < Pow256(w) then Pow256(w) - n else 0)
  }

  function TextValue(t: TextOutcome): Outcome {
    Outcome(t.err, if t.err == Ok then Str(t.text) else Null, t.pos, t.mem)
  }

  lemma NoChars(b: seq<byte>, i: nat)
    requires i <= |b|
    ensures Chars(b[i..i]) == ""
  {
  }

  lemma NextChar(b: seq<byte>, i: nat, j: nat)
    requires i <= j < |b|
    ensures Chars(b[i..j + 1]) == Chars(b[i..j]) + [b[j] as char]
  {
  }

  lemma NullStored(a: string, w: nat)
    requires w <= |a|
    ensures Stored(NullNode, a, w) && Denote(NullNode, a) == Null
  {
  }

  lemma AddedSlot(slots: seq<NodeSlot>, slot: NodeSlot, a: string, w: nat)
    requires w <= |a| && StoredSlots(slots, a, w) && StoredSlot(slot, a, w)
    ensures StoredSlots(slots + [slot], a, w)
    ensures DenoteSlots(slots + [slot], a) == DenoteSlots(slots, a) + [DenoteSlot(slot, a)]
  {
  }
}
