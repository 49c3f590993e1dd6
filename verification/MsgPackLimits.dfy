/** What every MessagePack parse keeps, whatever the bytes. */
module MsgPackLimits {
  import opened Octets
  import opened Document
  import opened JsonLimits
  import opened MsgPackFormat

  lemma {:induction false} UnpackBounded(s: seq<byte>, i: nat, limit: nat, mem: Memory)
    requires i <= |s|
    ensures Bounded(Unpack(s, i, limit, mem), limit, mem, 0)
    decreases limit, 2, 0
  {
    if i < |s| && !IsScalarCode(s[i]) && !IsTextCode(s[i]) && (IsArrayCode(s[i]) || IsObjectCode(s[i])) {
      CollectionBounded(IsObjectCode(s[i]), s, i, limit, mem);
    }
  }

  lemma {:induction false} CollectionBounded(obj: bool, s: seq<byte>, i: nat, limit: nat, mem: Memory)
    requires i < |s|
    ensures Bounded(UnpackCollection(obj, s, i, limit, mem), limit, mem, 0)
    decreases limit, 1, 0
  {
    var w := SlotsWidth(s[i]);
    if w <= |s| - (i + 1) && limit > 0 {
      var n := if w == 0 then s[i] % 0x10 else FromBigEndian(s[i + 1..i + 1 + w]);
      RowsBounded(obj, n, s, i + 1 + w, limit, mem, []);
    }
  }

  lemma KeyBounded(s: seq<byte>, i: nat, mem: Memory)
    requires i <= |s|
    ensures var key := ReadKey(s, i, mem);
            && key.mem.copies == mem.copies && key.mem.room <= mem.room
            && (key.err == Ok ==> TextNeed(mem.copies, key.text) + key.mem.room <= mem.room)
  {
  }

  lemma HeadBounded(obj: bool, s: seq<byte>, i: nat, mem: Memory, slots: seq<Slot>, limit: nat)
    requires i <= |s| && Shallow(slots, limit)
    ensures var h := UnpackHead(obj, s, i, mem, slots);
            && Shallow(h.slots, limit)
            && h.mem.copies == mem.copies && h.mem.room <= mem.room
            && SlotsNeed(mem.copies, h.slots) + h.mem.room <= SlotsNeed(mem.copies, slots) + mem.room
  {
    hide SlotsNeed, ReadKey;
    if obj && mem.Has(SLOT_SIZE) {
      KeyBounded(s, i, mem.Take(SLOT_SIZE));
    }
    var h := UnpackHead(obj, s, i, mem, slots);
    if h.slots != slots {
      SlotsNeedAppend(mem.copies, slots, h.slots[|slots|]);
    }
  }

  lemma {:induction false} RowsBounded(obj: bool, n: nat, s: seq<byte>, i: nat, limit: nat, mem: Memory, slots: seq<Slot>)
    requires i <= |s| && limit > 0 && Shallow(slots, limit - 1)
    ensures Bounded(UnpackRows(obj, n, s, i, limit, mem, slots), limit, mem, SlotsNeed(mem.copies, slots))
    decreases limit, 0, n, 1
  {
    SlotsNestingBound(slots, limit - 1);
    if n > 0 {
      HeadBounded(obj, s, i, mem, slots, limit - 1);
      RowBounded(obj, n, s, UnpackHead(obj, s, i, mem, slots), limit);
    }
  }

  lemma {:induction false} RowBounded(obj: bool, n: nat, s: seq<byte>, h: Head, limit: nat)
    requires h.pos <= |s| && limit > 0 && n > 0 && (h.err == Ok ==> h.k < |h.slots| && h.slots[h.k].value == Null)
    requires Shallow(h.slots, limit - 1)
    ensures Bounded(UnpackRow(obj, n, s, h, limit), limit, h.mem, SlotsNeed(h.mem.copies, h.slots))
    decreases limit, 0, n, 0
  {
    if h.err == Ok {
      UnpackBounded(s, h.pos, limit - 1, h.mem);
      var r := Unpack(s, h.pos, limit - 1, h.mem);
      var slots := SetValue(h.slots, h.k, r.value);
      SlotsNeedUpdate(h.mem.copies, h.slots, h.k, slots[h.k]);
      if r.err == Ok {
        RowsBounded(obj, n - 1, s, r.pos, limit, r.mem, slots);
      }
    }
  }

  // ----- more room changes nothing -----

  lemma {:induction false} UnpackMonotone(s: seq<byte>, i: nat, limit: nat, limit2: nat, mem: Memory, mem2: Memory)
    requires i <= |s| && limit <= limit2 && Roomier(mem, mem2)
    ensures Agree(Unpack(s, i, limit, mem), Unpack(s, i, limit2, mem2), limit < limit2)
    decreases limit, 2, 0
  {
    if i < |s| && !IsScalarCode(s[i]) && !IsTextCode(s[i]) && (IsArrayCode(s[i]) || IsObjectCode(s[i])) {
      CollectionMonotone(IsObjectCode(s[i]), s, i, limit, limit2, mem, mem2);
    }
  }

  lemma {:induction false} CollectionMonotone(obj: bool, s: seq<byte>, i: nat, limit: nat, limit2: nat, mem: Memory, mem2: Memory)
    requires i < |s| && limit <= limit2 && Roomier(mem, mem2)
    ensures Agree(UnpackCollection(obj, s, i, limit, mem), UnpackCollection(obj, s, i, limit2, mem2), limit < limit2)
    decreases limit, 1, 0
  {
    var w := SlotsWidth(s[i]);
    if w <= |s| - (i + 1) && limit > 0 {
      var n := if w == 0 then s[i] % 0x10 else FromBigEndian(s[i + 1..i + 1 + w]);
      RowsMonotone(obj, n, s, i + 1 + w, limit, limit2, mem, mem2, []);
    }
  }

  lemma HeadMonotone(obj: bool, s: seq<byte>, i: nat, mem: Memory, mem2: Memory, slots: seq<Slot>)
    requires i <= |s| && Roomier(mem, mem2)
    ensures HeadsAgree(UnpackHead(obj, s, i, mem, slots), UnpackHead(obj, s, i, mem2, slots))
  {
  }

  lemma {:induction false} RowsMonotone(obj: bool, n: nat, s: seq<byte>, i: nat, limit: nat, limit2: nat, mem: Memory, mem2: Memory, slots: seq<Slot>)
    requires i <= |s| && 0 < limit <= limit2 && Roomier(mem, mem2)
    ensures Agree(UnpackRows(obj, n, s, i, limit, mem, slots), UnpackRows(obj, n, s, i, limit2, mem2, slots), limit < limit2)
    decreases limit, 0, n, 1
  {
    if n > 0 {
      HeadMonotone(obj, s, i, mem, mem2, slots);
      RowMonotone(obj, n, s, UnpackHead(obj, s, i, mem, slots), UnpackHead(obj, s, i, mem2, slots), limit, limit2);
    }
  }

  lemma {:induction false} RowMonotone(obj: bool, n: nat, s: seq<byte>, h: Head, h2: Head, limit: nat, limit2: nat)
    requires h.pos <= |s| && h2.pos <= |s| && n > 0 && 0 < limit <= limit2 && HeadsAgree(h, h2)
    requires (h.err == Ok ==> h.k < |h.slots|) && (h2.err == Ok ==> h2.k < |h2.slots|)
    ensures Agree(UnpackRow(obj, n, s, h, limit), UnpackRow(obj, n, s, h2, limit2), limit < limit2)
    decreases limit, 0, n, 0
  {
    if h.err == Ok {
      UnpackMonotone(s, h.pos, limit - 1, limit2 - 1, h.mem, h2.mem);
      var r, r2 := Unpack(s, h.pos, limit - 1, h.mem), Unpack(s, h.pos, limit2 - 1, h2.mem);
      if r.err == Ok {
        RowsMonotone(obj, n - 1, s, r.pos, limit, limit2, r.mem, r2.mem, SetValue(h.slots, h.k, r.value));
      }
    }
  }
}
