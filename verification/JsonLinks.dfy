/** The slots that parsing takes, and how far the links between them reach.  The slots of a
    collection's elements lie between its own ones, and the slots of a value that was parsed again
    stay where they are. */
module JsonLinks {
  import opened Document
  import opened Numbers
  import opened JsonGrammar
  import opened OwnedDocument

  /** How many slots are taken, and whether every link that is made spans at most 2^15 of them. */
  datatype Links = Links(taken: nat, fit: bool)

  const NO_LINKS := Links(0, true)

  function VariantLinks(s: string, i: nat, limit: nat, mem: Memory, prior: Value): Links
    requires i <= |s|
    decreases limit, 2, 0
  {
    var j := SkipSpaces(s, i);
    if At(s, j) == '[' then CollectionLinks(false, s, j, limit, mem)
    else if At(s, j) == '{' then CollectionLinks(true, s, j, limit, mem)
    else NO_LINKS
  }

  function CollectionLinks(obj: bool, s: string, i: nat, limit: nat, mem: Memory): Links
    requires i < |s|
    decreases limit, 1, 0
  {
    if limit == 0 then NO_LINKS
    else
      var j := SkipSpaces(s, i + 1);
      if At(s, j) == '\0' || At(s, j) == Close(obj) then NO_LINKS
      else RowsLinks(obj, s, j, limit, mem, [], 0)
  }

  /** `since` counts the slots that were taken from the last one of the collection on, it included. */
  function RowsLinks(obj: bool, s: string, i: nat, limit: nat, mem: Memory, slots: seq<Slot>, since: nat): Links
    requires i <= |s| && limit > 0
    decreases limit, 0, |s| - i, 1
  {
    var h := RowHead(obj, s, i, mem, slots);
    if |h.slots| > |slots| then
      var l := FillLinks(obj, s, h, limit, 1);
      Links(1 + l.taken, since <= MAX_SPAN && l.fit)
    else FillLinks(obj, s, h, limit, since)
  }

  function FillLinks(obj: bool, s: string, h: Head, limit: nat, since: nat): Links
    requires h.pos <= |s| && limit > 0 && (h.err == Ok ==> h.k < |h.slots|)
    decreases limit, 0, |s| - h.pos, 0
  {
    if h.err != Ok then NO_LINKS
    else
      var r := ParseVariant(s, h.pos, limit - 1, h.mem, h.slots[h.k].value);
      var l := VariantLinks(s, h.pos, limit - 1, h.mem, h.slots[h.k].value);
      var end := RowEnd(obj, s, r.pos);
      if r.err != Ok || !end.More? then l
      else
        var rest := RowsLinks(obj, s, end.pos, limit, r.mem, SetValue(h.slots, h.k, r.value), since + l.taken);
        Links(l.taken + rest.taken, l.fit && rest.fit)
  }

  // ----- in a mebibyte all links fit -----

  lemma {:induction false} VariantInRoom(s: string, i: nat, limit: nat, mem: Memory, prior: Value)
    requires i <= |s|
    ensures var l, r := VariantLinks(s, i, limit, mem, prior), ParseVariant(s, i, limit, mem, prior);
            SLOT_SIZE * l.taken + r.mem.room <= mem.room && (mem.room <= SLOT_SIZE * MAX_SPAN ==> l.fit)
    decreases limit, 2, 0
  {
    var j := SkipSpaces(s, i);
    if At(s, j) == '[' || At(s, j) == '{' {
      CollectionInRoom(At(s, j) == '{', s, j, limit, mem);
    }
  }

  lemma {:induction false} CollectionInRoom(obj: bool, s: string, i: nat, limit: nat, mem: Memory)
    requires i < |s|
    ensures var l, r := CollectionLinks(obj, s, i, limit, mem), ParseCollection(obj, s, i, limit, mem);
            SLOT_SIZE * l.taken + r.mem.room <= mem.room && (mem.room <= SLOT_SIZE * MAX_SPAN ==> l.fit)
    decreases limit, 1, 0
  {
    if limit > 0 {
      RowsInRoom(obj, s, SkipSpaces(s, i + 1), limit, mem, [], 0);
    }
  }

  lemma {:induction false} RowsInRoom(obj: bool, s: string, i: nat, limit: nat, mem: Memory, slots: seq<Slot>, since: nat)
    requires i <= |s| && limit > 0
    ensures var l, r := RowsLinks(obj, s, i, limit, mem, slots, since), ParseRows(obj, s, i, limit, mem, slots);
            SLOT_SIZE * l.taken + r.mem.room <= mem.room && (SLOT_SIZE * since + mem.room <= SLOT_SIZE * MAX_SPAN ==> l.fit)
    decreases limit, 0, |s| - i, 1
  {
    var h := RowHead(obj, s, i, mem, slots);
    HeadInRoom(obj, s, i, mem, slots);
    FillInRoom(obj, s, h, limit, if |h.slots| > |slots| then 1 else since);
  }

  lemma HeadInRoom(obj: bool, s: string, i: nat, mem: Memory, slots: seq<Slot>)
    requires i <= |s|
    ensures var h := RowHead(obj, s, i, mem, slots);
            && |slots| <= |h.slots| <= |slots| + 1
            && h.mem.room + (if |h.slots| > |slots| then SLOT_SIZE else 0) <= mem.room
  {
  }

  lemma {:induction false} FillInRoom(obj: bool, s: string, h: Head, limit: nat, since: nat)
    requires h.pos <= |s| && limit > 0 && (h.err == Ok ==> h.k < |h.slots|)
    ensures var l, r := FillLinks(obj, s, h, limit, since), FillRow(obj, s, h, limit);
            SLOT_SIZE * l.taken + r.mem.room <= h.mem.room && (SLOT_SIZE * since + h.mem.room <= SLOT_SIZE * MAX_SPAN ==> l.fit)
    decreases limit, 0, |s| - h.pos, 0
  {
    if h.err == Ok {
      var v := h.slots[h.k].value;
      VariantInRoom(s, h.pos, limit - 1, h.mem, v);
      var r, l := ParseVariant(s, h.pos, limit - 1, h.mem, v), VariantLinks(s, h.pos, limit - 1, h.mem, v);
      var end := RowEnd(obj, s, r.pos);
      if r.err == Ok && end.More? {
        RowsInRoom(obj, s, end.pos, limit, r.mem, SetValue(h.slots, h.k, r.value), since + l.taken);
      }
    }
  }

  // ----- in a text of 2^15 characters all links fit -----

  lemma {:induction false} VariantInText(s: string, i: nat, limit: nat, mem: Memory, prior: Value)
    requires i <= |s|
    ensures var l, r := VariantLinks(s, i, limit, mem, prior), ParseVariant(s, i, limit, mem, prior);
            l.taken <= r.pos - i && (|s| <= MAX_SPAN ==> l.fit)
    decreases limit, 2, 0
  {
    var j := SkipSpaces(s, i);
    if At(s, j) == '[' || At(s, j) == '{' {
      CollectionInText(At(s, j) == '{', s, j, limit, mem);
    }
  }

  lemma {:induction false} CollectionInText(obj: bool, s: string, i: nat, limit: nat, mem: Memory)
    requires i < |s|
    ensures var l, r := CollectionLinks(obj, s, i, limit, mem), ParseCollection(obj, s, i, limit, mem);
            l.taken <= r.pos - i && (|s| <= MAX_SPAN ==> l.fit)
    decreases limit, 1, 0
  {
    if limit > 0 {
      RowsInText(obj, s, SkipSpaces(s, i + 1), limit, mem, [], 0);
    }
  }

  lemma {:induction false} RowsInText(obj: bool, s: string, i: nat, limit: nat, mem: Memory, slots: seq<Slot>, since: nat)
    requires i <= |s| && limit > 0 && since <= i
    ensures var l, r := RowsLinks(obj, s, i, limit, mem, slots, since), ParseRows(obj, s, i, limit, mem, slots);
            l.taken <= r.pos - i + 1 && (|s| <= MAX_SPAN ==> l.fit)
    decreases limit, 0, |s| - i, 1
  {
    var h := RowHead(obj, s, i, mem, slots);
    HeadInRoom(obj, s, i, mem, slots);
    FillInText(obj, s, h, limit, if |h.slots| > |slots| then 1 else since);
  }

  lemma {:induction false} FillInText(obj: bool, s: string, h: Head, limit: nat, since: nat)
    requires h.pos <= |s| && limit > 0 && (h.err == Ok ==> h.k < |h.slots|) && since <= h.pos + 1
    ensures var l, r := FillLinks(obj, s, h, limit, since), FillRow(obj, s, h, limit);
            l.taken <= r.pos - h.pos && (|s| <= MAX_SPAN ==> l.fit)
    decreases limit, 0, |s| - h.pos, 0
  {
    hide ParseVariant, ParseRows, VariantLinks, RowsLinks;
    if h.err == Ok {
      var v := h.slots[h.k].value;
      VariantInText(s, h.pos, limit - 1, h.mem, v);
      var r, l := ParseVariant(s, h.pos, limit - 1, h.mem, v), VariantLinks(s, h.pos, limit - 1, h.mem, v);
      var end := RowEnd(obj, s, r.pos);
      if r.err == Ok && end.More? {
        RowsInText(obj, s, end.pos, limit, r.mem, SetValue(h.slots, h.k, r.value), since + l.taken);
      }
    }
  }

  /** In a pool of a mebibyte, and for a text of 2^15 characters, every link fits. */
  lemma SmallLinksFit(s: string, limit: nat, mem: Memory)
    requires mem.room <= SLOT_SIZE * MAX_SPAN || |s| <= MAX_SPAN
    ensures VariantLinks(s, 0, limit, mem, Null).fit
  {
    VariantInRoom(s, 0, limit, mem, Null);
    VariantInText(s, 0, limit, mem, Null);
  }
}
