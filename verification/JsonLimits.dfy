/** What every parse keeps, whatever the input: the nesting limit, the pool budget, and
    independence from any limit that was not hit. */
module JsonLimits {
  import opened Document
  import opened JsonGrammar
  import opened Numbers

  // ----- nesting and memory -----

  /** An accepted value respects the limit, and what is built never exceeds what was taken from
      the pool, even when the parse fails half-way. */
  ghost predicate Bounded(r: Outcome, limit: nat, mem: Memory, need: nat) {
    && (r.err == Ok ==> Nesting(r.value) <= limit)
    && r.mem.copies == mem.copies && r.mem.room <= mem.room
    && Need(mem.copies, r.value) + r.mem.room <= need + mem.room
  }

  lemma StringBounded(s: string, i: nat, limit: nat, mem: Memory, prior: Value)
    requires i < |s| && IsQuote(s[i]) && Nesting(prior) <= limit
    ensures Bounded(ParseString(s, i, mem, prior), limit, mem, Need(mem.copies, prior))
  {
  }

  lemma NumericBounded(s: string, i: nat, limit: nat, mem: Memory, prior: Value)
    requires i <= |s| && Nesting(prior) <= limit
    ensures Bounded(ParseNumeric(s, i, mem, prior), limit, mem, Need(mem.copies, prior))
  {
  }

  lemma {:induction false} VariantBounded(s: string, i: nat, limit: nat, mem: Memory, prior: Value)
    requires i <= |s| && Nesting(prior) <= limit
    ensures Bounded(ParseVariant(s, i, limit, mem, prior), limit, mem, Need(mem.copies, prior))
    decreases limit, 2, 0
  {
    var j := SkipSpaces(s, i);
    var c := At(s, j);
    if c == '[' || c == '{' {
      CollectionBounded(c == '{', s, j, limit, mem);
    } else if IsQuote(c) {
      StringBounded(s, j, limit, mem, prior);
    } else {
      NumericBounded(s, j, limit, mem, prior);
    }
  }

  lemma {:induction false} CollectionBounded(obj: bool, s: string, i: nat, limit: nat, mem: Memory)
    requires i < |s|
    ensures Bounded(ParseCollection(obj, s, i, limit, mem), limit, mem, 0)
    decreases limit, 1, 0
  {
    if limit > 0 {
      RowsBounded(obj, s, SkipSpaces(s, i + 1), limit, mem, []);
    }
  }

  ghost predicate Shallow(slots: seq<Slot>, limit: nat) {
    forall k :: 0 <= k < |slots| ==> Nesting(slots[k].value) <= limit
  }

  lemma HeadBounded(obj: bool, s: string, i: nat, mem: Memory, slots: seq<Slot>, limit: nat)
    requires i <= |s| && Shallow(slots, limit)
    ensures var h := RowHead(obj, s, i, mem, slots);
            && Shallow(h.slots, limit)
            && h.mem.copies == mem.copies && h.mem.room <= mem.room
            && SlotsNeed(mem.copies, h.slots) + h.mem.room <= SlotsNeed(mem.copies, slots) + mem.room
  {
    var h := RowHead(obj, s, i, mem, slots);
    if h.slots != slots {
      SlotsNeedAppend(mem.copies, slots, h.slots[|slots|]);
    }
  }

  lemma {:induction false} RowsBounded(obj: bool, s: string, i: nat, limit: nat, mem: Memory, slots: seq<Slot>)
    requires i <= |s| && limit > 0 && Shallow(slots, limit - 1)
    ensures Bounded(ParseRows(obj, s, i, limit, mem, slots), limit, mem, SlotsNeed(mem.copies, slots))
    decreases limit, 0, |s| - i, 1
  {
    HeadBounded(obj, s, i, mem, slots, limit - 1);
    FillBounded(obj, s, RowHead(obj, s, i, mem, slots), limit);
  }

  lemma {:induction false} FillBounded(obj: bool, s: string, h: Head, limit: nat)
    requires h.pos <= |s| && limit > 0 && (h.err == Ok ==> h.k < |h.slots|)
    requires Shallow(h.slots, limit - 1)
    ensures Bounded(FillRow(obj, s, h, limit), limit, h.mem, SlotsNeed(h.mem.copies, h.slots))
    decreases limit, 0, |s| - h.pos, 0
  {
    if h.err == Ok {
      var v := h.slots[h.k].value;
      VariantBounded(s, h.pos, limit - 1, h.mem, v);
      var r := ParseVariant(s, h.pos, limit - 1, h.mem, v);
      var slots := SetValue(h.slots, h.k, r.value);
      SlotsNeedUpdate(h.mem.copies, h.slots, h.k, slots[h.k]);
      if r.err == Ok {
        SlotsNestingBound(slots, limit - 1);
        var end := RowEnd(obj, s, r.pos);
        if end.More? {
          RowsBounded(obj, s, end.pos, limit, r.mem, slots);
        }
      }
    }
  }

  /** On Ok the document is no deeper than the limit, and after any outcome its live usage
      fits in what was taken from the pool. */
  lemma DeserializeBounded(s: string, limit: nat, mem: Memory)
    ensures Bounded(Deserialize(s, limit, mem), limit, mem, 0)
  {
    VariantBounded(s, 0, limit, mem, Null);
  }

  // ----- more room changes nothing -----

  ghost predicate Roomier(m: Memory, m2: Memory) {
    (m2.copies ==> m.copies) && m.room <= m2.room
  }

  /** Unless the first run hit a bound that the second one relaxes, both end alike. */
  ghost predicate Agree(r: Outcome, r2: Outcome, relaxed: bool) {
    r.err != NoMemory && (r.err == TooDeep ==> !relaxed) ==>
      r2.err == r.err && r2.value == r.value && r2.pos == r.pos && Roomier(r.mem, r2.mem)
  }

  lemma StringMonotone(s: string, i: nat, mem: Memory, mem2: Memory, prior: Value, relaxed: bool)
    requires i < |s| && IsQuote(s[i]) && Roomier(mem, mem2)
    ensures Agree(ParseString(s, i, mem, prior), ParseString(s, i, mem2, prior), relaxed)
  {
  }

  lemma {:induction false} VariantMonotone(s: string, i: nat, limit: nat, limit2: nat, mem: Memory, mem2: Memory, prior: Value)
    requires i <= |s| && limit <= limit2 && Roomier(mem, mem2)
    ensures Agree(ParseVariant(s, i, limit, mem, prior), ParseVariant(s, i, limit2, mem2, prior), limit < limit2)
    decreases limit, 2, 0
  {
    var j := SkipSpaces(s, i);
    var c := At(s, j);
    if c == '[' || c == '{' {
      CollectionMonotone(c == '{', s, j, limit, limit2, mem, mem2);
    } else if IsQuote(c) {
      StringMonotone(s, j, mem, mem2, prior, limit < limit2);
    }
  }

  lemma {:induction false} CollectionMonotone(obj: bool, s: string, i: nat, limit: nat, limit2: nat, mem: Memory, mem2: Memory)
    requires i < |s| && limit <= limit2 && Roomier(mem, mem2)
    ensures Agree(ParseCollection(obj, s, i, limit, mem), ParseCollection(obj, s, i, limit2, mem2), limit < limit2)
    decreases limit, 1, 0
  {
    if limit > 0 {
      RowsMonotone(obj, s, SkipSpaces(s, i + 1), limit, limit2, mem, mem2, []);
    }
  }

  ghost predicate HeadsAgree(h: Head, h2: Head) {
    h.err != NoMemory ==>
      h2.err == h.err && h2.slots == h.slots && h2.k == h.k && h2.pos == h.pos && Roomier(h.mem, h2.mem)
  }

  lemma HeadMonotone(obj: bool, s: string, i: nat, mem: Memory, mem2: Memory, slots: seq<Slot>)
    requires i <= |s| && Roomier(mem, mem2)
    ensures HeadsAgree(RowHead(obj, s, i, mem, slots), RowHead(obj, s, i, mem2, slots))
  {
    hide SkipSpaces, ScanKey, Find, IsSpace;
  }

  lemma {:induction false} RowsMonotone(obj: bool, s: string, i: nat, limit: nat, limit2: nat, mem: Memory, mem2: Memory, slots: seq<Slot>)
    requires i <= |s| && 0 < limit <= limit2 && Roomier(mem, mem2)
    ensures Agree(ParseRows(obj, s, i, limit, mem, slots), ParseRows(obj, s, i, limit2, mem2, slots), limit < limit2)
    decreases limit, 0, |s| - i, 1
  {
    HeadMonotone(obj, s, i, mem, mem2, slots);
    FillMonotone(obj, s, RowHead(obj, s, i, mem, slots), RowHead(obj, s, i, mem2, slots), limit, limit2);
  }

  lemma {:induction false} FillMonotone(obj: bool, s: string, h: Head, h2: Head, limit: nat, limit2: nat)
    requires h.pos <= |s| && h2.pos <= |s| && 0 < limit <= limit2 && HeadsAgree(h, h2)
    requires (h.err == Ok ==> h.k < |h.slots|) && (h2.err == Ok ==> h2.k < |h2.slots|)
    ensures Agree(FillRow(obj, s, h, limit), FillRow(obj, s, h2, limit2), limit < limit2)
    decreases limit, 0, |s| - h.pos, 0
  {
    if h.err == Ok {
      var v := h.slots[h.k].value;
      VariantMonotone(s, h.pos, limit - 1, limit2 - 1, h.mem, h2.mem, v);
      var r, r2 := ParseVariant(s, h.pos, limit - 1, h.mem, v), ParseVariant(s, h.pos, limit2 - 1, h2.mem, v);
      var end := RowEnd(obj, s, r.pos);
      if r.err == Ok && end.More? {
        RowsMonotone(obj, s, end.pos, limit, limit2, r.mem, r2.mem, SetValue(h.slots, h.k, r.value));
      }
    }
  }

  /** A parse that ran out neither of memory nor of depth ends the same way under any larger
      budget; in particular an in-place parse, which needs no room for strings, reproduces
      every copying parse that did not run out of memory. */
  lemma DeserializeMonotone(s: string, limit: nat, limit2: nat, mem: Memory, mem2: Memory)
    requires limit <= limit2 && Roomier(mem, mem2)
    ensures Agree(Deserialize(s, limit, mem), Deserialize(s, limit2, mem2), limit < limit2)
  {
    VariantMonotone(s, 0, limit, limit2, mem, mem2, Null);
  }
}
