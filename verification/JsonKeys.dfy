/** A document that was parsed from JSON has unique keys, whatever the text: a member whose key is
    there already is parsed into the slot of the first one.  So it equals every copy of it. */
module JsonKeys {
  import opened Document
  import opened Numbers
  import opened JsonGrammar
  import opened DocumentEquality

  lemma NumericRegular(s: string, i: nat, mem: Memory, prior: Value)
    requires i <= |s| && Regular(prior)
    ensures Regular(ParseNumeric(s, i, mem, prior).value)
  {
  }

  lemma {:induction false} VariantRegular(s: string, i: nat, limit: nat, mem: Memory, prior: Value)
    requires i <= |s| && Regular(prior)
    ensures Regular(ParseVariant(s, i, limit, mem, prior).value)
    decreases limit, 2, 0
  {
    var j := SkipSpaces(s, i);
    var c := At(s, j);
    if c == '[' || c == '{' {
      CollectionRegular(c == '{', s, j, limit, mem);
    } else if c != '\0' && !IsQuote(c) {
      NumericRegular(s, j, mem, prior);
    }
  }

  lemma {:induction false} CollectionRegular(obj: bool, s: string, i: nat, limit: nat, mem: Memory)
    requires i < |s|
    ensures Regular(ParseCollection(obj, s, i, limit, mem).value)
    decreases limit, 1, 0
  {
    if limit > 0 {
      RowsRegular(obj, s, SkipSpaces(s, i + 1), limit, mem, []);
    }
  }

  lemma HeadRegular(obj: bool, s: string, i: nat, mem: Memory, slots: seq<Slot>)
    requires i <= |s| && Regular(Wrap(obj, slots))
    ensures Regular(Wrap(obj, RowHead(obj, s, i, mem, slots).slots))
  {
    var more := RowHead(obj, s, i, mem, slots).slots;
    assert forall k :: 0 <= k < |more| && k < |slots| ==> more[k] == slots[k];
    assert |more| > |slots| ==> SlotRegular(more[|slots|]);
  }

  lemma {:induction false} RowsRegular(obj: bool, s: string, i: nat, limit: nat, mem: Memory, slots: seq<Slot>)
    requires i <= |s| && limit > 0 && Regular(Wrap(obj, slots))
    ensures Regular(ParseRows(obj, s, i, limit, mem, slots).value)
    decreases limit, 0, |s| - i, 1
  {
    HeadRegular(obj, s, i, mem, slots);
    FillRegular(obj, s, RowHead(obj, s, i, mem, slots), limit);
  }

  lemma {:induction false} FillRegular(obj: bool, s: string, h: Head, limit: nat)
    requires h.pos <= |s| && limit > 0 && (h.err == Ok ==> h.k < |h.slots|) && Regular(Wrap(obj, h.slots))
    ensures Regular(FillRow(obj, s, h, limit).value)
    decreases limit, 0, |s| - h.pos, 0
  {
    if h.err == Ok {
      var v := h.slots[h.k].value;
      assert SlotRegular(h.slots[h.k]);
      VariantRegular(s, h.pos, limit - 1, h.mem, v);
      var r := ParseVariant(s, h.pos, limit - 1, h.mem, v);
      SetRegular(obj, h.slots, h.k, r.value);
      var end := RowEnd(obj, s, r.pos);
      if r.err == Ok && end.More? {
        RowsRegular(obj, s, end.pos, limit, r.mem, SetValue(h.slots, h.k, r.value));
      }
    }
  }

  /** For every text, limit and pool, and whether or not parsing fails half-way. */
  lemma DeserializedEqualsCopy(s: string, limit: nat, mem: Memory)
    ensures var v := Deserialize(s, limit, mem).value; Regular(v) && Equals(v, v)
  {
    VariantRegular(s, 0, limit, mem, Null);
    RegularAgrees(Deserialize(s, limit, mem).value);
    EqualsCopy(Deserialize(s, limit, mem).value);
  }
}
