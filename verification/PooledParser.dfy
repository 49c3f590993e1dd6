/** The JSON deserializer on a document in its pool: what the grammar makes of a text is built with
    the operations of the document, its strings stored in the pool or, in place, in the input. */
module PooledParser {
  import opened Document
  import opened Numbers
  import opened JsonGrammar
  import opened JsonLinks
  import opened OwnedDocument
  import opened StoredDocument
  import opened SlotMemory
  import opened SlotLists
  import opened SlotTrees
  import opened MemoryPool
  import opened PooledTree
  import opened PooledSteps
  import opened JsonDocument

  // ----- the document that a value makes -----

  /** A deserialized value: all its strings are flagged as owned. */
  function Own(v: Value): Doc
    decreases v
  {
    match v
    case Str(text) => Line(Text(text, true))
    case Arr(slots) => Group(false, OwnSlots(slots))
    case Obj(slots) => Group(true, OwnSlots(slots))
    case _ => Atom(v)
  }

  function OwnSlots(slots: seq<Slot>): (r: seq<DocSlot>)
    ensures |r| == |slots|
    decreases slots
  {
    seq(|slots|, k requires 0 <= k < |slots| => OwnSlot(slots[k]))
  }

  function OwnSlot(slot: Slot): DocSlot
    decreases slot
  {
    match slot
    case Element(v) => DocSlot(None, Own(v))
    case Member(key, v) => DocSlot(Some(Text(key, true)), Own(v))
  }

  lemma OwnWrap(obj: bool, slots: seq<Slot>)
    ensures Own(Wrap(obj, slots)) == Group(obj, OwnSlots(slots))
  {
  }

  /** The live memory of a deserialized value is what the value needs of the pool. */
  lemma {:induction false} OwnUsage(v: Value)
    ensures Usage(Own(v)) == Need(true, v)
    decreases v
  {
    match v
    case Arr(slots) => OwnSlotsUsage(slots);
    case Obj(slots) => OwnSlotsUsage(slots);
    case _ =>
  }

  lemma {:induction false} OwnSlotsUsage(slots: seq<Slot>)
    ensures SlotsUsage(OwnSlots(slots)) == SlotsNeed(true, slots)
    decreases slots
  {
    if slots != [] {
      assert OwnSlots(slots)[1..] == OwnSlots(slots[1..]);
      OwnSlotUsage(slots[0]);
      OwnSlotsUsage(slots[1..]);
    }
  }

  lemma {:induction false} OwnSlotUsage(slot: Slot)
    ensures SlotUsage(OwnSlot(slot)) == SlotNeed(true, slot)
    decreases slot
  {
    OwnUsage(slot.value);
  }

  lemma OwnAppended(slots: seq<Slot>, slot: Slot)
    ensures OwnSlots(slots + [slot]) == OwnSlots(slots) + [OwnSlot(slot)]
  {
  }

  /** A key is looked up the same way. */
  lemma {:induction false} FindOwn(slots: seq<Slot>, key: string)
    ensures FindKey(OwnSlots(slots), Some(key)) == Find(slots, key)
  {
    if slots != [] {
      assert OwnSlots(slots)[1..] == OwnSlots(slots[1..]);
      FindOwn(slots[1..], key);
    }
  }

  /** Filling the k-th slot of a collection. */
  lemma OwnFilled(d: Doc, path: seq<nat>, obj: bool, slots: seq<Slot>, k: nat, v: Value)
    requires IsPath(d, path) && k < |slots|
    ensures var e := With(d, path, Own(Wrap(obj, slots)));
            && IsPath(e, path + [k]) && Place(e, path + [k]) == Own(slots[k].value)
            && With(e, path + [k], Own(v)) == With(d, path, Own(Wrap(obj, SetValue(slots, k, v))))
  {
    var g := Group(obj, OwnSlots(slots));
    OwnWrap(obj, slots);
    OwnWrap(obj, SetValue(slots, k, v));
    WithPlace(d, path, g);
    WithDeeper(With(d, path, g), path, k, Own(v));
    assert OwnSlots(SetValue(slots, k, v)) == g.slots[k := g.slots[k].(value := Own(v))];
    WithTwice(d, path, g, Group(obj, OwnSlots(SetValue(slots, k, v))));
  }

  // ----- strings that are written -----

  /** A sound document stays as it is while a string is stored in the room of its pool. */
  lemma PoolWritten(text: string, text': string, cells: Cells, t: Item, b: Extent, b': Extent)
    requires Sound(text, cells, t, b) && Grown(b, b') && Rewritten(text, text', b.left, b'.left)
    ensures Sound(text', cells, t, b') && Image(text', cells, t) == Image(text, cells, t)
    ensures Tidy(text, cells, t, b) ==> Tidy(text', cells, t, b')
  {
    hide Laid, Apart, Refs, AddrsOf, Image, InPool, Outside, Usage;
    forall r | r in Refs(cells, t)
      ensures Housed(text', r, b') && CStr(text', r.p) == CStr(text, r.p) && (InPool(text, r.p, b) ==> InPool(text', r.p, b'))
    {
      HousedStays(text, text', r, b, b');
    }
    SameImage(text, text', cells, t);
  }

  lemma SameImage(text: string, text': string, cells: Cells, t: Item)
    requires Laid(cells, t) && forall r :: r in Refs(cells, t) ==> CStr(text', r.p) == CStr(text, r.p)
    ensures Image(text', cells, t) == Image(text, cells, t)
  {
    Present(cells, t);
    assert Addrs(t) == {t.at} + AddrsOf(t.items);
    ImageElsewhere(text, text', cells, cells, t);
  }

  /** All strings of the document end before w. */
  ghost predicate AllBefore(text: string, refs: set<Ref>, w: nat) {
    w <= |text| && forall r :: r in refs ==> Terminated(text, r.p, w)
  }

  /** Nor does it change while a string is stored behind its strings, outside the pool. */
  lemma InputWritten(text: string, text': string, cells: Cells, t: Item, b: Extent, lo: nat, hi: nat)
    requires Sound(text, cells, t, b) && AllBefore(text, Refs(cells, t), lo) && lo <= hi && Rewritten(text, text', lo, hi)
    ensures Sound(text', cells, t, b) && Image(text', cells, t) == Image(text, cells, t) && AllBefore(text', Refs(cells, t), lo)
  {
    hide Laid, Apart, Refs, AddrsOf, Image;
    forall r | r in Refs(cells, t)
      ensures Housed(text', r, b) && CStr(text', r.p) == CStr(text, r.p) && Terminated(text', r.p, lo)
    {
      assert Housed(text, r, b);
      StillEnds(text, text', r.p, lo, hi, b.begin);
      StillEnds(text, text', r.p, lo, hi, b.left);
      StillEnds(text, text', r.p, lo, hi, |text|);
    }
    SameImage(text, text', cells, t);
  }

  lemma StillEnds(text: string, text': string, p: nat, lo: nat, hi: nat, w: nat)
    requires lo <= hi && lo <= |text| && w <= |text| && Terminated(text, p, lo) && Rewritten(text, text', lo, hi)
    ensures CStr(text', p) == CStr(text, p) && Terminated(text', p, lo)
    ensures Terminated(text, p, w) ==> Terminated(text', p, w)
  {
    StringStays(text, text', p, lo, lo, hi);
    if Terminated(text, p, w) {
      if w <= lo {
        StringStays(text, text', p, w, lo, hi);
      } else {
        TerminatedLater(text', p, lo, w);
      }
    }
  }

  /** What is stored is shorter than what was read for it. */
  lemma {:induction false} ScanShorter(s: string, i: nat, stop: char, text: string)
    requires i <= |s| && stop != '\0' && NulFree(text)
    ensures var r := ScanQuoted(s, i, stop, text); NulFree(r.text) && (r.err == Ok ==> |r.text| - |text| < r.pos - i)
    decreases |s| - i
  {
    var c := At(s, i);
    if c != stop && c != '\0' {
      if c != '\\' {
        ScanShorter(s, i + 1, stop, text + [c]);
      } else if Unescape(At(s, i + 1)) != '\0' && At(s, i + 1) != 'u' && At(s, i + 1) != '\0' {
        ScanShorter(s, i + 2, stop, text + [Unescape(At(s, i + 1))]);
      }
    }
  }

  lemma {:induction false} TokenNulFree(s: string, i: nat, n: nat)
    requires i <= |s|
    ensures NulFree(s[i..TokenEnd(s, i, n)])
    decreases n
  {
    if n > 0 && IsTokenChar(At(s, i)) {
      TokenNulFree(s, i + 1, n - 1);
      assert s[i..TokenEnd(s, i, n)] == [s[i]] + s[i + 1..TokenEnd(s, i, n)];
    }
  }

  lemma KeyShorter(s: string, i: nat)
    requires i <= |s|
    ensures var r := ScanKey(s, i); NulFree(r.text) && (r.err == Ok ==> |r.text| <= r.pos - i)
  {
    if IsQuote(At(s, i)) {
      ScanShorter(s, i + 1, s[i], "");
    } else {
      TokenNulFree(s, i, |s| - i);
    }
  }

  class PooledParser {
    const doc: JsonDocument
    const s: string
    const inPlace: bool
    /** Where the input lies, and in place the write cursor. */
    const input: nat
    var ptr: nat

    /** How far the input reaches. */
    function End(): nat { input + |s| }

    /** Strings go to the pool, which then counts them, or to the part of the input that was read. */
    ghost predicate Valid(i: nat)
      reads this, doc, doc.pool, doc.ram
    {
      && doc.Valid() && i <= |s|
      && if inPlace then
           && Cursor(i)
           && AllBefore(doc.ram.text, Refs(doc.ram.cells, doc.tree), ptr)
         else
           doc.IsTidy()
    }

    /** In place, the cursor is behind the reader, and the input is beside the pool. */
    ghost predicate Cursor(i: nat)
      reads this, doc, doc.pool, doc.ram
    {
      && 0 < input <= ptr <= input + i && End() <= |doc.ram.text|
      && (End() <= doc.pool.begin || doc.pool.end <= input)
    }

    ghost function Mem(): Memory
      reads this, doc, doc.pool
      requires doc.pool.left <= doc.pool.right
    {
      Memory(!inPlace, doc.pool.right - doc.pool.left)
    }

    constructor (doc: JsonDocument, s: string, inPlace: bool, input: nat)
      ensures this.doc == doc && this.s == s && this.inPlace == inPlace && this.input == input && ptr == input
    {
      this.doc, this.s, this.inPlace, this.input, ptr := doc, s, inPlace, input, input;
    }

    // ----- strings -----

    lemma Later(i: nat, j: nat)
      requires Valid(i) && i <= j <= |s|
      ensures Valid(j)
    {
    }

    /** Stores a string of the text before j; the document stays as it is. */
    method Store(text: string, j: nat, ghost i: nat) returns (ok: bool, p: nat)
      requires Valid(i) && NulFree(text) && i <= j <= |s| && (inPlace ==> ptr + |text| + 1 <= input + j)
      modifies this`ptr, doc.pool`left, doc.ram`text
      ensures Valid(j) && doc.Contents() == old(doc.Contents())
      ensures ok == (inPlace || |text| + 1 <= old(doc.pool.Bounds()).Room())
      ensures Mem() == if ok then old(Mem()).Take(TextNeed(!inPlace, text)) else old(Mem()).Exhausted()
      ensures Grown(old(doc.pool.Bounds()), doc.pool.Bounds())
      ensures if inPlace then doc.pool.left == old(doc.pool.left) else Rewritten(old(doc.ram.text), doc.ram.text, old(doc.pool.left), doc.pool.left)
      ensures ok ==> IsStored(p, text) && (!inPlace ==> doc.pool.left == old(doc.pool.left) + |text| + 1)
    {
      if inPlace {
        p := StoreInPlace(text, j, i);
        ok := true;
      } else {
        ok, p := StoreInPool(text, j, i);
      }
    }

    /** StringMover: the string stays in the input. */
    method StoreInPlace(text: string, ghost j: nat, ghost i: nat) returns (p: nat)
      requires inPlace && Valid(i) && NulFree(text) && i <= j <= |s| && ptr + |text| + 1 <= input + j
      modifies this`ptr, doc.ram`text
      ensures Valid(j) && doc.Contents() == old(doc.Contents()) && IsStored(p, text)
    {
      hide Sound, Image, Refs, Written, Outside, Terminated, CStr;
      ghost var before, b := doc.ram.text, doc.pool.Bounds();
      p := ptr;
      WrittenReads(before, p, text);
      InputWritten(before, Written(before, p, text), doc.ram.cells, doc.tree, b, p, p + |text| + 1);
      doc.ram.Put(p, text);
      ptr := p + |text| + 1;
      StoredOutside(doc.ram.text, p, b);
      AllLater(doc.ram.text, Refs(doc.ram.cells, doc.tree), p, ptr);
      EndsIn(doc.ram.text, doc.ram.cells, doc.tree, b);
    }

    /** StringCopier: the string goes to the pool; one that does not fit leaves it full. */
    method StoreInPool(text: string, ghost j: nat, ghost i: nat) returns (ok: bool, p: nat)
      requires !inPlace && Valid(i) && NulFree(text) && i <= j <= |s|
      modifies doc.pool`left, doc.ram`text
      ensures Valid(j) && doc.Contents() == old(doc.Contents())
      ensures ok == (|text| + 1 <= old(doc.pool.Bounds()).Room())
      ensures doc.pool.left == if ok then old(doc.pool.left) + |text| + 1 else doc.pool.right
      ensures Grown(old(doc.pool.Bounds()), doc.pool.Bounds())
      ensures Rewritten(old(doc.ram.text), doc.ram.text, old(doc.pool.left), doc.pool.left)
      ensures ok ==> IsStored(p, text)
    {
      hide Sound, Tidy, Image, Refs, Written, Outside, Terminated, CStr;
      ghost var before, b := doc.ram.text, doc.pool.Bounds();
      EndsIn(before, doc.ram.cells, doc.tree, b);
      p := doc.pool.left;
      ok := p + |text| + 1 <= doc.pool.right;
      if ok {
        WrittenReads(before, p, text);
        doc.ram.Put(p, text);
        doc.pool.left := p + |text| + 1;
      } else {
        doc.pool.left := doc.pool.right;
      }
      PoolWritten(before, doc.ram.text, doc.ram.cells, doc.tree, b, doc.pool.Bounds());
      EndsIn(doc.ram.text, doc.ram.cells, doc.tree, doc.pool.Bounds());
    }

    /** A string that a variant or a slot may own. */
    ghost predicate IsStored(p: nat, text: string)
      reads this, doc, doc.pool, doc.ram
      requires ptr <= |doc.ram.text| || !inPlace
    {
      && p != 0 && CStr(doc.ram.text, p) == text && Housed(doc.ram.text, Ref(p, true), doc.pool.Bounds())
      && if inPlace then Terminated(doc.ram.text, p, ptr) else InPool(doc.ram.text, p, doc.pool.Bounds())
    }

    /** Stores what was scanned; after an error the pool is full, since the string had taken all the
        room. */
    method KeepScan(scan: Scan, ghost i: nat) returns (err: Error, p: nat)
      requires Valid(i) && NulFree(scan.text) && i <= scan.pos <= |s|
      requires scan.err == Ok && inPlace ==> ptr + |scan.text| + 1 <= input + scan.pos
      modifies this`ptr, doc.pool`left, doc.ram`text
      ensures Valid(scan.pos) && doc.Contents() == old(doc.Contents())
      ensures var k := Keep(scan, old(Mem())); err == k.err && Mem() == k.mem
      ensures Grown(old(doc.pool.Bounds()), doc.pool.Bounds())
      ensures if inPlace then doc.pool.left == old(doc.pool.left) else Rewritten(old(doc.ram.text), doc.ram.text, old(doc.pool.left), doc.pool.left)
      ensures err == Ok ==> IsStored(p, scan.text) && (!inPlace ==> doc.pool.left == old(doc.pool.left) + |scan.text| + 1)
    {
      hide Sound, Tidy, Image, Refs, Outside, Terminated, CStr;
      if scan.err == Ok {
        var ok;
        ok, p := Store(scan.text, scan.pos, i);
        return if ok then Ok else NoMemory, p;
      }
      if !inPlace {
        ghost var b := doc.pool.Bounds();
        EndsIn(doc.ram.text, doc.ram.cells, doc.tree, b);
        doc.pool.left := doc.pool.right;
        PoolWritten(doc.ram.text, doc.ram.text, doc.ram.cells, doc.tree, b, doc.pool.Bounds());
        EndsIn(doc.ram.text, doc.ram.cells, doc.tree, doc.pool.Bounds());
      }
      return scan.err, 0;
    }

    // ----- values -----

    /** Slots that were taken from the free region, and nothing else but the variant at `at` has
        changed. */
    ghost predicate Taken(n: int, at: nat, cells: Cells, b: Extent)
      reads doc, doc.pool, doc.ram
    {
      && Grown(b, doc.pool.Bounds()) && doc.pool.right == b.right - SLOT_SIZE * n
      && Beside(cells, doc.ram.cells, at, b.left, b.right)
    }

    /** The same, when perhaps one slot was linked to the collection at `at`. */
    ghost predicate Opened(linked: bool, at: nat, child: nat, path: seq<nat>, t: Item, cells: Cells, b: Extent)
      reads doc, doc.pool, doc.ram
    {
      && Grown(b, doc.pool.Bounds()) && doc.pool.right == b.right - (if linked then SLOT_SIZE else 0)
      && OnlyLinked(cells, doc.ram.cells, at, b.left, b.right)
      && IsTreePath(t, path) && IsTreePath(doc.tree, path)
      && ItemAt(doc.tree, path).items == ItemAt(t, path).items + (if linked then [Item(child, [])] else [])
      && (linked ==> child == doc.pool.right)
    }

    /** The slots of the collection at a place were taken from this region. */
    ghost predicate SlotsIn(path: seq<nat>, b: Extent)
      reads doc
    {
      && IsTreePath(doc.tree, path)
      && var items := ItemAt(doc.tree, path).items;
         forall k :: 0 <= k < |items| ==> b.left <= items[k].at < b.right
    }

    lemma NoSlotsYet(path: seq<nat>, obj: bool, b: Extent)
      requires doc.Valid() && IsTreePath(doc.tree, path) && IsPath(doc.Contents(), path) && Place(doc.Contents(), path) == Group(obj, [])
      ensures SlotsIn(path, b)
    {
      doc.GroupIsList(path);
    }

    /** One more slot, or none, was linked to the collection. */
    lemma OpenedInside(linked: bool, at: nat, child: nat, path: seq<nat>, t: Item, cells: Cells, b0: Extent, b: Extent)
      requires Opened(linked, at, child, path, t, cells, b0) && Grown(b, b0) && b0.left <= b0.right
      requires cells[at].content.tail == LastAt(ItemAt(t, path).items) && (LastAt(ItemAt(t, path).items) == 0 <==> ItemAt(t, path).items == [])
      requires var items := ItemAt(t, path).items; forall k :: 0 <= k < |items| ==> b.left <= items[k].at < b.right
      ensures SlotsIn(path, b) && Beside(cells, doc.ram.cells, at, b.left, b.right) && Grown(b, doc.pool.Bounds())
    {
    }

    /** A slot of the collection, before its value is parsed. */
    lemma BeforeChild(at: nat, child: nat, path: seq<nat>, k: nat, b: Extent)
      requires doc.Valid() && doc.Holds(at, path) && doc.Holds(child, path + [k]) && SlotsIn(path, b) && k < |ItemAt(doc.tree, path).items|
      ensures b.left <= child < b.right && child != at && at in doc.ram.cells && !(doc.pool.left <= at < doc.pool.right)
    {
      hide Laid, Image, Refs, Outside, Place;
      Inside(doc.ram.text, doc.ram.cells, doc.tree, path, doc.pool.Bounds());
      PlaceOutside(doc.ram.text, doc.ram.cells, doc.tree, path, doc.pool.Bounds());
      DeeperPath(doc.tree, path, k);
      Step(doc.ram.cells, ItemAt(doc.tree, path), k);
    }

    /** What was built at a place, and what is left of the room. */
    ghost predicate Built(err: Error, pos: nat, k: Outcome, before: Doc, path: seq<nat>)
      reads this, doc, doc.pool, doc.ram
      requires IsPath(before, path) && doc.pool.left <= doc.pool.right
    {
      && err == k.err && pos == k.pos && Mem() == k.mem
      && doc.Contents() == With(before, path, Own(k.value))
    }

    method ParseStringValue(at: nat, i: nat, ghost path: seq<nat>, ghost prior: Value) returns (err: Error, pos: nat)
      requires i < |s| && IsQuote(s[i]) && Valid(i) && doc.Holds(at, path) && Place(doc.Contents(), path) == Own(prior)
      modifies this`ptr, doc`tree, doc.pool, doc.ram
      ensures doc.Valid() && doc.Holds(at, path) && SameSpine(old(doc.tree), doc.tree, path) && pos <= |s| && Valid(pos)
      ensures Built(err, pos, ParseString(s, i, old(Mem()), prior), old(doc.Contents()), path)
      ensures Taken(0, at, old(doc.ram.cells), old(doc.pool.Bounds()))
    {
      hide Sound, Tidy, Image, Refs, Outside, Terminated, CStr, With, Place, IsPath, SameSpine, Laid, ScanQuoted, AllBefore, Housed, InPool;
      ghost var d, t := doc.Contents(), doc.tree;
      ghost var text, b := doc.ram.text, doc.pool.Bounds();
      WithTwice(d, path, Own(prior), Own(prior));
      SpineTwice(t, t, t, path);
      var scan := ScanQuoted(s, i + 1, s[i], "");
      ScanShorter(s, i + 1, s[i], "");
      var p;
      err, p := KeepScan(scan, i);
      pos := scan.pos;
      if err == Ok {
        if inPlace {
          text, b := doc.ram.text, doc.pool.Bounds();
        }
        AssignStored(at, p, scan.text, pos, path, text, b);
      } else {
        Inside(doc.ram.text, doc.ram.cells, doc.tree, path, doc.pool.Bounds());
      }
    }

    /** The variant owns a string that was stored since. */
    method AssignStored(at: nat, p: nat, chars: string, ghost pos: nat, ghost path: seq<nat>, ghost text: string, ghost b: Extent)
      requires Valid(pos) && IsTreePath(doc.tree, path) && ItemAt(doc.tree, path).at == at && IsStored(p, chars)
      requires Sound(text, doc.ram.cells, doc.tree, b) && Grown(b, doc.pool.Bounds()) && Rewritten(text, doc.ram.text, b.left, doc.pool.left)
      requires !inPlace ==> Tidy(text, doc.ram.cells, doc.tree, b) && doc.pool.left == b.left + |chars| + 1 && doc.pool.right == b.right
      modifies doc`tree, doc.ram`cells
      ensures Valid(pos) && doc.Holds(at, path) && SameSpine(old(doc.tree), doc.tree, path)
      ensures IsPath(Image(text, old(doc.ram.cells), old(doc.tree)), path)
      ensures doc.Contents() == With(Image(text, old(doc.ram.cells), old(doc.tree)), path, Line(Text(chars, true)))
      ensures Beside(old(doc.ram.cells), doc.ram.cells, at, 0, 0)
    {
      hide Sound, Image, Refs, Outside, Terminated, CStr, With, Place, IsPath, SameSpine, Laid;
      assert Usage(ContentImage(doc.ram.text, Chars(p, true))) == |chars| + 1;
      doc.Assign(at, path, Chars(p, true), text, b);
    }

    /** A number or a word; `null` leaves the variant as it was. */
    method ParseNumericValue(at: nat, i: nat, ghost path: seq<nat>, ghost prior: Value) returns (err: Error, pos: nat)
      requires Valid(i) && doc.Holds(at, path) && Place(doc.Contents(), path) == Own(prior)
      modifies doc`tree, doc.ram`cells
      ensures doc.Valid() && doc.Holds(at, path) && SameSpine(old(doc.tree), doc.tree, path) && pos <= |s| && Valid(pos)
      ensures Built(err, pos, ParseNumeric(s, i, old(Mem()), prior), old(doc.Contents()), path)
      ensures Taken(0, at, old(doc.ram.cells), old(doc.pool.Bounds()))
    {
      hide Sound, Tidy, Image, Refs, Outside, Terminated, With, Place, IsPath, SameSpine, Laid, ParseNumber;
      ghost var d, t := doc.Contents(), doc.tree;
      WithTwice(d, path, Own(prior), Own(prior));
      SpineTwice(t, t, t, path);
      pos := TokenEnd(s, i, TOKEN_MAX);
      var token := s[i..pos];
      if At(token, 0) == 'n' {
        return if |token| == 4 then Ok else IncompleteInput, pos;
      }
      var (e, v) := Literal(token, Null);
      if e != InvalidInput {
        doc.SetAtom(at, v, path);
      }
      err := e;
    }

    // ----- collections -----

    /** An array opens a slot for its next element. */
    method OpenElement(at: nat, i: nat, ghost path: seq<nat>, ghost d: Doc, ghost slots: seq<Slot>, ghost since: nat) returns (err: Error, child: nat)
      requires Valid(i) && doc.Holds(at, path) && IsPath(d, path)
      requires doc.Contents() == With(d, path, Own(Arr(slots)))
      requires doc.TailSince(at, since) && (|ElementHead(i, Mem(), slots).slots| > |slots| ==> since <= MAX_SPAN)
      modifies doc`tree, doc.pool`right, doc.ram`cells
      ensures doc.Valid() && Valid(i) && doc.Holds(at, path) && SameSpine(old(doc.tree), doc.tree, path)
      ensures var h := ElementHead(i, old(Mem()), slots);
              && err == h.err && Mem() == h.mem && doc.Contents() == With(d, path, Own(Arr(h.slots)))
              && (err == Ok ==> doc.Holds(child, path + [h.k]) && |h.slots| > |slots| && doc.TailSince(at, 1))
              && Opened(|h.slots| > |slots|, at, child, path, old(doc.tree), old(doc.ram.cells), old(doc.pool.Bounds()))
    {
      hide Sound, Tidy, Image, Refs, Outside, Terminated, With, Place, IsPath, SameSpine, Laid, WithItems, LinkLast, Nulls;
      ghost var t := doc.tree;
      OwnWrap(false, slots);
      WithPlace(d, path, Own(Arr(slots)));
      doc.SinceFits(at, since);
      child := doc.AddElement(at, path);
      if child == 0 {
        return NoMemory, 0;
      }
      err := Ok;
      WithItemsAt(t, path, ItemAt(t, path).items + [Item(child, [])]);
      OwnAppended(slots, Element(Null));
      OwnWrap(false, slots + [Element(Null)]);
      WithTwice(d, path, Own(Arr(slots)), Own(Arr(slots + [Element(Null)])));
    }

    /** An object opens the slot of its next member: the one its key has already, or a new one. */
    method OpenMember(at: nat, i: nat, ghost path: seq<nat>, ghost d: Doc, ghost slots: seq<Slot>, ghost since: nat)
      returns (err: Error, pos: nat, child: nat, ghost k: nat)
      requires 0 < i <= |s| && Valid(i - 1) && doc.Holds(at, path) && IsPath(d, path)
      requires doc.Contents() == With(d, path, Own(Obj(slots)))
      requires doc.TailSince(at, since) && (|MemberHead(s, i, Mem(), slots).slots| > |slots| ==> since <= MAX_SPAN)
      modifies this`ptr, doc`tree, doc.pool, doc.ram
      ensures doc.Valid() && doc.Holds(at, path) && SameSpine(old(doc.tree), doc.tree, path) && i <= pos <= |s| && Valid(pos)
      ensures var h := MemberHead(s, i, old(Mem()), slots);
              && err == h.err && pos == h.pos && Mem() == h.mem && doc.Contents() == With(d, path, Own(Obj(h.slots)))
              && (err == Ok ==> k == h.k && doc.Holds(child, path + [k]) && doc.TailSince(at, if |h.slots| > |slots| then 1 else since))
              && Opened(|h.slots| > |slots|, at, child, path, old(doc.tree), old(doc.ram.cells), old(doc.pool.Bounds()))
    {
      hide Sound, Tidy, Image, Refs, Outside, Terminated, CStr, With, Place, IsPath, SameSpine, Laid, SkipSpaces, ScanKey, Keep, Find, IsTreePath, ItemAt, Own, AllBefore, Housed, InPool, ApartAll, IsStored, Apart, Placed, MemberHead, KeyRead;
      ghost var t := doc.tree;
      SpineTwice(t, t, t, path);
      k, child := 0, 0;
      ghost var text, b, mem := doc.ram.text, doc.pool.Bounds(), Mem();
      var p, key;
      err, pos, p, key := ReadKey(i);
      HeadOfKey(s, i, mem, slots, err, pos, key, Mem());
      Inside(doc.ram.text, doc.ram.cells, doc.tree, path, doc.pool.Bounds());
      if err != Ok {
        return;
      }
      if inPlace {
        text, b := doc.ram.text, doc.pool.Bounds();
      }
      err, child, k := SelectMember(at, p, key, pos, path, d, slots, since, text, b);
    }

    /** Reads and stores a key, and reads the colon. */
    method ReadKey(i: nat) returns (err: Error, pos: nat, p: nat, key: string)
      requires 0 < i <= |s| && Valid(i - 1)
      modifies this`ptr, doc.pool`left, doc.ram`text
      ensures i <= pos <= |s| && Valid(pos) && doc.Contents() == old(doc.Contents()) && Grown(old(doc.pool.Bounds()), doc.pool.Bounds())
      ensures if inPlace then doc.pool.left == old(doc.pool.left) else Rewritten(old(doc.ram.text), doc.ram.text, old(doc.pool.left), doc.pool.left)
      ensures err == Ok ==> IsStored(p, key) && (!inPlace ==> doc.pool.left == old(doc.pool.left) + |key| + 1)
      ensures KeyRead(s, i, old(Mem()), err, pos, key, Mem())
    {
      hide Sound, Tidy, Image, Refs, Outside, Terminated, CStr, SkipSpaces, ScanKey, Keep;
      pos, p, key := SkipSpaces(s, i), 0, "";
      Later(i - 1, pos);
      if At(s, pos) == '\0' {
        return IncompleteInput, pos, p, key;
      }
      var scan := ScanKey(s, pos);
      KeyShorter(s, pos);
      err, p := KeepScan(scan, i - 1);
      pos, key := scan.pos, scan.text;
      KeptAsScanned(scan, old(Mem()));
      if err != Ok {
        return;
      }
      pos := SkipSpaces(s, scan.pos);
      Later(scan.pos, pos);
      if At(s, pos) == '\0' {
        return IncompleteInput, pos, p, key;
      }
      if s[pos] != ':' {
        return InvalidInput, pos, p, key;
      }
      pos := pos + 1;
    }

    method SelectMember(at: nat, p: nat, key: string, ghost pos: nat, ghost path: seq<nat>, ghost d: Doc, ghost slots: seq<Slot>, ghost since: nat,
                        ghost text: string, ghost b: Extent) returns (err: Error, child: nat, ghost k: nat)
      requires pos <= |s| && Valid(pos) && doc.Holds(at, path) && IsPath(d, path) && IsStored(p, key)
      requires Sound(text, doc.ram.cells, doc.tree, b) && Grown(b, doc.pool.Bounds()) && Rewritten(text, doc.ram.text, b.left, doc.pool.left)
      requires doc.Contents() == Image(text, doc.ram.cells, doc.tree) == With(d, path, Own(Obj(slots)))
      requires !inPlace ==> Tidy(text, doc.ram.cells, doc.tree, b) && doc.pool.left == b.left + |key| + 1
      requires doc.pool.right == b.right && doc.TailSince(at, since)
      requires Find(slots, key) == |slots| && Mem().Has(SLOT_SIZE) ==> since <= MAX_SPAN
      modifies doc`tree, doc.pool`right, doc.ram`cells
      ensures doc.Valid() && Valid(pos) && doc.Holds(at, path) && SameSpine(old(doc.tree), doc.tree, path)
      ensures k == Find(slots, key)
      ensures var mem := old(Mem());
              && err == (if k == |slots| && !mem.Has(SLOT_SIZE) then NoMemory else Ok)
              && Mem() == (if k == |slots| && err == Ok then mem.Take(SLOT_SIZE) else mem)
              && doc.Contents() == With(d, path, Own(Obj(if k == |slots| && err == Ok then slots + [Member(key, Null)] else slots)))
              && (err == Ok ==> doc.Holds(child, path + [k]) && doc.TailSince(at, if k == |slots| then 1 else since))
              && Opened(k == |slots| && err == Ok, at, child, path, old(doc.tree), old(doc.ram.cells), old(doc.pool.Bounds()))
    {
      hide Sound, Tidy, Image, Refs, Outside, Terminated, CStr, With, Place, IsPath, SameSpine, Laid, Find;
      ghost var t := doc.tree;
      SpineTwice(t, t, t, path);
      OwnWrap(true, slots);
      WithPlace(d, path, Own(Obj(slots)));
      FindOwn(slots, key);
      child, k := doc.GetMember(at, p, path);
      if child != 0 {
        return Ok, child, k;
      }
      err, child := AddNamed(at, p, key, pos, path, d, slots, since, text, b);
    }

    /** A new slot, named by a string that was stored since. */
    method AddNamed(at: nat, p: nat, key: string, ghost pos: nat, ghost path: seq<nat>, ghost d: Doc, ghost slots: seq<Slot>, ghost since: nat,
                    ghost text: string, ghost b: Extent) returns (err: Error, child: nat)
      requires pos <= |s| && Valid(pos) && doc.Holds(at, path) && IsPath(d, path) && IsStored(p, key)
      requires Sound(text, doc.ram.cells, doc.tree, b) && Grown(b, doc.pool.Bounds()) && Rewritten(text, doc.ram.text, b.left, doc.pool.left)
      requires doc.Contents() == Image(text, doc.ram.cells, doc.tree) == With(d, path, Group(true, OwnSlots(slots)))
      requires !inPlace ==> Tidy(text, doc.ram.cells, doc.tree, b) && doc.pool.left == b.left + |key| + 1
      requires doc.pool.right == b.right && doc.TailSince(at, since) && (Mem().Has(SLOT_SIZE) ==> since <= MAX_SPAN)
      modifies doc`tree, doc.pool`right, doc.ram`cells
      ensures doc.Valid() && Valid(pos) && doc.Holds(at, path) && SameSpine(old(doc.tree), doc.tree, path)
      ensures var mem := old(Mem());
              && err == (if !mem.Has(SLOT_SIZE) then NoMemory else Ok)
              && Mem() == (if err == Ok then mem.Take(SLOT_SIZE) else mem)
              && doc.Contents() == With(d, path, Own(Obj(if err == Ok then slots + [Member(key, Null)] else slots)))
              && (err == Ok ==> doc.Holds(child, path + [|slots|]) && doc.TailSince(at, 1))
              && Opened(err == Ok, at, child, path, old(doc.tree), old(doc.ram.cells), old(doc.pool.Bounds()))
    {
      hide Sound, Tidy, Image, Refs, Outside, Terminated, CStr, With, Place, IsPath, SameSpine, Laid, Find, LinkLast, Usage, Rewritten, ImageSlots, InPool, Apart, Own, WithItems, OnlyLinked;
      ghost var cells, t, b1 := doc.ram.cells, doc.tree, doc.pool.Bounds();
      WithPlace(d, path, Group(true, OwnSlots(slots)));
      OwnWrap(true, slots);
      doc.SinceFits(at, since);
      doc.GroupIsList(path);
      PlaceOutside(doc.ram.text, cells, t, path, b1);
      Inside(text, cells, t, path, b);
      child := doc.AddElement(at, path);
      if child == 0 {
        return NoMemory, 0;
      }
      err := Ok;
      WithItemsAt(t, path, ItemAt(t, path).items + [Item(child, [])]);
      HousedKept(doc.ram.text, Ref(p, true), b1, doc.pool.Bounds());
      ghost var cells1 := doc.ram.cells;
      NameNew(at, child, p, key, pos, path, d, slots, text, cells, t, b);
      KeyedLinked(cells, cells1, doc.ram.cells, at, child, b1.left, b1.right);
    }

    /** Names the slot that was just added. */
    method NameNew(at: nat, child: nat, p: nat, key: string, ghost pos: nat, ghost path: seq<nat>, ghost d: Doc, ghost slots: seq<Slot>,
                   ghost text: string, ghost cells: Cells, ghost t: Item, ghost b: Extent)
      requires doc.pool.ram == doc.ram && doc.pool.Valid() && t.at == doc.root && Sound(text, cells, t, b) && Collection(cells, t, path) && ItemAt(t, path).at == at
      requires Grown(b, doc.pool.Bounds()) && Rewritten(text, doc.ram.text, b.left, doc.pool.left)
      requires child == doc.pool.right == b.right - SLOT_SIZE && child != 0
      requires ItemAt(t, path).items == [] || InReach(LastAt(ItemAt(t, path).items), child)
      requires doc.ram.cells == LinkLast(cells, at, child, EMPTY_CELL) && doc.tree == WithItems(t, path, ItemAt(t, path).items + [Item(child, [])])
      requires pos <= |s| && (if inPlace then Cursor(pos) && AllBefore(doc.ram.text, Refs(cells, t), ptr) else Tidy(text, cells, t, b) && doc.pool.left == b.left + |key| + 1)
      requires IsStored(p, key) && IsPath(d, path) && Image(text, cells, t) == With(d, path, Group(true, OwnSlots(slots)))
      modifies doc.ram`cells
      ensures Valid(pos) && doc.Holds(at, path) && doc.Holds(child, path + [|slots|])
      ensures doc.Contents() == With(d, path, Own(Obj(slots + [Member(key, Null)])))
      ensures forall a :: a in old(doc.ram.cells) && a != child ==> a in doc.ram.cells && doc.ram.cells[a] == old(doc.ram.cells[a])
    {
      hide Sound, Tidy, Image, Refs, Outside, Terminated, CStr, With, Place, IsPath, SameSpine, Laid, Find, LinkLast, Usage, Rewritten, ImageSlots, InPool, Apart, Grown;
      ghost var g := Group(true, OwnSlots(slots));
      WithPlace(d, path, g);
      Inside(text, cells, t, path, b);
      ListImage(text, cells, ItemAt(t, path));
      doc.SetKey(at, child, p, true, path, text, cells, t, b);
      OwnAppended(slots, Member(key, Null));
      OwnWrap(true, slots + [Member(key, Null)]);
      WithTwice(d, path, g, Own(Obj(slots + [Member(key, Null)])));
    }

    /** Builds the value that starts at i in the variant at `at`. */
    method ParseValue(at: nat, i: nat, limit: nat, ghost path: seq<nat>, ghost prior: Value) returns (err: Error, pos: nat)
      requires Valid(i) && doc.Holds(at, path) && Place(doc.Contents(), path) == Own(prior) && VariantLinks(s, i, limit, Mem(), prior).fit
      modifies this`ptr, doc`tree, doc.pool, doc.ram
      ensures doc.Valid() && doc.Holds(at, path) && SameSpine(old(doc.tree), doc.tree, path) && pos <= |s| && Valid(pos)
      ensures Built(err, pos, ParseVariant(s, i, limit, old(Mem()), prior), old(doc.Contents()), path)
      ensures Taken(VariantLinks(s, i, limit, old(Mem()), prior).taken, at, old(doc.ram.cells), old(doc.pool.Bounds()))
      decreases limit, 2
    {
      hide Sound, Tidy, Image, Refs, Outside, Terminated, CStr, With, Place, IsPath, SameSpine, Laid, ParseCollection, CollectionLinks, ParseString, ParseNumeric, SkipSpaces;
      ghost var d, t := doc.Contents(), doc.tree;
      WithTwice(d, path, Own(prior), Own(prior));
      SpineTwice(t, t, t, path);
      pos := SkipSpaces(s, i);
      Later(i, pos);
      var c := At(s, pos);
      if c == '\0' {
        return IncompleteInput, pos;
      }
      if c == '[' || c == '{' {
        err, pos := ParseRowsInto(at, pos, limit, c == '{', path);
      } else if IsQuote(c) {
        err, pos := ParseStringValue(at, pos, path, prior);
      } else {
        err, pos := ParseNumericValue(at, pos, path, prior);
      }
    }

    /** Makes the variant a collection, and builds its elements or members. */
    method ParseRowsInto(at: nat, i: nat, limit: nat, obj: bool, ghost path: seq<nat>) returns (err: Error, pos: nat)
      requires Valid(i) && doc.Holds(at, path) && i < |s| && CollectionLinks(obj, s, i, limit, Mem()).fit
      modifies this`ptr, doc`tree, doc.pool, doc.ram
      ensures doc.Valid() && doc.Holds(at, path) && SameSpine(old(doc.tree), doc.tree, path) && pos <= |s| && Valid(pos)
      ensures Built(err, pos, ParseCollection(obj, s, i, limit, old(Mem())), old(doc.Contents()), path)
      ensures Taken(CollectionLinks(obj, s, i, limit, old(Mem())).taken, at, old(doc.ram.cells), old(doc.pool.Bounds()))
      decreases limit, 1
    {
      hide Sound, Tidy, Image, Refs, Outside, Terminated, CStr, With, Place, IsPath, SameSpine, Laid, RowsLinks, ParseRows, SkipSpaces;
      ghost var d, t, b := doc.Contents(), doc.tree, doc.pool.Bounds();
      doc.ToCollection(at, obj, path);
      OwnWrap(obj, []);
      if limit == 0 {
        return TooDeep, i;
      }
      pos := SkipSpaces(s, i + 1);
      Later(i, pos);
      if At(s, pos) == '\0' {
        return IncompleteInput, pos;
      }
      if At(s, pos) == Close(obj) {
        Later(pos, pos + 1);
        return Ok, pos + 1;
      }
      Later(i, pos - 1);
      doc.NewList(at, obj, b);
      WithPlace(d, path, Group(obj, []));
      NoSlotsYet(path, obj, b);
      ghost var t1 := doc.tree;
      err, pos := ParseAllRows(at, pos, limit, obj, path, d);
      SpineTwice(t, t1, doc.tree, path);
    }

    /** The elements or members of an empty collection. */
    method ParseAllRows(at: nat, i: nat, limit: nat, obj: bool, ghost path: seq<nat>, ghost d: Doc) returns (err: Error, pos: nat)
      requires 0 < i <= |s| && limit > 0 && Valid(i - 1) && doc.Holds(at, path) && IsPath(d, path)
      requires doc.Contents() == With(d, path, Own(Wrap(obj, [])))
      requires SlotsIn(path, doc.pool.Bounds()) && doc.TailSince(at, 0) && RowsLinks(obj, s, i, limit, Mem(), [], 0).fit
      modifies this`ptr, doc`tree, doc.pool, doc.ram
      ensures doc.Valid() && doc.Holds(at, path) && SameSpine(old(doc.tree), doc.tree, path) && pos <= |s| && Valid(pos)
      ensures Built(err, pos, ParseRows(obj, s, i, limit, old(Mem()), []), d, path)
      ensures Taken(RowsLinks(obj, s, i, limit, old(Mem()), [], 0).taken, at, old(doc.ram.cells), old(doc.pool.Bounds()))
      decreases limit, 0
    {
      hide Sound, Tidy, Image, Refs, Outside, Terminated, CStr, With, Place, IsPath, SameSpine, Laid, RowsLinks, ParseRows, Beside, SlotsIn, Own;
      ghost var t, cells, b := doc.tree, doc.ram.cells, doc.pool.Bounds();
      ghost var slots, since, whole, links := [], 0, ParseRows(obj, s, i, limit, Mem(), []), RowsLinks(obj, s, i, limit, Mem(), [], 0);
      NothingYet(at, path, b);
      var more := true;
      err, pos := Ok, i;
      while more
        invariant doc.Valid() && doc.Holds(at, path) && SameSpine(t, doc.tree, path) && i <= pos <= |s|
        invariant Valid(if more then pos - 1 else pos)
        invariant doc.Contents() == With(d, path, Own(Wrap(obj, slots))) && Grown(b, doc.pool.Bounds())
        invariant Beside(cells, doc.ram.cells, at, b.left, b.right) && SlotsIn(path, b)
        invariant more ==> doc.TailSince(at, since) && (since == 0 ==> slots == [])
        invariant whole == if more then ParseRows(obj, s, pos, limit, Mem(), slots) else Outcome(err, Wrap(obj, slots), pos, Mem())
        invariant Follows(more, links, b.right, doc.pool.right, obj, pos, limit, Mem(), slots, since)
        decreases more, |s| - pos
      {
        ghost var t1, cells1 := doc.tree, doc.ram.cells;
        ghost var row, next;
        err, pos, more, row, next := ParseRow(at, pos, limit, obj, path, d, slots, since, b);
        slots, since := row, next;
        SpineTwice(t, t1, doc.tree, path);
        BesideTwice(cells, cells1, doc.ram.cells, at, b.left, b.right);
      }
    }

    lemma NothingYet(at: nat, path: seq<nat>, b: Extent)
      requires IsTreePath(doc.tree, path)
      ensures SameSpine(doc.tree, doc.tree, path) && Beside(doc.ram.cells, doc.ram.cells, at, b.left, b.right)
    {
      SpineTwice(doc.tree, doc.tree, doc.tree, path);
    }

    /** What the remaining rows take is what is still missing of the whole. */
    ghost predicate Follows(more: bool, whole: Links, right: nat, right': nat, obj: bool, pos: nat, limit: nat, mem: Memory, slots: seq<Slot>, since: nat)
      requires pos <= |s| && limit > 0
    {
      if more then
        var rest := RowsLinks(obj, s, pos, limit, mem, slots, since);
        rest.fit && right' == right - SLOT_SIZE * (whole.taken - rest.taken)
      else right' == right - SLOT_SIZE * whole.taken
    }

    /** One element or member, and what follows it. */
    method ParseRow(at: nat, i: nat, limit: nat, obj: bool, ghost path: seq<nat>, ghost d: Doc, ghost slots: seq<Slot>, ghost since: nat, ghost b: Extent)
      returns (err: Error, pos: nat, more: bool, ghost row: seq<Slot>, ghost next: nat)
      requires 0 < i <= |s| && limit > 0 && Valid(i - 1) && doc.Holds(at, path) && IsPath(d, path) && Grown(b, doc.pool.Bounds())
      requires doc.Contents() == With(d, path, Own(Wrap(obj, slots)))
      requires SlotsIn(path, b) && doc.TailSince(at, since) && (since == 0 ==> slots == [])
      requires RowsLinks(obj, s, i, limit, Mem(), slots, since).fit
      modifies this`ptr, doc`tree, doc.pool, doc.ram
      ensures doc.Valid() && doc.Holds(at, path) && SameSpine(old(doc.tree), doc.tree, path) && i <= pos <= |s|
      ensures doc.Contents() == With(d, path, Own(Wrap(obj, row))) && Grown(b, doc.pool.Bounds())
      ensures Beside(old(doc.ram.cells), doc.ram.cells, at, b.left, b.right) && SlotsIn(path, b)
      ensures var whole := ParseRows(obj, s, i, limit, old(Mem()), slots);
              if more then i < pos && Valid(pos - 1) && whole == ParseRows(obj, s, pos, limit, Mem(), row)
              else Valid(pos) && whole == Outcome(err, Wrap(obj, row), pos, Mem())
      ensures more ==> doc.TailSince(at, next) && next > 0
      ensures Follows(more, RowsLinks(obj, s, i, limit, old(Mem()), slots, since), old(doc.pool.right), doc.pool.right, obj, pos, limit, Mem(), row, next)
      decreases limit - 1, 4
    {
      hide Sound, Tidy, Image, Refs, Outside, Terminated, CStr, With, Place, IsPath, SameSpine, Laid, RowHead, FillRow, FillLinks;
      ghost var h, t, cells, right := RowHead(obj, s, i, Mem(), slots), doc.tree, doc.ram.cells, doc.pool.right;
      var child;
      err, pos, child := OpenRow(at, i, obj, path, d, slots, since, b);
      row, more, next := h.slots, false, if |h.slots| > |slots| then 1 else since;
      if err != Ok {
        NoRow(obj, h, limit, next);
        return;
      }
      ghost var t1, cells1 := doc.tree, doc.ram.cells;
      err, pos, more, row, next := FillOpened(at, child, pos, limit, obj, path, d, h, next, b);
      SpineTwice(t, t1, doc.tree, path);
      BesideTwice(cells, cells1, doc.ram.cells, at, b.left, b.right);
    }

    lemma NoRow(obj: bool, h: Head, limit: nat, since: nat)
      requires h.err != Ok && h.pos <= |s| && limit > 0
      ensures FillRow(obj, s, h, limit) == Outcome(h.err, Wrap(obj, h.slots), h.pos, h.mem) && FillLinks(obj, s, h, limit, since) == NO_LINKS
    {
    }

    /** Opens the slot of the next element or member. */
    method OpenRow(at: nat, i: nat, obj: bool, ghost path: seq<nat>, ghost d: Doc, ghost slots: seq<Slot>, ghost since: nat, ghost b: Extent)
      returns (err: Error, pos: nat, child: nat)
      requires 0 < i <= |s| && Valid(i - 1) && doc.Holds(at, path) && IsPath(d, path) && Grown(b, doc.pool.Bounds())
      requires doc.Contents() == With(d, path, Own(Wrap(obj, slots)))
      requires SlotsIn(path, b) && doc.TailSince(at, since) && (since == 0 ==> slots == [])
      requires |RowHead(obj, s, i, Mem(), slots).slots| > |slots| ==> since <= MAX_SPAN
      modifies this`ptr, doc`tree, doc.pool, doc.ram
      ensures doc.Valid() && doc.Holds(at, path) && SameSpine(old(doc.tree), doc.tree, path) && i <= pos <= |s| && Valid(pos)
      ensures Grown(b, doc.pool.Bounds()) && Beside(old(doc.ram.cells), doc.ram.cells, at, b.left, b.right) && SlotsIn(path, b)
      ensures var h := RowHead(obj, s, i, old(Mem()), slots);
              && err == h.err && pos == h.pos && Mem() == h.mem && doc.Contents() == With(d, path, Own(Wrap(obj, h.slots)))
              && |h.slots| >= |slots| && doc.pool.right == old(doc.pool.right) - (if |h.slots| > |slots| then SLOT_SIZE else 0)
              && (err == Ok ==>
                && doc.Holds(child, path + [h.k]) && b.left <= child < b.right
                && doc.TailSince(at, if |h.slots| > |slots| then 1 else since) && (|h.slots| > |slots| || since > 0))
    {
      hide Sound, Tidy, Image, Refs, Outside, Terminated, CStr, With, Place, IsPath, SameSpine, Laid, ElementHead, MemberHead, Own, OnlyLinked, Beside, LastAt;
      ghost var t, cells, b0, h := doc.tree, doc.ram.cells, doc.pool.Bounds(), RowHead(obj, s, i, Mem(), slots);
      HeadInRoom(obj, s, i, Mem(), slots);
      WithPlace(d, path, Own(Wrap(obj, slots)));
      OwnWrap(obj, slots);
      OwnWrap(obj, h.slots);
      doc.GroupIsList(path);
      if obj {
        ghost var k;
        err, pos, child, k := OpenMember(at, i, path, d, slots, since);
      } else {
        Later(i - 1, i);
        pos := i;
        err, child := OpenElement(at, i, path, d, slots, since);
      }
      OpenedInside(|h.slots| > |slots|, at, child, path, t, cells, b0, b);
      if err == Ok {
        WithPlace(d, path, Own(Wrap(obj, h.slots)));
        SlotsThere(path, obj, h.slots);
        BeforeChild(at, child, path, h.k, b);
      }
    }

    lemma SlotsThere(path: seq<nat>, obj: bool, slots: seq<Slot>)
      requires doc.Valid() && IsTreePath(doc.tree, path) && IsPath(doc.Contents(), path) && Place(doc.Contents(), path) == Group(obj, OwnSlots(slots))
      ensures |ItemAt(doc.tree, path).items| == |slots|
    {
      doc.GroupIsList(path);
    }

    /** Parses the value of the slot that was opened, and what follows it. */
    method FillOpened(at: nat, child: nat, i: nat, limit: nat, obj: bool, ghost path: seq<nat>, ghost d: Doc, ghost h: Head, ghost since: nat, ghost b: Extent)
      returns (err: Error, pos: nat, more: bool, ghost row: seq<Slot>, ghost next: nat)
      requires limit > 0 && Valid(i) && doc.Holds(at, path) && IsPath(d, path) && Grown(b, doc.pool.Bounds())
      requires h.err == Ok && h.pos == i && h.k < |h.slots| && h.mem == Mem() && doc.Contents() == With(d, path, Own(Wrap(obj, h.slots)))
      requires doc.Holds(child, path + [h.k]) && b.left <= child < b.right
      requires SlotsIn(path, b) && doc.TailSince(at, since) && since > 0
      requires FillLinks(obj, s, h, limit, since).fit
      modifies this`ptr, doc`tree, doc.pool, doc.ram
      ensures doc.Valid() && doc.Holds(at, path) && SameSpine(old(doc.tree), doc.tree, path) && i <= pos <= |s|
      ensures doc.Contents() == With(d, path, Own(Wrap(obj, row))) && Grown(b, doc.pool.Bounds())
      ensures Beside(old(doc.ram.cells), doc.ram.cells, at, b.left, b.right) && SlotsIn(path, b)
      ensures var whole := FillRow(obj, s, h, limit);
              if more then i < pos && Valid(pos - 1) && whole == ParseRows(obj, s, pos, limit, Mem(), row)
              else Valid(pos) && whole == Outcome(err, Wrap(obj, row), pos, Mem())
      ensures more ==> doc.TailSince(at, next) && next > 0
      ensures Follows(more, FillLinks(obj, s, h, limit, since), old(doc.pool.right), doc.pool.right, obj, pos, limit, Mem(), row, next)
      decreases limit - 1, 3
    {
      hide Sound, Tidy, Image, Refs, Outside, Terminated, CStr, With, Place, IsPath, SameSpine, Laid, ParseVariant, VariantLinks, ParseRows, RowsLinks, RowEnd, Own;
      ghost var v, t1, cells1, b1 := h.slots[h.k].value, doc.tree, doc.ram.cells, doc.pool.Bounds();
      ghost var r, l := ParseVariant(s, i, limit - 1, Mem(), v), VariantLinks(s, i, limit - 1, Mem(), v);
      OwnFilled(d, path, obj, h.slots, h.k, v);
      WithPlace(d, path, Own(Wrap(obj, h.slots)));
      OwnWrap(obj, h.slots);
      SlotsThere(path, obj, h.slots);
      BeforeChild(at, child, path, h.k, b);
      err, pos := ParseValue(child, i, limit - 1, path + [h.k], v);
      SpineSlots(t1, doc.tree, path, h.k);
      ChildFilled(cells1, cells1, doc.ram.cells, at, child, b1, b);
      OwnFilled(d, path, obj, h.slots, h.k, r.value);
      row, more, next := SetValue(h.slots, h.k, r.value), false, since + l.taken;
      StillHeld(t1, path, h.k, at);
      if err == Ok {
        var end := RowEnd(obj, s, pos);
        Later(pos, if end.More? then end.pos - 1 else end.pos);
        pos := end.pos;
        match end
        case More(_) => more := true;
        case Stop(e, _) => err := e;
      }
    }

    /** A place is where it was after something was built below it. */
    lemma StillHeld(t1: Item, path: seq<nat>, k: nat, at: nat)
      requires doc.Valid() && IsTreePath(t1, path) && ItemAt(t1, path).at == at && SameSpine(t1, doc.tree, path + [k])
      ensures doc.Holds(at, path) && SameSpine(t1, doc.tree, path)
    {
      SpineAbove(t1, doc.tree, path, k);
      SpineHolds(t1, doc.tree, path);
      Inside(doc.ram.text, doc.ram.cells, doc.tree, path, doc.pool.Bounds());
    }
  }

  /** What reading a key and its colon comes to. */
  predicate KeyRead(s: string, i: nat, mem: Memory, err: Error, pos: nat, key: string, mem': Memory)
    requires i <= |s|
  {
    var j := SkipSpaces(s, i);
    if At(s, j) == '\0' then err == IncompleteInput && pos == j && mem' == mem
    else
      var k := Keep(ScanKey(s, j), mem);
      && mem' == k.mem
      && if k.err != Ok then err == k.err && pos == k.pos
         else
           var colon := SkipSpaces(s, k.pos);
           if At(s, colon) == '\0' then err == IncompleteInput && pos == colon
           else if s[colon] != ':' then err == InvalidInput && pos == colon
           else err == Ok && pos == colon + 1 && key == k.text
  }

  /** How the key decides the slot that is opened. */
  lemma HeadOfKey(s: string, i: nat, mem: Memory, slots: seq<Slot>, err: Error, pos: nat, key: string, mem': Memory)
    requires i <= |s| && KeyRead(s, i, mem, err, pos, key, mem')
    ensures var k := Find(slots, key);
            MemberHead(s, i, mem, slots) ==
            if err != Ok then Head(err, slots, 0, pos, mem')
            else if k < |slots| then Head(Ok, slots, k, pos, mem')
            else if !mem'.Has(SLOT_SIZE) then Head(NoMemory, slots, 0, pos, mem')
            else Head(Ok, slots + [Member(key, Null)], k, pos, mem'.Take(SLOT_SIZE))
  {
  }

  lemma KeptAsScanned(scan: Scan, mem: Memory)
    ensures Keep(scan, mem).pos == scan.pos && Keep(scan, mem).text == scan.text
  {
  }

  /** Naming a new slot changes no other one. */
  lemma KeyedLinked(cells: Cells, cells1: Cells, cells2: Cells, at: nat, slot: nat, lo: nat, hi: nat)
    requires OnlyLinked(cells, cells1, at, lo, hi) && lo <= slot < hi
    requires forall a :: a in cells1 && a != slot ==> a in cells2 && cells2[a] == cells1[a]
    ensures OnlyLinked(cells, cells2, at, lo, hi)
  {
  }

  lemma BesideTwice(cells: Cells, cells1: Cells, cells2: Cells, at: nat, lo: nat, hi: nat)
    requires Beside(cells, cells1, at, lo, hi) && Beside(cells1, cells2, at, lo, hi)
    ensures Beside(cells, cells2, at, lo, hi)
  {
  }

  /** Filling a slot of a collection changes neither the collection's variant nor what lies elsewhere. */
  lemma ChildFilled(cells: Cells, cells1: Cells, cells2: Cells, at: nat, child: nat, b1: Extent, b: Extent)
    requires Beside(cells, cells1, at, b.left, b.right) && Beside(cells1, cells2, child, b1.left, b1.right) && Grown(b, b1)
    requires b.left <= child < b.right && child != at && at in cells1 && !(b1.left <= at < b1.right)
    ensures Beside(cells, cells2, at, b.left, b.right) && at in cells2 && cells2[at] == cells1[at]
  {
  }

  lemma HousedKept(text: string, r: Ref, b: Extent, b': Extent)
    requires Housed(text, r, b) && b'.begin == b.begin && b'.left == b.left && b'.end == b.end
    ensures Housed(text, r, b') && (InPool(text, r.p, b) ==> InPool(text, r.p, b'))
  {
  }

  lemma ListImage(text: string, cells: Cells, s: Item)
    requires IsLinks(cells, s.at)
    ensures Image(text, cells, s) == Group(cells[s.at].content.obj, ImageSlots(text, cells, s.items))
  {
  }

  lemma EndsIn(text: string, cells: Cells, t: Item, b: Extent)
    requires Sound(text, cells, t, b)
    ensures b.Valid() && b.end <= |text|
  {
  }

  lemma StoredOutside(text: string, p: nat, b: Extent)
    requires b.begin <= |text|
    ensures forall w: nat :: w <= |text| && Terminated(text, p, w) && (w <= b.begin || b.end <= p) ==> Outside(text, p, b)
  {
    forall w: nat | w <= |text| && Terminated(text, p, w) && (w <= b.begin || b.end <= p)
      ensures Outside(text, p, b)
    {
      if w <= b.begin {
        TerminatedLater(text, p, w, b.begin);
      } else {
        TerminatedLater(text, p, w, |text|);
      }
    }
  }

  lemma AllLater(text: string, refs: set<Ref>, w: nat, w2: nat)
    requires AllBefore(text, refs, w) && w <= w2 <= |text|
    ensures AllBefore(text, refs, w2)
  {
    forall r | r in refs
      ensures Terminated(text, r.p, w2)
    {
      TerminatedLater(text, r.p, w, w2);
    }
  }

  /** Deserializes a text into a document.  Its value is the grammar's, of whatever the text and the
      outcome; it is sound in memory, and if the strings were copied, its pool counts all of them. */
  method DeserializeJson(doc: JsonDocument, s: string, limit: nat, inPlace: bool, input: nat) returns (err: Error)
    requires doc.Valid() && VariantLinks(s, 0, limit, Memory(!inPlace, doc.pool.end - doc.pool.begin), Null).fit
    requires inPlace ==> 0 < input && input + |s| <= |doc.ram.text| && (input + |s| <= doc.pool.begin || doc.pool.end <= input)
    requires inPlace ==> doc.ram.text[input..input + |s|] == s
    modifies doc`tree, doc.pool, doc.ram
    ensures doc.Valid() && (!inPlace ==> doc.IsTidy())
    ensures var r := Deserialize(s, limit, Memory(!inPlace, old(doc.pool.end - doc.pool.begin)));
            err == r.err && doc.Contents() == Own(r.value) && doc.pool.Bounds().Room() == r.mem.room
  {
    hide Sound, Tidy, Image, Refs, Outside, Terminated, Laid, ParseVariant;
    doc.Clear();
    var parser := new PooledParser(doc, s, inPlace, input);
    var pos;
    err, pos := parser.ParseValue(doc.root, 0, limit, [], Null);
    IsRoot(doc);
    if err == Ok && At(s, pos) != '\0' {
      var c := doc.ram.cells[doc.root].content;
      if c.Plain? && IsNumber(c.v) {
        err := InvalidInput;
      }
    }
  }

  lemma IsRoot(doc: JsonDocument)
    requires doc.Valid()
    ensures doc.root in doc.ram.cells
    ensures forall v :: doc.Contents() == Own(v) ==>
              var c := doc.ram.cells[doc.root].content; IsNumber(v) <==> c.Plain? && IsNumber(c.v)
  {
    LaidAt(doc.ram.cells, doc.tree);
  }
}
