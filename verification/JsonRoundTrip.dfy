/** Parsing what a serializer printed gives the document back. */
module JsonRoundTrip {
  import opened Document
  import opened Numbers
  import JsonSyntax
  import opened JsonGrammar
  import opened JsonPrinter
  import opened JsonDecides
  import opened JsonLayout
  import opened Occurrence

  /** Exactly a quote, a backslash and five control characters are escaped, and unescaping gives them
      back. */
  lemma EscapeInverse(c: char)
    requires c != '\0'
    ensures Escape(c) != '\0' <==> c == '\"' || c == '\\' || ShortControl(c)
    ensures Escape(c) != '\0' ==> Unescape(Escape(c)) == c && Escape(c) != 'u' && JsonSyntax.EscapeMeans(Escape(c), c)
  {
  }

  lemma QuotedRoundTrip(s: string, i: nat, text: string, done: string)
    requires NulFree(text) && Occurs(s, i, EscapeText(text) + "\"")
    ensures ScanQuoted(s, i, '\"', done) == Scan(Ok, done + text, i + |EscapeText(text)| + 1)
  {
    TextPrinted(text);
    TextMeant(text);
    LettersRead(s, i, '\"', LettersOf(text), done);
  }

  /** Null, a boolean or an integer. */
  predicate IsWord(v: Value) { v.Null? || v.Bool? || v.Pos? || v.Neg? }

  lemma VariantRoundTrip(s: string, i: nat, j: nat, v: Value, style: Style, depth: nat, limit: nat, mem: Memory)
    requires Clean(v) && UniquelyKeyed(v) && Nesting(v) <= limit && mem.Has(Need(mem.copies, v))
    requires i <= |s| && SkipSpaces(s, i) == j && Occurs(s, j, Print(v, style, depth))
    requires IsWord(v) ==> !IsTokenChar(At(s, j + |Print(v, style, depth)|))
    ensures ParseVariant(s, i, limit, mem, Null) ==
            Outcome(Ok, v, j + |Print(v, style, depth)|, mem.Take(Need(mem.copies, v)))
  {
    hide Print, ParseVariant, JsonSyntax.Valid, JsonSyntax.Meaning, JsonSyntax.Spell, SkipSpaces, Clean, UniquelyKeyed, Nesting, Need;
    var c := Layout(v, style, depth);
    PrintSpells(v, style, depth);
    LayoutMeans(v, style, depth, mem.copies);
    WordChars(At(s, j + |Print(v, style, depth)|));
    assert "" + Print(v, style, depth) == Print(v, style, depth);
    TreeRead(s, j, "", c, limit, mem, Null);
    SkipsOnce(s, i);
    VariantFrom(s, i, j, limit, mem, Null);
  }

  lemma CollectionRoundTrip(obj: bool, s: string, i: nat, slots: seq<Slot>, style: Style, depth: nat, limit: nat, mem: Memory)
    requires CleanSlots(obj, slots) && SlotsUniquelyKeyed(slots) && (obj ==> DistinctKeys(slots))
    requires 1 + SlotsNesting(slots) <= limit && mem.Has(SlotsNeed(mem.copies, slots))
    requires Occurs(s, i, PrintCollection(obj, slots, style, depth))
    ensures s[i] == Open(obj)
    ensures ParseCollection(obj, s, i, limit, mem) ==
            Outcome(Ok, Wrap(obj, slots), i + |PrintCollection(obj, slots, style, depth)|, mem.Take(SlotsNeed(mem.copies, slots)))
  {
    hide PrintCollection, ParseCollection, JsonSyntax.Valid, JsonSyntax.Meaning, JsonSyntax.Spell, RowsLayout;
    var v := Wrap(obj, slots);
    PrintSpells(v, style, depth);
    LayoutMeans(v, style, depth, mem.copies);
    CollectionRead(s, i, Layout(v, style, depth), limit, mem, Null);
  }

  // ----- the main result -----

  /** Reading back a printed document succeeds exactly when the document respects the nesting
      limit and the pool can hold its slots and strings, and then yields the same document and
      takes exactly that much room. */
  lemma RoundTrip(v: Value, style: Style, limit: nat, mem: Memory)
    requires Clean(v) && UniquelyKeyed(v)
    ensures var r := Deserialize(Print(v, style, 0), limit, mem);
            && (r.err == Ok <==> Nesting(v) <= limit && mem.Has(Need(mem.copies, v)))
            && (r.err == Ok ==> r.value == v && r.mem == mem.Take(Need(mem.copies, v)))
  {
    hide Print, Deserialize, JsonSyntax.Valid, JsonSyntax.Meaning, JsonSyntax.Spell, Clean, UniquelyKeyed, Nesting, Need;
    var c := Layout(v, style, 0);
    PrintSpells(v, style, 0);
    LayoutMeans(v, style, 0, mem.copies);
    assert Print(v, style, 0) == "" + JsonSyntax.Spell(c) + "";
    TextRead(Print(v, style, 0), "", c, "", limit, mem);
  }
}
