/** The texts the JSON serializers write, as syntax trees: which characters are escaped, where there are
    line breaks and spaces, and when the text follows RFC 8259. */
module JsonLayout {
  import opened Document
  import opened Numbers
  import NumberSyntax
  import opened JsonSyntax
  import JsonGrammar
  import opened JsonPrinter
  import opened JsonDecides

  // ----- the tree of a document -----

  /** The characters that have an escape of their own, and all others. */
  function LetterOf(c: char): Letter {
    if c == '"' || c == '\\' then Escaped(c)
    else if c == 8 as char then Escaped('b')
    else if c == 12 as char then Escaped('f')
    else if c == '\n' then Escaped('n')
    else if c == '\r' then Escaped('r')
    else if c == '\t' then Escaped('t')
    else Raw(c)
  }

  function LettersOf(text: string): seq<Letter> {
    seq(|text|, k requires 0 <= k < |text| => LetterOf(text[k]))
  }

  function Break(style: Style): string { if style.Pretty? then ['\r', '\n'] else "" }

  /** Two spaces for each level. */
  function Margin(style: Style, depth: nat): string {
    if style.Pretty? then seq(2 * depth, _ => ' ') else ""
  }

  /** One level deeper, where levels are counted in eight bits. */
  function Next(depth: nat): nat { (depth + 1) % 256 }

  function Layout(v: Value, style: Style, depth: nat): Syntax
    requires Clean(v)
    decreases v
  {
    match v
    case Null => Word("null")
    case Bool(flag) => Word(if flag then "true" else "false")
    case Pos(n) => Word(Digits(n))
    case Neg(n) => Word("-" + Digits(n))
    case Str(text) => Quoted('"', LettersOf(text))
    case Arr(slots) => Rows(false, RowsLayout(false, slots, style, depth), "")
    case Obj(slots) => Rows(true, RowsLayout(true, slots, style, depth), "")
  }

  function RowsLayout(obj: bool, slots: seq<Slot>, style: Style, depth: nat): (rows: seq<Row>)
    requires CleanSlots(obj, slots)
    ensures |rows| == |slots|
    decreases slots
  {
    if slots == [] then []
    else [RowLayout(obj, slots[0], style, depth, |slots| == 1)] + RowsLayout(obj, slots[1..], style, depth)
  }

  /** Each row on a line of its own, and the closing bracket too. */
  function RowLayout(obj: bool, slot: Slot, style: Style, depth: nat, last: bool): Row
    requires CleanSlot(obj, slot)
    decreases slot
  {
    var line, value := Break(style) + Margin(style, Next(depth)), Layout(slot.value, style, Next(depth));
    var after := if last then Break(style) + Margin(style, depth) else "";
    if obj then Row(Some(Key(line, QuotedName('"', LettersOf(slot.key)), "")), if style.Pretty? then " " else "", value, after)
    else Row(None, line, value, after)
  }

  // ----- what the serializer writes is its spelling -----

  lemma LetterPrinted(c: char)
    ensures EscapeChar(c) == SpellLetter(LetterOf(c))
  {
  }

  lemma {:induction false} TextPrinted(text: string)
    ensures EscapeText(text) == SpellLetters(LettersOf(text))
  {
    if text != "" {
      LetterPrinted(text[0]);
      assert LettersOf(text)[1..] == LettersOf(text[1..]);
      TextPrinted(text[1..]);
    }
  }

  lemma {:induction false} MarginPrinted(depth: nat)
    ensures Tabs(depth) == seq(2 * depth, _ => ' ')
  {
    if depth > 0 {
      MarginPrinted(depth - 1);
      assert seq(2 * depth, _ => ' ') == TAB + seq(2 * (depth - 1), _ => ' ');
    }
  }

  lemma LayoutPrinted(style: Style, depth: nat)
    ensures Indent(style, depth) == Margin(style, depth) && Newline(style) == Break(style)
  {
    MarginPrinted(depth);
  }

  /** For all documents: the printed text is the spelling of the layout. */
  lemma {:induction false} PrintSpells(v: Value, style: Style, depth: nat)
    requires Clean(v)
    ensures Print(v, style, depth) == Spell(Layout(v, style, depth))
    decreases v, 1
  {
    match v
    case Str(text) => TextPrinted(text);
    case Arr(slots) => CollectionSpells(v, slots, style, depth);
    case Obj(slots) => CollectionSpells(v, slots, style, depth);
    case _ =>
  }

  lemma {:induction false} CollectionSpells(v: Value, slots: seq<Slot>, style: Style, depth: nat)
    requires Clean(v) && (v == Arr(slots) || v == Obj(slots))
    ensures Print(v, style, depth) == Spell(Layout(v, style, depth))
    decreases slots, 1
  {
    hide PrintRows, SpellRows, Newline, Indent;
    if slots != [] {
      RowsSpell(v.Obj?, slots, style, depth);
      Bracketed([Open(v.Obj?)], Newline(style), PrintRows(v.Obj?, slots, style, Deeper(depth)), Indent(style, depth), [Close(v.Obj?)]);
    }
  }

  lemma Bracketed(a: string, b: string, c: string, d: string, e: string)
    ensures a + (b + c + d) + e == a + (b + c + (d + e))
  {
  }

  function Close(obj: bool): char { JsonGrammar.Close(obj) }

  lemma {:induction false} RowsSpell(obj: bool, slots: seq<Slot>, style: Style, depth: nat)
    requires CleanSlots(obj, slots) && slots != []
    ensures Newline(style) + PrintRows(obj, slots, style, Deeper(depth)) + (Indent(style, depth) + [Close(obj)])
         == SpellRows(obj, RowsLayout(obj, slots, style, depth))
    decreases slots, 0
  {
    hide PrintSlot, SpellRow, Newline, Indent, RowLayout;
    var last, nl, indent, bracket := |slots| == 1, Newline(style), Indent(style, Deeper(depth)), Indent(style, depth) + [Close(obj)];
    var text, rest := PrintSlot(obj, slots[0], style, Deeper(depth)), PrintRows(obj, slots[1..], style, Deeper(depth));
    RowSpells(obj, slots[0], style, depth, last);
    assert RowsLayout(obj, slots, style, depth)[1..] == RowsLayout(obj, slots[1..], style, depth);
    if last {
      LastRow(nl, indent, text, Indent(style, depth), [Close(obj)]);
    } else {
      RowsSpell(obj, slots[1..], style, depth);
      NotLastRow(nl, indent, text, rest, bracket);
    }
  }

  lemma LastRow(nl: string, indent: string, text: string, margin: string, close: string)
    ensures nl + (indent + text + "" + nl + "") + (margin + close) == ((nl + indent + text) + (nl + margin)) + close
  {
  }

  lemma NotLastRow(nl: string, indent: string, text: string, rest: string, bracket: string)
    ensures nl + (indent + text + "," + nl + rest) + bracket == (nl + indent + text) + "" + ("," + (nl + rest + bracket))
  {
  }

  lemma {:induction false} RowSpells(obj: bool, slot: Slot, style: Style, depth: nat, last: bool)
    requires CleanSlot(obj, slot)
    ensures SpellRow(RowLayout(obj, slot, style, depth, last))
         == (Newline(style) + Indent(style, Deeper(depth)) + PrintSlot(obj, slot, style, Deeper(depth))) + if last then Newline(style) + Indent(style, depth) else ""
    decreases slot
  {
    hide Print, Layout, Spell, Newline, Indent, Margin, Break, PrintText, LettersOf, Clean, Next, Deeper;
    LayoutPrinted(style, depth);
    LayoutPrinted(style, Deeper(depth));
    LevelsAgree(depth);
    PrintSpells(slot.value, style, Deeper(depth));
    var line, after := Newline(style) + Indent(style, Deeper(depth)), if last then Newline(style) + Indent(style, depth) else "";
    var value := Print(slot.value, style, Deeper(depth));
    if obj {
      QuotedPrinted(slot.key);
      MemberText(line, PrintText(slot.key), if style.Pretty? then " " else "", value, after);
    } else {
      ElementText(line, value, after);
    }
  }

  lemma LevelsAgree(depth: nat)
    ensures Deeper(depth) == Next(depth)
  {
  }

  lemma QuotedPrinted(text: string)
    ensures PrintText(text) == SpellName(QuotedName('"', LettersOf(text)))
  {
    TextPrinted(text);
  }

  lemma MemberText(line: string, key: string, space: string, value: string, after: string)
    ensures (line + (key + ("" + ":"))) + (space + (value + after)) == (line + (key + (":" + space) + value)) + after
  {
  }

  lemma ElementText(line: string, value: string, after: string)
    ensures "" + (line + (value + after)) == (line + ("" + value)) + after
  {
  }

  // ----- what it stands for -----

  lemma TextMeant(text: string)
    requires NulFree(text)
    ensures QuotedValid('"', LettersOf(text)) && TextOf(LettersOf(text)) == text
  {
    forall k | 0 <= k < |text|
      ensures LetterValid('"', LetterOf(text[k])) && LetterMeaning(LetterOf(text[k])) == text[k]
    {
      assert text[k] in text;
    }
  }

  lemma DigitsAreWordChars(n: nat)
    ensures AllWordChars(Digits(n)) && AllWordChars("-" + Digits(n))
  {
  }

  lemma NumberMeant(n: nat, negative: bool, prior: Value)
    requires n <= UINT_MAX
    ensures var token := (if negative then "-" else "") + Digits(n); WordValid(token) && WordMeaning(token, prior) == if negative then Neg(n) else Pos(n)
  {
    hide ParseNumber, WordValid, WordMeaning, Digits, AllWordChars;
    var token := (if negative then "-" else "") + Digits(n);
    UIntDigits(n);
    DigitsAreWordChars(n);
    NumberSyntax.ParsesInteger(n, negative);
    assert "" + Digits(n) == Digits(n);
    WordRead(token, prior);
  }

  /** For all documents with unique keys: the layout is valid, stands for the document, and needs its depth
      and its room. */
  lemma {:induction false} LayoutMeans(v: Value, style: Style, depth: nat, copies: bool)
    requires Clean(v)
    ensures var c := Layout(v, style, depth); Valid(c) && Depth(c) == Nesting(v)
    ensures UniquelyKeyed(v) ==> var c := Layout(v, style, depth); Meaning(c, Null) == v && Cost(copies, c) == Need(copies, v)
    decreases v, 1
  {
    match v
    case Pos(n) =>
      NumberMeant(n, false, Null);
      assert "" + Digits(n) == Digits(n);
    case Neg(n) => NumberMeant(n, true, Null);
    case Str(text) => TextMeant(text);
    case Arr(slots) =>
      RowsMeant(false, slots, [], style, depth, copies);
      assert [] + slots == slots;
    case Obj(slots) =>
      RowsMeant(true, slots, [], style, depth, copies);
      assert [] + slots == slots;
    case _ =>
  }

  lemma {:induction false} RowsMeant(obj: bool, slots: seq<Slot>, done: seq<Slot>, style: Style, depth: nat, copies: bool)
    requires CleanSlots(obj, slots)
    ensures var rows := RowsLayout(obj, slots, style, depth); (forall k :: 0 <= k < |rows| ==> RowValid(obj, rows[k])) && RowsDepth(rows) == SlotsNesting(slots)
    ensures SlotsUniquelyKeyed(slots) && (obj ==> DistinctKeys(done + slots)) ==>
            var rows := RowsLayout(obj, slots, style, depth); RowsMeaning(obj, rows, done) == done + slots && RowsCost(copies, obj, rows, done) == SlotsNeed(copies, slots)
    decreases slots
  {
    hide RowLayout, RowValid, RowMeaning, RowCost, RowDepth, Clean, Nesting, Need, UniquelyKeyed, DistinctKeys, FreshKey, SlotsUniquelyKeyed, SlotUniquelyKeyed;
    if slots == [] {
      assert done + slots == done;
    } else {
      var rows := RowsLayout(obj, slots, style, depth);
      var slot := slots[0];
      assert CleanSlot(obj, slot);
      RowMeant(obj, slot, done, style, depth, |slots| == 1, copies);
      RowsMeant(obj, slots[1..], done + [slot], style, depth, copies);
      assert rows[1..] == RowsLayout(obj, slots[1..], style, depth);
      FirstKey(done, slots);
    }
  }

  predicate FreshKey(done: seq<Slot>, slot: Slot) {
    slot.Member? ==> forall k :: 0 <= k < |done| && done[k].Member? ==> done[k].key != slot.key
  }

  lemma FirstKey(done: seq<Slot>, slots: seq<Slot>)
    requires slots != []
    ensures done + [slots[0]] + slots[1..] == done + slots
    ensures DistinctKeys(done + slots) || !slots[0].Member? ==> FreshKey(done, slots[0])
    ensures SlotsUniquelyKeyed(slots) ==> SlotUniquelyKeyed(slots[0]) && SlotsUniquelyKeyed(slots[1..])
  {
    assert done + [slots[0]] + slots[1..] == done + slots;
    assert forall k :: 0 <= k < |done| ==> (done + slots)[k] == done[k];
    assert (done + slots)[|done|] == slots[0];
  }

  lemma {:induction false} RowMeant(obj: bool, slot: Slot, done: seq<Slot>, style: Style, depth: nat, last: bool, copies: bool)
    requires CleanSlot(obj, slot)
    ensures var row := RowLayout(obj, slot, style, depth, last); RowValid(obj, row) && RowDepth(row) == SlotNesting(slot)
    ensures SlotUniquelyKeyed(slot) && FreshKey(done, slot) ==>
            var row := RowLayout(obj, slot, style, depth, last); RowMeaning(obj, row, done) == done + [slot] && RowCost(copies, obj, row, done) == SlotNeed(copies, slot)
    decreases slot
  {
    hide LettersOf, TextOf, QuotedValid, Layout, Valid, Meaning, Cost, Depth, Need, Nesting, UniquelyKeyed, Clean;
    LayoutMeans(slot.value, style, Next(depth), copies);
    if obj {
      TextMeant(slot.key);
    }
  }

  // ----- what is escaped -----

  /** The control characters that have an escape of two characters. */
  predicate ShortControl(c: char) { c == 8 as char || c == '\t' || c == '\n' || c == 12 as char || c == '\r' }

  /** For all strings: in the printed text a character is replaced by an escape that stands for it if it is a
      quote, a backslash or one of those control characters; otherwise it is written as it is. */
  lemma TextEscaped(text: string)
    ensures EscapeText(text) == SpellLetters(LettersOf(text)) && |LettersOf(text)| == |text|
    ensures forall k :: 0 <= k < |text| ==> var l := LettersOf(text)[k];
            if text[k] == '"' || text[k] == '\\' || ShortControl(text[k]) then l.Escaped? && EscapeMeans(l.c, text[k]) else l == Raw(text[k])
  {
    TextPrinted(text);
  }

  predicate InBreak(t: string, k: nat)
    requires k < |t|
  {
    (t[k] == '\r' && k + 1 < |t| && t[k + 1] == '\n') || (t[k] == '\n' && k > 0 && t[k - 1] == '\r')
  }

  /** No such character but in a line break. */
  predicate Tame(t: string, style: Style) {
    forall k :: 0 <= k < |t| && ShortControl(t[k]) ==> style.Pretty? && InBreak(t, k)
  }

  lemma TameConcat(a: string, b: string, style: Style)
    requires Tame(a, style) && Tame(b, style)
    ensures Tame(a + b, style)
  {
  }

  lemma {:induction false} TextTame(text: string, style: Style)
    ensures Tame(EscapeText(text), style) && Tame(PrintText(text), style)
  {
    if text != "" {
      TextTame(text[1..], style);
      TameConcat(EscapeChar(text[0]), EscapeText(text[1..]), style);
    }
    TameConcat("\"", EscapeText(text), style);
    TameConcat("\"" + EscapeText(text), "\"", style);
  }

  lemma {:induction false} DigitsTame(n: nat, style: Style)
    ensures Tame(Digits(n), style) && Tame("-" + Digits(n), style)
  {
  }

  lemma LineTame(style: Style, depth: nat)
    ensures Tame(Newline(style), style) && Tame(Indent(style, depth), style) && Tame(Colon(style), style)
  {
    LayoutPrinted(style, depth);
  }

  /** For all documents: none of those characters is in the compact text, and in the pretty text they are
      only in line breaks. */
  lemma {:induction false} PrintTame(v: Value, style: Style, depth: nat)
    requires Clean(v)
    ensures Tame(Print(v, style, depth), style)
    decreases v, 1
  {
    match v
    case Pos(n) => DigitsTame(n, style);
    case Neg(n) => DigitsTame(n, style);
    case Str(text) => TextTame(text, style);
    case Arr(slots) => CollectionTame(false, slots, style, depth);
    case Obj(slots) => CollectionTame(true, slots, style, depth);
    case _ =>
  }

  lemma {:induction false} CollectionTame(obj: bool, slots: seq<Slot>, style: Style, depth: nat)
    requires CleanSlots(obj, slots)
    ensures Tame(PrintCollection(obj, slots, style, depth), style)
    decreases slots, 1
  {
    hide Tame, PrintRows, Newline, Indent;
    var inner := if slots == [] then "" else Newline(style) + PrintRows(obj, slots, style, Deeper(depth)) + Indent(style, depth);
    Brackets(obj, style);
    LineTame(style, depth);
    RowsTame(obj, slots, style, Deeper(depth));
    TameConcat(Newline(style), PrintRows(obj, slots, style, Deeper(depth)), style);
    TameConcat(Newline(style) + PrintRows(obj, slots, style, Deeper(depth)), Indent(style, depth), style);
    TameConcat([Open(obj)], inner, style);
    TameConcat([Open(obj)] + inner, [Close(obj)], style);
  }

  lemma Brackets(obj: bool, style: Style)
    ensures Tame([Open(obj)], style) && Tame([Close(obj)], style) && Tame("", style) && Tame(",", style)
  {
  }

  lemma {:induction false} RowsTame(obj: bool, slots: seq<Slot>, style: Style, depth: nat)
    requires CleanSlots(obj, slots)
    ensures Tame(PrintRows(obj, slots, style, depth), style)
    decreases slots, 0
  {
    hide Tame, PrintSlot, Newline, Indent;
    Brackets(obj, style);
    if slots != [] {
      var a, b := Indent(style, depth), PrintSlot(obj, slots[0], style, depth);
      var c, d, e := if |slots| > 1 then "," else "", Newline(style), PrintRows(obj, slots[1..], style, depth);
      LineTame(style, depth);
      SlotTame(obj, slots[0], style, depth);
      RowsTame(obj, slots[1..], style, depth);
      TameConcat(a, b, style);
      TameConcat(a + b, c, style);
      TameConcat(a + b + c, d, style);
      TameConcat(a + b + c + d, e, style);
    }
  }

  lemma {:induction false} SlotTame(obj: bool, slot: Slot, style: Style, depth: nat)
    requires CleanSlot(obj, slot)
    ensures Tame(PrintSlot(obj, slot, style, depth), style)
    decreases slot
  {
    hide Tame, Print, PrintText, Colon;
    Brackets(obj, style);
    LineTame(style, depth);
    PrintTame(slot.value, style, depth);
    if obj {
      TextTame(slot.key, style);
      TameConcat(PrintText(slot.key), Colon(style), style);
    }
    TameConcat(if obj then PrintText(slot.key) + Colon(style) else "", Print(slot.value, style, depth), style);
  }

  // ----- when it follows the standard -----

  /** No control character without such an escape. */
  predicate PlainText(text: string) { forall k :: 0 <= k < |text| ==> ' ' <= text[k] || ShortControl(text[k]) }

  predicate Plain(v: Value)
    decreases v
  {
    match v
    case Str(text) => PlainText(text)
    case Arr(slots) => forall k :: 0 <= k < |slots| ==> PlainSlot(slots[k])
    case Obj(slots) => forall k :: 0 <= k < |slots| ==> PlainSlot(slots[k])
    case _ => true
  }

  predicate PlainSlot(slot: Slot)
    decreases slot
  {
    (slot.Member? ==> PlainText(slot.key)) && Plain(slot.value)
  }

  lemma TextStrict(text: string)
    ensures StrictText('"', LettersOf(text)) <==> PlainText(text)
  {
    assert forall k :: 0 <= k < |text| ==> (StrictLetter(LettersOf(text)[k]) <==> ' ' <= text[k] || ShortControl(text[k]));
  }

  lemma {:induction false} NoLeadingZero(n: nat)
    ensures n > 0 ==> Digits(n)[0] != '0'
    ensures n == 0 ==> Digits(n) == "0"
  {
    if n >= 10 {
      NoLeadingZero(n / 10);
    }
  }

  lemma NumberStrict(n: nat, negative: bool)
    ensures StrictWord((if negative then "-" else "") + Digits(n))
  {
    hide StrictWord;
    var m := NumberSyntax.Numerals(if negative then "-" else "", Digits(n), false, "", "", "", "");
    NoLeadingZero(n);
    assert NumberSyntax.Spelling(m) == m.sign + Digits(n);
    SpelledStrict(m);
  }

  lemma SpelledStrict(m: NumberSyntax.Numerals)
    requires StrictNumeral(m)
    ensures StrictWord(NumberSyntax.Spelling(m))
  {
  }

  /** For all documents: the printed text is one of RFC 8259 exactly when no string or key has a control
      character without a short escape: those are written as they are. */
  lemma {:induction false} PrintStrict(v: Value, style: Style, depth: nat)
    requires Clean(v)
    ensures Strict(Layout(v, style, depth)) <==> Plain(v)
    decreases v, 1
  {
    match v
    case Pos(n) =>
      NumberStrict(n, false);
      assert "" + Digits(n) == Digits(n);
    case Neg(n) => NumberStrict(n, true);
    case Str(text) => TextStrict(text);
    case Arr(slots) => RowsStrict(false, slots, style, depth);
    case Obj(slots) => RowsStrict(true, slots, style, depth);
    case _ =>
  }

  lemma {:induction false} RowsStrict(obj: bool, slots: seq<Slot>, style: Style, depth: nat)
    requires CleanSlots(obj, slots)
    ensures var rows := RowsLayout(obj, slots, style, depth);
            forall k :: 0 <= k < |rows| ==> (StrictRow(obj, rows[k]) <==> PlainSlot(slots[k]))
    decreases slots
  {
    hide RowLayout, StrictRow, PlainSlot;
    if slots != [] {
      RowStrict(obj, slots[0], style, depth, |slots| == 1);
      RowsStrict(obj, slots[1..], style, depth);
      var rows, rest := RowsLayout(obj, slots, style, depth), RowsLayout(obj, slots[1..], style, depth);
      forall k | 0 <= k < |rows|
        ensures StrictRow(obj, rows[k]) <==> PlainSlot(slots[k])
      {
        if k > 0 {
          assert rows[k] == rest[k - 1] && slots[k] == slots[1..][k - 1];
        }
      }
    }
  }

  lemma {:induction false} RowStrict(obj: bool, slot: Slot, style: Style, depth: nat, last: bool)
    requires CleanSlot(obj, slot)
    ensures StrictRow(obj, RowLayout(obj, slot, style, depth, last)) <==> PlainSlot(slot)
    decreases slot
  {
    hide Layout, Strict, Plain, StrictText, PlainText, LettersOf;
    PrintStrict(slot.value, style, Next(depth));
    TextStrict(if obj then slot.key else "");
  }

  /** A character such as 1 stands in the text as it is. */
  lemma ControlWrittenRaw(style: Style)
    ensures Print(Str([1 as char]), style, 0) == ['"', 1 as char, '"'] && !Strict(Layout(Str([1 as char]), style, 0))
  {
    var text := [1 as char];
    PrintStrict(Str(text), style, 0);
    assert !PlainText(text) by {
      assert text[0] < ' ';
    }
    assert text[1..] == "" && EscapeText(text) == text;
  }
}
