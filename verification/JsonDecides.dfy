/** What the JSON deserializer decides of the syntax: which texts it accepts, as what value, and within
    which bounds. */
module JsonDecides {
  import opened Document
  import opened Numbers
  import NumberSyntax
  import opened JsonSyntax
  import opened JsonGrammar
  import opened Occurrence

  // ----- blanks -----

  lemma {:induction false} SkipsBlank(s: string, i: nat, t: string)
    requires Occurs(s, i, t) && Blank(t)
    ensures SkipSpaces(s, i) == SkipSpaces(s, i + |t|)
    decreases |t|
  {
    if t != "" {
      OccursAt(s, i, t, 0);
      assert t == t[..1] + t[1..];
      OccursConcat(s, i, t[..1], t[1..]);
      SkipsBlank(s, i + 1, t[1..]);
    }
  }

  /** Blanks, and then something else. */
  lemma BlankThen(s: string, i: nat, blank: string, t: string)
    requires Occurs(s, i, blank + t) && Blank(blank) && t != "" && !IsBlank(t[0])
    ensures SkipSpaces(s, i) == i + |blank| && Occurs(s, i + |blank|, t) && i + |blank| < |s| && s[i + |blank|] == t[0]
  {
    OccursConcat(s, i, blank, t);
    SkipsBlank(s, i, blank);
    OccursAt(s, i + |blank|, t, 0);
  }

  /** Where among the blanks a parse starts makes no difference. */
  lemma RowsFrom(obj: bool, s: string, i: nat, j: nat, limit: nat, mem: Memory, slots: seq<Slot>)
    requires i <= |s| && j <= |s| && SkipSpaces(s, i) == SkipSpaces(s, j) && limit > 0
    ensures var r, r' := ParseRows(obj, s, i, limit, mem, slots), ParseRows(obj, s, j, limit, mem, slots); r == r' || r.err == r'.err == NoMemory
  {
    hide SkipSpaces, ParseVariant, RowEnd, Keep, ScanKey, Find;
    var prior := RowHead(obj, s, i, mem, slots);
    VariantFrom(s, i, j, limit - 1, prior.mem, Null);
  }

  lemma VariantFrom(s: string, i: nat, j: nat, limit: nat, mem: Memory, prior: Value)
    requires i <= |s| && j <= |s| && SkipSpaces(s, i) == SkipSpaces(s, j)
    ensures ParseVariant(s, i, limit, mem, prior) == ParseVariant(s, j, limit, mem, prior)
  {
    hide SkipSpaces, ParseCollection, ParseString, ParseNumeric;
  }

  lemma SkipsOnce(s: string, i: nat)
    requires i <= |s|
    ensures SkipSpaces(s, SkipSpaces(s, i)) == SkipSpaces(s, i)
  {
  }

  // ----- words -----

  lemma WordChars(c: char)
    ensures IsWordChar(c) == IsTokenChar(c)
  {
  }

  lemma {:induction false} WordEnds(s: string, i: nat, token: string, n: nat)
    requires Occurs(s, i, token) && AllWordChars(token) && |token| <= n
    requires |token| == n || !IsWordChar(At(s, i + |token|))
    ensures TokenEnd(s, i, n) == i + |token|
    decreases |token|
  {
    if token == "" {
      WordChars(At(s, i));
    } else {
      OccursAt(s, i, token, 0);
      WordChars(token[0]);
      assert token == token[..1] + token[1..];
      OccursConcat(s, i, token[..1], token[1..]);
      WordEnds(s, i + 1, token[1..], n - 1);
    }
  }

  lemma NumericRead(token: string, r: Numeral)
    requires AllWordChars(token)
    ensures Numeric(token, r) <==> ParseNumber(token) == r && r != NotANumber
  {
    if r != NotANumber {
      NumberSyntax.ParserDecides(token, r);
    }
  }

  lemma WordRead(token: string, prior: Value)
    requires AllWordChars(token) && 0 < |token| <= WORD_MAX
    ensures WordValid(token) <==> Literal(token, prior).0 == Ok
    ensures WordValid(token) ==> Literal(token, prior) == (Ok, WordMeaning(token, prior))
  {
    hide ParseNumber, Numeric;
    NumericRead(token, ParseNumber(token));
    forall r | Numeric(token, r)
      ensures r == ParseNumber(token) && r != NotANumber
    {
      NumericRead(token, r);
    }
  }

  /** No word goes on behind it, unless it has all characters that the parser looks at. */
  predicate Ends(s: string, end: nat, c: Syntax) {
    c.Word? ==> |c.token| == WORD_MAX || !IsWordChar(At(s, end))
  }

  // ----- strings -----

  lemma Unescaped(e: char)
    ensures LetterValid('"', Escaped(e)) <==> e != 'u' && Unescape(e) != '\0'
    ensures Unescape(e) != '\0' ==> LetterMeaning(Escaped(e)) == Unescape(e) && EscapeMeans(e, Unescape(e))
  {
  }

  lemma TextStep(letters: seq<Letter>, done: string)
    requires letters != []
    ensures done + TextOf(letters) == done + [LetterMeaning(letters[0])] + TextOf(letters[1..])
  {
  }

  lemma {:induction false} LettersRead(s: string, i: nat, quote: char, letters: seq<Letter>, done: string)
    requires QuotedValid(quote, letters) && Occurs(s, i, SpellLetters(letters) + [quote])
    ensures i <= |s| && ScanQuoted(s, i, quote, done) == Scan(Ok, done + TextOf(letters), i + |SpellLetters(letters)| + 1)
    decreases |letters|
  {
    hide Unescape, LetterMeaning, LetterValid, SpellLetter;
    if letters == [] {
      OccursAt(s, i, SpellLetters(letters) + [quote], 0);
      assert done + TextOf(letters) == done;
    } else {
      var a, rest := SpellLetter(letters[0]), SpellLetters(letters[1..]);
      Threefold(a, rest, [quote]);
      OccursConcat(s, i, a, rest + [quote]);
      LetterRead(s, i, quote, letters[0], done);
      LettersRead(s, i + |a|, quote, letters[1..], done + [LetterMeaning(letters[0])]);
      TextStep(letters, done);
    }
  }

  lemma LetterRead(s: string, i: nat, quote: char, l: Letter, done: string)
    requires IsQuoteMark(quote) && LetterValid(quote, l) && Occurs(s, i, SpellLetter(l))
    ensures var n := i + |SpellLetter(l)|; n <= |s| && ScanQuoted(s, i, quote, done) == ScanQuoted(s, n, quote, done + [LetterMeaning(l)])
  {
    OccursAt(s, i, SpellLetter(l), 0);
    if l.Escaped? {
      OccursAt(s, i, SpellLetter(l), 1);
      Unescaped(l.c);
    }
  }

  lemma QuotedRead(s: string, i: nat, quote: char, letters: seq<Letter>)
    requires QuotedValid(quote, letters) && Occurs(s, i, [quote] + (SpellLetters(letters) + [quote]))
    ensures i < |s| && s[i] == quote && IsQuote(quote)
    ensures ScanQuoted(s, i + 1, quote, "") == Scan(Ok, TextOf(letters), i + |SpellLetters(letters)| + 2)
  {
    OccursConcat(s, i, [quote], SpellLetters(letters) + [quote]);
    OccursAt(s, i, [quote], 0);
    LettersRead(s, i + 1, quote, letters, "");
    assert "" + TextOf(letters) == TextOf(letters);
  }

  lemma NameRead(s: string, i: nat, name: Name)
    requires NameValid(name) && Occurs(s, i, SpellName(name)) && !IsWordChar(At(s, i + |SpellName(name)|))
    ensures i < |s| && s[i] == SpellName(name)[0] && ScanKey(s, i) == Scan(Ok, NameText(name), i + |SpellName(name)|)
  {
    OccursAt(s, i, SpellName(name), 0);
    match name
    case QuotedName(quote, letters) => QuotedRead(s, i, quote, letters);
    case BareName(token) => WordEnds(s, i, token, |s| - i);
  }

  // ----- every tree is read -----

  lemma SpellStart(c: Syntax)
    requires Valid(c)
    ensures var t := Spell(c); t != "" && !IsBlank(t[0]) && t[0] != '\0' && t[0] != ']' && t[0] != '}'
    ensures c.Word? ==> IsWordChar(Spell(c)[0])
  {
  }

  lemma {:induction false} TreeRead(s: string, i: nat, before: string, c: Syntax, limit: nat, mem: Memory, prior: Value)
    requires Valid(c) && Blank(before) && Occurs(s, i, before + Spell(c)) && Ends(s, i + |before| + |Spell(c)|, c)
    ensures i <= |s|
    ensures Decoded(ParseVariant(s, i, limit, mem, prior), Meaning(c, prior), i + |before| + |Spell(c)|, Depth(c), Cost(mem.copies, c), limit, mem)
    decreases c, 1
  {
    hide Spell, Meaning, Valid, ParseString, ParseNumeric, ParseCollection, SkipSpaces, Depth, Cost;
    var p := i + |before|;
    SpellStart(c);
    BlankThen(s, i, before, Spell(c));
    if c.Word? {
      WordTreeRead(s, p, c, mem, prior);
    } else if c.Quoted? {
      QuotedTreeRead(s, p, c, mem, prior);
    } else {
      CollectionRead(s, p, c, limit, mem, prior);
    }
  }

  lemma WordTreeRead(s: string, i: nat, c: Syntax, mem: Memory, prior: Value)
    requires Valid(c) && c.Word? && Occurs(s, i, Spell(c)) && Ends(s, i + |Spell(c)|, c)
    ensures i < |s| && IsTokenChar(s[i]) && Depth(c) == 0 && Cost(mem.copies, c) == 0
    ensures ParseNumeric(s, i, mem, prior) == Outcome(Ok, Meaning(c, prior), i + |Spell(c)|, mem)
  {
    hide Literal, WordMeaning, Meaning, Valid, WordValid, Depth, Cost, IsTokenChar, TokenEnd;
    WordTree(c, mem.copies, prior);
    OccursAt(s, i, c.token, 0);
    WordEnds(s, i, c.token, TOKEN_MAX);
    WordRead(c.token, prior);
    WordChars(s[i]);
  }

  lemma WordTree(c: Syntax, copies: bool, prior: Value)
    requires Valid(c) && c.Word?
    ensures WordValid(c.token) && AllWordChars(c.token) && 0 < |c.token| <= WORD_MAX && Spell(c) == c.token
    ensures Meaning(c, prior) == WordMeaning(c.token, prior) && Depth(c) == 0 && Cost(copies, c) == 0
  {
    hide WordMeaning, Numeric;
  }

  lemma QuotedTreeRead(s: string, i: nat, c: Syntax, mem: Memory, prior: Value)
    requires Valid(c) && c.Quoted? && Occurs(s, i, Spell(c))
    ensures i < |s| && IsQuote(s[i]) && Depth(c) == 0
    ensures Decoded(ParseString(s, i, mem, prior), Meaning(c, prior), i + |Spell(c)|, 0, Cost(mem.copies, c), 0, mem)
  {
    hide ScanQuoted, SpellLetters, TextOf, QuotedValid;
    QuotedRead(s, i, c.quote, c.letters);
  }

  lemma {:induction false} CollectionRead(s: string, i: nat, c: Syntax, limit: nat, mem: Memory, prior: Value)
    requires Valid(c) && c.Rows? && Occurs(s, i, Spell(c))
    ensures i < |s| && s[i] == Opening(c.obj)
    ensures Decoded(ParseCollection(c.obj, s, i, limit, mem), Meaning(c, prior), i + |Spell(c)|, Depth(c), Cost(mem.copies, c), limit, mem)
    decreases c, 0
  {
    hide Spell, Meaning, Valid, Depth, Cost, RowsMeaning, RowsCost, RowsDepth, SpellRows, RowValid, ParseRows, SkipSpaces, Blank;
    var obj, rows := c.obj, c.rows;
    RowsTree(c, mem.copies, prior);
    var rest := if rows == [] then c.blanks + [Closing(obj)] else SpellRows(obj, rows);
    OccursConcat(s, i, [Opening(obj)], rest);
    OccursAt(s, i, [Opening(obj)], 0);
    if limit > 0 {
      if rows == [] {
        EmptyRead(obj, s, i, c.blanks, limit, mem);
      } else {
        RowsStart(obj, s, i + 1, rows);
        SkipsOnce(s, i + 1);
        RowsFrom(obj, s, SkipSpaces(s, i + 1), i + 1, limit, mem, []);
        RowsRead(obj, s, i + 1, rows, [], limit, mem);
      }
    }
  }

  lemma RowsTree(c: Syntax, copies: bool, prior: Value)
    requires Valid(c) && c.Rows?
    ensures Spell(c) == [Opening(c.obj)] + if c.rows == [] then c.blanks + [Closing(c.obj)] else SpellRows(c.obj, c.rows)
    ensures Blank(c.blanks) && forall k :: 0 <= k < |c.rows| ==> RowValid(c.obj, c.rows[k])
    ensures Meaning(c, prior) == Wrap(c.obj, RowsMeaning(c.obj, c.rows, []))
    ensures Depth(c) == 1 + RowsDepth(c.rows) && Cost(copies, c) == RowsCost(copies, c.obj, c.rows, [])
    ensures c.rows == [] ==> RowsMeaning(c.obj, c.rows, []) == [] && RowsDepth(c.rows) == 0 && RowsCost(copies, c.obj, c.rows, []) == 0
  {
    hide Blank, SpellRows, RowValid;
  }

  lemma EmptyRead(obj: bool, s: string, i: nat, blanks: string, limit: nat, mem: Memory)
    requires i < |s| && Occurs(s, i + 1, blanks + [Closing(obj)]) && Blank(blanks) && limit > 0
    ensures ParseCollection(obj, s, i, limit, mem) == Outcome(Ok, Wrap(obj, []), i + 2 + |blanks|, mem)
  {
    hide ParseRows, SkipSpaces;
    BlankThen(s, i + 1, blanks, [Closing(obj)]);
  }

  function HeadText(row: Row): string { if row.key.Some? then SpellKey(row.key.value) else "" }

  /** What follows a row: the closing bracket, or a comma and the other rows. */
  function Tail(obj: bool, rows: seq<Row>): string
    requires rows != []
  {
    if |rows| == 1 then [Closing(obj)] else "," + SpellRows(obj, rows[1..])
  }

  lemma RowSplit(obj: bool, rows: seq<Row>)
    requires rows != []
    ensures var row := rows[0]; SpellRows(obj, rows) == HeadText(row) + (row.before + Spell(row.value) + (row.after + Tail(obj, rows)))
    ensures |SpellRow(rows[0])| == |HeadText(rows[0])| + |rows[0].before + Spell(rows[0].value)| + |rows[0].after|
  {
    hide Spell, SpellKey;
    var row := rows[0];
    Regroup(HeadText(row), row.before, Spell(row.value), row.after, Tail(obj, rows));
  }

  lemma Regroup(a: string, b: string, c: string, d: string, e: string)
    ensures (a + (b + (c + d))) + e == a + (b + c + (d + e))
  {
  }

  lemma KeySplit(key: Key, rest: string)
    ensures SpellKey(key) + rest == key.before + (SpellName(key.name) + (key.after + (":" + rest)))
  {
    var n := SpellName(key.name);
    assert (key.before + (n + (key.after + ":"))) + rest == key.before + (n + (key.after + (":" + rest)));
  }

  lemma NameStart(name: Name)
    requires NameValid(name)
    ensures var t := SpellName(name); t != "" && !IsBlank(t[0]) && t[0] != '\0' && t[0] != '}'
  {
  }

  lemma RowsStart(obj: bool, s: string, i: nat, rows: seq<Row>)
    requires rows != [] && RowValid(obj, rows[0]) && Occurs(s, i, SpellRows(obj, rows))
    ensures i <= |s| && SkipSpaces(s, i) < |s| && s[SkipSpaces(s, i)] != '\0' && s[SkipSpaces(s, i)] != Close(obj)
  {
    hide SpellRows, Spell, HeadText, SkipSpaces, Valid, NameValid, Occurs, Blank, Tail, SpellRow;
    var row := rows[0];
    RowSplit(obj, rows);
    var rest := row.before + Spell(row.value) + (row.after + Tail(obj, rows));
    if obj {
      MemberStart(s, i, row, rest);
    } else {
      ElementStart(s, i, row, row.after + Tail(obj, rows));
    }
  }

  lemma MemberStart(s: string, i: nat, row: Row, rest: string)
    requires RowValid(true, row) && Occurs(s, i, HeadText(row) + rest)
    ensures i <= |s| && SkipSpaces(s, i) < |s| && s[SkipSpaces(s, i)] != '\0' && s[SkipSpaces(s, i)] != '}'
  {
    hide SpellName, SpellKey, SkipSpaces, Valid, NameValid, Occurs;
    var key := row.key.value;
    KeySplit(key, rest);
    NameStart(key.name);
    BlankThen(s, i, key.before, SpellName(key.name) + (key.after + (":" + rest)));
  }

  lemma ElementStart(s: string, i: nat, row: Row, rest: string)
    requires RowValid(false, row) && Occurs(s, i, HeadText(row) + (row.before + Spell(row.value) + rest))
    ensures i <= |s| && SkipSpaces(s, i) < |s| && s[SkipSpaces(s, i)] != '\0' && s[SkipSpaces(s, i)] != ']'
  {
    hide Spell, SkipSpaces, Valid, Occurs;
    SpellStart(row.value);
    assert HeadText(row) + (row.before + Spell(row.value) + rest) == row.before + (Spell(row.value) + rest);
    BlankThen(s, i, row.before, Spell(row.value) + rest);
  }

  /** Where the value of a row goes: into a new slot, or into the one that has the key. */
  function Place(obj: bool, row: Row, slots: seq<Slot>): (p: (seq<Slot>, nat))
    requires row.key.Some? == obj
    ensures p.1 < |p.0|
  {
    if !obj then (slots + [Element(Null)], |slots|)
    else
      var name := NameText(row.key.value.name);
      if Find(slots, name) < |slots| then (slots, Find(slots, name)) else (slots + [Member(name, Null)], |slots|)
  }

  lemma PlaceFilled(obj: bool, row: Row, slots: seq<Slot>)
    requires RowValid(obj, row)
    ensures var p := Place(obj, row, slots); SetValue(p.0, p.1, Meaning(row.value, p.0[p.1].value)) == RowMeaning(obj, row, slots)
  {
    hide Meaning, Valid;
  }

  lemma HeadRead(obj: bool, s: string, i: nat, row: Row, rest: string, mem: Memory, slots: seq<Slot>)
    requires RowValid(obj, row) && Occurs(s, i, HeadText(row) + rest)
    ensures i + |HeadText(row)| <= |s| && Occurs(s, i + |HeadText(row)|, rest)
    ensures var h, need, p := RowHead(obj, s, i, mem, slots), RowHeadCost(mem.copies, obj, row, slots), Place(obj, row, slots);
            if need <= mem.room then h == Head(Ok, p.0, p.1, i + |HeadText(row)|, mem.Take(need)) else h.err == NoMemory
  {
    hide Spell, Valid, NameValid, SpellName, NameText, SkipSpaces, ScanKey, Find, SpellKey;
    OccursConcat(s, i, HeadText(row), rest);
    if obj {
      KeyRead(s, i, row.key.value, rest);
    }
  }

  lemma KeyRead(s: string, i: nat, key: Key, rest: string)
    requires Blank(key.before) && NameValid(key.name) && Blank(key.after) && Occurs(s, i, SpellKey(key) + rest)
    ensures var j := SkipSpaces(s, i);
            && At(s, j) != '\0' && ScanKey(s, j) == Scan(Ok, NameText(key.name), j + |SpellName(key.name)|)
            && SkipSpaces(s, j + |SpellName(key.name)|) + 1 == i + |SpellKey(key)| <= |s|
            && At(s, i + |SpellKey(key)| - 1) == ':'
  {
    hide SpellName, NameText, NameValid, SkipSpaces, ScanKey;
    var n := SpellName(key.name);
    KeySplit(key, rest);
    NameStart(key.name);
    var behind := key.after + (":" + rest);
    BlankThen(s, i, key.before, n + behind);
    var e := i + |key.before| + |n|;
    OccursConcat(s, i + |key.before|, n, behind);
    OccursAt(s, e, behind, 0);
    NameRead(s, i + |key.before|, key.name);
    BlankThen(s, e, key.after, ":" + rest);
  }

  lemma {:induction false} RowsRead(obj: bool, s: string, i: nat, rows: seq<Row>, slots: seq<Slot>, limit: nat, mem: Memory)
    requires rows != [] && (forall k :: 0 <= k < |rows| ==> RowValid(obj, rows[k])) && limit > 0 && Occurs(s, i, SpellRows(obj, rows))
    ensures i <= |s|
    ensures Decoded(ParseRows(obj, s, i, limit, mem, slots), Wrap(obj, RowsMeaning(obj, rows, slots)), i + |SpellRows(obj, rows)|,
                    RowsDepth(rows), RowsCost(mem.copies, obj, rows, slots), limit - 1, mem)
    decreases rows
  {
    hide SpellRow, RowValid, RowHead, ParseVariant, RowEnd, RowMeaning, RowCost, RowDepth, Place, Occurs;
    var row, rest := rows[0], rows[1..];
    var cost, depth := RowCost(mem.copies, obj, row, slots), RowDepth(row);
    RowRead(obj, s, i, rows, slots, limit, mem);
    if depth <= limit - 1 && cost <= mem.room {
      if rest != [] {
        RowsRead(obj, s, i + |SpellRow(row)| + 1, rest, RowMeaning(obj, row, slots), limit, mem.Take(cost));
      }
    }
  }

  /** What comes of the rows once the first one is read up to its value: that depends on what follows. */
  function AfterValue(obj: bool, s: string, i: nat, limit: nat, mem: Memory, slots: seq<Slot>): Outcome
    requires i <= |s| && limit > 0
  {
    var end := RowEnd(obj, s, i);
    if end.More? then ParseRows(obj, s, end.pos, limit, mem, slots) else Outcome(end.err, Wrap(obj, slots), end.pos, mem)
  }

  /** One row up to its value; or the limit or the room is too small for it. */
  lemma {:induction false} ValueRead(obj: bool, s: string, i: nat, row: Row, slots: seq<Slot>, limit: nat, mem: Memory)
    requires RowValid(obj, row) && limit > 0 && Occurs(s, i, HeadText(row) + (row.before + Spell(row.value)))
    requires Ends(s, i + |HeadText(row)| + |row.before + Spell(row.value)|, row.value)
    ensures i + |HeadText(row)| + |row.before + Spell(row.value)| <= |s|
    ensures var r := ParseRows(obj, s, i, limit, mem, slots);
            var end, cost, more := i + |HeadText(row)| + |row.before + Spell(row.value)|, RowCost(mem.copies, obj, row, slots), RowMeaning(obj, row, slots);
            if RowDepth(row) <= limit - 1 && cost <= mem.room then r == AfterValue(obj, s, end, limit, mem.Take(cost), more)
            else (r.err == TooDeep && RowDepth(row) > limit - 1) || (r.err == NoMemory && cost > mem.room)
    decreases row
  {
    hide SpellRows, Spell, HeadText, Valid, RowHead, ParseVariant, RowEnd, Meaning, Cost, Depth, Place, RowHeadCost, RowMeaning, Find, Occurs, IsBlank, Ends;
    var place, need := Place(obj, row, slots), RowHeadCost(mem.copies, obj, row, slots);
    OccursConcat(s, i, HeadText(row), row.before + Spell(row.value));
    HeadRead(obj, s, i, row, row.before + Spell(row.value), mem, slots);
    PlaceFilled(obj, row, slots);
    if need <= mem.room {
      TreeRead(s, i + |HeadText(row)|, row.before, row.value, limit - 1, mem.Take(need), place.0[place.1].value);
    }
  }

  /** One row, and then the others or the end; or the limit or the room is too small for it. */
  lemma {:induction false} RowRead(obj: bool, s: string, i: nat, rows: seq<Row>, slots: seq<Slot>, limit: nat, mem: Memory)
    requires rows != [] && RowValid(obj, rows[0]) && limit > 0 && Occurs(s, i, SpellRows(obj, rows))
    ensures i + |SpellRow(rows[0])| < |s|
    ensures |rows| > 1 ==> Occurs(s, i + |SpellRow(rows[0])| + 1, SpellRows(obj, rows[1..]))
    ensures var r, row := ParseRows(obj, s, i, limit, mem, slots), rows[0];
            var end, cost, more := i + |SpellRow(row)| + 1, RowCost(mem.copies, obj, row, slots), RowMeaning(obj, row, slots);
            if RowDepth(row) <= limit - 1 && cost <= mem.room then
              r == if |rows| > 1 then ParseRows(obj, s, end, limit, mem.Take(cost), more) else Outcome(Ok, Wrap(obj, more), end, mem.Take(cost))
            else (r.err == TooDeep && RowDepth(row) > limit - 1) || (r.err == NoMemory && cost > mem.room)
    decreases rows, 0
  {
    hide SpellRows, SpellRow, Spell, HeadText, Valid, RowEnd, ParseRows, RowMeaning, RowCost, RowDepth, Occurs, Tail, Blank;
    var row := rows[0];
    var after := row.after + Tail(obj, rows);
    RowSplit(obj, rows);
    var value := HeadText(row) + (row.before + Spell(row.value));
    assert HeadText(row) + (row.before + Spell(row.value) + after) == value + after;
    OccursConcat(s, i, value, after);
    RowEnds(obj, s, i + |value|, row, rows);
    ValueRead(obj, s, i, row, slots, limit, mem);
  }

  lemma RowEnds(obj: bool, s: string, i: nat, row: Row, rows: seq<Row>)
    requires rows != [] && Blank(row.after) && Occurs(s, i, row.after + Tail(obj, rows))
    ensures i < |s| && !IsWordChar(s[i]) && i + |row.after| < |s|
    ensures RowEnd(obj, s, i) == if |rows| == 1 then Stop(Ok, i + |row.after| + 1) else More(i + |row.after| + 1)
    ensures |rows| > 1 ==> Occurs(s, i + |row.after| + 1, SpellRows(obj, rows[1..]))
  {
    hide SkipSpaces, Tail, Blank, IsBlank, IsWordChar;
    var tail := Tail(obj, rows);
    TailStarts(obj, rows);
    BlankThen(s, i, row.after, tail);
    OccursAt(s, i, row.after + tail, 0);
    NoWordStarts(row.after, tail);
    if |rows| > 1 {
      OccursConcat(s, i + |row.after|, ",", SpellRows(obj, rows[1..]));
    }
  }

  lemma TailStarts(obj: bool, rows: seq<Row>)
    requires rows != []
    ensures var tail := Tail(obj, rows); tail != "" && tail[0] == (if |rows| == 1 then Closing(obj) else ',') && !IsBlank(tail[0]) && !IsWordChar(tail[0])
    ensures |rows| > 1 ==> Tail(obj, rows) == "," + SpellRows(obj, rows[1..])
  {
    hide SpellRows;
  }

  lemma NoWordStarts(blank: string, t: string)
    requires Blank(blank) && t != "" && !IsWordChar(t[0])
    ensures !IsWordChar((blank + t)[0])
  {
  }

  // ----- what is read has a tree -----

  lemma Spliced(s: string, i: nat, j: nat, k: nat)
    requires i <= j <= k <= |s|
    ensures s[i..k] == s[i..j] + s[j..k]
  {
  }

  lemma {:induction false} BlanksFound(s: string, i: nat)
    requires i <= |s|
    ensures Blank(s[i..SkipSpaces(s, i)])
    decreases |s| - i
  {
    if IsSpace(At(s, i)) {
      BlanksFound(s, i + 1);
      Spliced(s, i, i + 1, SkipSpaces(s, i));
    }
  }

  lemma {:induction false} WordFound(s: string, i: nat, n: nat)
    requires i <= |s|
    ensures var j := TokenEnd(s, i, n); AllWordChars(s[i..j]) && (j == i + n || !IsWordChar(At(s, j)))
    decreases n
  {
    WordChars(At(s, i));
    if n > 0 && IsTokenChar(At(s, i)) {
      WordFound(s, i + 1, n - 1);
      Spliced(s, i, i + 1, TokenEnd(s, i, n));
    }
  }

  lemma {:induction false} LettersFound(s: string, i: nat, quote: char, done: string) returns (letters: seq<Letter>)
    requires i <= |s| && IsQuoteMark(quote) && ScanQuoted(s, i, quote, done).err == Ok
    ensures var r := ScanQuoted(s, i, quote, done);
            QuotedValid(quote, letters) && r.text == done + TextOf(letters) && s[i..r.pos] == SpellLetters(letters) + [quote]
    decreases |s| - i
  {
    var c, end := At(s, i), ScanQuoted(s, i, quote, done).pos;
    if c == quote {
      letters := [];
      assert done + TextOf([]) == done;
    } else {
      var l, n := if c == '\\' then Escaped(s[i + 1]) else Raw(c), if c == '\\' then 2 else 1;
      if c == '\\' {
        Unescaped(l.c);
      }
      var rest := LettersFound(s, i + n, quote, done + [LetterMeaning(l)]);
      letters := [l] + rest;
      assert letters[1..] == rest;
      TextStep(letters, done);
      Spliced(s, i, i + n, end);
      assert s[i..i + n] == SpellLetter(l);
    }
  }

  lemma QuotedFound(s: string, i: nat) returns (letters: seq<Letter>)
    requires i < |s| && IsQuote(s[i]) && ScanQuoted(s, i + 1, s[i], "").err == Ok
    ensures var r := ScanQuoted(s, i + 1, s[i], "");
            QuotedValid(s[i], letters) && r.text == TextOf(letters) && s[i..r.pos] == [s[i]] + (SpellLetters(letters) + [s[i]])
  {
    letters := LettersFound(s, i + 1, s[i], "");
    assert "" + TextOf(letters) == TextOf(letters);
    Spliced(s, i, i + 1, ScanQuoted(s, i + 1, s[i], "").pos);
    assert s[i..i + 1] == [s[i]];
  }

  lemma NameFound(s: string, i: nat) returns (name: Name)
    requires i <= |s| && ScanKey(s, i).err == Ok
    ensures var r := ScanKey(s, i); NameValid(name) && NameText(name) == r.text && s[i..r.pos] == SpellName(name)
  {
    if IsQuote(At(s, i)) {
      var letters := QuotedFound(s, i);
      name := QuotedName(s[i], letters);
    } else {
      WordFound(s, i, |s| - i);
      name := BareName(s[i..ScanKey(s, i).pos]);
    }
  }

  lemma KeyFound(s: string, i: nat, mem: Memory, slots: seq<Slot>) returns (key: Key)
    requires i <= |s| && MemberHead(s, i, mem, slots).err == Ok
    ensures var h := MemberHead(s, i, mem, slots);
            && Blank(key.before) && NameValid(key.name) && Blank(key.after) && s[i..h.pos] == SpellKey(key)
            && (h.slots, h.k) == Place(true, Row(Some(key), "", Word(""), ""), slots)
  {
    hide SkipSpaces, ScanKey, SpellName, NameValid, NameText, Find;
    var h := MemberHead(s, i, mem, slots);
    var j := SkipSpaces(s, i);
    var end := ScanKey(s, j).pos;
    var colon := SkipSpaces(s, end);
    var name := NameFound(s, j);
    BlanksFound(s, i);
    BlanksFound(s, end);
    key := Key(s[i..j], name, s[end..colon]);
    Spliced(s, i, j, h.pos);
    Spliced(s, j, end, h.pos);
    Spliced(s, end, colon, h.pos);
    assert s[colon..colon + 1] == ":";
  }

  lemma HeadFound(obj: bool, s: string, i: nat, mem: Memory, slots: seq<Slot>) returns (key: Option<Key>)
    requires i <= |s| && RowHead(obj, s, i, mem, slots).err == Ok
    ensures var h := RowHead(obj, s, i, mem, slots);
            && key.Some? == obj && s[i..h.pos] == (if obj then SpellKey(key.value) else "")
            && (obj ==> Blank(key.value.before) && NameValid(key.value.name) && Blank(key.value.after))
            && (h.slots, h.k) == Place(obj, Row(key, "", Word(""), ""), slots)
  {
    hide MemberHead, SpellKey, NameValid, Find, NameText;
    key := None;
    if obj {
      var k := KeyFound(s, i, mem, slots);
      key := Some(k);
    } else {
      assert s[i..i] == "";
    }
  }

  lemma {:induction false} TreeFound(s: string, i: nat, limit: nat, mem: Memory, prior: Value) returns (before: string, c: Syntax)
    requires i <= |s| && ParseVariant(s, i, limit, mem, prior).err == Ok
    ensures var r := ParseVariant(s, i, limit, mem, prior);
            Blank(before) && Valid(c) && Meaning(c, prior) == r.value && i <= r.pos && s[i..r.pos] == before + Spell(c) && Ends(s, r.pos, c)
    decreases limit, 2, 0
  {
    hide SkipSpaces, ScanQuoted, Literal, ParseCollection, Numeric, WordMeaning;
    var j, end := SkipSpaces(s, i), ParseVariant(s, i, limit, mem, prior).pos;
    BlanksFound(s, i);
    before := s[i..j];
    if At(s, j) == '[' || At(s, j) == '{' {
      c := CollectionFound(At(s, j) == '{', s, j, limit, mem);
    } else if IsQuote(At(s, j)) {
      var letters := QuotedFound(s, j);
      c := Quoted(s[j], letters);
    } else {
      WordFound(s, j, TOKEN_MAX);
      c := Word(s[j..end]);
      WordIsThere(s, j, end, prior);
      WordRead(s[j..end], prior);
    }
    Spliced(s, i, j, end);
  }

  lemma WordIsThere(s: string, j: nat, end: nat, prior: Value)
    requires j <= end <= |s| && Literal(s[j..end], prior).0 == Ok
    ensures j < end
  {
    assert j == end ==> s[j..end] == "" && ParseNumber("") == NotANumber;
  }

  lemma {:induction false} CollectionFound(obj: bool, s: string, i: nat, limit: nat, mem: Memory) returns (c: Syntax)
    requires i < |s| && s[i] == Opening(obj) && ParseCollection(obj, s, i, limit, mem).err == Ok
    ensures var r := ParseCollection(obj, s, i, limit, mem);
            c.Rows? && Valid(c) && (forall prior :: Meaning(c, prior) == r.value) && s[i..r.pos] == Spell(c)
    decreases limit, 1, 0
  {
    hide SkipSpaces, ParseRows;
    var j, end := SkipSpaces(s, i + 1), ParseCollection(obj, s, i, limit, mem).pos;
    assert s[i..i + 1] == [Opening(obj)];
    Spliced(s, i, i + 1, end);
    if At(s, j) == Close(obj) {
      BlanksFound(s, i + 1);
      c := Rows(obj, [], s[i + 1..j]);
      Spliced(s, i + 1, j, end);
      assert s[j..end] == [Closing(obj)];
    } else {
      SkipsOnce(s, i + 1);
      RowsFrom(obj, s, j, i + 1, limit, mem, []);
      var rows := RowsFound(obj, s, i + 1, limit, mem, []);
      c := Rows(obj, rows, "");
    }
  }

  /** The first row, where it ends, and the room that is left. */
  lemma {:induction false} RowFound(obj: bool, s: string, i: nat, limit: nat, mem: Memory, slots: seq<Slot>) returns (row: Row, p: nat, left: Memory)
    requires i <= |s| && limit > 0 && ParseRows(obj, s, i, limit, mem, slots).err == Ok
    ensures RowValid(obj, row) && i <= p < |s| && s[i..p] == SpellRow(row)
    ensures var r, more := ParseRows(obj, s, i, limit, mem, slots), RowMeaning(obj, row, slots);
            if s[p] == Close(obj) then r == Outcome(Ok, Wrap(obj, more), p + 1, left)
            else s[p] == ',' && r == ParseRows(obj, s, p + 1, limit, left, more)
    decreases limit, 0, |s| - i, 0
  {
    hide RowHead, ParseVariant, Valid, Meaning, Spell, RowMeaning, SkipSpaces, Place, SpellRow, SpellKey, NameValid, Blank, Ends;
    var h := RowHead(obj, s, i, mem, slots);
    var prior := h.slots[h.k].value;
    var key := HeadFound(obj, s, i, mem, slots);
    var r := ParseVariant(s, h.pos, limit - 1, h.mem, prior);
    var before, value := TreeFound(s, h.pos, limit - 1, h.mem, prior);
    p, left := SkipSpaces(s, r.pos), r.mem;
    BlanksFound(s, r.pos);
    row := Row(key, before, value, s[r.pos..p]);
    PlaceIsThere(obj, row, slots);
    PlaceFilled(obj, row, slots);
    RowIsThere(s, i, h.pos, r.pos, p, row);
  }

  lemma {:induction false} RowsFound(obj: bool, s: string, i: nat, limit: nat, mem: Memory, slots: seq<Slot>) returns (rows: seq<Row>)
    requires i <= |s| && limit > 0 && ParseRows(obj, s, i, limit, mem, slots).err == Ok
    ensures var r := ParseRows(obj, s, i, limit, mem, slots);
            && rows != [] && (forall k :: 0 <= k < |rows| ==> RowValid(obj, rows[k]))
            && r.value == Wrap(obj, RowsMeaning(obj, rows, slots)) && s[i..r.pos] == SpellRows(obj, rows)
    decreases limit, 0, |s| - i, 1
  {
    hide ParseRows, RowMeaning, SpellRow, RowValid;
    var end := ParseRows(obj, s, i, limit, mem, slots).pos;
    var row, p, left := RowFound(obj, s, i, limit, mem, slots);
    if s[p] == Close(obj) {
      rows := [row];
    } else {
      var rest := RowsFound(obj, s, p + 1, limit, left, RowMeaning(obj, row, slots));
      rows := [row] + rest;
      assert rows[1..] == rest;
    }
    Spliced(s, i, p, end);
    Spliced(s, p, p + 1, end);
  }

  lemma PlaceIsThere(obj: bool, row: Row, slots: seq<Slot>)
    requires row.key.Some? == obj
    ensures Place(obj, row, slots) == Place(obj, Row(row.key, "", Word(""), ""), slots)
  {
  }

  lemma RowIsThere(s: string, i: nat, h: nat, v: nat, j: nat, row: Row)
    requires i <= h <= v <= j <= |s| && s[i..h] == HeadText(row) && s[h..v] == row.before + Spell(row.value) && s[v..j] == row.after
    ensures s[i..j] == SpellRow(row)
  {
    hide Spell, SpellKey;
    Spliced(s, i, h, j);
    Spliced(s, h, v, j);
    Threefold(row.before, Spell(row.value), row.after);
  }

  lemma Threefold(a: string, b: string, c: string)
    ensures a + b + c == a + (b + c)
  {
  }

  // ----- the texts that are accepted -----

  /** What may come behind the text: anything but for a word, which must end; and behind a number there
      must be nothing, or a NUL. */
  ghost predicate MayFollow(c: Syntax, after: string)
    requires Valid(c)
  {
    c.Word? && after != "" ==> if IsNumber(Meaning(c, Null)) then after[0] == '\0' else !IsWordChar(after[0])
  }

  ghost predicate IsText(s: string, before: string, c: Syntax, after: string) {
    s == before + Spell(c) + after && Blank(before) && Valid(c) && MayFollow(c, after)
  }

  lemma WordMeans(token: string, prior: Value)
    requires WordValid(token)
    ensures IsNumber(WordMeaning(token, prior)) || |token| < WORD_MAX
  {
  }

  lemma NoNumber(c: Syntax)
    requires Valid(c) && !c.Word?
    ensures !IsNumber(Meaning(c, Null))
  {
  }

  /** For all texts: the deserializer reads the value, unless it is too deep or has no room. */
  lemma TextRead(s: string, before: string, c: Syntax, after: string, limit: nat, mem: Memory)
    requires IsText(s, before, c, after)
    ensures Decoded(Deserialize(s, limit, mem), Meaning(c, Null), |before| + |Spell(c)|, Depth(c), Cost(mem.copies, c), limit, mem)
  {
    hide Spell, Valid, Meaning, ParseVariant, Occurs, Depth, Cost;
    var t := before + Spell(c);
    assert s[0..0 + |t|] == t;
    assert Occurs(s, 0, t) by { OccursHere(s, t); }
    assert At(s, |t|) == if after == "" then '\0' else after[0];
    if !c.Word? {
      NoNumber(c);
    }
    TreeRead(s, 0, before, c, limit, mem, Null);
  }

  lemma OccursHere(s: string, t: string)
    requires |t| <= |s| && s[0..|t|] == t
    ensures Occurs(s, 0, t)
  {
  }

  /** For all inputs: the deserializer reads a value exactly when the input is a text of it that is not too
      deep and fits in the pool. */
  lemma DeserializeDecides(s: string, limit: nat, mem: Memory, v: Value, end: nat)
    ensures var r := Deserialize(s, limit, mem);
            r.err == Ok && r.value == v && r.pos == end <==>
            exists before, c, after :: IsText(s, before, c, after) && |before + Spell(c)| == end && Meaning(c, Null) == v && Depth(c) <= limit && Cost(mem.copies, c) <= mem.room
  {
    hide Spell, Valid, Meaning, Deserialize, MayFollow, Depth, Cost;
    var r := Deserialize(s, limit, mem);
    if r.err == Ok {
      var before, c, after := TextFound(s, limit, mem);
      TextRead(s, before, c, after, limit, mem);
    }
    if before, c, after :| IsText(s, before, c, after) && |before + Spell(c)| == end && Meaning(c, Null) == v && Depth(c) <= limit && Cost(mem.copies, c) <= mem.room {
      TextRead(s, before, c, after, limit, mem);
    }
  }

  lemma TextFound(s: string, limit: nat, mem: Memory) returns (before: string, c: Syntax, after: string)
    requires Deserialize(s, limit, mem).err == Ok
    ensures IsText(s, before, c, after)
  {
    hide Spell, Valid, ParseVariant, Depth, Cost, WordMeaning, Blank;
    var r := ParseVariant(s, 0, limit, mem, Null);
    before, c := TreeFound(s, 0, limit, mem, Null);
    after := s[r.pos..];
    Spliced(s, 0, r.pos, |s|);
    assert s == s[0..|s|];
    if c.Word? {
      ValidWord(c);
      WordMeans(c.token, Null);
    }
  }

  lemma ValidWord(c: Syntax)
    requires Valid(c) && c.Word?
    ensures WordValid(c.token)
  {
  }

  // ----- the standard -----

  lemma StrictWordFits(token: string)
    requires StrictWord(token) && |token| <= WORD_MAX
    ensures WordValid(token)
  {
    hide ParseNumber, Numeric, NumberSyntax.Spelling;
    if token != "true" && token != "false" && token != "null" {
      var n :| StrictNumeral(n) && token == NumberSyntax.Spelling(n);
      NumeralChars(n);
      NumberSyntax.NumeralIsNumber(n);
      NumericRead(token, ParseNumber(token));
    }
  }

  lemma NumeralChars(n: NumberSyntax.Numerals)
    requires StrictNumeral(n)
    ensures var t := NumberSyntax.Spelling(n); AllWordChars(t) && t != "" && t[0] !in ['t', 'n', 'f']
  {
    var point := if n.point then "." + n.fraction else "";
    assert AllWordChars(n.sign) && AllWordChars(n.whole) && AllWordChars(point) && AllWordChars(n.mark) && AllWordChars(n.expSign) && AllWordChars(n.exponent);
    WordsTogether(n.expSign, n.exponent);
    WordsTogether(n.mark, n.expSign + n.exponent);
    WordsTogether(point, n.mark + (n.expSign + n.exponent));
    WordsTogether(n.whole, point + (n.mark + (n.expSign + n.exponent)));
    WordsTogether(n.sign, n.whole + (point + (n.mark + (n.expSign + n.exponent))));
    assert NumberSyntax.Spelling(n)[0] == if n.sign != "" then n.sign[0] else n.whole[0];
  }

  lemma WordsTogether(a: string, b: string)
    requires AllWordChars(a) && AllWordChars(b)
    ensures AllWordChars(a + b)
  {
  }

  /** For all texts of RFC 8259: if its numbers have at most 63 characters, and it has no escapes of four
      hexadecimal digits, it is a text the deserializer accepts. */
  lemma {:induction false} StrictIsValid(c: Syntax)
    requires Strict(c) && WordsFit(c)
    ensures Valid(c)
    decreases c
  {
    match c
    case Word(token) => StrictWordFits(token);
    case Quoted(quote, letters) => StrictLetters(letters);
    case Rows(obj, rows, blanks) =>
      forall k | 0 <= k < |rows|
        ensures RowValid(obj, rows[k])
      {
        assert StrictRow(obj, rows[k]) && RowFits(rows[k]);
        StrictIsValid(rows[k].value);
        if obj {
          StrictLetters(rows[k].key.value.name.letters);
        }
      }
  }

  lemma StrictLetters(letters: seq<Letter>)
    requires StrictText('"', letters)
    ensures QuotedValid('"', letters)
  {
  }

  // ----- what is accepted besides -----

  /** Any word of four characters that starts with t is true; f and five make false, n and four null. */
  lemma WordsByLetter(token: string, limit: nat, mem: Memory)
    requires AllWordChars(token) && 0 < |token| <= WORD_MAX && token[0] in ['t', 'f', 'n']
    ensures var r, v := Deserialize(token, limit, mem), if token[0] == 't' then Bool(true) else if token[0] == 'f' then Bool(false) else Null;
            if |token| == (if token[0] == 'f' then 5 else 4) then r == Outcome(Ok, v, |token|, mem) else r.err == IncompleteInput
  {
    hide ParseNumber;
    assert token[0..0 + |token|] == token;
    WordEnds(token, 0, token, TOKEN_MAX);
    WordChars(token[0]);
    assert SkipSpaces(token, 0) == 0;
  }

  /** For all members: a null does not replace the value of a key that is repeated. */
  lemma NullKeepsValue(row: Row, slots: seq<Slot>)
    requires RowValid(true, row) && row.value == Word("null")
    ensures var name := NameText(row.key.value.name);
            RowMeaning(true, row, slots) == if Find(slots, name) < |slots| then slots else slots + [Member(name, Null)]
  {
    hide Find, NameText;
  }
}
