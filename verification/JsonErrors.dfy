/** Why the JSON deserializer refuses the other inputs: what a text that is cut off ends with, and where
    each error points to. */
module JsonErrors {
  import opened Document
  import opened Numbers
  import NumberSyntax
  import opened JsonSyntax
  import opened JsonGrammar
  import opened JsonDecides
  import opened Occurrence

  // ----- texts that are cut off -----

  lemma BeginsAt(s: string, i: nat, t: string)
    requires Begins(s, i, t) && i < |s|
    ensures t != "" && s[i] == t[0]
  {
    assert s[i..][0] == t[..|s| - i][0];
  }

  lemma {:induction false} BlanksCut(s: string, i: nat, blank: string)
    requires Begins(s, i, blank) && Blank(blank)
    ensures SkipSpaces(s, i) == |s|
    decreases |blank|
  {
    if i < |s| {
      BeginsAt(s, i, blank);
      assert s[i + 1..] == s[i..][1..] && blank[..|s| - i][1..] == blank[1..][..|s| - i - 1];
      BlanksCut(s, i + 1, blank[1..]);
    }
  }

  /** The cut is among the blanks, or right behind them, or in what comes then. */
  lemma BlankThenCut(s: string, i: nat, blank: string, t: string)
    requires Begins(s, i, blank + t) && Blank(blank) && t != "" && !IsBlank(t[0])
    ensures var j := SkipSpaces(s, i); if |s| <= i + |blank| then j == |s| else j == i + |blank| && Begins(s, j, t) && s[j] == t[0]
  {
    BeginsConcat(s, i, blank, t);
    if |s| - i < |blank| {
      BlanksCut(s, i, blank);
    } else {
      SkipsBlank(s, i, blank);
      if i + |blank| < |s| {
        BeginsAt(s, i + |blank|, t);
      }
    }
  }

  lemma {:induction false} LettersCut(s: string, i: nat, quote: char, letters: seq<Letter>, done: string)
    requires QuotedValid(quote, letters) && Begins(s, i, SpellLetters(letters) + [quote])
    ensures ScanQuoted(s, i, quote, done).err == IncompleteInput
    decreases |letters|
  {
    if i < |s| {
      BeginsAt(s, i, SpellLetters(letters) + [quote]);
      var a, rest := SpellLetter(letters[0]), SpellLetters(letters[1..]);
      assert SpellLetters(letters) + [quote] == a + (rest + [quote]);
      BeginsConcat(s, i, a, rest + [quote]);
      if i + |a| <= |s| {
        LetterRead(s, i, quote, letters[0], done);
        LettersCut(s, i + |a|, quote, letters[1..], done + [LetterMeaning(letters[0])]);
      }
    }
  }

  lemma QuotedCut(s: string, i: nat, quote: char, letters: seq<Letter>)
    requires QuotedValid(quote, letters) && i < |s| && Begins(s, i, [quote] + (SpellLetters(letters) + [quote]))
    ensures s[i] == quote && IsQuote(quote) && ScanQuoted(s, i + 1, quote, "").err == IncompleteInput
  {
    BeginsAt(s, i, [quote] + (SpellLetters(letters) + [quote]));
    BeginsConcat(s, i, [quote], SpellLetters(letters) + [quote]);
    LettersCut(s, i + 1, quote, letters, "");
  }

  lemma WordPrefix(token: string, k: nat)
    requires AllWordChars(token) && k <= |token|
    ensures AllWordChars(token[..k]) && NulFree(token)
  {
  }

  /** The end of a word that is cut off is the end of the input. */
  lemma WordCut(s: string, i: nat, token: string, n: nat)
    requires AllWordChars(token) && Begins(s, i, token) && |s| - i <= n
    ensures TokenEnd(s, i, n) == |s| && s[i..] == token[..|s| - i]
  {
    WordPrefix(token, |s| - i);
    assert s[i..i + (|s| - i)] == s[i..];
    WordEnds(s, i, token[..|s| - i], n);
  }

  predicate IsSign(c: char) { c == '-' || c == '+' }

  /** The first n characters of the tree end in a sign that starts a number. */
  predicate SignCut(c: Syntax, n: int)
    decreases c
  {
    match c
    case Word(token) => n == 1 && token != "" && IsSign(token[0])
    case Quoted(_, _) => false
    case Rows(obj, rows, _) => RowsSignCut(obj, rows, n - 1)
  }

  predicate RowsSignCut(obj: bool, rows: seq<Row>, n: int)
    decreases rows
  {
    rows != [] &&
    if n <= |SpellRow(rows[0])| then RowSignCut(rows[0], n) else RowsSignCut(obj, rows[1..], n - |SpellRow(rows[0])| - 1)
  }

  predicate RowSignCut(row: Row, n: int)
    decreases row
  {
    var k := n - |HeadText(row)| - |row.before|;
    k < |Spell(row.value)| && SignCut(row.value, k)
  }

  /** How the parse of a tree ends when only n characters of it are left: a number may be enough. */
  ghost predicate CutOff(err: Error, c: Syntax, n: int)
    requires Valid(c)
  {
    err == if SignCut(c, n) then InvalidInput else if n > 0 && c.Word? && IsNumber(Meaning(c, Null)) then Ok else IncompleteInput
  }

  lemma WordTreeCut(s: string, i: nat, token: string, mem: Memory, prior: Value)
    requires WordValid(token) && Begins(s, i, token) && i < |s|
    ensures var r, sign := ParseNumeric(s, i, mem, prior), |s| == i + 1 && IsSign(token[0]);
            r.err == (if sign then InvalidInput else if IsNumber(WordMeaning(token, Null)) then Ok else IncompleteInput) && (r.err == Ok ==> r.pos == |s|)
  {
    hide ParseNumber, Numeric, TokenEnd, WordMeaning;
    WordPrefix(token, 0);
    WordCut(s, i, token, TOKEN_MAX);
    var cut := token[..|s| - i];
    assert s[i..|s|] == cut && cut[0] == token[0];
    if token[0] != 't' && token[0] != 'f' && token[0] != 'n' {
      NumericRead(token, ParseNumber(token));
      WordRead(token, prior);
      NumberCuts(token, |s| - i);
      NumericMeans(token);
    } else {
      WordRead(token, Null);
    }
  }

  lemma NumberCuts(token: string, k: nat)
    requires AllWordChars(token) && ParseNumber(token) != NotANumber && 0 < k <= |token|
    ensures ParseNumber(token[..k]) == NotANumber <==> k == 1 && IsSign(token[0])
  {
    hide ParseNumber;
    WordPrefix(token, k);
    NumberSyntax.NumberCut(token, k);
    assert token[..k][0] == token[0];
  }

  /** A tree that is cut off. */
  lemma {:induction false} TreeCut(s: string, i: nat, before: string, c: Syntax, limit: nat, mem: Memory, prior: Value)
    requires Valid(c) && Blank(before) && Begins(s, i, before + Spell(c)) && Depth(c) <= limit && Cost(mem.copies, c) <= mem.room
    ensures var r := ParseVariant(s, i, limit, mem, prior); CutOff(r.err, c, |s| - i - |before|) && (r.err == Ok ==> r.pos == |s|)
    decreases c, 1
  {
    hide Spell, Meaning, Valid, ParseString, ParseNumeric, ParseCollection, SkipSpaces, Depth, Cost, WordValid, WordMeaning, Begins, Blank, IsBlank, RowsSignCut;
    SpellStart(c);
    BlankThenCut(s, i, before, Spell(c));
    var p := SkipSpaces(s, i);
    NumbersAreWords(c);
    if p == |s| {
      NothingSigned(c, |s| - i - |before|);
    } else if c.Word? {
      WordTree(c, mem.copies, Null);
      WordChars(s[p]);
      WordTreeCut(s, p, c.token, mem, prior);
    } else if c.Quoted? {
      QuotedTreeCut(s, p, c, mem, prior);
    } else {
      CollectionCut(s, p, c, limit, mem);
    }
  }

  lemma NumbersAreWords(c: Syntax)
    requires Valid(c)
    ensures !c.Word? ==> !IsNumber(Meaning(c, Null))
  {
    if !c.Word? {
      NoNumber(c);
    }
  }

  lemma {:induction false} NothingSigned(c: Syntax, n: int)
    requires n <= 0
    ensures !SignCut(c, n)
    decreases c
  {
    if c.Rows? && c.rows != [] {
      assert RowsSignCut(c.obj, c.rows, n - 1) == RowSignCut(c.rows[0], n - 1);
      NothingSigned(c.rows[0].value, n - 1 - |HeadText(c.rows[0])| - |c.rows[0].before|);
    }
  }

  lemma NumericMeans(token: string)
    requires WordValid(token) && Numeric(token, ParseNumber(token))
    ensures IsNumber(WordMeaning(token, Null))
  {
    hide ParseNumber;
    NumericRead(token, ParseNumber(token));
    WordRead(token, Null);
  }

  lemma QuotedTreeCut(s: string, i: nat, c: Syntax, mem: Memory, prior: Value)
    requires Valid(c) && c.Quoted? && i < |s| && Begins(s, i, Spell(c))
    ensures IsQuote(s[i]) && ParseString(s, i, mem, prior).err == IncompleteInput
  {
    hide ScanQuoted, SpellLetters, QuotedValid;
    QuotedCut(s, i, c.quote, c.letters);
  }

  lemma {:induction false} CollectionCut(s: string, i: nat, c: Syntax, limit: nat, mem: Memory)
    requires Valid(c) && c.Rows? && i < |s| && Begins(s, i, Spell(c)) && Depth(c) <= limit && Cost(mem.copies, c) <= mem.room
    ensures s[i] == Opening(c.obj) && ParseCollection(c.obj, s, i, limit, mem).err == if SignCut(c, |s| - i) then InvalidInput else IncompleteInput
    decreases c, 0
  {
    hide Spell, Meaning, Valid, Depth, Cost, RowsMeaning, RowsCost, RowsDepth, SpellRows, RowValid, ParseRows, SkipSpaces, Blank, RowSignCut, SpellRow;
    var obj, rows := c.obj, c.rows;
    RowsTree(c, mem.copies, Null);
    var rest := if rows == [] then c.blanks + [Closing(obj)] else SpellRows(obj, rows);
    BeginsAt(s, i, Spell(c));
    BeginsConcat(s, i, [Opening(obj)], rest);
    assert SignCut(c, |s| - i) == RowsSignCut(obj, rows, |s| - i - 1) == RowsSignCut(obj, rows, |s| - (i + 1));
    if rows == [] {
      EmptyCut(s, i + 1, c.blanks, Closing(obj));
    } else {
      RowsStartCut(obj, s, i + 1, rows);
      SkipsOnce(s, i + 1);
      RowsFrom(obj, s, SkipSpaces(s, i + 1), i + 1, limit, mem, []);
      RowsCut(obj, s, i + 1, rows, [], limit, mem);
      RowsAtEnd(obj, s, limit, mem);
    }
  }

  lemma RowsAtEnd(obj: bool, s: string, limit: nat, mem: Memory)
    requires limit > 0
    ensures ParseRows(obj, s, |s|, limit, mem, []).err != InvalidInput
  {
    assert SkipSpaces(s, |s|) == |s|;
    assert ParseVariant(s, |s|, limit - 1, RowHead(obj, s, |s|, mem, []).mem, Null).err == IncompleteInput;
  }

  lemma EmptyCut(s: string, i: nat, blanks: string, c: char)
    requires Begins(s, i, blanks + [c]) && Blank(blanks) && !IsBlank(c)
    ensures SkipSpaces(s, i) == |s|
  {
    hide SkipSpaces;
    BlankThenCut(s, i, blanks, [c]);
  }

  /** The first character of the rows, if it is there. */
  lemma RowsStartCut(obj: bool, s: string, i: nat, rows: seq<Row>)
    requires rows != [] && RowValid(obj, rows[0]) && Begins(s, i, SpellRows(obj, rows))
    ensures i <= |s| && var j := SkipSpaces(s, i); j == |s| || (s[j] != '\0' && s[j] != Close(obj))
  {
    hide SpellRows, Spell, SkipSpaces, Valid, NameValid, Begins, Blank, Tail, SpellRow, SpellName;
    var row := rows[0];
    RowSplit(obj, rows);
    var rest := row.before + Spell(row.value) + (row.after + Tail(obj, rows));
    if obj {
      var key := row.key.value;
      KeySplit(key, rest);
      NameStart(key.name);
      BlankThenCut(s, i, key.before, SpellName(key.name) + (key.after + (":" + rest)));
    } else {
      SpellStart(row.value);
      assert HeadText(row) + rest == row.before + (Spell(row.value) + (row.after + Tail(obj, rows)));
      BlankThenCut(s, i, row.before, Spell(row.value) + (row.after + Tail(obj, rows)));
    }
  }

  lemma {:induction false} RowsCut(obj: bool, s: string, i: nat, rows: seq<Row>, slots: seq<Slot>, limit: nat, mem: Memory)
    requires rows != [] && (forall k :: 0 <= k < |rows| ==> RowValid(obj, rows[k])) && limit > 0 && Begins(s, i, SpellRows(obj, rows))
    requires RowsDepth(rows) <= limit - 1 && RowsCost(mem.copies, obj, rows, slots) <= mem.room
    ensures ParseRows(obj, s, i, limit, mem, slots).err == if RowsSignCut(obj, rows, |s| - i) then InvalidInput else IncompleteInput
    decreases rows, 1
  {
    hide SpellRows, SpellRow, Spell, HeadText, RowValid, RowEnd, ParseRows, RowMeaning, RowCost, RowDepth, Begins, Occurs, Tail, RowSignCut;
    var row, rest := rows[0], rows[1..];
    var value, after := HeadText(row) + (row.before + Spell(row.value)), row.after + Tail(obj, rows);
    RowSplit(obj, rows);
    assert HeadText(row) + (row.before + Spell(row.value) + after) == value + after;
    BeginsConcat(s, i, value, after);
    if |s| - i < |value| {
      ValueCut(obj, s, i, row, slots, limit, mem);
    } else {
      RowEndsCut(obj, s, i + |value|, row, rows);
      ValueRead(obj, s, i, row, slots, limit, mem);
      var end := RowEnd(obj, s, i + |value|);
      ValueComplete(row, |s| - i);
      if end.More? {
        RowsCut(obj, s, end.pos, rest, RowMeaning(obj, row, slots), limit, mem.Take(RowCost(mem.copies, obj, row, slots)));
      }
    }
  }

  lemma ValueComplete(row: Row, n: int)
    requires n >= |HeadText(row) + (row.before + Spell(row.value))|
    ensures !RowSignCut(row, n)
  {
  }

  lemma RowEndsCut(obj: bool, s: string, i: nat, row: Row, rows: seq<Row>)
    requires rows != [] && RowValid(obj, row) && Begins(s, i, row.after + Tail(obj, rows))
    ensures !IsWordChar(At(s, i))
    ensures var end := RowEnd(obj, s, i);
            if |s| <= i + |row.after| then end == Stop(IncompleteInput, |s|)
            else |rows| > 1 && end == More(i + |row.after| + 1) && Begins(s, end.pos, SpellRows(obj, rows[1..]))
  {
    hide SpellRows, SkipSpaces, Valid, NameValid;
    var tail := Tail(obj, rows);
    BlankThenCut(s, i, row.after, tail);
    if i < |s| {
      BeginsAt(s, i, row.after + tail);
    }
    var j := SkipSpaces(s, i);
    if j < |s| && |rows| > 1 {
      BeginsConcat(s, j, ",", SpellRows(obj, rows[1..]));
    }
  }

  lemma {:induction false} ValueCut(obj: bool, s: string, i: nat, row: Row, slots: seq<Slot>, limit: nat, mem: Memory)
    requires RowValid(obj, row) && limit > 0 && Begins(s, i, HeadText(row) + (row.before + Spell(row.value)))
    requires RowDepth(row) <= limit - 1 && RowCost(mem.copies, obj, row, slots) <= mem.room
    ensures ParseRows(obj, s, i, limit, mem, slots).err == if RowSignCut(row, |s| - i) then InvalidInput else IncompleteInput
    decreases row
  {
    hide Spell, HeadText, Valid, RowHead, ParseVariant, SkipSpaces, Cost, Depth, Meaning, Place, RowHeadCost, Find, Occurs, Begins, SignCut, NameValid, Blank;
    var head, need, place := HeadText(row), RowHeadCost(mem.copies, obj, row, slots), Place(obj, row, slots);
    BeginsConcat(s, i, head, row.before + Spell(row.value));
    if |s| - i < |head| {
      HeadCut(obj, s, i, row, mem, slots);
      NothingSigned(row.value, |s| - i - |head| - |row.before|);
    } else {
      assert head + "" == head;
      HeadRead(obj, s, i, row, "", mem, slots);
      TreeCut(s, i + |head|, row.before, row.value, limit - 1, mem.Take(need), place.0[place.1].value);
      RowEndAtEnd(obj, s);
    }
  }

  lemma RowEndAtEnd(obj: bool, s: string)
    ensures RowEnd(obj, s, |s|) == Stop(IncompleteInput, |s|)
  {
  }

  lemma HeadCut(obj: bool, s: string, i: nat, row: Row, mem: Memory, slots: seq<Slot>)
    requires RowValid(obj, row) && Begins(s, i, HeadText(row)) && RowHeadCost(mem.copies, obj, row, slots) <= mem.room
    ensures RowHead(obj, s, i, mem, slots).err == IncompleteInput
  {
    hide Spell, Valid, SpellKey, NameValid, MemberHead, Find;
    KeyCut(s, i, row.key.value, mem, slots);
  }

  lemma KeyCut(s: string, i: nat, key: Key, mem: Memory, slots: seq<Slot>)
    requires Blank(key.before) && NameValid(key.name) && Blank(key.after) && Begins(s, i, SpellKey(key))
    requires TextNeed(mem.copies, NameText(key.name)) <= mem.room
    ensures MemberHead(s, i, mem, slots).err == IncompleteInput
  {
    hide SpellName, NameText, NameValid, SkipSpaces, ScanKey, Find, Begins;
    var n, behind := SpellName(key.name), key.after + ":";
    NameStart(key.name);
    BlankThenCut(s, i, key.before, n + behind);
    var j := SkipSpaces(s, i);
    if j < |s| {
      BeginsConcat(s, j, n, behind);
      if |s| - j < |n| {
        NameCut(s, j, key.name, mem);
        SkipsNothing(s);
      } else {
        EmptyCut(s, j + |n|, key.after, ':');
        AtBehind(s, j + |n|, behind);
        NameRead(s, j, key.name);
      }
    }
  }

  lemma SkipsNothing(s: string)
    ensures SkipSpaces(s, |s|) == |s|
  {
  }

  lemma AtBehind(s: string, i: nat, behind: string)
    requires Begins(s, i, behind) && behind != "" && !IsWordChar(behind[0])
    ensures !IsWordChar(At(s, i))
  {
    if i < |s| {
      BeginsAt(s, i, behind);
    }
  }

  /** Of a key without quotes a shorter key is left. */
  lemma NameCut(s: string, i: nat, name: Name, mem: Memory)
    requires NameValid(name) && Begins(s, i, SpellName(name)) && i < |s| && TextNeed(mem.copies, NameText(name)) <= mem.room
    ensures var key := Keep(ScanKey(s, i), mem); key.err == IncompleteInput || (key.err == Ok && key.pos == |s|)
  {
    hide SpellLetters, QuotedValid, ScanQuoted, TokenEnd, TextOf;
    match name
    case QuotedName(quote, letters) => QuotedCut(s, i, quote, letters);
    case BareName(token) =>
      BeginsAt(s, i, token);
      WordCut(s, i, token, |s| - i);
      assert s[i..|s|] == s[i..];
  }

  /** For all texts: what is left of one behind a cut is incomplete input; but it is invalid if it ends in a
      sign that starts a number; and some digits of a number are a number. */
  lemma TextCut(s: string, before: string, c: Syntax, after: string, k: nat, limit: nat, mem: Memory)
    requires IsText(s, before, c, after) && k < |before + Spell(c)| && Depth(c) <= limit && Cost(mem.copies, c) <= mem.room
    ensures CutOff(Deserialize(s[..k], limit, mem).err, c, k - |before|)
  {
    hide Spell, Meaning, Valid, Depth, Cost, ParseVariant, SignCut;
    var t := before + Spell(c);
    assert s[..k] == t[..k] && s[..k][0..] == s[..k];
    assert Begins(s[..k], 0, t);
    TreeCut(s[..k], 0, before, c, limit, mem, Null);
  }

  /** A sign that is left over makes the input invalid. */
  lemma SignIsInvalid(limit: nat, mem: Memory)
    requires limit > 0 && mem.Has(SLOT_SIZE)
    ensures Deserialize("[-", limit, mem).err == InvalidInput
  {
    var s, room := "[-", mem.Take(SLOT_SIZE);
    assert SkipSpaces(s, 0) == 0 && SkipSpaces(s, 1) == 1;
    assert TokenEnd(s, 1, TOKEN_MAX) == TokenEnd(s, 2, TOKEN_MAX - 1) == 2 && s[1..2] == "-";
    assert ParseNumeric(s, 1, room, Null).err == InvalidInput;
    assert ParseVariant(s, 1, limit - 1, room, Null).err == InvalidInput;
    assert ParseCollection(false, s, 0, limit, mem).err == ParseRows(false, s, 1, limit, mem, []).err == InvalidInput;
    assert ParseVariant(s, 0, limit, mem, Null) == ParseCollection(false, s, 0, limit, mem);
  }

  // ----- where errors point to -----

  /** A word that ends at pos and starts like a literal, but has not its length. */
  predicate Misspelt(s: string, pos: nat)
    requires pos <= |s|
  {
    exists i :: 0 <= i < pos && AllWordChars(s[i..pos]) &&
                if s[i] == 't' || s[i] == 'n' then pos != i + 4 else s[i] == 'f' && pos != i + 5
  }

  /** A word that ends at pos and is neither a literal nor a number. */
  ghost predicate NoNumeral(s: string, pos: nat)
    requires pos <= |s|
  {
    exists i :: 0 <= i < pos && AllWordChars(s[i..pos]) && s[i] !in ['t', 'n', 'f'] && forall r :: !Numeric(s[i..pos], r)
  }

  /** The input ends, or a backslash is the last character, or a literal has the wrong length; something is
      neither blank nor what is expected, or a word is no number; \\u is not supported; a bracket opens what
      is too deep. */
  ghost predicate Blames(s: string, err: Error, pos: nat)
    requires pos <= |s|
  {
    match err
    case IncompleteInput => At(s, pos) == '\0' || (At(s, pos) == '\\' && At(s, pos + 1) == '\0') || Misspelt(s, pos)
    case InvalidInput => (At(s, pos) != '\0' && !IsBlank(At(s, pos))) || NoNumeral(s, pos)
    case NotSupported => At(s, pos) == '\\' && At(s, pos + 1) == 'u'
    case TooDeep => At(s, pos) == '[' || At(s, pos) == '{'
    case _ => true
  }

  lemma {:induction false} QuotedBlamed(s: string, i: nat, quote: char, done: string)
    requires i <= |s| && quote != '\0'
    ensures var r := ScanQuoted(s, i, quote, done); Blames(s, r.err, r.pos)
    decreases |s| - i
  {
    var c, d := At(s, i), At(s, i + 1);
    if c == quote || c == '\0' {
    } else if c != '\\' {
      QuotedBlamed(s, i + 1, quote, done + [c]);
    } else if d != '\0' && d != 'u' && Unescape(d) != '\0' {
      QuotedBlamed(s, i + 2, quote, done + [Unescape(d)]);
    }
  }

  lemma KeyBlamed(s: string, i: nat)
    requires i <= |s| && At(s, i) != '\0' && !IsSpace(At(s, i))
    ensures var r := ScanKey(s, i); Blames(s, r.err, r.pos)
  {
    if IsQuote(At(s, i)) {
      QuotedBlamed(s, i + 1, s[i], "");
    }
  }

  lemma HeadBlamed(obj: bool, s: string, i: nat, mem: Memory, slots: seq<Slot>)
    requires i <= |s|
    ensures var h := RowHead(obj, s, i, mem, slots); Blames(s, h.err, h.pos)
  {
    hide SkipSpaces, ScanKey, Find, Misspelt, NoNumeral;
    var j := SkipSpaces(s, i);
    if obj && At(s, j) != '\0' {
      KeyBlamed(s, j);
    }
  }

  lemma NumericBlamed(s: string, i: nat, mem: Memory, prior: Value)
    requires i <= |s| && At(s, i) != '\0' && !IsSpace(At(s, i))
    ensures var r := ParseNumeric(s, i, mem, prior); Blames(s, r.err, r.pos)
  {
    hide TokenEnd, Numeric, ParseNumber;
    var j := TokenEnd(s, i, TOKEN_MAX);
    WordFound(s, i, TOKEN_MAX);
    if j > i {
      assert s[i..j][0] == s[i];
      forall r
        ensures Numeric(s[i..j], r) ==> r == ParseNumber(s[i..j]) && r != NotANumber
      {
        NumericRead(s[i..j], r);
      }
    } else {
      WordIsThereOrNot(s, i, prior);
    }
  }

  lemma WordIsThereOrNot(s: string, i: nat, prior: Value)
    requires i <= |s|
    ensures s[i..i] == "" && Literal("", prior).0 == InvalidInput
  {
  }

  lemma {:induction false} VariantBlamed(s: string, i: nat, limit: nat, mem: Memory, prior: Value)
    requires i <= |s|
    ensures var r := ParseVariant(s, i, limit, mem, prior); Blames(s, r.err, r.pos)
    decreases limit, 2, 0
  {
    hide Misspelt, NoNumeral, SkipSpaces, ScanQuoted, ParseNumeric, ParseCollection;
    var j := SkipSpaces(s, i);
    var c := At(s, j);
    if c == '[' || c == '{' {
      CollectionBlamed(c == '{', s, j, limit, mem);
    } else if IsQuote(c) {
      QuotedBlamed(s, j + 1, s[j], "");
    } else if c != '\0' {
      NumericBlamed(s, j, mem, prior);
    }
  }

  lemma {:induction false} CollectionBlamed(obj: bool, s: string, i: nat, limit: nat, mem: Memory)
    requires i < |s| && s[i] == Opening(obj)
    ensures var r := ParseCollection(obj, s, i, limit, mem); Blames(s, r.err, r.pos)
    decreases limit, 1, 0
  {
    hide Misspelt, NoNumeral, SkipSpaces, ParseRows;
    if limit > 0 {
      RowsBlamed(obj, s, SkipSpaces(s, i + 1), limit, mem, []);
    }
  }

  lemma {:induction false} RowsBlamed(obj: bool, s: string, i: nat, limit: nat, mem: Memory, slots: seq<Slot>)
    requires i <= |s| && limit > 0
    ensures var r := ParseRows(obj, s, i, limit, mem, slots); Blames(s, r.err, r.pos)
    decreases limit, 0, |s| - i, 1
  {
    hide Misspelt, NoNumeral, SkipSpaces, ParseVariant, RowHead;
    HeadBlamed(obj, s, i, mem, slots);
    var h := RowHead(obj, s, i, mem, slots);
    if h.err == Ok {
      var v := h.slots[h.k].value;
      VariantBlamed(s, h.pos, limit - 1, h.mem, v);
      var r := ParseVariant(s, h.pos, limit - 1, h.mem, v);
      var end := RowEnd(obj, s, r.pos);
      if r.err == Ok && end.More? {
        RowsBlamed(obj, s, end.pos, limit, r.mem, SetValue(h.slots, h.k, r.value));
      }
    }
  }

  /** For all inputs: the error says what is wrong with the input where the deserializer stopped; there
      may also be something behind a number. */
  lemma DeserializeBlamed(s: string, limit: nat, mem: Memory)
    ensures var r := Deserialize(s, limit, mem);
            r.pos <= |s| && (Blames(s, r.err, r.pos) || (r.err == InvalidInput && IsNumber(r.value) && At(s, r.pos) != '\0'))
  {
    VariantBlamed(s, 0, limit, mem, Null);
  }
}
