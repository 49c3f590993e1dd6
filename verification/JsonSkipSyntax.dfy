/** What the JSON skipper accepts: looser trees than the parser's, and all of them. */
module JsonSkipSyntax {
  import opened Arithmetic
  import opened Document
  import opened Numbers
  import opened JsonSyntax
  import opened JsonGrammar
  import opened JsonDecides
  import opened Occurrence

  // ----- trees -----

  /** A run of word characters, or none; a string with any escapes; an array or an object, with anything
      for a key. */
  datatype Loose =
    | Run(token: string)
    | Text(quote: char, letters: seq<Letter>)
    | Lines(obj: bool, lines: seq<Line>, blanks: string)

  datatype Label = Label(before: string, name: Loose, after: string)

  datatype Line = Line(key: Option<Label>, before: string, value: Loose, after: string)

  function Write(c: Loose): string
    decreases c
  {
    match c
    case Run(token) => token
    case Text(quote, letters) => [quote] + (SpellLetters(letters) + [quote])
    case Lines(obj, lines, blanks) => [Opening(obj)] + if lines == [] then blanks + [Closing(obj)] else WriteLines(obj, lines)
  }

  function WriteLines(obj: bool, lines: seq<Line>): string
    decreases lines
  {
    if lines == [] then ""
    else WriteLine(lines[0]) + if |lines| == 1 then [Closing(obj)] else "," + WriteLines(obj, lines[1..])
  }

  function WriteLine(line: Line): string
    decreases line, 1
  {
    LabelText(line) + (line.before + Write(line.value) + line.after)
  }

  function LabelText(line: Line): string
    decreases line, 0
  {
    if line.key.Some? then var k := line.key.value; (k.before + Write(k.name)) + (k.after + ":") else ""
  }

  predicate TextValid(quote: char, letters: seq<Letter>) {
    IsQuoteMark(quote) && forall k :: 0 <= k < |letters| ==> LooseLetter(quote, letters[k])
  }

  predicate LooseLetter(quote: char, l: Letter) {
    l.c != '\0' && (l.Raw? ==> l.c != quote && l.c != '\\')
  }

  /** An empty object has no lines; in an array there is at least one, which may hold nothing. */
  predicate WellMade(c: Loose)
    decreases c
  {
    match c
    case Run(token) => AllWordChars(token)
    case Text(quote, letters) => TextValid(quote, letters)
    case Lines(obj, lines, blanks) => Blank(blanks) && (!obj ==> lines != []) && forall k :: 0 <= k < |lines| ==> LineWellMade(obj, lines[k])
  }

  predicate LineWellMade(obj: bool, line: Line)
    decreases line, 1
  {
    line.key.Some? == obj && LabelWellMade(line) && Padded(line.before, line.value, line.after) && WellMade(line.value)
  }

  predicate LabelWellMade(line: Line)
    decreases line, 0
  {
    line.key.Some? ==> var k := line.key.value; Padded(k.before, k.name, k.after) && WellMade(k.name)
  }

  /** Blanks around a tree; those around nothing are all in front of it. */
  predicate Padded(before: string, c: Loose, after: string) {
    Blank(before) && Blank(after) && (c == Run("") ==> after == "")
  }

  function Levels(c: Loose): nat
    decreases c
  {
    if c.Lines? then 1 + LinesLevels(c.lines) else 0
  }

  function LinesLevels(lines: seq<Line>): nat
    decreases lines
  {
    if lines == [] then 0 else Max(LineLevels(lines[0]), LinesLevels(lines[1..]))
  }

  function LineLevels(line: Line): nat
    decreases line
  {
    Max(Levels(line.value), if line.key.Some? then Levels(line.key.value.name) else 0)
  }

  /** A run is as long as it can be, and nothing at all is only found where nothing else starts. */
  predicate Stops(s: string, end: nat, c: Loose) {
    && (c.Run? ==> !IsWordChar(At(s, end)))
    && (c == Run("") ==> var d := At(s, end); !IsBlank(d) && d != '\0' && d != '[' && d != '{' && !IsQuoteMark(d))
  }

  // ----- every tree is skipped -----

  lemma {:induction false} TextSkipped(s: string, i: nat, quote: char, letters: seq<Letter>)
    requires TextValid(quote, letters) && Occurs(s, i, SpellLetters(letters) + [quote])
    ensures i <= |s| && SkipQuoted(s, i, quote) == Skip(Ok, i + |SpellLetters(letters)| + 1)
    decreases |letters|
  {
    if letters == [] {
      OccursAt(s, i, SpellLetters(letters) + [quote], 0);
    } else {
      var a, rest := SpellLetter(letters[0]), SpellLetters(letters[1..]);
      Threefold(a, rest, [quote]);
      OccursConcat(s, i, a, rest + [quote]);
      OccursAt(s, i, a, 0);
      if letters[0].Escaped? {
        OccursAt(s, i, a, 1);
      }
      TextSkipped(s, i + |a|, quote, letters[1..]);
    }
  }

  lemma SkipFrom(s: string, i: nat, j: nat, limit: nat)
    requires i <= |s| && j <= |s| && SkipSpaces(s, i) == SkipSpaces(s, j)
    ensures SkipVariant(s, i, limit) == SkipVariant(s, j, limit)
  {
    hide SkipSpaces, SkipCollection, SkipQuoted, TokenEnd;
  }

  /** Where a tree starts behind its blanks. */
  lemma TreeStarts(s: string, i: nat, before: string, c: Loose)
    requires WellMade(c) && Blank(before) && Occurs(s, i, before + Write(c)) && Stops(s, i + |before| + |Write(c)|, c)
    ensures var p := i + |before|;
            && p + |Write(c)| <= |s| && SkipSpaces(s, i) == p && At(s, p) != '\0' && Occurs(s, p, Write(c))
            && (c.Run? ==> At(s, p) != '[' && At(s, p) != '{' && !IsQuoteMark(At(s, p)))
            && (c.Text? ==> At(s, p) == c.quote) && (c.Lines? ==> At(s, p) == Opening(c.obj))
            && (At(s, p) == if Write(c) == "" then At(s, p + |Write(c)|) else Write(c)[0])
  {
    OccursConcat(s, i, before, Write(c));
    SkipsBlank(s, i, before);
    if Write(c) != "" {
      OccursAt(s, i + |before|, Write(c), 0);
    }
  }

  lemma {:induction false} TreeSkipped(s: string, i: nat, before: string, c: Loose, limit: nat)
    requires WellMade(c) && Blank(before) && Occurs(s, i, before + Write(c)) && Stops(s, i + |before| + |Write(c)|, c)
    ensures i + |before + Write(c)| <= |s|
    ensures var r := SkipVariant(s, i, limit); if Levels(c) <= limit then r == Skip(Ok, i + |before + Write(c)|) else r.err == TooDeep
    decreases c, 1
  {
    hide SkipSpaces, SkipCollection, SkipQuoted, WellMade, Levels, IsBlank, LooseLetter;
    TreeStarts(s, i, before, c);
    Kinds(c);
    var p := i + |before|;
    match c
    case Run(token) => WordEnds(s, p, token, |s| - p);
    case Text(quote, letters) =>
      OccursConcat(s, p, [quote], SpellLetters(letters) + [quote]);
      TextSkipped(s, p + 1, quote, letters);
    case Lines(obj, lines, blanks) => CollectionSkipped(s, p, c, limit);
  }

  lemma Kinds(c: Loose)
    requires WellMade(c)
    ensures match c
            case Run(token) => AllWordChars(token) && Levels(c) == 0
            case Text(quote, letters) => TextValid(quote, letters) && Levels(c) == 0
            case Lines(obj, lines, blanks) =>
              && Blank(blanks) && (!obj ==> lines != []) && Levels(c) == 1 + LinesLevels(lines)
              && forall k :: 0 <= k < |lines| ==> LineWellMade(obj, lines[k])
  {
    hide LineWellMade;
  }

  lemma {:induction false} CollectionSkipped(s: string, i: nat, c: Loose, limit: nat)
    requires WellMade(c) && c.Lines? && Occurs(s, i, Write(c))
    ensures i + |Write(c)| <= |s|
    ensures var r := SkipCollection(c.obj, s, i, limit); if Levels(c) <= limit then r == Skip(Ok, i + |Write(c)|) else r.err == TooDeep
    decreases c, 0
  {
    hide SkipSpaces, SkipRows, WellMade, Levels, LineWellMade, LinesLevels, WriteLines;
    Kinds(c);
    var obj, lines := c.obj, c.lines;
    var rest := if lines == [] then c.blanks + [Closing(obj)] else WriteLines(obj, lines);
    OccursConcat(s, i, [Opening(obj)], rest);
    if limit > 0 {
      if lines == [] {
        BlankThen(s, i + 1, c.blanks, [Closing(obj)]);
        NoLines();
      } else {
        LinesSkipped(obj, s, i + 1, lines, limit);
        if obj {
          LinesStart(s, i + 1, lines);
          SkipsOnce(s, i + 1);
          RowsSkipFrom(s, SkipSpaces(s, i + 1), i + 1, limit);
        }
      }
    }
  }

  lemma NoLines()
    ensures LinesLevels([]) == 0
  {
  }

  lemma RowsSkipFrom(s: string, i: nat, j: nat, limit: nat)
    requires i <= |s| && j <= |s| && SkipSpaces(s, i) == SkipSpaces(s, j) && limit > 0
    ensures SkipRows(true, s, i, limit) == SkipRows(true, s, j, limit)
  {
    hide SkipSpaces, SkipVariant;
    SkipFrom(s, i, j, limit - 1);
  }

  /** What follows a line. */
  function Rest(obj: bool, lines: seq<Line>): string
    requires lines != []
  {
    if |lines| == 1 then [Closing(obj)] else "," + WriteLines(obj, lines[1..])
  }

  lemma LineSplit(obj: bool, lines: seq<Line>)
    requires lines != []
    ensures var line := lines[0]; WriteLines(obj, lines) == LabelText(line) + ((line.before + Write(line.value)) + (line.after + Rest(obj, lines)))
  {
    hide LabelText, Write;
    var line := lines[0];
    Refold(LabelText(line), line.before + Write(line.value), line.after, Rest(obj, lines));
  }

  lemma Refold(a: string, b: string, c: string, d: string)
    ensures (a + (b + c)) + d == a + (b + (c + d))
  {
  }

  lemma RestStarts(obj: bool, lines: seq<Line>)
    requires lines != []
    ensures var t := Rest(obj, lines); t != "" && t[0] == (if |lines| == 1 then Closing(obj) else ',') && EndsAny(t[0])
  {
    hide WriteLines;
  }

  /** A comma, a colon or a closing bracket ends whatever is in front of it. */
  predicate EndsAny(c: char) { c == ',' || c == ':' || c == ']' || c == '}' }

  lemma StopsBefore(s: string, i: nat, c: Loose, after: string, t: string)
    requires Blank(after) && (c == Run("") ==> after == "") && t != "" && EndsAny(t[0]) && Occurs(s, i, after + t)
    ensures Stops(s, i, c)
  {
    OccursAt(s, i, after + t, 0);
  }

  /** Up to the colon behind a key, or nothing. */
  lemma {:induction false} LabelSkipped(obj: bool, s: string, i: nat, line: Line, rest: string, limit: nat)
    requires LineWellMade(obj, line) && limit > 0 && Occurs(s, i, LabelText(line) + rest)
    ensures i + |LabelText(line)| <= |s| && Occurs(s, i + |LabelText(line)|, rest)
    ensures var h := SkipHead(obj, s, i, limit);
            if !obj || Levels(line.key.value.name) < limit then h == Skip(Ok, i + |LabelText(line)|) else h.err == TooDeep
    decreases line, 0
  {
    hide SkipSpaces, SkipVariant, WellMade, Levels, Write, Occurs;
    OccursConcat(s, i, LabelText(line), rest);
    if obj {
      var k := line.key.value;
      var a := k.before + Write(k.name);
      LabelSplit(a, k.after, rest);
      OccursConcat(s, i, a, k.after + (":" + rest));
      StopsBefore(s, i + |a|, k.name, k.after, ":" + rest);
      TreeSkipped(s, i, k.before, k.name, limit - 1);
      BlankThen(s, i + |a|, k.after, ":" + rest);
    }
  }

  lemma LabelSplit(a: string, after: string, rest: string)
    ensures (a + (after + ":")) + rest == a + (after + (":" + rest))
  {
  }

  lemma LinesStart(s: string, i: nat, lines: seq<Line>)
    requires lines != [] && LineWellMade(true, lines[0]) && Occurs(s, i, WriteLines(true, lines))
    ensures i <= |s| && var j := SkipSpaces(s, i); At(s, j) != '\0' && At(s, j) != '}'
  {
    hide SkipSpaces, WellMade, WriteLines, Occurs;
    LineSplit(true, lines);
    var line, k := lines[0], lines[0].key.value;
    var rest := (line.before + Write(line.value)) + (line.after + Rest(true, lines));
    var a := k.before + Write(k.name);
    LabelSplit(a, k.after, rest);
    OccursConcat(s, i, a, k.after + (":" + rest));
    StopsBefore(s, i + |a|, k.name, k.after, ":" + rest);
    TreeStarts(s, i, k.before, k.name);
    OccursAt(s, i + |a|, k.after + (":" + rest), 0);
    Kinds(k.name);
  }

  lemma {:induction false} LinesSkipped(obj: bool, s: string, i: nat, lines: seq<Line>, limit: nat)
    requires lines != [] && (forall k :: 0 <= k < |lines| ==> LineWellMade(obj, lines[k])) && limit > 0 && Occurs(s, i, WriteLines(obj, lines))
    ensures i + |WriteLines(obj, lines)| <= |s|
    ensures var r := SkipRows(obj, s, i, limit); if LinesLevels(lines) <= limit - 1 then r == Skip(Ok, i + |WriteLines(obj, lines)|) else r.err == TooDeep
    decreases lines
  {
    hide SkipSpaces, SkipVariant, SkipHead, WellMade, LineWellMade, Write, RowEnd, Occurs, LabelText, WriteLines;
    var line, rest := lines[0], Rest(obj, lines);
    var p := i + |LabelText(line)|;
    LineSplit(obj, lines);
    LabelSkipped(obj, s, i, line, (line.before + Write(line.value)) + (line.after + rest), limit);
    OccursConcat(s, p, line.before + Write(line.value), line.after + rest);
    var q := p + |line.before + Write(line.value)|;
    LineParts(obj, line);
    RestStarts(obj, lines);
    StopsBefore(s, q, line.value, line.after, rest);
    TreeSkipped(s, p, line.before, line.value, limit - 1);
    LineEnds(obj, s, q, line.after, lines);
    FirstLevels(obj, lines);
    if |lines| > 1 && LineLevels(line) < limit {
      LinesSkipped(obj, s, q + |line.after| + 1, lines[1..], limit);
    }
  }

  lemma LineParts(obj: bool, line: Line)
    requires LineWellMade(obj, line)
    ensures Blank(line.before) && Blank(line.after) && (line.value == Run("") ==> line.after == "") && WellMade(line.value)
    ensures LineLevels(line) == Max(Levels(line.value), if obj then Levels(line.key.value.name) else 0)
  {
    hide WellMade, Levels;
  }

  lemma FirstLevels(obj: bool, lines: seq<Line>)
    requires lines != []
    ensures LinesLevels(lines) == Max(LineLevels(lines[0]), LinesLevels(lines[1..])) && (|lines| == 1 ==> LinesLevels(lines[1..]) == 0)
    ensures |WriteLines(obj, lines)| == |LabelText(lines[0])| + |lines[0].before + Write(lines[0].value)| + |lines[0].after| + |Rest(obj, lines)|
  {
    LineSplit(obj, lines);
  }

  lemma LineEnds(obj: bool, s: string, i: nat, after: string, lines: seq<Line>)
    requires lines != [] && Blank(after) && Occurs(s, i, after + Rest(obj, lines))
    ensures i + |after| < |s|
    ensures RowEnd(obj, s, i) == if |lines| == 1 then Stop(Ok, i + |after| + 1) else More(i + |after| + 1)
    ensures |lines| > 1 ==> Occurs(s, i + |after| + 1, WriteLines(obj, lines[1..]))
  {
    hide SkipSpaces, WriteLines, Blank;
    RestStarts(obj, lines);
    BlankThen(s, i, after, Rest(obj, lines));
    if |lines| > 1 {
      OccursConcat(s, i + |after|, ",", WriteLines(obj, lines[1..]));
    }
  }

  // ----- what is skipped is a tree -----

  lemma {:induction false} TextFound(s: string, i: nat, quote: char) returns (letters: seq<Letter>)
    requires i <= |s| && IsQuoteMark(quote) && SkipQuoted(s, i, quote).err == Ok
    ensures TextValid(quote, letters) && s[i..SkipQuoted(s, i, quote).pos] == SpellLetters(letters) + [quote]
    decreases |s| - i
  {
    var c, end := At(s, i), SkipQuoted(s, i, quote).pos;
    if c == quote {
      letters := [];
    } else {
      BackslashFollowed(s, i, quote);
      var l, n := if c == '\\' then Escaped(s[i + 1]) else Raw(c), if c == '\\' then 2 else 1;
      var rest := TextFound(s, i + n, quote);
      letters := [l] + rest;
      assert letters[1..] == rest;
      Spliced(s, i, i + n, end);
      assert s[i..i + n] == SpellLetter(l);
    }
  }

  lemma BackslashFollowed(s: string, i: nat, quote: char)
    requires i <= |s| && IsQuoteMark(quote) && SkipQuoted(s, i, quote).err == Ok
    ensures At(s, i) == '\\' ==> i + 1 < |s| && s[i + 1] != '\0'
  {
  }

  lemma {:induction false} TreeFound(s: string, i: nat, limit: nat) returns (before: string, c: Loose)
    requires i <= |s| && SkipVariant(s, i, limit).err == Ok
    ensures var r := SkipVariant(s, i, limit);
            Blank(before) && WellMade(c) && i <= r.pos && s[i..r.pos] == before + Write(c) && Stops(s, r.pos, c)
    decreases limit, 2, 0
  {
    hide SkipSpaces, SkipQuoted, SkipCollection, SpellLetters;
    var j, end := SkipSpaces(s, i), SkipVariant(s, i, limit).pos;
    BlanksFound(s, i);
    before := s[i..j];
    if At(s, j) == '[' || At(s, j) == '{' {
      c := CollectionFound(At(s, j) == '{', s, j, limit);
    } else if IsQuote(At(s, j)) {
      var letters := TextFound(s, j + 1, s[j]);
      c := Text(s[j], letters);
      Spliced(s, j, j + 1, end);
      assert s[j..j + 1] == [s[j]];
    } else {
      WordFound(s, j, |s| - j);
      c := Run(s[j..end]);
      assert c == Run("") ==> j == end;
    }
    Spliced(s, i, j, end);
  }

  lemma {:induction false} CollectionFound(obj: bool, s: string, i: nat, limit: nat) returns (c: Loose)
    requires i < |s| && s[i] == Opening(obj) && SkipCollection(obj, s, i, limit).err == Ok
    ensures var r := SkipCollection(obj, s, i, limit); c.Lines? && WellMade(c) && s[i..r.pos] == Write(c)
    decreases limit, 1, 0
  {
    hide SkipSpaces, SkipRows, LineWellMade;
    var j, end := SkipSpaces(s, i + 1), SkipCollection(obj, s, i, limit).pos;
    assert s[i..i + 1] == [Opening(obj)];
    Spliced(s, i, i + 1, end);
    if obj && At(s, j) == '}' {
      BlanksFound(s, i + 1);
      c := Lines(obj, [], s[i + 1..j]);
      Spliced(s, i + 1, j, end);
      assert s[j..end] == [Closing(obj)];
    } else {
      if obj {
        SkipsOnce(s, i + 1);
        RowsSkipFrom(s, j, i + 1, limit);
      }
      var lines := LinesFound(obj, s, i + 1, limit);
      c := Lines(obj, lines, "");
    }
  }

  lemma {:induction false} LinesFound(obj: bool, s: string, i: nat, limit: nat) returns (lines: seq<Line>)
    requires i <= |s| && limit > 0 && SkipRows(obj, s, i, limit).err == Ok
    ensures lines != [] && (forall k :: 0 <= k < |lines| ==> LineWellMade(obj, lines[k])) && s[i..SkipRows(obj, s, i, limit).pos] == WriteLines(obj, lines)
    decreases limit, 0, |s| - i, 1
  {
    hide SkipRows, WriteLine, LineWellMade;
    var end := SkipRows(obj, s, i, limit).pos;
    var line, p := LineFound(obj, s, i, limit);
    if s[p] == Close(obj) {
      lines := [line];
    } else {
      var rest := LinesFound(obj, s, p + 1, limit);
      lines := [line] + rest;
      assert lines[1..] == rest;
    }
    Spliced(s, i, p, end);
    Spliced(s, p, p + 1, end);
  }

  /** The first line, and where it ends. */
  lemma {:induction false} LineFound(obj: bool, s: string, i: nat, limit: nat) returns (line: Line, p: nat)
    requires i <= |s| && limit > 0 && SkipRows(obj, s, i, limit).err == Ok
    ensures LineWellMade(obj, line) && i <= p < |s| && s[i..p] == WriteLine(line)
    ensures SkipRows(obj, s, i, limit) == if s[p] == Close(obj) then Skip(Ok, p + 1) else SkipRows(obj, s, p + 1, limit)
    ensures s[p] == Close(obj) || s[p] == ','
    decreases limit, 0, |s| - i, 0
  {
    hide SkipSpaces, SkipHead, SkipVariant, WellMade, Write, Blank, Stops;
    var h := SkipHead(obj, s, i, limit);
    var key := LabelFound(obj, s, i, limit);
    var r := SkipVariant(s, h.pos, limit - 1);
    var before, value := TreeFound(s, h.pos, limit - 1);
    p := SkipSpaces(s, r.pos);
    BlanksFound(s, r.pos);
    NothingBehind(s, r.pos, value);
    line := Line(key, before, value, s[r.pos..p]);
    Spliced(s, i, h.pos, p);
    Spliced(s, h.pos, r.pos, p);
  }

  /** Behind nothing there are no blanks. */
  lemma NothingBehind(s: string, i: nat, c: Loose)
    requires i <= |s| && Stops(s, i, c)
    ensures c == Run("") ==> s[i..SkipSpaces(s, i)] == ""
  {
  }

  lemma {:induction false} LabelFound(obj: bool, s: string, i: nat, limit: nat) returns (key: Option<Label>)
    requires i <= |s| && limit > 0 && SkipHead(obj, s, i, limit).err == Ok
    ensures var line := Line(key, "", Run(""), ""); key.Some? == obj && LabelWellMade(line) && s[i..SkipHead(obj, s, i, limit).pos] == LabelText(line)
    decreases limit, 0, 0
  {
    hide SkipSpaces, SkipVariant, WellMade, Write, Blank, Stops;
    key := None;
    if obj {
      var k := SkipVariant(s, i, limit - 1);
      var before, name := TreeFound(s, i, limit - 1);
      var j := SkipSpaces(s, k.pos);
      BlanksFound(s, k.pos);
      NothingBehind(s, k.pos, name);
      key := Some(Label(before, name, s[k.pos..j]));
      Spliced(s, i, k.pos, j + 1);
      Spliced(s, k.pos, j, j + 1);
      assert s[j..j + 1] == ":";
    } else {
      assert s[i..i] == "";
    }
  }

  /** For all inputs: the skipper accepts an input up to a position exactly when a tree that is not too deep
      is written there. */
  lemma SkipDecides(s: string, i: nat, limit: nat, end: nat)
    requires i <= end <= |s|
    ensures SkipVariant(s, i, limit) == Skip(Ok, end) <==>
            exists before, c :: s[i..end] == before + Write(c) && Blank(before) && WellMade(c) && Stops(s, end, c) && Levels(c) <= limit
  {
    hide SkipVariant, WellMade, Write, Stops, Levels, Blank;
    if SkipVariant(s, i, limit) == Skip(Ok, end) {
      var before, c := TreeFound(s, i, limit);
      TreeSkipped(s, i, before, c, limit);
    }
    if before, c :| s[i..end] == before + Write(c) && Blank(before) && WellMade(c) && Stops(s, end, c) && Levels(c) <= limit {
      TreeSkipped(s, i, before, c, limit);
    }
  }
}
