/** What the JSON deserializer computes, as functions on the input text.

    Positions stand for the reader together with its one-character latch: position i means
    that the characters before i have been consumed.  Reading past the end yields NUL. */
module JsonGrammar {
  import opened Document
  import opened Numbers

  datatype Scan = Scan(err: Error, text: string, pos: nat)

  // ----- characters -----

  predicate IsSpace(c: char) { c == ' ' || c == '\t' || c == '\r' || c == '\n' }

  predicate IsQuote(c: char) { c == '\'' || c == '\"' }

  predicate IsTokenChar(c: char) {
    IsDigit(c) || '_' <= c <= 'z' || 'A' <= c <= 'Z' || c == '+' || c == '-' || c == '.'
  }

  const BACKSPACE: char := 8 as char
  const FORM_FEED: char := 12 as char

  /** The character an escape letter stands for, NUL for an unknown letter. */
  function Unescape(c: char): char {
    if c == '/' || c == '\"' || c == '\\' then c
    else if c == 'b' then BACKSPACE
    else if c == 'f' then FORM_FEED
    else if c == 'n' then '\n'
    else if c == 'r' then '\r'
    else if c == 't' then '\t'
    else '\0'
  }

  /** The letter that escapes a character, NUL when it needs no escape. */
  function Escape(c: char): char {
    if c == '\"' || c == '\\' then c
    else if c == BACKSPACE then 'b'
    else if c == FORM_FEED then 'f'
    else if c == '\n' then 'n'
    else if c == '\r' then 'r'
    else if c == '\t' then 't'
    else '\0'
  }

  // ----- tokens -----

  function SkipSpaces(s: string, i: nat): (j: nat)
    requires i <= |s|
    ensures i <= j <= |s|
    ensures !IsSpace(At(s, j))
    decreases |s| - i
  {
    if IsSpace(At(s, i)) then SkipSpaces(s, i + 1) else i
  }

  /** The end of a run of at most n token characters. */
  function TokenEnd(s: string, i: nat, n: nat): (j: nat)
    requires i <= |s|
    ensures i <= j <= |s| && j <= i + n
    decreases n
  {
    if n > 0 && IsTokenChar(At(s, i)) then TokenEnd(s, i + 1, n - 1) else i
  }

  /** The rest of a quoted string, unescaped, up to and including the stop character. */
  function ScanQuoted(s: string, i: nat, stop: char, text: string): (r: Scan)
    requires i <= |s| && stop != '\0'
    ensures i <= r.pos <= |s| && (r.err == Ok ==> i < r.pos)
    decreases |s| - i
  {
    var c := At(s, i);
    if c == stop then Scan(Ok, text, i + 1)
    else if c == '\0' then Scan(IncompleteInput, text, i)
    else if c != '\\' then ScanQuoted(s, i + 1, stop, text + [c])
    else
      var d := At(s, i + 1);
      if d == '\0' then Scan(IncompleteInput, text, i)
      else if d == 'u' then Scan(NotSupported, text, i)
      else if Unescape(d) == '\0' then Scan(InvalidInput, text, i)
      else ScanQuoted(s, i + 2, stop, text + [Unescape(d)])
  }

  function ScanKey(s: string, i: nat): (r: Scan)
    requires i <= |s|
    ensures i <= r.pos <= |s| && (r.err == Ok ==> i < r.pos)
  {
    if IsQuote(At(s, i)) then ScanQuoted(s, i + 1, s[i], "")
    else
      var j := TokenEnd(s, i, |s| - i);
      if j == i then Scan(InvalidInput, "", i) else Scan(Ok, s[i..j], j)
  }

  /** Stores a scanned string. */
  function Keep(scan: Scan, mem: Memory): TextOutcome {
    if scan.err != Ok then TextOutcome(scan.err, scan.text, scan.pos, mem.Exhausted())
    else if !mem.Has(TextNeed(mem.copies, scan.text)) then TextOutcome(NoMemory, scan.text, scan.pos, mem.Exhausted())
    else TextOutcome(Ok, scan.text, scan.pos, mem.Take(TextNeed(mem.copies, scan.text)))
  }

  const TOKEN_MAX: nat := 63

  /** Decides a word or a number.  `null` leaves the variant as it was. */
  function Literal(token: string, prior: Value): (r: (Error, Value))
    ensures r.0 == Ok || r.0 == IncompleteInput || r.0 == InvalidInput
  {
    if At(token, 0) == 't' then (if |token| == 4 then Ok else IncompleteInput, Bool(true))
    else if At(token, 0) == 'f' then (if |token| == 5 then Ok else IncompleteInput, Bool(false))
    else if At(token, 0) == 'n' then (if |token| == 4 then Ok else IncompleteInput, prior)
    else
      match ParseNumber(token)
      case NotANumber => (InvalidInput, prior)
      case Integer(negative, n) => (Ok, if negative then Neg(n) else Pos(n))
      case Fractional(number) => (Ok, Float(number))
  }

  // ----- parsing -----

  function ParseString(s: string, i: nat, mem: Memory, prior: Value): (r: Outcome)
    requires i < |s| && IsQuote(s[i])
    ensures i <= r.pos <= |s| && (r.err == Ok ==> i < r.pos)
  {
    var t := Keep(ScanQuoted(s, i + 1, s[i], ""), mem);
    Outcome(t.err, if t.err == Ok then Str(t.text) else prior, t.pos, t.mem)
  }

  function ParseNumeric(s: string, i: nat, mem: Memory, prior: Value): (r: Outcome)
    requires i <= |s|
    ensures i <= r.pos <= |s|
  {
    var j := TokenEnd(s, i, TOKEN_MAX);
    var (err, value) := Literal(s[i..j], prior);
    Outcome(err, value, j, mem)
  }

  /** Parses a variant whose current content is `prior`. */
  function ParseVariant(s: string, i: nat, limit: nat, mem: Memory, prior: Value): (r: Outcome)
    requires i <= |s|
    ensures i <= r.pos <= |s|
    decreases limit, 2, 0
  {
    var j := SkipSpaces(s, i);
    var c := At(s, j);
    if c == '\0' then Outcome(IncompleteInput, prior, j, mem)
    else if c == '[' then ParseCollection(false, s, j, limit, mem)
    else if c == '{' then ParseCollection(true, s, j, limit, mem)
    else if IsQuote(c) then ParseString(s, j, mem, prior)
    else ParseNumeric(s, j, mem, prior)
  }

  function Close(obj: bool): char { if obj then '}' else ']' }

  /** Parses an array or an object whose opening bracket is at i. */
  function ParseCollection(obj: bool, s: string, i: nat, limit: nat, mem: Memory): (r: Outcome)
    requires i < |s|
    ensures i <= r.pos <= |s| && (r.err == Ok ==> i < r.pos)
    decreases limit, 1, 0
  {
    if limit == 0 then Outcome(TooDeep, Wrap(obj, []), i, mem)
    else
      var j := SkipSpaces(s, i + 1);
      if At(s, j) == '\0' then Outcome(IncompleteInput, Wrap(obj, []), j, mem)
      else if At(s, j) == Close(obj) then Outcome(Ok, Wrap(obj, []), j + 1, mem)
      else ParseRows(obj, s, j, limit, mem, [])
  }

  function ElementHead(i: nat, mem: Memory, slots: seq<Slot>): (h: Head)
    ensures h.pos == i && (h.err == Ok ==> h.k < |h.slots|)
  {
    if !mem.Has(SLOT_SIZE) then Head(NoMemory, slots, 0, i, mem)
    else Head(Ok, slots + [Element(Null)], |slots|, i, mem.Take(SLOT_SIZE))
  }

  function MemberHead(s: string, i: nat, mem: Memory, slots: seq<Slot>): (h: Head)
    requires i <= |s|
    ensures i <= h.pos <= |s| && (h.err == Ok ==> h.k < |h.slots|)
  {
    var j := SkipSpaces(s, i);
    if At(s, j) == '\0' then Head(IncompleteInput, slots, 0, j, mem)
    else
      var key := Keep(ScanKey(s, j), mem);
      if key.err != Ok then Head(key.err, slots, 0, key.pos, key.mem)
      else
        var colon := SkipSpaces(s, key.pos);
        if At(s, colon) == '\0' then Head(IncompleteInput, slots, 0, colon, key.mem)
        else if s[colon] != ':' then Head(InvalidInput, slots, 0, colon, key.mem)
        else
          var k := Find(slots, key.text);
          if k < |slots| then Head(Ok, slots, k, colon + 1, key.mem)
          else if !key.mem.Has(SLOT_SIZE) then Head(NoMemory, slots, 0, colon + 1, key.mem)
          else Head(Ok, slots + [Member(key.text, Null)], k, colon + 1, key.mem.Take(SLOT_SIZE))
  }

  function RowHead(obj: bool, s: string, i: nat, mem: Memory, slots: seq<Slot>): (h: Head)
    requires i <= |s|
    ensures i <= h.pos <= |s| && (h.err == Ok ==> h.k < |h.slots|)
  {
    if obj then MemberHead(s, i, mem, slots) else ElementHead(i, mem, slots)
  }

  /** Parses the remaining elements or members, after those in `slots`. */
  function ParseRows(obj: bool, s: string, i: nat, limit: nat, mem: Memory, slots: seq<Slot>): (r: Outcome)
    requires i <= |s| && limit > 0
    ensures i <= r.pos <= |s| && (r.err == Ok ==> i < r.pos)
    decreases limit, 0, |s| - i, 1
  {
    FillRow(obj, s, RowHead(obj, s, i, mem, slots), limit)
  }

  /** Parses the value of the current slot, and the rows after it. */
  function FillRow(obj: bool, s: string, h: Head, limit: nat): (r: Outcome)
    requires h.pos <= |s| && limit > 0 && (h.err == Ok ==> h.k < |h.slots|)
    ensures h.pos <= r.pos <= |s| && (r.err == Ok ==> h.pos < r.pos)
    decreases limit, 0, |s| - h.pos, 0
  {
    if h.err != Ok then Outcome(h.err, Wrap(obj, h.slots), h.pos, h.mem)
    else
      var r := ParseVariant(s, h.pos, limit - 1, h.mem, h.slots[h.k].value);
      var slots := SetValue(h.slots, h.k, r.value);
      var end := RowEnd(obj, s, r.pos);
      if r.err != Ok then Outcome(r.err, Wrap(obj, slots), r.pos, r.mem)
      else if end.More? then ParseRows(obj, s, end.pos, limit, r.mem, slots)
      else Outcome(end.err, Wrap(obj, slots), end.pos, r.mem)
  }

  datatype End = More(pos: nat) | Stop(err: Error, pos: nat)

  /** What follows a value: a comma, the closing bracket, or something wrong. */
  function RowEnd(obj: bool, s: string, i: nat): (e: End)
    requires i <= |s|
    ensures i <= e.pos <= |s| && (e.More? || e.err == Ok ==> i < e.pos)
  {
    var j := SkipSpaces(s, i);
    if At(s, j) == '\0' then Stop(IncompleteInput, j)
    else if s[j] == Close(obj) then Stop(Ok, j + 1)
    else if s[j] != ',' then Stop(InvalidInput, j)
    else More(j + 1)
  }

  /** The entry point: a number must be followed by the end of the input. */
  function Deserialize(s: string, limit: nat, mem: Memory): Outcome {
    var r := ParseVariant(s, 0, limit, mem, Null);
    if r.err == Ok && IsNumber(r.value) && At(s, r.pos) != '\0' then r.(err := InvalidInput) else r
  }

  // ----- skipping without building -----

  datatype Skip = Skip(err: Error, pos: nat)

  function SkipQuoted(s: string, i: nat, stop: char): (r: Skip)
    requires i <= |s| && stop != '\0'
    ensures i <= r.pos <= |s| && (r.err == Ok ==> i < r.pos)
    decreases |s| - i
  {
    var c := At(s, i);
    if c == stop then Skip(Ok, i + 1)
    else if c == '\0' then Skip(IncompleteInput, i)
    else if c == '\\' && At(s, i + 1) != '\0' then SkipQuoted(s, i + 2, stop)
    else SkipQuoted(s, i + 1, stop)
  }

  function SkipVariant(s: string, i: nat, limit: nat): (r: Skip)
    requires i <= |s|
    ensures i <= r.pos <= |s|
    decreases limit, 2, 0
  {
    var j := SkipSpaces(s, i);
    var c := At(s, j);
    if c == '\0' then Skip(IncompleteInput, j)
    else if c == '[' then SkipCollection(false, s, j, limit)
    else if c == '{' then SkipCollection(true, s, j, limit)
    else if IsQuote(c) then SkipQuoted(s, j + 1, c)
    else Skip(Ok, TokenEnd(s, j, |s| - j))
  }

  function SkipCollection(obj: bool, s: string, i: nat, limit: nat): (r: Skip)
    requires i < |s|
    ensures i <= r.pos <= |s| && (r.err == Ok ==> i < r.pos)
    decreases limit, 1, 0
  {
    if limit == 0 then Skip(TooDeep, i)
    else if !obj then SkipRows(obj, s, i + 1, limit)
    else
      var j := SkipSpaces(s, i + 1);
      if At(s, j) == '\0' then Skip(IncompleteInput, j)
      else if s[j] == '}' then Skip(Ok, j + 1)
      else SkipRows(obj, s, j, limit)
  }

  /** A key is skipped like any value. */
  function SkipHead(obj: bool, s: string, i: nat, limit: nat): (r: Skip)
    requires i <= |s| && limit > 0
    ensures i <= r.pos <= |s|
    decreases limit, 0, |s| - i, 0
  {
    if !obj then Skip(Ok, i)
    else
      var key := SkipVariant(s, i, limit - 1);
      if key.err != Ok then key
      else
        var j := SkipSpaces(s, key.pos);
        if At(s, j) == '\0' then Skip(IncompleteInput, j)
        else if s[j] != ':' then Skip(InvalidInput, j)
        else Skip(Ok, j + 1)
  }

  function SkipRows(obj: bool, s: string, i: nat, limit: nat): (r: Skip)
    requires i <= |s| && limit > 0
    ensures i <= r.pos <= |s| && (r.err == Ok ==> i < r.pos)
    decreases limit, 0, |s| - i, 1
  {
    var h := SkipHead(obj, s, i, limit);
    if h.err != Ok then h
    else
      var r := SkipVariant(s, h.pos, limit - 1);
      if r.err != Ok then r
      else
        var end := RowEnd(obj, s, r.pos);
        if end.More? then SkipRows(obj, s, end.pos, limit) else Skip(end.err, end.pos)
  }
}
