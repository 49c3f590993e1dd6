/** JSON texts by their syntax trees, as in RFC 8259 and with what the library allows beyond it: how a
    tree is spelled, what it stands for, and what it needs.  No function of the parser is used. */
module JsonSyntax {
  import opened Document
  import opened Numbers
  import opened NumberSyntax

  // ----- trees -----

  /** A character of a string, as it is or behind a backslash. */
  datatype Letter = Raw(c: char) | Escaped(c: char)

  datatype Name =
    | QuotedName(quote: char, letters: seq<Letter>)
    | BareName(token: string)

  datatype Key = Key(before: string, name: Name, after: string)

  /** An element, or a member with its key, and the blanks around the value. */
  datatype Row = Row(key: Option<Key>, before: string, value: Syntax, after: string)

  /** A literal or a number, a string, or an array or an object; an empty one may hold blanks. */
  datatype Syntax =
    | Word(token: string)
    | Quoted(quote: char, letters: seq<Letter>)
    | Rows(obj: bool, rows: seq<Row>, blanks: string)

  // ----- spelling -----

  function SpellLetter(l: Letter): string {
    match l
    case Raw(c) => [c]
    case Escaped(c) => ['\\', c]
  }

  function SpellLetters(letters: seq<Letter>): string {
    if letters == [] then "" else SpellLetter(letters[0]) + SpellLetters(letters[1..])
  }

  function SpellName(name: Name): string {
    match name
    case QuotedName(quote, letters) => [quote] + (SpellLetters(letters) + [quote])
    case BareName(token) => token
  }

  function SpellKey(key: Key): string {
    key.before + (SpellName(key.name) + (key.after + ":"))
  }

  function Opening(obj: bool): char { if obj then '{' else '[' }

  function Closing(obj: bool): char { if obj then '}' else ']' }

  function Spell(c: Syntax): string
    decreases c
  {
    match c
    case Word(token) => token
    case Quoted(quote, letters) => [quote] + (SpellLetters(letters) + [quote])
    case Rows(obj, rows, blanks) => [Opening(obj)] + if rows == [] then blanks + [Closing(obj)] else SpellRows(obj, rows)
  }

  /** The rows with commas between them, and the closing bracket. */
  function SpellRows(obj: bool, rows: seq<Row>): string
    decreases rows
  {
    if rows == [] then ""
    else SpellRow(rows[0]) + if |rows| == 1 then [Closing(obj)] else "," + SpellRows(obj, rows[1..])
  }

  function SpellRow(row: Row): string
    decreases row
  {
    (if row.key.Some? then SpellKey(row.key.value) else "") + (row.before + (Spell(row.value) + row.after))
  }

  // ----- which trees there are -----

  predicate IsBlank(c: char) { c == ' ' || c == '\t' || c == '\n' || c == '\r' }

  predicate Blank(s: string) { forall k :: 0 <= k < |s| ==> IsBlank(s[k]) }

  /** Letters, digits and some signs make up literals, numbers and keys without quotes. */
  predicate IsWordChar(c: char) {
    'a' <= c <= 'z' || 'A' <= c <= 'Z' || '0' <= c <= '9' || c == '_' || c == '`' || c == '+' || c == '-' || c == '.'
  }

  predicate AllWordChars(s: string) { forall k :: 0 <= k < |s| ==> IsWordChar(s[k]) }

  predicate IsQuoteMark(c: char) { c == '"' || c == '\'' }

  /** What an escape stands for. */
  predicate EscapeMeans(e: char, c: char) {
    || ((e == '"' || e == '\\' || e == '/') && c == e)
    || (e == 'b' && c == 8 as char) || (e == 'f' && c == 12 as char)
    || (e == 'n' && c == '\n') || (e == 'r' && c == '\r') || (e == 't' && c == '\t')
  }

  predicate LetterValid(quote: char, l: Letter) {
    match l
    case Raw(c) => c != quote && c != '\\' && c != '\0'
    case Escaped(e) => e == '"' || e == '\\' || e == '/' || e == 'b' || e == 'f' || e == 'n' || e == 'r' || e == 't'
  }

  predicate QuotedValid(quote: char, letters: seq<Letter>) {
    IsQuoteMark(quote) && forall k :: 0 <= k < |letters| ==> LetterValid(quote, letters[k])
  }

  predicate NameValid(name: Name) {
    match name
    case QuotedName(quote, letters) => QuotedValid(quote, letters)
    case BareName(token) => token != "" && AllWordChars(token)
  }

  const WORD_MAX: nat := 63

  ghost predicate Numeric(token: string, r: Numeral) {
    r != NotANumber && exists n, junk :: token == Spelling(n) + junk && IsNumeral(n) && StandsFor(n, junk, r)
  }

  /** Four characters that start with t are true, five with f false, four with n null; everything else
      must be a number. */
  ghost predicate WordValid(token: string) {
    && 0 < |token| <= WORD_MAX && AllWordChars(token)
    && if token[0] == 't' || token[0] == 'n' then |token| == 4 else if token[0] == 'f' then |token| == 5
       else exists r :: Numeric(token, r)
  }

  ghost predicate Valid(c: Syntax)
    decreases c
  {
    match c
    case Word(token) => WordValid(token)
    case Quoted(quote, letters) => QuotedValid(quote, letters)
    case Rows(obj, rows, blanks) => Blank(blanks) && forall k :: 0 <= k < |rows| ==> RowValid(obj, rows[k])
  }

  ghost predicate RowValid(obj: bool, row: Row)
    decreases row
  {
    && row.key.Some? == obj && Blank(row.before) && Valid(row.value) && Blank(row.after)
    && (obj ==> Blank(row.key.value.before) && NameValid(row.key.value.name) && Blank(row.key.value.after))
  }

  // ----- what trees stand for -----

  function LetterMeaning(l: Letter): char {
    match l
    case Raw(c) => c
    case Escaped(e) => if e == 'b' then 8 as char else if e == 'f' then 12 as char else if e == 'n' then '\n' else if e == 'r' then '\r' else if e == 't' then '\t' else e
  }

  function TextOf(letters: seq<Letter>): string {
    seq(|letters|, k requires 0 <= k < |letters| => LetterMeaning(letters[k]))
  }

  function NameText(name: Name): string {
    match name
    case QuotedName(_, letters) => TextOf(letters)
    case BareName(token) => token
  }

  function NumberValue(r: Numeral): Value {
    match r
    case Integer(negative, n) => if negative then Neg(n) else Pos(n)
    case Fractional(number) => Float(number)
    case NotANumber => Null
  }

  /** A null leaves what was there before: nothing, or the value of a member with the same key. */
  ghost function WordMeaning(token: string, prior: Value): Value
    requires WordValid(token)
  {
    if token[0] == 't' then Bool(true)
    else if token[0] == 'f' then Bool(false)
    else if token[0] == 'n' then prior
    else
      var r :| Numeric(token, r);
      NumberValue(r)
  }

  ghost function Meaning(c: Syntax, prior: Value): Value
    requires Valid(c)
    decreases c
  {
    match c
    case Word(token) => WordMeaning(token, prior)
    case Quoted(_, letters) => Str(TextOf(letters))
    case Rows(obj, rows, _) => Wrap(obj, RowsMeaning(obj, rows, []))
  }

  ghost function RowsMeaning(obj: bool, rows: seq<Row>, slots: seq<Slot>): seq<Slot>
    requires forall k :: 0 <= k < |rows| ==> RowValid(obj, rows[k])
    decreases rows
  {
    if rows == [] then slots else RowsMeaning(obj, rows[1..], RowMeaning(obj, rows[0], slots))
  }

  /** A member whose key is there already goes into the first slot with that key. */
  ghost function RowMeaning(obj: bool, row: Row, slots: seq<Slot>): seq<Slot>
    requires RowValid(obj, row)
    decreases row
  {
    if !obj then slots + [Element(Meaning(row.value, Null))]
    else
      var k, name := Find(slots, NameText(row.key.value.name)), NameText(row.key.value.name);
      if k < |slots| then slots[k := slots[k].(value := Meaning(row.value, slots[k].value))]
      else slots + [Member(name, Meaning(row.value, Null))]
  }

  // ----- what trees need -----

  function Depth(c: Syntax): nat
    decreases c
  {
    if c.Rows? then 1 + RowsDepth(c.rows) else 0
  }

  function RowsDepth(rows: seq<Row>): nat
    decreases rows
  {
    if rows == [] then 0
    else
      var d, rest := RowDepth(rows[0]), RowsDepth(rows[1..]);
      if d > rest then d else rest
  }

  function RowDepth(row: Row): nat
    decreases row
  {
    Depth(row.value)
  }

  /** The room in the pool: a slot for each row but for a key that is there already, and every key and
      string with its NUL if they are copied. */
  ghost function Cost(copies: bool, c: Syntax): nat
    requires Valid(c)
    decreases c
  {
    match c
    case Word(_) => 0
    case Quoted(_, letters) => TextNeed(copies, TextOf(letters))
    case Rows(obj, rows, _) => RowsCost(copies, obj, rows, [])
  }

  ghost function RowsCost(copies: bool, obj: bool, rows: seq<Row>, slots: seq<Slot>): nat
    requires forall k :: 0 <= k < |rows| ==> RowValid(obj, rows[k])
    decreases rows
  {
    if rows == [] then 0
    else RowCost(copies, obj, rows[0], slots) + RowsCost(copies, obj, rows[1..], RowMeaning(obj, rows[0], slots))
  }

  ghost function RowCost(copies: bool, obj: bool, row: Row, slots: seq<Slot>): nat
    requires RowValid(obj, row)
    decreases row
  {
    RowHeadCost(copies, obj, row, slots) + Cost(copies, row.value)
  }

  function RowHeadCost(copies: bool, obj: bool, row: Row, slots: seq<Slot>): nat
    requires row.key.Some? == obj
  {
    if !obj then SLOT_SIZE
    else
      var name := NameText(row.key.value.name);
      TextNeed(copies, name) + if Find(slots, name) < |slots| then 0 else SLOT_SIZE
  }

  // ----- the texts of RFC 8259 -----

  /** Section 7: what must be escaped is, and nothing else has a backslash. */
  predicate StrictLetter(l: Letter) {
    match l
    case Raw(c) => ' ' <= c && c != '"' && c != '\\'
    case Escaped(e) => e == '"' || e == '\\' || e == '/' || e == 'b' || e == 'f' || e == 'n' || e == 'r' || e == 't'
  }

  predicate StrictText(quote: char, letters: seq<Letter>) {
    quote == '"' && forall k :: 0 <= k < |letters| ==> StrictLetter(letters[k])
  }

  predicate StrictName(name: Name) { name.QuotedName? && StrictText(name.quote, name.letters) }

  /** Section 6: no plus in front, no leading zero, and digits wherever there may be some. */
  predicate StrictNumeral(n: Numerals) {
    && IsNumeral(n) && n.sign != "+" && n.whole != "" && (n.whole[0] == '0' ==> n.whole == "0")
    && (n.point ==> n.fraction != "") && (n.mark != "" ==> n.exponent != "")
  }

  ghost predicate StrictWord(token: string) {
    token == "true" || token == "false" || token == "null" || exists n :: StrictNumeral(n) && token == Spelling(n)
  }

  /** A text of RFC 8259; it has no escapes of four hexadecimal digits, which these trees do not cover. */
  ghost predicate Strict(c: Syntax)
    decreases c
  {
    match c
    case Word(token) => StrictWord(token)
    case Quoted(quote, letters) => StrictText(quote, letters)
    case Rows(obj, rows, blanks) => Blank(blanks) && forall k :: 0 <= k < |rows| ==> StrictRow(obj, rows[k])
  }

  ghost predicate StrictRow(obj: bool, row: Row)
    decreases row
  {
    && row.key.Some? == obj && Blank(row.before) && Strict(row.value) && Blank(row.after)
    && (obj ==> Blank(row.key.value.before) && StrictName(row.key.value.name) && Blank(row.key.value.after))
  }

  /** No word is longer than the parser's buffer. */
  predicate WordsFit(c: Syntax)
    decreases c
  {
    match c
    case Word(token) => |token| <= WORD_MAX
    case Quoted(_, _) => true
    case Rows(_, rows, _) => forall k :: 0 <= k < |rows| ==> RowFits(rows[k])
  }

  predicate RowFits(row: Row)
    decreases row
  {
    WordsFit(row.value)
  }
}
