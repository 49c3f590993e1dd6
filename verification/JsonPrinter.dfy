/** The text the JSON serializers write, as functions on the document. */
module JsonPrinter {
  import opened Document
  import opened Numbers
  import opened JsonGrammar

  datatype Style = Compact | Pretty

  function EscapeChar(c: char): string {
    if Escape(c) != '\0' then ['\\', Escape(c)] else [c]
  }

  function EscapeText(text: string): string {
    if text == "" then "" else EscapeChar(text[0]) + EscapeText(text[1..])
  }

  function PrintText(text: string): string {
    "\"" + EscapeText(text) + "\""
  }

  const TAB: string := "  "

  function Tabs(n: nat): string {
    if n == 0 then "" else TAB + Tabs(n - 1)
  }

  /** The pretty serializer counts its depth in eight bits. */
  function Deeper(depth: nat): nat { (depth + 1) % 256 }

  function Indent(style: Style, depth: nat): string {
    if style.Pretty? then Tabs(depth) else ""
  }

  function Newline(style: Style): string {
    if style.Pretty? then "\r\n" else ""
  }

  function Open(obj: bool): char { if obj then '{' else '[' }

  function Print(v: Value, style: Style, depth: nat): string
    requires Clean(v)
    decreases v
  {
    match v
    case Null => "null"
    case Bool(flag) => if flag then "true" else "false"
    case Pos(n) => Digits(n)
    case Neg(n) => "-" + Digits(n)
    case Str(text) => PrintText(text)
    case Arr(slots) => PrintCollection(false, slots, style, depth)
    case Obj(slots) => PrintCollection(true, slots, style, depth)
  }

  function PrintCollection(obj: bool, slots: seq<Slot>, style: Style, depth: nat): string
    requires CleanSlots(obj, slots)
    decreases slots, 1
  {
    [Open(obj)] +
    (if slots == [] then ""
     else Newline(style) + PrintRows(obj, slots, style, Deeper(depth)) + Indent(style, depth)) +
    [Close(obj)]
  }

  /** One line per slot, with a comma after all but the last. */
  function PrintRows(obj: bool, slots: seq<Slot>, style: Style, depth: nat): string
    requires CleanSlots(obj, slots)
    decreases slots, 0
  {
    if slots == [] then ""
    else
      Indent(style, depth) + PrintSlot(obj, slots[0], style, depth) +
      (if |slots| > 1 then "," else "") + Newline(style) +
      PrintRows(obj, slots[1..], style, depth)
  }

  function PrintSlot(obj: bool, slot: Slot, style: Style, depth: nat): string
    requires CleanSlot(obj, slot)
    decreases slot
  {
    (if obj then PrintText(slot.key) + Colon(style) else "") + Print(slot.value, style, depth)
  }

  function Colon(style: Style): string {
    if style.Pretty? then ": " else ":"
  }
}
