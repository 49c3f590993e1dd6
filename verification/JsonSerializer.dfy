/** The compact and the pretty JSON serializers. */
module JsonSerializer {
  import opened Arithmetic
  import opened Document
  import opened Numbers
  import opened JsonGrammar
  import opened JsonPrinter
  import opened StaticWriter

  class Serializer {
    const writer: StaticStringWriter
    const style: Style
    var length: nat
    var nesting: nat
    /** Everything that was handed to the writer. */
    ghost var emitted: string

    ghost predicate Valid()
      reads this, writer, writer.buffer
    {
      && writer.Valid() && nesting < 256
      && writer.Contents() == Clip(emitted, writer.Capacity())
      && length == writer.p
    }

    constructor (writer: StaticStringWriter, style: Style)
      requires writer.Valid() && writer.Contents() == ""
      ensures this.writer == writer && this.style == style && Valid() && emitted == "" && nesting == 0
    {
      this.writer, this.style := writer, style;
      length, nesting, emitted := 0, 0, "";
    }

    method WriteRaw(s: string)
      requires Valid()
      modifies this`length, this`emitted, writer, writer.buffer
      ensures Valid() && emitted == old(emitted) + s
    {
      var n := writer.Write(s);
      length := length + n;
      emitted := emitted + s;
      ClipTwice(old(emitted), s, writer.Capacity());
    }

    method WriteChar(c: char)
      requires Valid()
      modifies this`length, this`emitted, writer, writer.buffer
      ensures Valid() && emitted == old(emitted) + [c]
    {
      var n := writer.WriteChar(c);
      length := length + n;
      emitted := emitted + [c];
      ClipTwice(old(emitted), [c], writer.Capacity());
    }

    method WriteEscaped(c: char)
      requires Valid()
      modifies this`length, this`emitted, writer, writer.buffer
      ensures Valid() && emitted == old(emitted) + EscapeChar(c)
    {
      var special := Escape(c);
      if special != '\0' {
        WriteChar('\\');
        WriteChar(special);
      } else {
        WriteChar(c);
      }
    }

    method WriteString(text: string)
      requires Valid()
      modifies this`length, this`emitted, writer, writer.buffer
      ensures Valid() && emitted == old(emitted) + PrintText(text)
    {
      hide Escape, EscapeChar, Clip;
      WriteChar('\"');
      ghost var start := emitted;
      var i := 0;
      while i < |text|
        invariant i <= |text| && Valid()
        invariant emitted + EscapeText(text[i..]) == start + EscapeText(text)
      {
        assert text[i..][1..] == text[i + 1..];
        WriteEscaped(text[i]);
        i := i + 1;
      }
      assert text[i..] == "" && EscapeText("") == "";
      assert emitted == start + EscapeText(text);
      WriteChar('\"');
      assert emitted == old(emitted) + PrintText(text);
    }

    /** Fills a local buffer of 22 characters from its end. */
    method WritePositiveInteger(n: nat)
      requires Valid() && n <= UINT_MAX
      modifies this`length, this`emitted, writer, writer.buffer
      ensures Valid() && emitted == old(emitted) + Digits(n)
    {
      var buffer := new char[22];
      UIntDigits(n);
      var begin: nat, value: nat := 21, n / 10;
      buffer[21] := DigitChar(n % 10);
      assert n >= 10 ==> Digits(n) == Digits(n / 10) + [DigitChar(n % 10)];
      assert buffer[21..] == [DigitChar(n % 10)];
      while value != 0
        invariant Valid() && emitted == old(emitted) && fresh(buffer)
        invariant 0 <= begin < 22
        invariant Digits(n) == (if value == 0 then "" else Digits(value)) + buffer[begin..]
        decreases value
      {
        assert |Digits(n)| <= 20;
        begin := begin - 1;
        buffer[begin] := DigitChar(value % 10);
        assert buffer[begin..] == [DigitChar(value % 10)] + buffer[begin + 1..];
        value := value / 10;
      }
      assert "" + buffer[begin..] == buffer[begin..];
      WriteRaw(buffer[begin..]);
    }

    method WriteTabs()
      requires Valid()
      modifies this`length, this`emitted, writer, writer.buffer
      ensures Valid() && emitted == old(emitted) + Indent(style, nesting)
    {
      if style.Pretty? {
        var i := 0;
        while i < nesting
          invariant i <= nesting && Valid()
          invariant emitted + Tabs(nesting - i) == old(emitted) + Tabs(nesting)
        {
          WriteRaw(TAB);
          i := i + 1;
        }
      }
    }

    method Visit(v: Value)
      requires Valid() && Clean(v)
      modifies this, writer, writer.buffer
      ensures Valid() && emitted == old(emitted) + Print(v, style, nesting) && nesting == old(nesting)
      decreases v, 1
    {
      match v
      case Null => WriteRaw("null");
      case Bool(flag) => WriteRaw(if flag then "true" else "false");
      case Pos(n) => WritePositiveInteger(n);
      case Neg(n) =>
        WriteChar('-');
        WritePositiveInteger(n);
        assert old(emitted) + "-" + Digits(n) == old(emitted) + ("-" + Digits(n));
      case Str(text) => WriteString(text);
      case Arr(slots) => VisitCollection(false, slots);
      case Obj(slots) => VisitCollection(true, slots);
    }

    /** Brackets around the slots; the pretty serializer puts each slot on a line of its own. */
    method VisitCollection(obj: bool, slots: seq<Slot>)
      requires Valid() && CleanSlots(obj, slots)
      modifies this, writer, writer.buffer
      ensures Valid() && emitted == old(emitted) + PrintCollection(obj, slots, style, nesting) && nesting == old(nesting)
      decreases slots, 1
    {
      hide PrintRows, Tabs, Clip, CleanSlots, Indent, Newline;
      ghost var e, rows := emitted, PrintRows(obj, slots, style, Deeper(nesting));
      WriteChar(Open(obj));
      if slots != [] {
        var outer := nesting;
        WriteRaw(Newline(style));
        nesting := Deeper(nesting);
        VisitSlots(obj, slots);
        nesting := outer;
        WriteTabs();
      }
      WriteChar(Close(obj));
      if slots == [] {
        Regroup(e, [Open(obj)], "", "", "", [Close(obj)]);
      } else {
        Regroup(e, [Open(obj)], Newline(style), rows, Indent(style, nesting), [Close(obj)]);
      }
    }

    method VisitSlots(obj: bool, slots: seq<Slot>)
      requires Valid() && CleanSlots(obj, slots)
      modifies this, writer, writer.buffer
      ensures Valid() && emitted == old(emitted) + PrintRows(obj, slots, style, nesting) && nesting == old(nesting)
      decreases slots, 0
    {
      hide PrintRows, Row, Clean;
      var k := 0;
      assert slots[0..] == slots;
      while k < |slots|
        invariant k <= |slots| && Valid() && nesting == old(nesting)
        invariant emitted + PrintRows(obj, slots[k..], style, nesting) == old(emitted) + PrintRows(obj, slots, style, nesting)
      {
        ghost var before := emitted;
        VisitSlot(obj, slots[k], k + 1 == |slots|);
        RowsStep(obj, slots, k, style, nesting);
        Behind(before, Row(obj, slots[k], k + 1 == |slots|, style, nesting), PrintRows(obj, slots[k + 1..], style, nesting));
        k := k + 1;
      }
      NoRows(obj, slots[k..], style, nesting);
    }

    method VisitSlot(obj: bool, slot: Slot, last: bool)
      requires Valid() && CleanSlot(obj, slot)
      modifies this, writer, writer.buffer
      ensures Valid() && nesting == old(nesting)
      ensures emitted == old(emitted) + Row(obj, slot, last, style, nesting)
      decreases slot, 1
    {
      hide PrintText, Tabs, Clip, Clean, Indent, Newline, Colon, Print;
      ghost var e, key := emitted, if obj then PrintText(slot.key) + Colon(style) else "";
      WriteTabs();
      if obj {
        WriteString(slot.key);
        WriteRaw(Colon(style));
        assert emitted == e + Indent(style, nesting) + key;
      }
      Visit(slot.value);
      if !last {
        WriteChar(',');
      }
      WriteRaw(Newline(style));
      Regroup(e, Indent(style, nesting), key, Print(slot.value, style, nesting), if last then "" else ",", Newline(style));
    }
  }

  lemma Regroup(e: string, a: string, b: string, c: string, d: string, f: string)
    ensures e + a + b + c + d + f == e + (a + (b + c + d) + f) == e + (a + (b + c) + d + f)
    ensures e + "" == e
  {
  }

  ghost function Row(obj: bool, slot: Slot, last: bool, style: Style, depth: nat): string
    requires CleanSlot(obj, slot)
  {
    Indent(style, depth) + PrintSlot(obj, slot, style, depth) + (if last then "" else ",") + Newline(style)
  }

  lemma Behind(a: string, b: string, c: string)
    ensures (a + b) + c == a + (b + c)
  {
  }

  lemma NoRows(obj: bool, slots: seq<Slot>, style: Style, depth: nat)
    requires slots == []
    ensures CleanSlots(obj, slots) && forall s: string :: s + PrintRows(obj, slots, style, depth) == s
  {
  }

  lemma RowsStep(obj: bool, slots: seq<Slot>, k: nat, style: Style, depth: nat)
    requires k < |slots| && CleanSlots(obj, slots)
    ensures PrintRows(obj, slots[k..], style, depth) ==
            Row(obj, slots[k], k + 1 == |slots|, style, depth) + PrintRows(obj, slots[k + 1..], style, depth)
  {
    assert slots[k..][1..] == slots[k + 1..];
  }

  /** Serializes into a buffer: the text is cut to fit before the NUL, and the number of
      characters kept is returned. */
  method SerializeJson(v: Value, style: Style, buffer: array<char>) returns (n: nat)
    requires Clean(v) && buffer.Length > 0
    modifies buffer
    ensures n == Min(|Print(v, style, 0)|, buffer.Length - 1)
    ensures buffer[..n] == Print(v, style, 0)[..n] && buffer[n] == '\0'
  {
    var writer := new StaticStringWriter(buffer);
    var serializer := new Serializer(writer, style);
    serializer.Visit(v);
    n := serializer.length;
    assert serializer.emitted == Print(v, style, 0);
    assert |writer.Contents()| == n;
  }
}
