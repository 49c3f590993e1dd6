/** The MessagePack format as a relation between bytes and values, and what the deserializer decides of
    it: which bytes it accepts, as what value, and why it refuses the others. */
module MsgPackEncoding {
  import opened Arithmetic
  import opened Octets
  import opened Document
  import opened Occurrence
  import opened StoredDocument
  import opened MsgPackFormat
  import opened MsgPackRoundTrip

  // ----- the format -----

  /** A value in its bytes: a code and its payload, a string behind its header, or the rows of an array
      or an object behind theirs. */
  datatype Packed =
    | Scalar(code: byte, payload: seq<byte>)
    | Characters(head: seq<byte>, bytes: seq<byte>)
    | Rows(obj: bool, head: seq<byte>, rows: seq<PackedRow>)

  datatype PackedRow = PackedRow(key: Option<Packed>, value: Packed)

  function Encoding(c: Packed): seq<byte>
    decreases c
  {
    match c
    case Scalar(code, payload) => [code] + payload
    case Characters(head, bytes) => head + bytes
    case Rows(_, head, rows) => head + RowsEncoding(rows)
  }

  function RowsEncoding(rows: seq<PackedRow>): seq<byte>
    decreases rows
  {
    if rows == [] then [] else RowEncoding(rows[0]) + RowsEncoding(rows[1..])
  }

  function RowEncoding(row: PackedRow): seq<byte>
    decreases row, 1
  {
    KeyEncoding(row) + Encoding(row.value)
  }

  function KeyEncoding(row: PackedRow): seq<byte>
    decreases row, 0
  {
    if row.key.Some? then Encoding(row.key.value) else []
  }

  /** The number that bytes stand for, the most significant one first. */
  function Weigh(b: seq<byte>): nat {
    if b == [] then 0 else b[0] * Pow256(|b| - 1) + Weigh(b[1..])
  }

  /** The integer of a value. */
  predicate IsInteger(v: Value, r: int) {
    v == if r < 0 then Neg(0 - r) else Pos(r)
  }

  function IntegerOf(v: Value): int {
    match v
    case Pos(n) => n
    case Neg(n) => 0 - n
    case _ => 0
  }

  /** r is the integer in the range of that many bytes that agrees with them modulo their power. */
  predicate TwosComplement(r: int, b: seq<byte>) {
    var p: int := Pow256(|b|);
    -p <= 2 * r < p && (r - Weigh(b)) % p == 0
  }

  predicate Unsigned(code: byte, width: nat) {
    (code == 0xCC && width == 1) || (code == 0xCD && width == 2) || (code == 0xCE && width == 4) || (code == 0xCF && width == 8)
  }

  predicate SignedCode(code: byte, width: nat) {
    (code == 0xD0 && width == 1) || (code == 0xD1 && width == 2) || (code == 0xD2 && width == 4) || (code == 0xD3 && width == 8)
  }

  predicate ScalarMeans(code: byte, b: seq<byte>, v: Value) {
    || (code < 0x80 && b == [] && v == Pos(code))
    || (code >= 0xE0 && b == [] && IsInteger(v, code as int - 256))
    || (code == 0xC0 && b == [] && v == Null)
    || (code == 0xC2 && b == [] && v == Bool(false))
    || (code == 0xC3 && b == [] && v == Bool(true))
    || (Unsigned(code, |b|) && v == Pos(Weigh(b)))
    || (SignedCode(code, |b|) && IsInteger(v, IntegerOf(v)) && TwosComplement(IntegerOf(v), b))
    || (code == 0xCA && |b| == 4 && v == Float(Bits(32, Weigh(b))))
    || (code == 0xCB && |b| == 8 && v == Float(Bits(64, Weigh(b))))
  }

  /** A header: one byte with the size in its low bits, or a code and the size. */
  predicate TextHead(head: seq<byte>, n: nat) {
    || (|head| == 1 && n < 32 && head[0] == 0xA0 + n)
    || (|head| == 2 && head[0] == 0xD9 && Weigh(head[1..]) == n)
    || (|head| == 3 && head[0] == 0xDA && Weigh(head[1..]) == n)
    || (|head| == 5 && head[0] == 0xDB && Weigh(head[1..]) == n)
  }

  predicate SlotsHead(obj: bool, head: seq<byte>, n: nat) {
    || (|head| == 1 && n < 16 && head[0] == (if obj then 0x80 else 0x90) + n)
    || (|head| == 3 && head[0] == (if obj then 0xDE else 0xDC) && Weigh(head[1..]) == n)
    || (|head| == 5 && head[0] == (if obj then 0xDF else 0xDD) && Weigh(head[1..]) == n)
  }

  /** The characters are the bytes up to the first zero: a C string. */
  predicate TextMeans(b: seq<byte>, text: string) {
    && |text| <= |b| && NulFree(text) && (|text| < |b| ==> b[|text|] == 0)
    && forall k :: 0 <= k < |text| ==> text[k] as int == b[k]
  }

  /** The bytes of c stand for v. */
  predicate Means(c: Packed, v: Value)
    decreases c
  {
    match c
    case Scalar(code, b) => ScalarMeans(code, b, v)
    case Characters(head, b) => TextHead(head, |b|) && v.Str? && TextMeans(b, v.text)
    case Rows(obj, head, rows) =>
      && SlotsHead(obj, head, |rows|) && (if obj then v.Obj? else v.Arr?)
      && |v.slots| == |rows| && forall k :: 0 <= k < |rows| ==> RowMeans(obj, rows[k], v.slots[k])
  }

  predicate RowMeans(obj: bool, row: PackedRow, slot: Slot)
    decreases row
  {
    && row.key.Some? == obj == slot.Member?
    && (obj ==> row.key.value.Characters? && Means(row.key.value, Str(slot.key)))
    && Means(row.value, slot.value)
  }

  /** These bytes are a MessagePack form of the value. */
  ghost predicate Encodes(b: seq<byte>, v: Value) {
    exists c :: Encoding(c) == b && Means(c, v)
  }

  // ----- what a form needs -----

  function Depth(c: Packed): nat
    decreases c
  {
    if c.Rows? then 1 + RowsDepth(c.rows) else 0
  }

  function RowsDepth(rows: seq<PackedRow>): nat
    decreases rows
  {
    if rows == [] then 0
    else
      var d, rest := RowDepth(rows[0]), RowsDepth(rows[1..]);
      if d > rest then d else rest
  }

  function RowDepth(row: PackedRow): nat
    decreases row
  {
    Depth(row.value)
  }

  /** The room a form takes: a slot for each row, and the strings with their NUL if they are
      copied, also what lies behind a zero in them. */
  function Cost(copies: bool, c: Packed): nat
    decreases c
  {
    match c
    case Scalar(_, _) => 0
    case Characters(_, b) => if copies then |b| + 1 else 0
    case Rows(_, _, rows) => RowsCost(copies, rows)
  }

  function RowsCost(copies: bool, rows: seq<PackedRow>): nat
    decreases rows
  {
    if rows == [] then 0 else RowCost(copies, rows[0]) + RowsCost(copies, rows[1..])
  }

  function RowCost(copies: bool, row: PackedRow): nat
    decreases row, 1
  {
    SLOT_SIZE + KeyCost(copies, row) + Cost(copies, row.value)
  }

  function KeyCost(copies: bool, row: PackedRow): nat
    decreases row, 0
  {
    if row.key.Some? then Cost(copies, row.key.value) else 0
  }

  // ----- numbers -----

  lemma {:induction false} WeighConcat(a: seq<byte>, b: byte)
    ensures Weigh(a + [b]) == 256 * Weigh(a) + b
    decreases |a|
  {
    if a == [] {
      assert [b][1..] == [] && Pow256(0) == 1;
    } else {
      assert (a + [b])[1..] == a[1..] + [b];
      WeighConcat(a[1..], b);
      assert Pow256(|a|) == 256 * Pow256(|a| - 1);
      Times256(a[0], Pow256(|a| - 1));
    }
  }

  lemma Times256(x: int, p: int)
    ensures x * (256 * p) == 256 * (x * p)
  {
  }

  /** The deserializer's number is the one that the bytes stand for. */
  lemma {:induction false} WeighRead(b: seq<byte>)
    ensures FromBigEndian(b) == Weigh(b)
    decreases |b|
  {
    if b != [] {
      var n := |b| - 1;
      WeighRead(b[..n]);
      WeighConcat(b[..n], b[n]);
      assert b[..n] + [b[n]] == b;
    }
  }

  /** The two's complement is the only integer in its range. */
  lemma SignedRead(b: seq<byte>, v: Value)
    ensures v == SignedValue(b) <==> IsInteger(v, IntegerOf(v)) && TwosComplement(IntegerOf(v), b)
  {
    WeighRead(b);
    var n: int, p: int := Weigh(b), Pow256(|b|);
    var r := if 2 * n < p then n else n - p;
    Congruent(r - n, p);
    assert IsInteger(SignedValue(b), r) && IntegerOf(SignedValue(b)) == r;
    if IsInteger(v, IntegerOf(v)) && TwosComplement(IntegerOf(v), b) {
      OnlyOne(IntegerOf(v), r, n, p);
    }
  }

  lemma Congruent(d: int, p: int)
    requires p > 0 && (d == 0 || d + p == 0)
    ensures d % p == 0
  {
    assert d + p == 0 ==> d == p * (0 - 1) + 0;
  }

  lemma OnlyOne(r: int, q: int, n: int, p: int)
    requires p > 0 && (r - n) % p == 0 && (q - n) % p == 0
    requires -p <= 2 * r < p && -p <= 2 * q < p
    ensures r == q
  {
    var x, y := (r - n) / p, (q - n) / p;
    assert r - n == p * x && q - n == p * y;
    MultipleApart(p, x - y);
    assert r - q == p * (x - y) by { Distribute(p, x, y); }
  }

  lemma Distribute(p: int, x: int, y: int)
    ensures p * x - p * y == p * (x - y)
  {
  }

  // ----- every form is read -----

  lemma PayloadFound(s: seq<byte>, i: nat, head: seq<byte>, b: seq<byte>)
    requires head != [] && Occurs(s, i, head + b)
    ensures i + |head| + |b| <= |s| && s[i] == head[0] && s[i + 1..i + |head|] == head[1..] && s[i + |head|..i + |head| + |b|] == b
  {
    OccursConcat(s, i, head, b);
    OccursAt(s, i, head, 0);
    assert s[i..i + |head|][1..] == s[i + 1..i + |head|];
  }

  lemma ScalarDecoded(s: seq<byte>, i: nat, code: byte, b: seq<byte>, v: Value, limit: nat, mem: Memory)
    requires ScalarMeans(code, b, v) && Occurs(s, i, [code] + b)
    ensures i <= |s| && Unpack(s, i, limit, mem) == Outcome(Ok, v, i + 1 + |b|, mem)
  {
    PayloadFound(s, i, [code], b);
    WeighRead(b);
    SignedRead(b, v);
    hide Weigh, FromBigEndian, Pow256, TwosComplement, IsInteger, SignedValue;
    assert IsScalarCode(code) && ScalarWidth(code) == |b|;
    ScalarAgrees(code, b, v);
  }

  lemma ScalarAgrees(code: byte, b: seq<byte>, v: Value)
    requires IsScalarCode(code) && ScalarWidth(code) == |b|
    ensures v == ScalarValue(code, b) <==> ScalarMeans(code, b, v)
  {
    WeighRead(b);
    SignedRead(b, v);
    hide Weigh, FromBigEndian, Pow256, TwosComplement, SignedValue;
  }

  lemma {:induction false} TextAgrees(b: seq<byte>, text: string)
    ensures text == UpToNul(Chars(b)) <==> TextMeans(b, text)
    decreases |b|
  {
    var t := Chars(b);
    if b == [] {
      assert t == "";
    } else {
      assert t[1..] == Chars(b[1..]) && t[0] as int == b[0];
      if text != "" {
        TextAgrees(b[1..], text[1..]);
        assert text == [text[0]] + text[1..];
        if TextMeans(b, text) {
          assert text[0] in text && forall c :: c in text[1..] ==> c in text;
        }
      }
    }
  }

  /** A string as a value or as a key. */
  lemma CharactersDecoded(s: seq<byte>, i: nat, head: seq<byte>, b: seq<byte>, text: string, mem: Memory)
    requires TextHead(head, |b|) && TextMeans(b, text) && Occurs(s, i, head + b)
    ensures i < |s| && IsTextCode(s[i])
    ensures var r, cost := ReadText(s, i + 1, s[i], mem), if mem.copies then |b| + 1 else 0;
            if cost <= mem.room then r == TextOutcome(Ok, text, i + |head| + |b|, mem.Take(cost)) else r.err == NoMemory
  {
    hide Weigh, FromBigEndian, Chars, UpToNul;
    PayloadFound(s, i, head, b);
    WeighRead(head[1..]);
    TextAgrees(b, text);
  }

  // What the three kinds of forms are.

  lemma ScalarForm(c: Packed, v: Value)
    requires Means(c, v) && c.Scalar?
    ensures ScalarMeans(c.code, c.payload, v) && Encoding(c) == [c.code] + c.payload && Depth(c) == 0
    ensures forall copies :: Cost(copies, c) == 0
  {
    hide ScalarMeans;
  }

  lemma TextForm(c: Packed, v: Value)
    requires Means(c, v) && c.Characters?
    ensures TextHead(c.head, |c.bytes|) && v.Str? && TextMeans(c.bytes, v.text) && Encoding(c) == c.head + c.bytes && Depth(c) == 0
    ensures forall copies :: Cost(copies, c) == if copies then |c.bytes| + 1 else 0
  {
    hide TextHead, TextMeans;
  }

  lemma RowsForm(c: Packed, v: Value, copies: bool)
    requires Means(c, v) && c.Rows?
    ensures v == Wrap(c.obj, v.slots) && |v.slots| == |c.rows| && SlotsHead(c.obj, c.head, |c.rows|)
    ensures forall k :: 0 <= k < |c.rows| ==> RowMeans(c.obj, c.rows[k], v.slots[k])
    ensures Encoding(c) == c.head + RowsEncoding(c.rows) && Depth(c) == 1 + RowsDepth(c.rows) && Cost(copies, c) == RowsCost(copies, c.rows)
    ensures v.slots[..0] == [] && c.rows[0..] == c.rows
  {
    hide SlotsHead, RowMeans;
  }

  lemma {:induction false} FormDecoded(s: seq<byte>, i: nat, c: Packed, v: Value, limit: nat, mem: Memory)
    requires Means(c, v) && Occurs(s, i, Encoding(c))
    ensures i <= |s| && Decoded(Unpack(s, i, limit, mem), v, i + |Encoding(c)|, Depth(c), Cost(mem.copies, c), limit, mem)
    decreases c, 1
  {
    hide Means, Encoding, Unpack, UnpackRows, Depth, Cost, ScalarMeans, TextHead, TextMeans, SlotsHead, RowMeans, Occurs;
    match c
    case Scalar(code, b) =>
      ScalarForm(c, v);
      ScalarDecoded(s, i, code, b, v, limit, mem);
    case Characters(head, b) =>
      TextForm(c, v);
      TextDecoded(s, i, head, b, v.text, limit, mem);
    case Rows(obj, head, rows) =>
      RowsForm(c, v, mem.copies);
      HeadRead(s, i, obj, head, RowsEncoding(rows), |rows|, limit, mem);
      if limit > 0 {
        OccursConcat(s, i, head, RowsEncoding(rows));
        RowsDecoded(obj, s, i + |head|, rows, v.slots, 0, limit, mem);
      }
  }

  lemma TextDecoded(s: seq<byte>, i: nat, head: seq<byte>, b: seq<byte>, text: string, limit: nat, mem: Memory)
    requires TextHead(head, |b|) && TextMeans(b, text) && Occurs(s, i, head + b)
    ensures i < |s| && Decoded(Unpack(s, i, limit, mem), Str(text), i + |head| + |b|, 0, if mem.copies then |b| + 1 else 0, limit, mem)
  {
    hide TextHead, TextMeans, ReadText;
    CharactersDecoded(s, i, head, b, text, mem);
    TextIsNoScalar(s[i]);
  }

  lemma TextIsNoScalar(code: byte)
    ensures IsTextCode(code) ==> !IsScalarCode(code)
  {
  }

  lemma HeadRead(s: seq<byte>, i: nat, obj: bool, head: seq<byte>, rest: seq<byte>, n: nat, limit: nat, mem: Memory)
    requires SlotsHead(obj, head, n) && Occurs(s, i, head + rest)
    ensures i + |head| <= |s|
    ensures Unpack(s, i, limit, mem) == if limit == 0 then Outcome(TooDeep, Wrap(obj, []), i, mem) else UnpackRows(obj, n, s, i + |head|, limit, mem, [])
  {
    PayloadFound(s, i, head, rest);
    WeighRead(head[1..]);
    hide Weigh, FromBigEndian;
    assert s[i] == head[0] && !IsScalarCode(s[i]) && !IsTextCode(s[i]) && IsObjectCode(s[i]) == obj && IsArrayCode(s[i]) == !obj;
    assert SlotsWidth(s[i]) == |head| - 1;
  }

  /** The rows that remain, after the first k. */
  lemma {:induction false} RowsDecoded(obj: bool, s: seq<byte>, i: nat, rows: seq<PackedRow>, slots: seq<Slot>, k: nat, limit: nat, mem: Memory)
    requires k <= |rows| == |slots| && limit > 0 && Occurs(s, i, RowsEncoding(rows[k..]))
    requires forall j :: 0 <= j < |rows| ==> RowMeans(obj, rows[j], slots[j])
    ensures i <= |s|
    ensures Decoded(UnpackRows(obj, |rows| - k, s, i, limit, mem, slots[..k]), Wrap(obj, slots), i + |RowsEncoding(rows[k..])|,
                    RowsDepth(rows[k..]), RowsCost(mem.copies, rows[k..]), limit - 1, mem)
    decreases rows[k..]
  {
    hide UnpackRow, UnpackHead, RowMeans, RowEncoding, RowCost, RowDepth;
    if k == |rows| {
      assert slots[..k] == slots;
    } else {
      var row, slot, c := rows[k], slots[k], mem.copies;
      assert rows[k..][1..] == rows[k + 1..];
      OccursConcat(s, i, RowEncoding(row), RowsEncoding(rows[k + 1..]));
      RowDecoded(obj, |rows| - k, s, i, row, slot, slots[..k], limit, mem);
      assert slots[..k] + [slot] == slots[..k + 1];
      if RowDepth(row) <= limit - 1 && RowCost(c, row) <= mem.room {
        RowsDecoded(obj, s, i + |RowEncoding(row)|, rows, slots, k + 1, limit, mem.Take(RowCost(c, row)));
      }
    }
  }

  /** One row, and then the others; or the limit or the room is too small for it. */
  lemma {:induction false} RowDecoded(obj: bool, n: nat, s: seq<byte>, i: nat, row: PackedRow, slot: Slot, done: seq<Slot>, limit: nat, mem: Memory)
    requires RowMeans(obj, row, slot) && limit > 0 && n > 0 && Occurs(s, i, RowEncoding(row))
    ensures i + |RowEncoding(row)| <= |s|
    ensures var r := UnpackRows(obj, n, s, i, limit, mem, done);
            if RowDepth(row) <= limit - 1 && RowCost(mem.copies, row) <= mem.room then
              r == UnpackRows(obj, n - 1, s, i + |RowEncoding(row)|, limit, mem.Take(RowCost(mem.copies, row)), done + [slot])
            else (r.err == TooDeep && RowDepth(row) > limit - 1) || (r.err == NoMemory && RowCost(mem.copies, row) > mem.room)
    decreases row
  {
    hide Means, Encoding, KeyEncoding, Unpack, UnpackHead, Depth, Cost, KeyCost, Occurs;
    OccursConcat(s, i, KeyEncoding(row), Encoding(row.value));
    HeadDecoded(obj, s, i, row, slot, done, mem);
    var need := SLOT_SIZE + KeyCost(mem.copies, row);
    if need <= mem.room {
      FormDecoded(s, i + |KeyEncoding(row)|, row.value, slot.value, limit - 1, mem.Take(need));
      var h := UnpackHead(obj, s, i, mem, done);
      assert SetValue(h.slots, h.k, slot.value) == done + [slot];
    }
  }

  lemma {:induction false} HeadDecoded(obj: bool, s: seq<byte>, i: nat, row: PackedRow, slot: Slot, done: seq<Slot>, mem: Memory)
    requires RowMeans(obj, row, slot) && Occurs(s, i, KeyEncoding(row))
    ensures i + |KeyEncoding(row)| <= |s|
    ensures var h, need := UnpackHead(obj, s, i, mem, done), SLOT_SIZE + KeyCost(mem.copies, row);
            if need <= mem.room then h == Head(Ok, done + [slot.(value := Null)], |done|, i + |KeyEncoding(row)|, mem.Take(need))
            else h.err == NoMemory
    decreases row, 0
  {
    if obj && SLOT_SIZE <= mem.room {
      var key := row.key.value;
      CharactersDecoded(s, i, key.head, key.bytes, slot.key, mem.Take(SLOT_SIZE));
    }
  }

  // ----- what is read has a form -----

  lemma Spliced(s: seq<byte>, i: nat, j: nat, k: nat)
    requires i <= j <= k <= |s|
    ensures s[i..k] == s[i..j] + s[j..k]
  {
  }

  lemma ScalarFound(s: seq<byte>, i: nat, mem: Memory) returns (c: Packed)
    requires i < |s| && IsScalarCode(s[i]) && UnpackScalar(s, i, mem).err == Ok
    ensures var r := UnpackScalar(s, i, mem); c.Scalar? && Means(c, r.value) && s[i..r.pos] == Encoding(c)
  {
    var w := ScalarWidth(s[i]);
    c := Scalar(s[i], s[i + 1..i + 1 + w]);
    ScalarAgrees(s[i], s[i + 1..i + 1 + w], ScalarValue(s[i], s[i + 1..i + 1 + w]));
    Spliced(s, i, i + 1, i + 1 + w);
    assert s[i..i + 1] == [s[i]];
  }

  lemma CharactersFound(s: seq<byte>, i: nat, mem: Memory) returns (c: Packed)
    requires i < |s| && IsTextCode(s[i]) && ReadText(s, i + 1, s[i], mem).err == Ok
    ensures var r := ReadText(s, i + 1, s[i], mem); c.Characters? && Means(c, Str(r.text)) && i <= r.pos <= |s| && s[i..r.pos] == Encoding(c)
  {
    hide Weigh, FromBigEndian, UpToNul, Chars, TextMeans;
    var r, w := ReadText(s, i + 1, s[i], mem), TextWidth(s[i]);
    var head, b := s[i..i + 1 + w], s[i + 1 + w..r.pos];
    c := Characters(head, b);
    assert head[1..] == s[i + 1..i + 1 + w];
    WeighRead(head[1..]);
    TextAgrees(b, r.text);
    Spliced(s, i, i + 1 + w, r.pos);
  }

  lemma {:induction false} FormFound(s: seq<byte>, i: nat, limit: nat, mem: Memory) returns (c: Packed)
    requires i <= |s| && Unpack(s, i, limit, mem).err == Ok
    ensures var r := Unpack(s, i, limit, mem); Means(c, r.value) && s[i..r.pos] == Encoding(c)
    decreases limit, 1, 1
  {
    hide Means, Encoding, UnpackScalar, ReadText, UnpackCollection;
    if IsScalarCode(s[i]) {
      c := ScalarFound(s, i, mem);
    } else if IsTextCode(s[i]) {
      c := CharactersFound(s, i, mem);
    } else {
      c := CollectionFound(IsObjectCode(s[i]), s, i, limit, mem);
    }
  }

  lemma {:induction false} CollectionFound(obj: bool, s: seq<byte>, i: nat, limit: nat, mem: Memory) returns (c: Packed)
    requires i < |s| && (if obj then IsObjectCode(s[i]) else IsArrayCode(s[i])) && UnpackCollection(obj, s, i, limit, mem).err == Ok
    ensures var r := UnpackCollection(obj, s, i, limit, mem); Means(c, r.value) && s[i..r.pos] == Encoding(c)
    decreases limit, 1, 0
  {
    hide UnpackRows, RowMeans, RowsEncoding, FromBigEndian;
    var w := SlotsWidth(s[i]);
    var n := if w == 0 then s[i] % 0x10 else FromBigEndian(s[i + 1..i + 1 + w]);
    SlotsHeadFound(obj, s, i);
    var rows := RowsFound(obj, n, s, i + 1 + w, limit, mem, []);
    c := Rows(obj, s[i..i + 1 + w], rows);
    Spliced(s, i, i + 1 + w, UnpackCollection(obj, s, i, limit, mem).pos);
  }

  lemma SlotsHeadFound(obj: bool, s: seq<byte>, i: nat)
    requires i < |s| && (if obj then IsObjectCode(s[i]) else IsArrayCode(s[i])) && i + 1 + SlotsWidth(s[i]) <= |s|
    ensures var w := SlotsWidth(s[i]); SlotsHead(obj, s[i..i + 1 + w], if w == 0 then s[i] % 0x10 else FromBigEndian(s[i + 1..i + 1 + w]))
  {
    hide Weigh, FromBigEndian;
    var w := SlotsWidth(s[i]);
    var head := s[i..i + 1 + w];
    assert head[1..] == s[i + 1..i + 1 + w] && head[0] == s[i];
    WeighRead(head[1..]);
  }

  lemma {:induction false} RowsFound(obj: bool, n: nat, s: seq<byte>, i: nat, limit: nat, mem: Memory, done: seq<Slot>) returns (rows: seq<PackedRow>)
    requires i <= |s| && limit > 0 && UnpackRows(obj, n, s, i, limit, mem, done).err == Ok
    ensures var r := UnpackRows(obj, n, s, i, limit, mem, done);
            && (if obj then r.value.Obj? else r.value.Arr?) && |rows| == n && |r.value.slots| == |done| + n && done <= r.value.slots
            && (forall k :: 0 <= k < n ==> RowMeans(obj, rows[k], r.value.slots[|done| + k]))
            && s[i..r.pos] == RowsEncoding(rows)
    decreases limit, 0, n, 1
  {
    hide RowMeans, RowEncoding, UnpackHead, UnpackRow;
    if n == 0 {
      rows := [];
      assert s[i..i] == [];
    } else {
      var all := UnpackRows(obj, n, s, i, limit, mem, done);
      var row, slot, p, left := RowFound(obj, n, s, i, limit, mem, done);
      var rest := RowsFound(obj, n - 1, s, p, limit, left, done + [slot]);
      rows := [row] + rest;
      Spliced(s, i, p, all.pos);
      assert rows[1..] == rest;
      forall k | 0 <= k < n
        ensures RowMeans(obj, rows[k], all.value.slots[|done| + k])
      {
        if k > 0 {
          assert rows[k] == rest[k - 1] && |done + [slot]| + (k - 1) == |done| + k;
        } else {
          assert (done + [slot])[|done|] == slot;
        }
      }
    }
  }

  /** The first row, where it ends, and the room that is left. */
  lemma {:induction false} RowFound(obj: bool, n: nat, s: seq<byte>, i: nat, limit: nat, mem: Memory, done: seq<Slot>)
    returns (row: PackedRow, slot: Slot, p: nat, left: Memory)
    requires i <= |s| && limit > 0 && n > 0 && UnpackRows(obj, n, s, i, limit, mem, done).err == Ok
    ensures i <= p <= |s| && s[i..p] == RowEncoding(row) && RowMeans(obj, row, slot)
    ensures UnpackRows(obj, n, s, i, limit, mem, done) == UnpackRows(obj, n - 1, s, p, limit, left, done + [slot])
    decreases limit, 0, n, 0
  {
    hide UnpackHead, Unpack, Means, Encoding;
    var h := UnpackHead(obj, s, i, mem, done);
    var r := Unpack(s, h.pos, limit - 1, h.mem);
    var key := KeyFound(obj, s, i, mem, done);
    var c := FormFound(s, h.pos, limit - 1, h.mem);
    row, slot, p, left := PackedRow(key, c), h.slots[|done|].(value := r.value), r.pos, r.mem;
    assert SetValue(h.slots, h.k, r.value) == done + [slot];
    Spliced(s, i, h.pos, p);
  }

  lemma KeyFound(obj: bool, s: seq<byte>, i: nat, mem: Memory, done: seq<Slot>) returns (key: Option<Packed>)
    requires i <= |s| && UnpackHead(obj, s, i, mem, done).err == Ok
    ensures var h := UnpackHead(obj, s, i, mem, done);
            && |h.slots| == |done| + 1 && h.slots[..|done|] == done && h.k == |done|
            && key.Some? == obj == h.slots[|done|].Member?
            && (obj ==> key.value.Characters? && Means(key.value, Str(h.slots[|done|].key)))
            && s[i..h.pos] == if key.Some? then Encoding(key.value) else []
  {
    key := None;
    if obj {
      var c := CharactersFound(s, i, mem.Take(SLOT_SIZE));
      key := Some(c);
    }
  }

  /** For all bytes: the deserializer reads a value exactly when the bytes start with a form of it that
      is not too deep and fits in the pool. */
  lemma UnpackDecides(s: seq<byte>, limit: nat, mem: Memory, v: Value, end: nat)
    requires end <= |s|
    ensures (Unpack(s, 0, limit, mem).err == Ok && Unpack(s, 0, limit, mem).value == v && Unpack(s, 0, limit, mem).pos == end) <==>
            exists c :: Encoding(c) == s[..end] && Means(c, v) && Depth(c) <= limit && Cost(mem.copies, c) <= mem.room
  {
    hide Means, Encoding, Unpack, Depth, Cost;
    var r := Unpack(s, 0, limit, mem);
    if r.err == Ok && r.value == v && r.pos == end {
      var c := FormFound(s, 0, limit, mem);
      assert s[0..end] == s[..end];
      FormDecoded(s, 0, c, v, limit, mem);
    }
    if c :| Encoding(c) == s[..end] && Means(c, v) && Depth(c) <= limit && Cost(mem.copies, c) <= mem.room {
      assert s[0..0 + |Encoding(c)|] == Encoding(c);
      FormDecoded(s, 0, c, v, limit, mem);
    }
  }

  // ----- why other bytes are refused -----

  /** Codes that stand for nothing this deserializer knows: one is unused, the others are for binary
      data and extensions. */
  lemma OtherCodes(s: seq<byte>, i: nat, limit: nat, mem: Memory)
    requires i < |s|
    ensures s[i] == 0xC1 || 0xC4 <= s[i] <= 0xC9 || 0xD4 <= s[i] <= 0xD8 <==> Unpack(s, i, limit, mem) == Outcome(NotSupported, Null, i, mem)
  {
  }

  lemma HeadCut(s: seq<byte>, i: nat, head: seq<byte>)
    requires head != [] && Begins(s, i, head)
    ensures i < |s| ==> s[i] == head[0]
  {
    assert i < |s| ==> s[i..][0] == s[i];
  }

  lemma CharactersCut(s: seq<byte>, i: nat, head: seq<byte>, b: seq<byte>, mem: Memory)
    requires TextHead(head, |b|) && Begins(s, i, head + b)
    ensures i < |s| ==> IsTextCode(s[i]) && ReadText(s, i + 1, s[i], mem).err == IncompleteInput
  {
    BeginsConcat(s, i, head, b);
    if |s| - i < |head| {
      HeadCut(s, i, head);
    } else {
      PayloadFound(s, i, head, []) by { assert head + [] == head; }
      WeighRead(head[1..]);
    }
    hide Weigh, FromBigEndian;
  }

  lemma ScalarCut(s: seq<byte>, i: nat, code: byte, b: seq<byte>, v: Value, limit: nat, mem: Memory)
    requires ScalarMeans(code, b, v) && i < |s| && Begins(s, i, [code] + b)
    ensures Unpack(s, i, limit, mem).err == IncompleteInput
  {
    BeginsConcat(s, i, [code], b);
    OccursAt(s, i, [code], 0);
    assert IsScalarCode(code) && ScalarWidth(code) == |b|;
  }

  lemma TextCut(s: seq<byte>, i: nat, head: seq<byte>, b: seq<byte>, limit: nat, mem: Memory)
    requires TextHead(head, |b|) && i < |s| && Begins(s, i, head + b)
    ensures Unpack(s, i, limit, mem).err == IncompleteInput
  {
    hide TextHead, ReadText;
    CharactersCut(s, i, head, b, mem);
    TextIsNoScalar(s[i]);
  }

  lemma SlotsHeadCut(s: seq<byte>, i: nat, obj: bool, head: seq<byte>, n: nat, limit: nat, mem: Memory)
    requires SlotsHead(obj, head, n) && i < |s| < i + |head| && Begins(s, i, head)
    ensures Unpack(s, i, limit, mem).err == IncompleteInput
  {
    HeadCut(s, i, head);
  }

  lemma KeyCut(obj: bool, s: seq<byte>, i: nat, row: PackedRow, slot: Slot, done: seq<Slot>, mem: Memory)
    requires RowMeans(obj, row, slot) && Begins(s, i, KeyEncoding(row)) && SLOT_SIZE <= mem.room
    ensures UnpackHead(obj, s, i, mem, done).err == IncompleteInput
  {
    hide TextHead, TextMeans, ReadText;
    var key := row.key.value;
    TextForm(key, Str(slot.key));
    CharactersCut(s, i, key.head, key.bytes, mem.Take(SLOT_SIZE));
  }

  /** Every form that is cut off is incomplete input, wherever it is cut. */
  lemma {:induction false} FormCut(s: seq<byte>, i: nat, c: Packed, v: Value, limit: nat, mem: Memory)
    requires Means(c, v) && Begins(s, i, Encoding(c)) && Depth(c) <= limit && Cost(mem.copies, c) <= mem.room
    ensures Unpack(s, i, limit, mem).err == IncompleteInput
    decreases c, 1
  {
    if i < |s| {
      FormCutInside(s, i, c, v, limit, mem);
    }
  }

  lemma {:induction false} FormCutInside(s: seq<byte>, i: nat, c: Packed, v: Value, limit: nat, mem: Memory)
    requires Means(c, v) && i < |s| && Begins(s, i, Encoding(c)) && Depth(c) <= limit && Cost(mem.copies, c) <= mem.room
    ensures Unpack(s, i, limit, mem).err == IncompleteInput
    decreases c, 0
  {
    hide Means, Encoding, Unpack, UnpackRows, Depth, Cost, ScalarMeans, TextHead, TextMeans, SlotsHead, RowMeans, Occurs, Begins;
    match c
    case Scalar(code, b) =>
      ScalarForm(c, v);
      ScalarCut(s, i, code, b, v, limit, mem);
    case Characters(head, b) =>
      TextForm(c, v);
      TextCut(s, i, head, b, limit, mem);
    case Rows(obj, head, rows) =>
      RowsForm(c, v, mem.copies);
      BeginsConcat(s, i, head, RowsEncoding(rows));
      if |s| - i < |head| {
        SlotsHeadCut(s, i, obj, head, |rows|, limit, mem);
      } else {
        assert head + [] == head;
        HeadRead(s, i, obj, head, [], |rows|, limit, mem);
        RowsCut(obj, s, i + |head|, rows, v.slots, 0, limit, mem);
      }
  }

  lemma {:induction false} RowsCut(obj: bool, s: seq<byte>, i: nat, rows: seq<PackedRow>, slots: seq<Slot>, k: nat, limit: nat, mem: Memory)
    requires k <= |rows| == |slots| && limit > 0 && Begins(s, i, RowsEncoding(rows[k..]))
    requires forall j :: 0 <= j < |rows| ==> RowMeans(obj, rows[j], slots[j])
    requires RowsDepth(rows[k..]) <= limit - 1 && RowsCost(mem.copies, rows[k..]) <= mem.room
    ensures UnpackRows(obj, |rows| - k, s, i, limit, mem, slots[..k]).err == IncompleteInput
    decreases rows[k..]
  {
    hide UnpackRow, UnpackHead, RowMeans, RowEncoding, RowCost, RowDepth;
    if k < |rows| {
      var row, slot, c := rows[k], slots[k], mem.copies;
      assert rows[k..][1..] == rows[k + 1..];
      BeginsConcat(s, i, RowEncoding(row), RowsEncoding(rows[k + 1..]));
      if |s| - i < |RowEncoding(row)| {
        RowCut(obj, |rows| - k, s, i, row, slot, slots[..k], limit, mem);
      } else {
        RowDecoded(obj, |rows| - k, s, i, row, slot, slots[..k], limit, mem);
        assert slots[..k] + [slot] == slots[..k + 1];
        RowsCut(obj, s, i + |RowEncoding(row)|, rows, slots, k + 1, limit, mem.Take(RowCost(c, row)));
      }
    }
  }

  lemma {:induction false} RowCut(obj: bool, n: nat, s: seq<byte>, i: nat, row: PackedRow, slot: Slot, done: seq<Slot>, limit: nat, mem: Memory)
    requires RowMeans(obj, row, slot) && limit > 0 && n > 0 && Begins(s, i, RowEncoding(row))
    requires RowDepth(row) <= limit - 1 && RowCost(mem.copies, row) <= mem.room
    ensures UnpackRows(obj, n, s, i, limit, mem, done).err == IncompleteInput
    decreases row
  {
    hide Means, Encoding, KeyEncoding, Unpack, UnpackHead, Depth, Cost, KeyCost, Occurs, Begins;
    BeginsConcat(s, i, KeyEncoding(row), Encoding(row.value));
    if |s| - i < |KeyEncoding(row)| {
      KeyCut(obj, s, i, row, slot, done, mem);
    } else {
      HeadDecoded(obj, s, i, row, slot, done, mem);
      FormCut(s, i + |KeyEncoding(row)|, row.value, slot.value, limit - 1, mem.Take(SLOT_SIZE + KeyCost(mem.copies, row)));
    }
  }

  /** What is not supported starts with a code that is no string's: one of those above, or a key's.  What is
      too deep is an array or an object.  No input is invalid. */
  predicate Blames(s: seq<byte>, err: Error, pos: nat) {
    && (err == NotSupported ==> pos < |s| && !(0xA0 <= s[pos] < 0xC0) && !(0xD9 <= s[pos] <= 0xDB))
    && (err == TooDeep ==> pos < |s| && (0x80 <= s[pos] < 0xA0 || 0xDC <= s[pos] <= 0xDF))
    && err != InvalidInput
  }

  lemma HeadBlamed(obj: bool, s: seq<byte>, i: nat, mem: Memory, slots: seq<Slot>)
    requires i <= |s|
    ensures var h := UnpackHead(obj, s, i, mem, slots); Blames(s, h.err, h.pos)
  {
  }

  /** For all bytes: where the error points to. */
  lemma {:induction false} UnpackBlamed(s: seq<byte>, i: nat, limit: nat, mem: Memory)
    requires i <= |s|
    ensures var r := Unpack(s, i, limit, mem); Blames(s, r.err, r.pos)
    decreases limit, 1, 0
  {
    hide UnpackRows;
    if i < |s| && limit > 0 && (IsArrayCode(s[i]) || IsObjectCode(s[i])) {
      var w := SlotsWidth(s[i]);
      if i + 1 + w <= |s| {
        var n := if w == 0 then s[i] % 0x10 else FromBigEndian(s[i + 1..i + 1 + w]);
        RowsBlamed(IsObjectCode(s[i]), n, s, i + 1 + w, limit, mem, []);
      }
    }
  }

  lemma {:induction false} RowsBlamed(obj: bool, n: nat, s: seq<byte>, i: nat, limit: nat, mem: Memory, slots: seq<Slot>)
    requires i <= |s| && limit > 0
    ensures var r := UnpackRows(obj, n, s, i, limit, mem, slots); Blames(s, r.err, r.pos)
    decreases limit, 0, n
  {
    hide Blames, Unpack, UnpackHead;
    HeadBlamed(obj, s, i, mem, slots);
    var h := UnpackHead(obj, s, i, mem, slots);
    OkBlamesNothing(s, i);
    if n > 0 && h.err == Ok {
      UnpackBlamed(s, h.pos, limit - 1, h.mem);
      var r := Unpack(s, h.pos, limit - 1, h.mem);
      if r.err == Ok {
        RowsBlamed(obj, n - 1, s, r.pos, limit, r.mem, SetValue(h.slots, h.k, r.value));
      }
    }
  }

  lemma OkBlamesNothing(s: seq<byte>, pos: nat)
    ensures Blames(s, Ok, pos)
  {
  }

  // ----- the serializer's forms are the shortest -----

  lemma ShortestNumber(code: byte, b: seq<byte>, v: Value)
    requires ScalarMeans(code, b, v) && Clean(v)
    ensures |Pack(v)| <= 1 + |b|
  {
    WeighRead(b);
    Powers();
    hide Weigh, FromBigEndian, Pow256, BigEndian;
  }

  lemma ShortestHeads(n: nat)
    ensures forall head: seq<byte> :: TextHead(head, n) ==> |TextHeader(n)| <= |head|
    ensures forall obj, head: seq<byte> :: SlotsHead(obj, head, n) ==> |SlotsHeader(obj, n)| <= |head|
  {
    Powers();
    forall head: seq<byte> | head != []
      ensures Weigh(head[1..]) < Pow256(|head| - 1)
    {
      WeighRead(head[1..]);
    }
    hide Weigh, FromBigEndian, Pow256, BigEndian;
  }

  /** No form of a value is shorter than the one the serializer writes. */
  lemma {:induction false} PackIsShortest(c: Packed, v: Value)
    requires Means(c, v) && Clean(v) && NarrowValue(v)
    ensures |Pack(v)| <= |Encoding(c)|
    decreases c, 1
  {
    match c
    case Scalar(code, b) => ShortestNumber(code, b, v);
    case Characters(head, b) => ShortestText(head, b, v.text);
    case Rows(obj, head, rows) =>
      ShortestHeads(|rows|);
      assert v == Wrap(obj, v.slots);
      ShortestRows(obj, rows, v.slots);
  }

  lemma ShortestText(head: seq<byte>, b: seq<byte>, text: string)
    requires TextHead(head, |b|) && TextMeans(b, text) && Narrow(text)
    ensures |PackText(text)| <= |head| + |b|
  {
    ShortestHeads(|b|);
    assert |TextHeader(|text|)| <= |TextHeader(|b|)|;
  }

  lemma {:induction false} ShortestRows(obj: bool, rows: seq<PackedRow>, slots: seq<Slot>)
    requires |rows| == |slots| && CleanSlots(obj, slots) && NarrowSlots(slots)
    requires forall k :: 0 <= k < |rows| ==> RowMeans(obj, rows[k], slots[k])
    ensures |PackSlots(obj, slots)| <= |RowsEncoding(rows)|
    decreases rows
  {
    if rows != [] {
      ShortestRow(obj, rows[0], slots[0]);
      ShortestRows(obj, rows[1..], slots[1..]);
    }
  }

  lemma {:induction false} ShortestRow(obj: bool, row: PackedRow, slot: Slot)
    requires RowMeans(obj, row, slot) && CleanSlot(obj, slot) && NarrowSlot(slot)
    ensures |PackSlot(obj, slot)| <= |RowEncoding(row)|
    decreases row
  {
    if obj {
      var key := row.key.value;
      ShortestText(key.head, key.bytes, slot.key);
      assert Encoding(key) == key.head + key.bytes;
    }
    PackIsShortest(row.value, slot.value);
    assert |RowEncoding(row)| == |KeyEncoding(row)| + |Encoding(row.value)|;
  }

  /** Where a signed form is as short, a positive integer has the unsigned one; a negative one is signed. */
  lemma PackFamily(v: Value)
    requires Clean(v) && NarrowValue(v)
    ensures v.Pos? ==> Pack(v)[0] < 0x80 || 0xCC <= Pack(v)[0] <= 0xCF
    ensures v.Neg? && v.n > 0 ==> Pack(v)[0] >= 0xE0 || 0xD0 <= Pack(v)[0] <= 0xD3
  {
    if v.Neg? && 0 < v.n <= 0x20 {
      LowByte(v.n);
    }
  }

  lemma LowByte(n: nat)
    requires 0 < n <= 0x20
    ensures BigEndian(Negated(n), 1) == [0x100 - n]
  {
    assert BigEndian(Negated(n) / 256, 0) == [];
  }

  lemma FormOfPack(v: Value) returns (c: Packed)
    requires Clean(v) && NarrowValue(v) && Sized(v) && InSignedRange(v)
    ensures Encoding(c) == Pack(v) && Means(c, v)
  {
    hide Encoding, Means, Pack;
    var p, mem := Pack(v), Memory(false, Need(false, v));
    RoundTrip(v, Nesting(v), mem);
    c := FormFound(p, 0, Nesting(v), mem);
    assert p[0..|p|] == p;
  }

  lemma RangeOfForm(v: Value, c: Packed)
    requires Clean(v) && NarrowValue(v) && Sized(v) && Encoding(c) == Pack(v) && Means(c, v)
    ensures InSignedRange(v)
  {
    hide Encoding, Means, Pack;
    var p, limit, mem := Pack(v), Nesting(v) + Depth(c), Memory(false, Need(false, v) + Cost(false, c));
    RoundTrip(v, limit, mem);
    assert Occurs(p, 0, p);
    FormDecoded(p, 0, c, v, limit, mem);
  }

  /** What the serializer writes is a form of the value, exactly when the value's negative integers are
      in the range of 64 bits; and then no form is shorter. */
  lemma PackEncodes(v: Value, b: seq<byte>)
    requires Clean(v) && NarrowValue(v) && Sized(v)
    ensures Encodes(Pack(v), v) <==> InSignedRange(v)
    ensures Encodes(b, v) ==> |Pack(v)| <= |b|
  {
    hide Encoding, Means, Pack;
    if InSignedRange(v) {
      var c := FormOfPack(v);
    }
    if c :| Encoding(c) == Pack(v) && Means(c, v) {
      RangeOfForm(v, c);
    }
    if c :| Encoding(c) == b && Means(c, v) {
      PackIsShortest(c, v);
    }
  }
}
