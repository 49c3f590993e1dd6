/** The JSON deserializer, reading through a one-character latch and storing strings either in
    the memory pool or, in place, in the very buffer it is reading. */
module JsonDeserializer {
  import opened Document
  import opened Numbers
  import opened JsonGrammar
  import opened StoredDocument
  import opened StringStorage
  import JsonLimits

  class Deserializer {
    const input: array<char>
    const storage: Storage
    ghost const text: string

    // the reader and its latch
    var pos: nat
    var loaded: bool
    var latch: char
    ghost var at: nat

    ghost predicate Sound()
      reads this, input, storage
    {
      && storage.Valid() && (storage.inPlace <==> storage.arena == input)
      && |text| == input.Length && at <= |text|
      && (!loaded ==> pos == at)
      && (loaded ==> latch == At(text, at) && pos == if at < |text| then at + 1 else at)
      && (forall k :: at <= k < |text| ==> input[k] == text[k])
    }

    /** The write cursor is behind what has been consumed. */
    ghost predicate Behind()
      reads this, storage
    {
      storage.inPlace ==> storage.ptr < at
    }

    /** Between strings the write cursor is never ahead of what has been consumed. */
    ghost predicate Valid()
      reads this, input, storage
    {
      Sound() && (storage.inPlace ==> storage.ptr <= at)
    }

    constructor (input: array<char>, storage: Storage)
      requires storage.Valid() && storage.ptr == 0 && (storage.inPlace <==> storage.arena == input)
      ensures this.input == input && this.storage == storage && text == input[..]
      ensures Valid() && at == 0
    {
      this.input := input;
      this.storage := storage;
      this.text := input[..];
      pos, loaded, latch, at := 0, false, '\0', 0;
    }

    // ----- reading -----

    method Current() returns (c: char)
      requires Sound()
      modifies this`pos, this`loaded, this`latch
      ensures Sound() && loaded && c == latch == At(text, at)
    {
      if !loaded {
        if pos < input.Length {
          latch := input[pos];
          pos := pos + 1;
        } else {
          latch := '\0';
        }
        loaded := true;
      }
      c := latch;
    }

    method Move()
      requires Sound() && loaded
      modifies this`loaded, this`at
      ensures Sound() && !loaded && at == if old(at) < |text| then old(at) + 1 else old(at)
    {
      loaded := false;
      at := if at < |text| then at + 1 else at;
    }

    method Eat(c: char) returns (b: bool)
      requires Sound()
      modifies this`pos, this`loaded, this`latch, this`at
      ensures Sound() && b == (At(text, old(at)) == c)
      ensures at == if b && old(at) < |text| then old(at) + 1 else old(at)
    {
      var d := Current();
      if d != c {
        return false;
      }
      Move();
      return true;
    }

    method SkipBlanks() returns (err: Error)
      requires Sound()
      modifies this`pos, this`loaded, this`latch, this`at
      ensures Sound() && loaded && at == SkipSpaces(text, old(at))
      ensures err == if At(text, at) == '\0' then IncompleteInput else Ok
    {
      while true
        invariant Sound() && SkipSpaces(text, at) == SkipSpaces(text, old(at))
        decreases |text| - at
      {
        var c := Current();
        if c == '\0' {
          return IncompleteInput;
        }
        if !IsSpace(c) {
          return Ok;
        }
        Move();
      }
    }

    // ----- strings, words and numbers -----

    /** Everything before w is as in `a`. */
    ghost predicate Kept(a: string, w: nat)
      reads storage, storage.arena
    {
      Extends(a, storage.arena[..], w) && w <= storage.Written()
    }

    ghost predicate TextRead(err: Error, p: nat, k: TextOutcome)
      reads this, input, storage, storage.arena
      requires Valid()
    {
      && err == k.err && storage.Room() == k.mem
      && (err == Ok ==>
        && at == k.pos
        && Terminated(storage.arena[..], p, storage.Written()) && CStr(storage.arena[..], p) == k.text)
    }

    /** A string under construction since the arena was `a`. */
    ghost predicate Growing(a: string, b: Builder, done: string, first: Builder)
      reads this, input, storage, storage.arena
    {
      && Sound() && Behind() && storage.Holds(b, done) && NulFree(done)
      && b.start == first.start && b.capacity == first.capacity && Extends(a, storage.arena[..], b.start)
    }

    /** Closes a string, which has no NUL inside. */
    method Finish(b: Builder, ghost done: string) returns (ok: bool)
      requires Sound() && Behind() && storage.Holds(b, done) && NulFree(done)
      modifies storage`ptr, storage`left, storage.arena
      ensures Valid() && Extends(old(storage.arena[..]), storage.arena[..], b.start)
      ensures ok <==> storage.inPlace || |done| + 1 <= b.capacity
      ensures ok ==> storage.Written() == b.start + |done| + 1 <= storage.arena.Length
      ensures ok ==> Terminated(storage.arena[..], b.start, storage.Written()) && CStr(storage.arena[..], b.start) == done
      ensures !ok ==> storage.left == storage.right
      ensures storage.inPlace ==> storage.left == old(storage.left)
    {
      UpToNulFree(done);
      ok := storage.Complete(b, done);
    }

    /** The escape after a backslash: its character, or why there is none. */
    method ParseEscape() returns (err: Error, c: char)
      requires Sound() && !loaded
      modifies this`pos, this`loaded, this`latch, this`at
      ensures Sound()
      ensures var d := At(text, old(at));
              err == if d == '\0' then IncompleteInput else if d == 'u' then NotSupported
                     else if Unescape(d) == '\0' then InvalidInput else Ok
      ensures err == Ok ==> !loaded && c == Unescape(At(text, old(at))) && at == old(at) + 1
      ensures old(at) <= at
    {
      c := Current();
      if c == '\0' {
        return IncompleteInput, c;
      }
      if c == 'u' {
        return NotSupported, c;
      }
      c := Unescape(c);
      if c == '\0' {
        return InvalidInput, c;
      }
      Move();
      err := Ok;
    }

    /** Adds a character to the string, after at least one more was consumed. */
    method AddChar(b: Builder, c: char, ghost done: string, ghost first: Builder, ghost a: string) returns (r: Builder)
      requires Growing(a, b, done, first) && !loaded && c != '\0' && (storage.inPlace ==> storage.ptr + 1 < at)
      modifies storage`ptr, storage.arena
      ensures Growing(a, r, done + [c], first)
    {
      r := storage.Append(b, c, done);
    }

    /** The body of a quoted string. */
    method ParseQuotedBody(first: Builder, stop: char) returns (err: Error, b: Builder, ghost done: string)
      requires Sound() && Behind() && !loaded && storage.Holds(first, "") && stop != '\0'
      modifies this`pos, this`loaded, this`latch, this`at, storage`ptr, storage.arena
      ensures Growing(old(storage.arena[..]), b, done, first)
      ensures ScanQuoted(text, old(at), stop, "").err == err
      ensures err == Ok ==> ScanQuoted(text, old(at), stop, "") == Scan(Ok, done, at)
    {
      hide ScanQuoted, Unescape, Terminated;
      ghost var a, whole := storage.arena[..], ScanQuoted(text, at, stop, "");
      b, done := first, "";
      while true
        invariant Growing(a, b, done, first) && !loaded
        invariant ScanQuoted(text, at, stop, done) == whole
        decreases |text| - at
      {
        QuotedStep(text, at, stop, done);
        var c := Current();
        Move();
        if c == stop {
          return Ok, b, done;
        }
        if c == '\0' {
          return IncompleteInput, b, done;
        }
        if c == '\\' {
          err, c := ParseEscape();
          if err != Ok {
            return;
          }
        }
        b := AddChar(b, c, done, first, a);
        done := done + [c];
      }
    }

    method ParseQuotedString() returns (err: Error, p: nat)
      requires Valid() && loaded && IsQuote(At(text, at))
      modifies this, storage, storage.arena
      ensures Valid() && Kept(old(storage.arena[..]), old(storage.Written()))
      ensures TextRead(err, p, Keep(ScanQuoted(text, old(at) + 1, At(text, old(at)), ""), old(storage.Room())))
    {
      var b := storage.StartString();
      p := b.start;
      var stop := Current();
      Move();
      ghost var done;
      err, b, done := ParseQuotedBody(b, stop);
      if err == Ok {
        var ok := Finish(b, done);
        err := if ok then Ok else NoMemory;
      }
    }

    /** Consumes the current character and adds it to the string. */
    method TakeChar(b: Builder, c: char, ghost done: string, ghost first: Builder, ghost a: string) returns (r: Builder)
      requires Growing(a, b, done, first) && loaded && c == latch && c != '\0' && at < |text|
      modifies this`loaded, this`at, storage`ptr, storage.arena
      ensures Growing(a, r, done + [c], first) && at == old(at) + 1 && !loaded
    {
      Move();
      r := AddChar(b, c, done, first, a);
    }

    /** A run of token characters. */
    method ParseToken(first: Builder) returns (b: Builder, ghost done: string)
      requires Sound() && Behind() && loaded && storage.Holds(first, "")
      modifies this`pos, this`loaded, this`latch, this`at, storage`ptr, storage.arena
      ensures old(at) <= at <= |text| && Growing(old(storage.arena[..]), b, done, first)
      ensures at == TokenEnd(text, old(at), |text| - old(at)) && done == text[old(at)..at]
    {
      hide IsTokenChar, TokenEnd, Terminated;
      b, done := first, "";
      var c := Current();
      while IsTokenChar(c)
        invariant old(at) <= at <= |text| && Growing(old(storage.arena[..]), b, done, first)
        invariant loaded && c == At(text, at)
        invariant done == text[old(at)..at]
        invariant TokenEnd(text, at, |text| - at) == TokenEnd(text, old(at), |text| - old(at))
        decreases |text| - at
      {
        TokenStep(text, at);
        b := TakeChar(b, c, done, first, old(storage.arena[..]));
        done := done + [c];
        c := Current();
      }
      TokenStep(text, at);
    }

    method ParseNonQuotedString() returns (err: Error, p: nat)
      requires Valid() && !IsQuote(At(text, at)) && Behind()
      modifies this, storage, storage.arena
      ensures Valid() && Kept(old(storage.arena[..]), old(storage.Written()))
      ensures TextRead(err, p, Keep(ScanKey(text, old(at)), old(storage.Room())))
    {
      hide CStr;
      var b := storage.StartString();
      p := b.start;
      hide IsTokenChar;
      var c := Current();
      if !IsTokenChar(c) {
        return InvalidInput, p;
      }
      ghost var done;
      b, done := ParseToken(b);
      var ok := Finish(b, done);
      err := if ok then Ok else NoMemory;
    }

    method ParseKey() returns (err: Error, p: nat)
      requires Valid() && Behind()
      modifies this, storage, storage.arena
      ensures Valid() && Kept(old(storage.arena[..]), old(storage.Written()))
      ensures TextRead(err, p, Keep(ScanKey(text, old(at)), old(storage.Room())))
    {
      var c := Current();
      if IsQuote(c) {
        err, p := ParseQuotedString();
      } else {
        err, p := ParseNonQuotedString();
      }
    }

    /** What a parsing method leaves behind. */
    ghost predicate Parsed(err: Error, v: Node, k: Outcome)
      reads this, input, storage, storage.arena
      requires Valid()
    {
      && err == k.err && storage.Room() == k.mem
      && Stored(v, storage.arena[..], storage.Written()) && Denote(v, storage.arena[..]) == k.value
      && (err == Ok ==> at == k.pos)
    }

    method ParseStringValue(prior: Node) returns (err: Error, v: Node)
      requires Valid() && loaded && at < |text| && IsQuote(text[at]) && Stored(prior, storage.arena[..], storage.Written())
      modifies this, storage, storage.arena
      ensures Valid() && Kept(old(storage.arena[..]), old(storage.Written()))
      ensures Parsed(err, v, ParseString(text, old(at), old(storage.Room()), Denote(prior, old(storage.arena[..]))))
    {
      var p;
      err, p := ParseQuotedString();
      NodeSurvives(prior, old(storage.arena[..]), storage.arena[..], old(storage.Written()), storage.Written());
      v := if err == Ok then StrNode(p) else prior;
    }

    /** Copies token characters into a buffer, at most 63. */
    method FillBuffer(buffer: array<char>) returns (n: nat)
      requires Valid() && loaded && buffer.Length == 64 && buffer != input && buffer != storage.arena
      modifies this`pos, this`loaded, this`latch, this`at, buffer
      ensures Valid() && loaded && n < 64 && at == old(at) + n == TokenEnd(text, old(at), buffer.Length - 1)
      ensures forall k :: 0 <= k < n ==> buffer[k] == text[old(at) + k]
    {
      hide IsTokenChar, TokenEnd;
      ghost var from := at;
      n := 0;
      var c := Current();
      while IsTokenChar(c) && n < 63
        invariant Valid() && loaded && c == At(text, at) && at == from + n && n <= 63
        invariant TokenEnd(text, at, buffer.Length - 1 - n) == TokenEnd(text, from, buffer.Length - 1)
        invariant forall k :: 0 <= k < n ==> buffer[k] == text[from + k]
      {
        ShortTokenStep(text, at, buffer.Length - 1 - n);
        Move();
        buffer[n] := c;
        n := n + 1;
        c := Current();
      }
      ShortTokenStep(text, at, buffer.Length - 1 - n);
    }

    method ReadToken() returns (token: string)
      requires Valid() && loaded
      modifies this`pos, this`loaded, this`latch, this`at
      ensures Valid() && loaded && old(at) <= at
      ensures at == TokenEnd(text, old(at), TOKEN_MAX) && token == text[old(at)..at]
    {
      var buffer := new char[64];
      var n := FillBuffer(buffer);
      token := buffer[..n];
    }

    method ParseNumericValue(prior: Node) returns (err: Error, v: Node)
      requires Valid() && loaded && Stored(prior, storage.arena[..], storage.Written())
      modifies this`pos, this`loaded, this`latch, this`at
      ensures Valid() && loaded
      ensures Parsed(err, v, ParseNumeric(text, old(at), old(storage.Room()), Denote(prior, old(storage.arena[..]))))
    {
      hide ParseNumber, CStr, TokenEnd;
      var token := ReadToken();
      var c := At(token, 0);
      if c == 't' {
        return if |token| == 4 then Ok else IncompleteInput, BoolNode(true);
      }
      if c == 'f' {
        return if |token| == 5 then Ok else IncompleteInput, BoolNode(false);
      }
      if c == 'n' {
        return if |token| == 4 then Ok else IncompleteInput, prior;
      }
      var num := ReadNumber(token);
      match num
      case NotANumber => return InvalidInput, prior;
      case Integer(negative, n) => return Ok, if negative then NegNode(n) else PosNode(n);
      case Fractional(number) => return Ok, FloatNode(number);
    }

    // ----- values -----

    method ParseValue(limit: nat, prior: Node) returns (err: Error, v: Node)
      requires Valid() && Stored(prior, storage.arena[..], storage.Written())
      modifies this, storage, storage.arena
      ensures Valid() && Kept(old(storage.arena[..]), old(storage.Written()))
      ensures Parsed(err, v, ParseVariant(text, old(at), limit, old(storage.Room()), Denote(prior, old(storage.arena[..]))))
      ensures err == Ok && IsNumber(Denote(v, storage.arena[..])) ==> loaded
      decreases limit, 2
    {
      hide ParseCollection, ScanQuoted, ParseNumeric, Keep;
      err := SkipBlanks();
      if err != Ok {
        return err, prior;
      }
      var c := Current();
      if c == '[' {
        err, v := ParseArray(limit);
      } else if c == '{' {
        err, v := ParseObject(limit);
      } else if IsQuote(c) {
        err, v := ParseStringValue(prior);
      } else {
        err, v := ParseNumericValue(prior);
      }
    }

    /** What follows an element or a member. */
    method EndRow(obj: bool) returns (err: Error, more: bool)
      requires Valid()
      modifies this`pos, this`loaded, this`latch, this`at
      ensures Valid() && old(at) <= at
      ensures var e := RowEnd(obj, text, old(at));
              && more == e.More? && (if more then err == Ok else err == e.err)
              && (err == Ok ==> at == e.pos)
      ensures more ==> old(at) < at && Behind()
    {
      more := false;
      err := SkipBlanks();
      if err != Ok {
        return;
      }
      var b := Eat(Close(obj));
      if b {
        return;
      }
      more := Eat(',');
      err := if more then Ok else InvalidInput;
    }

    /** Opens a collection: the first row follows, or it is empty, or something is wrong. */
    method Begin(obj: bool) returns (err: Error, more: bool)
      requires Valid() && loaded && at < |text|
      modifies this`pos, this`loaded, this`latch, this`at
      ensures Valid() && old(at) <= at
      ensures var j := SkipSpaces(text, old(at) + 1);
              && err == (if At(text, j) == '\0' then IncompleteInput else Ok)
              && (more <==> err == Ok && At(text, j) != Close(obj))
              && (err == Ok ==> at == if more then j else j + 1)
      ensures more ==> Behind()
    {
      Move();
      more := false;
      err := SkipBlanks();
      if err == Ok {
        var b := Eat(Close(obj));
        more := !b;
      }
    }

    /** The rows of a collection after one more slot was opened and its value parsed into it. */
    ghost predicate RowParsed(err: Error, slots: seq<NodeSlot>, h: Head, limit: nat)
      reads this, input, storage, storage.arena
      requires Valid() && h.pos <= |text| && limit > 0 && (h.err == Ok ==> h.k < |h.slots|)
    {
      && StoredSlots(slots, storage.arena[..], storage.Written())
      && if h.err != Ok then err == h.err && DenoteSlots(slots, storage.arena[..]) == h.slots && storage.Room() == h.mem
         else
           var r := ParseVariant(text, h.pos, limit - 1, h.mem, h.slots[h.k].value);
           && err == r.err && DenoteSlots(slots, storage.arena[..]) == SetValue(h.slots, h.k, r.value) && storage.Room() == r.mem
           && (err == Ok ==> at == r.pos)
    }

    method ParseElement(limit: nat, slots: seq<NodeSlot>) returns (err: Error, rows: seq<NodeSlot>)
      requires Valid() && limit > 0 && StoredSlots(slots, storage.arena[..], storage.Written())
      modifies this, storage, storage.arena
      ensures Valid() && Kept(old(storage.arena[..]), old(storage.Written()))
      ensures RowParsed(err, rows, ElementHead(old(at), old(storage.Room()), DenoteSlots(slots, old(storage.arena[..]))), limit)
      decreases limit, 0
    {
      var ok := storage.AllocSlot();
      if !ok {
        return NoMemory, slots;
      }
      var item;
      err, item := ParseValue(limit - 1, NullNode);
      SlotsSurvive(slots, old(storage.arena[..]), storage.arena[..], old(storage.Written()), storage.Written());
      rows := slots + [ElementNode(item)];
      assert DenoteSlot(ElementNode(item), storage.arena[..]) == Element(Denote(item, storage.arena[..]));
    }

    method ParseArray(limit: nat) returns (err: Error, v: Node)
      requires Valid() && loaded && at < |text| && text[at] == '['
      modifies this, storage, storage.arena
      ensures Valid() && Kept(old(storage.arena[..]), old(storage.Written()))
      ensures v.ArrNode?
      ensures Parsed(err, v, ParseCollection(false, text, old(at), limit, old(storage.Room())))
      decreases limit, 1
    {
      hide ElementHead, MemberHead, ParseVariant, RowEnd, SkipSpaces;
      if limit == 0 {
        return TooDeep, ArrNode([]);
      }
      var slots, more := [], true;
      err, more := Begin(false);
      while more
        invariant Valid() && Kept(old(storage.arena[..]), old(storage.Written())) && StoredSlots(slots, storage.arena[..], storage.Written())
        invariant more ==> err == Ok && ParseRows(false, text, at, limit, storage.Room(), DenoteSlots(slots, storage.arena[..])) ==
                           ParseCollection(false, text, old(at), limit, old(storage.Room()))
        invariant !more ==> Parsed(err, ArrNode(slots), ParseCollection(false, text, old(at), limit, old(storage.Room())))
        decreases more, |text| - at
      {
        err, slots := ParseElement(limit, slots);
        more := false;
        if err == Ok {
          err, more := EndRow(false);
        }
      }
      v := ArrNode(slots);
    }

    /** The first member with the same key, compared as C strings. */
    method GetSlot(slots: seq<NodeSlot>, key: nat) returns (k: nat)
      ensures k == Find(DenoteSlots(slots, storage.arena[..]), CStr(storage.arena[..], key))
    {
      ghost var members := DenoteSlots(slots, storage.arena[..]);
      k := 0;
      while k < |slots|
        invariant k <= |slots|
        invariant forall i :: 0 <= i < k ==> !(members[i].Member? && members[i].key == CStr(storage.arena[..], key))
      {
        assert members[k] == DenoteSlot(slots[k], storage.arena[..]);
        if slots[k].MemberNode? {
          var same := SameString(slots[k].key, key);
          if same {
            return;
          }
        }
        k := k + 1;
      }
    }

    method SameString(p: nat, q: nat) returns (b: bool)
      ensures b == (CStr(storage.arena[..], p) == CStr(storage.arena[..], q))
    {
      var i: nat, j: nat := p, q;
      while i < storage.arena.Length && j < storage.arena.Length && storage.arena[i] == storage.arena[j] && storage.arena[i] != '\0'
        invariant (CStr(storage.arena[..], i) == CStr(storage.arena[..], j)) == (CStr(storage.arena[..], p) == CStr(storage.arena[..], q))
        decreases storage.arena.Length - i
      {
        assert CStr(storage.arena[..], i)[1..] == CStr(storage.arena[..], i + 1);
        assert CStr(storage.arena[..], j)[1..] == CStr(storage.arena[..], j + 1);
        assert CStr(storage.arena[..], i) == [storage.arena[i]] + CStr(storage.arena[..], i)[1..];
        assert CStr(storage.arena[..], j) == [storage.arena[j]] + CStr(storage.arena[..], j)[1..];
        i, j := i + 1, j + 1;
      }
      var c := if i < storage.arena.Length then storage.arena[i] else '\0';
      var d := if j < storage.arena.Length then storage.arena[j] else '\0';
      b := c == d;
      assert c != '\0' ==> CStr(storage.arena[..], i)[0] == c;
      assert d != '\0' ==> CStr(storage.arena[..], j)[0] == d;
    }

    /** The slot for the next member: the one its key already has, or a new one. */
    method ReadMemberHead(slots: seq<NodeSlot>) returns (err: Error, rows: seq<NodeSlot>, k: nat)
      requires Valid() && StoredSlots(slots, storage.arena[..], storage.Written()) && Behind()
      modifies this, storage, storage.arena
      ensures Valid() && Kept(old(storage.arena[..]), old(storage.Written()))
      ensures StoredSlots(rows, storage.arena[..], storage.Written())
      ensures var h := MemberHead(text, old(at), old(storage.Room()), DenoteSlots(slots, old(storage.arena[..])));
              && err == h.err && DenoteSlots(rows, storage.arena[..]) == h.slots && storage.Room() == h.mem
              && (err == Ok ==> k == h.k && at == h.pos)
    {
      hide ScanKey, Keep, Find, SkipSpaces;
      rows, k := slots, 0;
      err := SkipBlanks();
      if err != Ok {
        return;
      }
      var key;
      err, key := ParseKey();
      SlotsSurvive(slots, old(storage.arena[..]), storage.arena[..], old(storage.Written()), storage.Written());
      if err != Ok {
        return;
      }
      err := SkipBlanks();
      if err != Ok {
        return;
      }
      var b := Eat(':');
      if !b {
        return InvalidInput, slots, 0;
      }
      err, rows, k := GetOrAddSlot(slots, key);
    }

    method GetOrAddSlot(slots: seq<NodeSlot>, key: nat) returns (err: Error, rows: seq<NodeSlot>, k: nat)
      requires Valid() && StoredSlots(slots, storage.arena[..], storage.Written()) && Terminated(storage.arena[..], key, storage.Written())
      modifies storage`right
      ensures Valid() && StoredSlots(rows, storage.arena[..], storage.Written())
      ensures var t, members, mem := CStr(storage.arena[..], key), DenoteSlots(slots, storage.arena[..]), old(storage.Room());
              && k == Find(members, t)
              && err == (if k == |members| && !mem.Has(SLOT_SIZE) then NoMemory else Ok)
              && DenoteSlots(rows, storage.arena[..]) ==
                 (if k == |members| && err == Ok then members + [Member(t, Null)] else members)
              && storage.Room() == if k == |members| && err == Ok then mem.Take(SLOT_SIZE) else mem
    {
      err, rows := Ok, slots;
      k := GetSlot(slots, key);
      if k == |slots| {
        var ok := storage.AllocSlot();
        if !ok {
          return NoMemory, slots, k;
        }
        rows := slots + [MemberNode(key, NullNode)];
        assert DenoteSlot(MemberNode(key, NullNode), storage.arena[..]) == Member(CStr(storage.arena[..], key), Null);
      }
    }

    method ParseMember(limit: nat, slots: seq<NodeSlot>) returns (err: Error, rows: seq<NodeSlot>)
      requires Valid() && limit > 0 && StoredSlots(slots, storage.arena[..], storage.Written()) && Behind()
      modifies this, storage, storage.arena
      ensures Valid() && Kept(old(storage.arena[..]), old(storage.Written()))
      ensures RowParsed(err, rows, MemberHead(text, old(at), old(storage.Room()), DenoteSlots(slots, old(storage.arena[..]))), limit)
      decreases limit, 0
    {
      var k;
      err, rows, k := ReadMemberHead(slots);
      if err == Ok {
        ghost var a, w := storage.arena[..], storage.Written();
        PriorStored(rows, k, a, w);
        var item;
        err, item := ParseValue(limit - 1, rows[k].value);
        SlotsSurvive(rows, a, storage.arena[..], w, storage.Written());
        FilledSlot(rows, k, item, storage.arena[..], storage.Written());
        rows := rows[k := rows[k].(value := item)];
      }
    }

    method ParseObject(limit: nat) returns (err: Error, v: Node)
      requires Valid() && loaded && at < |text| && text[at] == '{'
      modifies this, storage, storage.arena
      ensures Valid() && Kept(old(storage.arena[..]), old(storage.Written()))
      ensures v.ObjNode?
      ensures Parsed(err, v, ParseCollection(true, text, old(at), limit, old(storage.Room())))
      decreases limit, 1
    {
      hide ElementHead, MemberHead, ParseVariant, RowEnd, SkipSpaces;
      if limit == 0 {
        return TooDeep, ObjNode([]);
      }
      var slots, more := [], true;
      err, more := Begin(true);
      while more
        invariant Valid() && Kept(old(storage.arena[..]), old(storage.Written())) && StoredSlots(slots, storage.arena[..], storage.Written())
        invariant more ==> err == Ok && Behind() &&
                           ParseRows(true, text, at, limit, storage.Room(), DenoteSlots(slots, storage.arena[..])) ==
                           ParseCollection(true, text, old(at), limit, old(storage.Room()))
        invariant !more ==> Parsed(err, ObjNode(slots), ParseCollection(true, text, old(at), limit, old(storage.Room())))
        decreases more, |text| - at
      {
        err, slots := ParseMember(limit, slots);
        more := false;
        if err == Ok {
          err, more := EndRow(true);
        }
      }
      v := ObjNode(slots);
    }

    /** The entry point, on a fresh deserializer. */
    method Parse(limit: nat) returns (err: Error, v: Node)
      requires Valid() && at == 0
      modifies this, storage, storage.arena
      ensures Valid() && Stored(v, storage.arena[..], storage.Written())
      ensures var r := Deserialize(text, limit, old(storage.Room()));
              && err == r.err && Denote(v, storage.arena[..]) == r.value && storage.Room() == r.mem
    {
      err, v := ParseValue(limit, NullNode);
      if err == Ok && latch != '\0' && (v.PosNode? || v.NegNode? || v.FloatNode?) {
        err := InvalidInput;
      }
    }

    // ----- skipping -----

    ghost predicate Skipped(err: Error, k: Skip)
      reads this
    {
      err == k.err && (err == Ok ==> at == k.pos)
    }

    method SkipString() returns (err: Error)
      requires Valid() && loaded && IsQuote(At(text, at))
      modifies this`pos, this`loaded, this`latch, this`at
      ensures Valid() && old(at) <= at && Skipped(err, SkipQuoted(text, old(at) + 1, At(text, old(at))))
    {
      var stop := Current();
      Move();
      while true
        invariant Valid() && old(at) <= at
        invariant SkipQuoted(text, at, stop) == SkipQuoted(text, old(at) + 1, stop)
        decreases |text| - at
      {
        var c := Current();
        Move();
        if c == stop {
          return Ok;
        }
        if c == '\0' {
          return IncompleteInput;
        }
        if c == '\\' {
          var d := Current();
          if d != '\0' {
            Move();
          }
        }
      }
    }

    method SkipNumericValue()
      requires Valid()
      modifies this`pos, this`loaded, this`latch, this`at
      ensures Valid() && at == TokenEnd(text, old(at), |text| - old(at))
    {
      var c := Current();
      while IsTokenChar(c)
        invariant Valid() && loaded && c == At(text, at)
        invariant TokenEnd(text, at, |text| - at) == TokenEnd(text, old(at), |text| - old(at))
        decreases |text| - at
      {
        Move();
        c := Current();
      }
    }

    method SkipValue(limit: nat) returns (err: Error)
      requires Valid()
      modifies this`pos, this`loaded, this`latch, this`at
      ensures Valid() && old(at) <= at && Skipped(err, SkipVariant(text, old(at), limit))
      decreases limit, 2
    {
      err := SkipBlanks();
      if err != Ok {
        return;
      }
      var c := Current();
      if c == '[' {
        err := SkipArray(limit);
      } else if c == '{' {
        err := SkipObject(limit);
      } else if IsQuote(c) {
        err := SkipString();
      } else {
        SkipNumericValue();
      }
    }

    method SkipArray(limit: nat) returns (err: Error)
      requires Valid() && loaded && at < |text| && text[at] == '['
      modifies this`pos, this`loaded, this`latch, this`at
      ensures Valid() && old(at) <= at && Skipped(err, SkipCollection(false, text, old(at), limit))
      decreases limit, 1
    {
      if limit == 0 {
        return TooDeep;
      }
      Move();
      var more := true;
      err := Ok;
      while more
        invariant Valid() && old(at) <= at
        invariant more ==> err == Ok && SkipRows(false, text, at, limit) == SkipCollection(false, text, old(at), limit)
        invariant !more ==> Skipped(err, SkipCollection(false, text, old(at), limit))
        decreases more, |text| - at
      {
        err := SkipValue(limit - 1);
        more := false;
        if err == Ok {
          err, more := EndRow(false);
        }
      }
    }

    method SkipObject(limit: nat) returns (err: Error)
      requires Valid() && loaded && at < |text| && text[at] == '{'
      modifies this`pos, this`loaded, this`latch, this`at
      ensures Valid() && old(at) <= at && Skipped(err, SkipCollection(true, text, old(at), limit))
      decreases limit, 1
    {
      if limit == 0 {
        return TooDeep;
      }
      var more;
      err, more := Begin(true);
      while more
        invariant Valid() && old(at) <= at
        invariant more ==> err == Ok && SkipRows(true, text, at, limit) == SkipCollection(true, text, old(at), limit)
        invariant !more ==> Skipped(err, SkipCollection(true, text, old(at), limit))
        decreases more, |text| - at
      {
        err := SkipKey(limit);
        more := false;
        if err == Ok {
          err := SkipValue(limit - 1);
        }
        if err == Ok {
          err, more := EndRow(true);
        }
      }
    }

    /** A key is skipped as if it were a value. */
    method SkipKey(limit: nat) returns (err: Error)
      requires Valid() && limit > 0
      modifies this`pos, this`loaded, this`latch, this`at
      ensures Valid() && old(at) <= at && Skipped(err, SkipHead(true, text, old(at), limit))
      decreases limit, 0
    {
      err := SkipValue(limit - 1);
      if err != Ok {
        return;
      }
      err := SkipBlanks();
      if err != Ok {
        return;
      }
      var b := Eat(':');
      err := if b then Ok else InvalidInput;
    }
  }

  /** Parses the same text with the strings copied into a pool and with the strings left in
      the input.  Each mode makes of the text what the grammar says for its memory; unless the pool
      was too small for the copies, both modes end the same way and with the same document. */
  method ParseBothWays(text: string, capacity: nat, limit: nat)
    returns (copying: Error, v: Node, pool: array<char>, moving: Error, w: Node, buffer: array<char>)
    ensures var r := Deserialize(text, limit, Memory(true, capacity)); copying == r.err && Denote(v, pool[..]) == r.value
    ensures var r := Deserialize(text, limit, Memory(false, capacity)); moving == r.err && Denote(w, buffer[..]) == r.value
    ensures copying != NoMemory ==> moving == copying && Denote(w, buffer[..]) == Denote(v, pool[..])
  {
    var input := new char[|text|](i requires 0 <= i < |text| => text[i]);
    assert input[..] == text;
    pool := new char[capacity];
    var copies := new Storage(pool, false, capacity);
    var copier := new Deserializer(input, copies);
    copying, v := copier.Parse(limit);
    buffer := new char[|text|](i requires 0 <= i < |text| => text[i]);
    assert buffer[..] == text;
    var moves := new Storage(buffer, true, capacity);
    var mover := new Deserializer(buffer, moves);
    JsonLimits.DeserializeMonotone(text, limit, limit, Memory(true, capacity), Memory(false, capacity));
    moving, w := mover.Parse(limit);
  }

  lemma ShortTokenStep(s: string, i: nat, n: nat)
    requires i <= |s|
    ensures n > 0 && IsTokenChar(At(s, i)) ==> i < |s| && TokenEnd(s, i, n) == TokenEnd(s, i + 1, n - 1)
    ensures n == 0 || !IsTokenChar(At(s, i)) ==> TokenEnd(s, i, n) == i
  {
  }

  lemma PriorStored(slots: seq<NodeSlot>, k: nat, a: string, w: nat)
    requires k < |slots| && w <= |a| && StoredSlots(slots, a, w)
    ensures Stored(slots[k].value, a, w) && DenoteSlots(slots, a)[k].value == Denote(slots[k].value, a)
  {
    assert StoredSlot(slots[k], a, w);
  }

  lemma QuotedStep(s: string, i: nat, stop: char, text: string)
    requires i <= |s| && stop != '\0'
    ensures var c, d := At(s, i), At(s, i + 1);
            && (c != '\0' ==> i < |s|) && (d != '\0' ==> i + 1 < |s|)
            && ScanQuoted(s, i, stop, text) ==
               if c == stop then Scan(Ok, text, i + 1)
               else if c == '\0' then Scan(IncompleteInput, text, i)
               else if c != '\\' then ScanQuoted(s, i + 1, stop, text + [c])
               else if d == '\0' then Scan(IncompleteInput, text, i)
               else if d == 'u' then Scan(NotSupported, text, i)
               else if Unescape(d) == '\0' then Scan(InvalidInput, text, i)
               else ScanQuoted(s, i + 2, stop, text + [Unescape(d)])
  {
  }

  lemma TokenStep(s: string, i: nat)
    requires i <= |s|
    ensures IsTokenChar(At(s, i)) ==> i < |s| && At(s, i) != '\0' && TokenEnd(s, i, |s| - i) == TokenEnd(s, i + 1, |s| - (i + 1))
    ensures !IsTokenChar(At(s, i)) ==> TokenEnd(s, i, |s| - i) == i
  {
  }
}
