/** Skipping a value agrees with parsing it. */
module JsonSkip {
  import opened Document
  import opened JsonGrammar
  import opened Numbers

  lemma {:induction false} QuotedSkips(s: string, i: nat, stop: char, text: string)
    requires i <= |s| && stop != '\0'
    requires ScanQuoted(s, i, stop, text).err == Ok
    ensures SkipQuoted(s, i, stop) == Skip(Ok, ScanQuoted(s, i, stop, text).pos)
    decreases |s| - i
  {
    var c := At(s, i);
    if c != stop && c != '\0' {
      if c != '\\' {
        QuotedSkips(s, i + 1, stop, text + [c]);
      } else {
        QuotedSkips(s, i + 2, stop, text + [Unescape(At(s, i + 1))]);
      }
    }
  }

  /** A run of token characters cut off at m continues unless it has really ended. */
  lemma {:induction false} TokenCut(s: string, i: nat, m: nat, n: nat)
    requires i <= |s| && |s| - i <= n
    ensures TokenEnd(s, i, m) <= TokenEnd(s, i, n)
    ensures TokenEnd(s, i, m) == TokenEnd(s, i, n) <==> !IsTokenChar(At(s, TokenEnd(s, i, m)))
    decreases m
  {
    if n == 0 {
      assert TokenEnd(s, i, m) == i == TokenEnd(s, i, n);
    } else if m > 0 && IsTokenChar(At(s, i)) {
      TokenCut(s, i + 1, m - 1, n - 1);
    } else if m == 0 && IsTokenChar(At(s, i)) {
      assert TokenEnd(s, i, n) == TokenEnd(s, i + 1, n - 1);
    }
  }

  /** A run is cut off at m exactly when it is longer than that. */
  lemma {:induction false} RunLength(s: string, i: nat, m: nat, n: nat)
    requires i <= |s| && |s| - i <= n
    ensures TokenEnd(s, i, m) == TokenEnd(s, i, n) <==> TokenEnd(s, i, n) - i <= m
    decreases m
  {
    if m > 0 && n > 0 && IsTokenChar(At(s, i)) {
      RunLength(s, i + 1, m - 1, n - 1);
    }
  }

  predicate IsStructured(c: char) { c == '[' || c == '{' || IsQuote(c) }

  /** An accepted variant is skipped to the same position exactly when it is a collection or a
      string, or a run of at most 63 token characters; in particular whenever anything but another
      token character follows what was parsed. */
  lemma {:induction false} VariantSkips(s: string, i: nat, limit: nat, mem: Memory, prior: Value)
    requires i <= |s|
    requires ParseVariant(s, i, limit, mem, prior).err == Ok
    ensures var p, j := ParseVariant(s, i, limit, mem, prior).pos, SkipSpaces(s, i);
            && SkipVariant(s, i, limit).err == Ok
            && (SkipVariant(s, i, limit).pos == p <==> IsStructured(At(s, j)) || TokenEnd(s, j, |s| - j) - j <= TOKEN_MAX)
            && (!IsTokenChar(At(s, p)) ==> SkipVariant(s, i, limit).pos == p)
    decreases limit, 2, 0
  {
    hide SkipSpaces, IsTokenChar, ParseCollection, SkipCollection, TokenEnd, Literal;
    var j := SkipSpaces(s, i);
    var c := At(s, j);
    if c == '[' || c == '{' {
      CollectionSkips(c == '{', s, j, limit, mem);
    } else if IsQuote(c) {
      QuotedSkips(s, j + 1, c, "");
    } else {
      TokenCut(s, j, TOKEN_MAX, |s| - j);
      RunLength(s, j, TOKEN_MAX, |s| - j);
    }
  }

  function Zeros(n: nat): string { seq(n, _ => '0') }

  lemma {:induction false} ZerosRun(n: nat, i: nat, m: nat)
    requires i <= n
    ensures TokenEnd(Zeros(n), i, m) == if m <= n - i then i + m else n
    decreases m
  {
    if m > 0 && i < n {
      ZerosRun(n, i + 1, m - 1);
    }
  }

  lemma {:induction false} ZerosMantissa(n: nat, i: nat)
    requires i <= n
    ensures Mantissa(Zeros(n), i, 0) == (0, n)
    decreases n - i
  {
    if i < n {
      ZerosMantissa(n, i + 1);
    }
  }

  /** Of more than 63 zeros the parser reads 63, and the skipper all. */
  lemma LongTokenOverrun(n: nat, limit: nat, mem: Memory)
    requires n > TOKEN_MAX
    ensures ParseVariant(Zeros(n), 0, limit, mem, Null) == Outcome(Ok, Pos(0), TOKEN_MAX, mem)
    ensures SkipVariant(Zeros(n), 0, limit) == Skip(Ok, n)
  {
    var s := Zeros(n);
    assert SkipSpaces(s, 0) == 0;
    ZerosRun(n, 0, TOKEN_MAX);
    ZerosRun(n, 0, n);
    assert s[0..TOKEN_MAX] == Zeros(TOKEN_MAX);
    ZerosMantissa(TOKEN_MAX, 0);
    assert ParseNumber(Zeros(TOKEN_MAX)) == Integer(false, 0);
  }

  /** Inside an array the rest of a cut-off number is an error, which the skipper does not see. */
  lemma LongTokenInArray(n: nat, limit: nat, mem: Memory)
    requires n > TOKEN_MAX && limit > 0 && mem.Has(SLOT_SIZE)
    ensures var s := "[" + Zeros(n) + "]";
            ParseVariant(s, 0, limit, mem, Null).err == InvalidInput && SkipVariant(s, 0, limit) == Skip(Ok, |s|)
  {
    LongTokenParsed(n, limit, mem);
    LongTokenSkipped(n, limit);
  }

  lemma LongTokenParsed(n: nat, limit: nat, mem: Memory)
    requires n > TOKEN_MAX && limit > 0 && mem.Has(SLOT_SIZE)
    ensures ParseVariant("[" + Zeros(n) + "]", 0, limit, mem, Null).err == InvalidInput
  {
    var s, p := "[" + Zeros(n) + "]", 1 + TOKEN_MAX;
    assert SkipSpaces(s, 0) == 0 && SkipSpaces(s, 1) == 1;
    ShiftedRun(n, 1, TOKEN_MAX);
    assert s[1..p] == Zeros(TOKEN_MAX);
    ZerosMantissa(TOKEN_MAX, 0);
    assert ParseNumber(Zeros(TOKEN_MAX)) == Integer(false, 0);
    assert SkipSpaces(s, p) == p && RowEnd(false, s, p) == Stop(InvalidInput, p);
    assert ParseVariant(s, 1, limit - 1, mem.Take(SLOT_SIZE), Null) == Outcome(Ok, Pos(0), p, mem.Take(SLOT_SIZE));
    assert RowHead(false, s, 1, mem, []) == Head(Ok, [Element(Null)], 0, 1, mem.Take(SLOT_SIZE));
    assert ParseRows(false, s, 1, limit, mem, []).err == InvalidInput;
  }

  lemma LongTokenSkipped(n: nat, limit: nat)
    requires n > TOKEN_MAX && limit > 0
    ensures var s := "[" + Zeros(n) + "]"; SkipVariant(s, 0, limit) == Skip(Ok, |s|)
  {
    var s := "[" + Zeros(n) + "]";
    assert SkipSpaces(s, 0) == 0 && SkipSpaces(s, 1) == 1;
    ShiftedRun(n, 1, |s| - 1);
    assert SkipSpaces(s, n + 1) == n + 1 && RowEnd(false, s, n + 1) == Stop(Ok, n + 2);
    assert SkipVariant(s, 1, limit - 1) == Skip(Ok, n + 1);
    assert SkipHead(false, s, 1, limit) == Skip(Ok, 1);
    assert SkipRows(false, s, 1, limit) == Skip(Ok, n + 2);
  }

  lemma {:induction false} ShiftedRun(n: nat, i: nat, m: nat)
    requires 1 <= i <= n + 1
    ensures TokenEnd("[" + Zeros(n) + "]", i, m) == if m <= n + 1 - i then i + m else n + 1
    decreases m
  {
    if m > 0 && i < n + 1 {
      ShiftedRun(n, i + 1, m - 1);
    }
  }

  /** Whenever an array or an object parses, skipping it succeeds and stops at the same place. */
  lemma {:induction false} CollectionSkips(obj: bool, s: string, i: nat, limit: nat, mem: Memory)
    requires i < |s|
    requires ParseCollection(obj, s, i, limit, mem).err == Ok
    ensures SkipCollection(obj, s, i, limit) == Skip(Ok, ParseCollection(obj, s, i, limit, mem).pos)
    decreases limit, 1, 0
  {
    var j := SkipSpaces(s, i + 1);
    if s[j] == Close(obj) {
      if !obj {
        EmptyArraySkips(s, i, limit);
      }
    } else {
      RowsSkip(obj, s, j, limit, mem, []);
      if !obj {
        SpacesBeforeRows(s, i + 1, limit);
      }
    }
  }

  /** The skipper has no special case for `[]`: it skips an empty token. */
  lemma EmptyArraySkips(s: string, i: nat, limit: nat)
    requires i < |s| && limit > 0 && At(s, SkipSpaces(s, i + 1)) == ']'
    ensures SkipCollection(false, s, i, limit) == Skip(Ok, SkipSpaces(s, i + 1) + 1)
  {
    var j := SkipSpaces(s, i + 1);
    assert SkipVariant(s, i + 1, limit - 1) == Skip(Ok, TokenEnd(s, j, |s| - j));
    assert TokenEnd(s, j, |s| - j) == j;
    assert RowEnd(false, s, j) == Stop(Ok, j + 1);
    assert SkipHead(false, s, i + 1, limit) == Skip(Ok, i + 1);
    assert SkipRows(false, s, i + 1, limit) == Skip(Ok, j + 1);
  }

  lemma SpacesBeforeRows(s: string, i: nat, limit: nat)
    requires i <= |s| && limit > 0
    ensures SkipRows(false, s, i, limit) == SkipRows(false, s, SkipSpaces(s, i), limit)
  {
    var j := SkipSpaces(s, i);
    assert SkipSpaces(s, j) == j;
    assert SkipVariant(s, i, limit - 1) == SkipVariant(s, j, limit - 1);
  }

  lemma KeySkips(s: string, i: nat, limit: nat)
    requires i <= |s| && At(s, i) != '\0' && !IsSpace(At(s, i)) && ScanKey(s, i).err == Ok
    ensures SkipVariant(s, i, limit) == Skip(Ok, ScanKey(s, i).pos)
  {
    assert SkipSpaces(s, i) == i;
    if IsQuote(s[i]) {
      QuotedSkips(s, i + 1, s[i], "");
    } else {
      assert TokenEnd(s, i, |s| - i) > i;
      assert IsTokenChar(s[i]);
    }
  }

  lemma HeadSkips(obj: bool, s: string, i: nat, limit: nat, mem: Memory, slots: seq<Slot>)
    requires i <= |s| && limit > 0
    requires RowHead(obj, s, i, mem, slots).err == Ok
    ensures SkipHead(obj, s, i, limit) == Skip(Ok, RowHead(obj, s, i, mem, slots).pos)
  {
    if obj {
      var j := SkipSpaces(s, i);
      KeySkips(s, j, limit - 1);
      assert SkipSpaces(s, j) == j;
      assert SkipVariant(s, i, limit - 1) == SkipVariant(s, j, limit - 1);
    }
  }

  lemma {:induction false} RowsSkip(obj: bool, s: string, i: nat, limit: nat, mem: Memory, slots: seq<Slot>)
    requires i <= |s| && limit > 0
    requires ParseRows(obj, s, i, limit, mem, slots).err == Ok
    ensures SkipRows(obj, s, i, limit) == Skip(Ok, ParseRows(obj, s, i, limit, mem, slots).pos)
    decreases limit, 0, |s| - i
  {
    var h := RowHead(obj, s, i, mem, slots);
    HeadSkips(obj, s, i, limit, mem, slots);
    var v := h.slots[h.k].value;
    var r := ParseVariant(s, h.pos, limit - 1, h.mem, v);
    VariantSkips(s, h.pos, limit - 1, h.mem, v);
    var end := RowEnd(obj, s, r.pos);
    if end.More? {
      RowsSkip(obj, s, end.pos, limit, r.mem, SetValue(h.slots, h.k, r.value));
    }
  }
}
