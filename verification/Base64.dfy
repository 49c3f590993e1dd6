/** Base64 as the key table travels in: section 4 of RFC 4648, with a decoder that stops at the
    first character that is not of the alphabet. */
module Base64 {
  import opened Octets

  // ----- the alphabet -----

  type sextet = v: int | 0 <= v < 64

  function CharOf(v: sextet): char {
    if v < 26 then ('A' as int + v) as char
    else if v < 52 then ('a' as int + v - 26) as char
    else if v < 62 then ('0' as int + v - 52) as char
    else if v == 62 then '+' else '/'
  }

  predicate IsBase64(c: char) {
    'A' <= c <= 'Z' || 'a' <= c <= 'z' || '0' <= c <= '9' || c == '+' || c == '/'
  }

  /** The position of a character in the alphabet. */
  function ValueOf(c: char): (v: sextet)
    requires IsBase64(c)
  {
    if 'A' <= c <= 'Z' then c as int - 'A' as int
    else if 'a' <= c <= 'z' then c as int - 'a' as int + 26
    else if '0' <= c <= '9' then c as int - '0' as int + 52
    else if c == '+' then 62 else 63
  }

  lemma Alphabet(v: sextet, c: char)
    ensures IsBase64(CharOf(v)) && CharOf(v) != '=' && ValueOf(CharOf(v)) == v
    ensures IsBase64(c) ==> CharOf(ValueOf(c)) == c
  {
  }

  /** Table 1 of RFC 4648: the capitals, the small letters, the digits, and two more. */
  lemma AlphabetOrder()
    ensures CharOf(0) == 'A' && CharOf(25) == 'Z' && CharOf(26) == 'a' && CharOf(51) == 'z'
    ensures CharOf(52) == '0' && CharOf(61) == '9' && CharOf(62) == '+' && CharOf(63) == '/'
    ensures forall v: sextet :: v < 61 && v != 25 && v != 51 ==> CharOf(v + 1) as int == CharOf(v) as int + 1
  {
  }

  // ----- what encoding and decoding mean -----

  /** The four 6-bit groups of three bytes. */
  function Split(a: byte, b: byte, c: byte): (r: seq<sextet>)
    ensures |r| == 4
  {
    [a / 4, a % 4 * 16 + b / 16, b % 16 * 4 + c / 64, c % 64]
  }

  /** The three bytes of four 6-bit groups. */
  function Join(p: sextet, q: sextet, r: sextet, s: sextet): (b: seq<byte>)
    ensures |b| == 3
  {
    [p * 4 + q / 16, q % 16 * 16 + r / 4, r % 4 * 64 + s]
  }

  function Letters(v: seq<sextet>): (t: string)
    ensures |t| == |v|
  {
    seq(|v|, i requires 0 <= i < |v| => CharOf(v[i]))
  }

  function Encode(b: seq<byte>): string
    decreases |b|
  {
    if b == [] then ""
    else if |b| == 1 then Letters(Split(b[0], 0, 0)[..2]) + "=="
    else if |b| == 2 then Letters(Split(b[0], b[1], 0)[..3]) + "="
    else Letters(Split(b[0], b[1], b[2])) + Encode(b[3..])
  }

  /** How far the decoder reads: up to a padding or any other foreign character. */
  function ValidLength(s: string): (k: nat)
    ensures k <= |s|
    ensures forall i :: 0 <= i < k ==> IsBase64(s[i])
    ensures k < |s| ==> !IsBase64(s[k])
  {
    if s == "" || !IsBase64(s[0]) then 0
    else
      assert forall i :: 0 < i < |s| ==> s[i] == s[1..][i - 1];
      1 + ValidLength(s[1..])
  }

  predicate AllValid(s: string) { forall i :: 0 <= i < |s| ==> IsBase64(s[i]) }

  /** An incomplete last group of n characters gives n - 1 bytes. */
  function DecodeValid(s: string): seq<byte>
    requires AllValid(s)
    decreases |s|
  {
    if |s| < 4 then DecodeTail(s)
    else Join(ValueOf(s[0]), ValueOf(s[1]), ValueOf(s[2]), ValueOf(s[3])) + DecodeValid(s[4..])
  }

  function DecodeTail(s: string): seq<byte>
    requires AllValid(s) && |s| < 4
  {
    if |s| < 2 then []
    else if |s| == 2 then Join(ValueOf(s[0]), ValueOf(s[1]), 0, 0)[..1]
    else Join(ValueOf(s[0]), ValueOf(s[1]), ValueOf(s[2]), 0)[..2]
  }

  function Decode(s: string): seq<byte> { DecodeValid(s[..ValidLength(s)]) }

  // ----- the laws -----

  lemma {:induction false} EncodedLength(b: seq<byte>)
    ensures |Encode(b)| == 4 * ((|b| + 2) / 3)
    decreases |b|
  {
    if |b| > 2 {
      EncodedLength(b[3..]);
    }
  }

  /** The three bytes of the group at g as one number; bytes that are missing are zero. */
  function GroupAt(b: seq<byte>, g: nat): nat
    requires 3 * g < |b|
  {
    var x: int, y: int, z: int := b[3 * g], if 3 * g + 1 < |b| then b[3 * g + 1] else 0, if 3 * g + 2 < |b| then b[3 * g + 2] else 0;
    0x1_0000 * x + 0x100 * y + z
  }

  /** The j-th six bits of 24, from the left. */
  function SixBits(n: nat, j: nat): (v: nat)
    ensures v < 64
  {
    (if j == 0 then n / 0x4_0000 else if j == 1 then n / 0x1000 else if j == 2 then n / 0x40 else n) % 64
  }

  /** Every character by its position: n bytes of a group make n + 1 letters of the alphabet, and the
      rest is padding. */
  lemma {:induction false} EncodedAt(b: seq<byte>, i: nat)
    requires i < 4 * ((|b| + 2) / 3)
    ensures i < |Encode(b)| && 3 * (i / 4) < |b|
    ensures Encode(b)[i] == if i % 4 <= |b| - 3 * (i / 4) then CharOf(SixBits(GroupAt(b, i / 4), i % 4)) else '='
    decreases |b|
  {
    hide CharOf, SixBits, Split, Letters;
    EncodedLength(b);
    if i >= 4 {
      EncodedAt(b[3..], i - 4);
      NextGroup(b, (i - 4) / 4);
      assert i == 4 * (1 + (i - 4) / 4) + (i - 4) % 4;
    } else {
      FirstGroup(b, i);
    }
  }

  lemma NextGroup(b: seq<byte>, g: nat)
    requires |b| > 3 && 3 * g < |b| - 3
    ensures GroupAt(b, g + 1) == GroupAt(b[3..], g)
  {
  }

  lemma FirstGroup(b: seq<byte>, i: nat)
    requires b != [] && i < 4
    ensures i < |Encode(b)|
    ensures Encode(b)[i] == if i <= |b| then CharOf(SixBits(GroupAt(b, 0), i)) else '='
  {
    var v := Split(b[0], if |b| > 1 then b[1] else 0, if |b| > 2 then b[2] else 0);
    SplitBits(b[0], if |b| > 1 then b[1] else 0, if |b| > 2 then b[2] else 0);
    assert i <= |b| ==> Encode(b)[i] == CharOf(v[i]);
  }

  lemma SplitBits(a: byte, b: byte, c: byte)
    ensures var n := 0x1_0000 * a + 0x100 * b + c; Split(a, b, c) == [SixBits(n, 0), SixBits(n, 1), SixBits(n, 2), SixBits(n, 3)]
  {
    FourDigits(a / 4, a % 4 * 16 + b / 16, b % 16 * 4 + c / 64, c % 64);
    assert 0x1_0000 * a + 0x100 * b + c == 0x4_0000 * (a / 4) + 0x1000 * (a % 4 * 16 + b / 16) + 0x40 * (b % 16 * 4 + c / 64) + c % 64;
  }

  lemma FourDigits(p: nat, q: nat, r: nat, s: nat)
    requires p < 64 && q < 64 && r < 64 && s < 64
    ensures var n := 0x4_0000 * p + 0x1000 * q + 0x40 * r + s;
            SixBits(n, 0) == p && SixBits(n, 1) == q && SixBits(n, 2) == r && SixBits(n, 3) == s
  {
    var n := 0x4_0000 * p + 0x1000 * q + 0x40 * r + s;
    Sixty4(0x1000 * p + 0x40 * q + r, s);
    Sixty4(0x40 * p + q, r);
    Sixty4(p, q);
    assert n == 64 * (0x1000 * p + 0x40 * q + r) + s;
    assert n / 0x1000 == n / 0x40 / 0x40 && n / 0x4_0000 == n / 0x1000 / 0x40;
  }

  lemma Sixty4(x: nat, y: nat)
    requires y < 64
    ensures (64 * x + y) / 64 == x && (64 * x + y) % 64 == y
  {
  }

  lemma {:induction false} DecodedValidLength(s: string)
    requires AllValid(s)
    ensures |DecodeValid(s)| == 3 * (|s| / 4) + if |s| % 4 == 0 then 0 else |s| % 4 - 1
    decreases |s|
  {
    if |s| >= 4 {
      DecodedValidLength(s[4..]);
    }
  }

  function ValueAt(s: string, i: nat): (v: nat)
    requires AllValid(s)
    ensures v < 64
  {
    if i < |s| then ValueOf(s[i]) else 0
  }

  /** The four letters of the group at g as one number; letters that are missing are zero. */
  function LettersAt(s: string, g: nat): nat
    requires AllValid(s)
  {
    0x4_0000 * ValueAt(s, 4 * g) + 0x1000 * ValueAt(s, 4 * g + 1) + 0x40 * ValueAt(s, 4 * g + 2) + ValueAt(s, 4 * g + 3)
  }

  /** The j-th eight bits of 24, from the left. */
  function EightBits(n: nat, j: nat): nat {
    (if j == 0 then n / 0x1_0000 else if j == 1 then n / 0x100 else n) % 256
  }

  /** Every byte by its position. */
  lemma {:induction false} DecodedAt(s: string, i: nat)
    requires AllValid(s) && i < |DecodeValid(s)|
    ensures DecodeValid(s)[i] == EightBits(LettersAt(s, i / 3), i % 3)
    decreases |s|
  {
    if |s| >= 4 && i >= 3 {
      assert i / 3 == 1 + (i - 3) / 3 && i % 3 == (i - 3) % 3;
      DecodedAt(s[4..], i - 3);
      assert LettersAt(s, i / 3) == LettersAt(s[4..], (i - 3) / 3);
    } else {
      FirstBytes(s, i);
    }
  }

  lemma FirstBytes(s: string, i: nat)
    requires AllValid(s) && i < 3 && i < |DecodeValid(s)|
    ensures DecodeValid(s)[i] == EightBits(LettersAt(s, 0), i)
  {
    var p, q, r, v := ValueAt(s, 0), ValueAt(s, 1), ValueAt(s, 2), ValueAt(s, 3);
    assert DecodeValid(s)[i] == Join(p, q, r, v)[i];
    hide ValueOf, IsBase64, EightBits;
    JoinBits(p, q, r, v);
  }

  lemma JoinBits(p: sextet, q: sextet, r: sextet, s: sextet)
    ensures var n := 0x4_0000 * p + 0x1000 * q + 0x40 * r + s; Join(p, q, r, s) == [EightBits(n, 0), EightBits(n, 1), EightBits(n, 2)]
  {
    FirstEight(p, q, 0x40 * r + s);
    MiddleEight(p, q, r, s);
    LastEight(p, q, r, s);
    assert 0x4_0000 * p + 0x1000 * q + (0x40 * r + s) == 0x4_0000 * p + 0x1000 * q + 0x40 * r + s;
  }

  lemma LastEight(p: sextet, q: sextet, r: sextet, s: sextet)
    ensures (0x4_0000 * p + 0x1000 * q + 0x40 * r + s) % 256 == r % 4 * 64 + s
  {
    TwoDigits(1024 * p + 16 * q + r / 4, 64 * (r % 4) + s);
    assert 0x4_0000 * p + 0x1000 * q + 0x40 * r + s == 256 * (1024 * p + 16 * q + r / 4) + (64 * (r % 4) + s);
  }

  lemma FirstEight(p: sextet, q: sextet, rest: nat)
    requires rest < 0x1000
    ensures (0x4_0000 * p + 0x1000 * q + rest) / 0x1_0000 % 256 == p * 4 + q / 16
  {
    assert 0x4_0000 * p + 0x1000 * q + rest == 0x1_0000 * (p * 4 + q / 16) + (0x1000 * (q % 16) + rest);
  }

  lemma MiddleEight(p: sextet, q: sextet, r: sextet, s: sextet)
    ensures (0x4_0000 * p + 0x1000 * q + 0x40 * r + s) / 0x100 % 256 == q % 16 * 16 + r / 4
  {
    TwoDigits(1024 * p + 16 * q + r / 4, 64 * (r % 4) + s);
    assert 0x4_0000 * p + 0x1000 * q + 0x40 * r + s == 256 * (1024 * p + 16 * q + r / 4) + (64 * (r % 4) + s);
    TwoDigits(4 * p + q / 16, 16 * (q % 16) + r / 4);
    assert 1024 * p + 16 * q + r / 4 == 256 * (4 * p + q / 16) + (16 * (q % 16) + r / 4);
  }

  lemma TwoDigits(x: nat, y: nat)
    requires y < 256
    ensures (256 * x + y) / 256 == x && (256 * x + y) % 256 == y
  {
  }

  /** Decoding depends only on the longest valid prefix, whose length decides how many bytes
      there are. */
  lemma DecodedLength(s: string)
    ensures var k := ValidLength(s);
            && Decode(s) == Decode(s[..k])
            && |Decode(s)| == 3 * (k / 4) + if k % 4 == 0 then 0 else k % 4 - 1
  {
    var k := ValidLength(s);
    DecodedValidLength(s[..k]);
    assert ValidLength(s[..k]) == k;
    assert s[..k][..k] == s[..k];
  }

  lemma JoinSplit(a: byte, b: byte, c: byte)
    ensures var v := Split(a, b, c); Join(v[0], v[1], v[2], v[3]) == [a, b, c]
  {
  }

  lemma {:induction false} ValidPrefix(s: string, t: string)
    requires AllValid(s)
    ensures ValidLength(s + t) == |s| + ValidLength(t) && (s + t)[..|s| + ValidLength(t)] == s + t[..ValidLength(t)]
    decreases |s|
  {
    if s == "" {
      assert s + t == t;
    } else {
      assert (s + t)[1..] == s[1..] + t;
      ValidPrefix(s[1..], t);
    }
  }

  lemma LettersValid(v: seq<sextet>)
    ensures AllValid(Letters(v)) && forall i :: 0 <= i < |v| ==> ValueOf(Letters(v)[i]) == v[i]
  {
    forall i | 0 <= i < |v|
      ensures IsBase64(Letters(v)[i]) && ValueOf(Letters(v)[i]) == v[i]
    {
      Alphabet(v[i], 'A');
    }
  }

  /** Decoding what was encoded gives the bytes back. */
  lemma {:induction false} RoundTrip(b: seq<byte>)
    ensures Decode(Encode(b)) == b
    decreases |b|
  {
    hide CharOf, ValueOf, IsBase64;
    if b == [] {
      assert ValidLength("") == 0;
    } else if |b| <= 2 {
      TailRoundTrip(b);
    } else {
      var v := Split(b[0], b[1], b[2]);
      LettersValid(v);
      ValidPrefix(Letters(v), Encode(b[3..]));
      RoundTrip(b[3..]);
      JoinSplit(b[0], b[1], b[2]);
      var rest := Encode(b[3..])[..ValidLength(Encode(b[3..]))];
      assert (Letters(v) + rest)[4..] == rest;
      assert b == [b[0], b[1], b[2]] + b[3..];
    }
  }

  /** The bytes an incomplete group gives are the first ones of the complete group. */
  lemma TailBytes(v: seq<sextet>, n: nat)
    requires |v| == 4 && 2 <= n <= 3
    ensures AllValid(Letters(v[..n])) && DecodeTail(Letters(v[..n])) == Join(v[0], v[1], v[2], v[3])[..n - 1]
  {
    LettersValid(v[..n]);
    hide CharOf, ValueOf, IsBase64;
  }

  lemma PaddedValid(t: string, padding: string)
    requires AllValid(t) && padding != "" && padding[0] == '='
    ensures ValidLength(t + padding) == |t| && (t + padding)[..|t|] == t
  {
    ValidPrefix(t, padding);
    assert t + padding[..0] == t;
  }

  lemma TailRoundTrip(b: seq<byte>)
    requires 1 <= |b| <= 2
    ensures Decode(Encode(b)) == b
  {
    hide CharOf, ValueOf, IsBase64, Split, Join, DecodeTail, ValidLength, Letters;
    var c := if |b| == 2 then b[1] else 0;
    var v, padding := Split(b[0], c, 0), if |b| == 1 then "==" else "=";
    var t := Letters(v[..|b| + 1]);
    TailBytes(v, |b| + 1);
    JoinSplit(b[0], c, 0);
    PaddedValid(t, padding);
    assert Encode(b) == t + padding;
    assert [b[0], c, 0][..|b|] == b;
  }

  // ----- the loops -----

  lemma EncodeFront(b: seq<byte>, k: nat, m: nat)
    requires k + 3 == m <= |b|
    ensures Encode(b[k..]) == Encode(b[k..m]) + Encode(b[m..])
  {
    assert b[k..][3..] == b[m..] && b[k..m][3..] == [];
    assert Letters(Split(b[k], b[k + 1], b[k + 2])) + "" == Letters(Split(b[k], b[k + 1], b[k + 2]));
  }

  /** Appends the letters of the first n groups of six bits. */
  method AppendLetters(ret: string, groups: array<sextet>, n: nat) returns (r: string)
    requires n <= groups.Length
    ensures r == ret + Letters(groups[..n])
  {
    hide CharOf;
    r := ret;
    for i := 0 to n
      invariant r == ret + Letters(groups[..i])
    {
      r := r + [CharOf(groups[i])];
      assert groups[..i + 1] == groups[..i] + [groups[i]];
    }
  }

  method SplitInto(three: array<byte>, four: array<sextet>)
    requires three.Length == 3 && four.Length == 4
    modifies four
    ensures four[..] == Split(three[0], three[1], three[2])
  {
    four[0] := three[0] / 4;
    four[1] := three[0] % 4 * 16 + three[1] / 16;
    four[2] := three[1] % 16 * 4 + three[2] / 64;
    four[3] := three[2] % 64;
  }

  method Base64Encode(bytes: seq<byte>) returns (ret: string)
    ensures ret == Encode(bytes)
  {
    hide Encode;
    ret := "";
    var three, four := new byte[3], new sextet[4];
    var i, k := 0, 0;
    while k < |bytes|
      invariant 0 <= i < 3 && i <= k <= |bytes|
      invariant forall j :: 0 <= j < i ==> three[j] == bytes[k - i + j]
      invariant Encode(bytes) == ret + Encode(bytes[k - i..])
    {
      three[i] := bytes[k];
      i, k := i + 1, k + 1;
      if i == 3 {
        ret := EncodeGroup(ret, three, four, bytes[k - 3..k]);
        EncodeFront(bytes, k - 3, k);
        i := 0;
      }
    }
    if i != 0 {
      ret := EncodeRest(ret, three, four, i, bytes[k - i..]);
    } else {
      assert bytes[k..] == [];
      NothingEncoded();
    }
  }

  lemma NothingEncoded()
    ensures Encode([]) == ""
  {
  }

  /** Three bytes. */
  method EncodeGroup(start: string, three: array<byte>, four: array<sextet>, ghost group: seq<byte>) returns (ret: string)
    requires three.Length == 3 && four.Length == 4 && three[..] == group
    modifies four
    ensures ret == start + Encode(group)
  {
    hide Split, Letters, CharOf;
    SplitInto(three, four);
    ret := AppendLetters(start, four, 4);
    assert four[..4] == four[..] && group[3..] == [];
    assert group[0] == three[0] && group[1] == three[1] && group[2] == three[2];
  }

  /** The last one or two bytes, padded. */
  method EncodeRest(start: string, three: array<byte>, four: array<sextet>, count: nat, ghost rest: seq<byte>) returns (ret: string)
    requires three.Length == 3 && four.Length == 4 && 1 <= count <= 2 && |rest| == count
    requires forall j :: 0 <= j < count ==> three[j] == rest[j]
    modifies three, four
    ensures ret == start + Encode(rest)
  {
    hide Split, Letters, CharOf;
    var i := count;
    for j := i to 3
      invariant forall m :: 0 <= m < i ==> three[m] == rest[m]
      invariant forall m :: i <= m < j ==> three[m] == 0
    {
      three[j] := 0;
    }
    SplitInto(three, four);
    ret := AppendLetters(start, four, i + 1);
    ghost var padded := ret;
    while i < 3
      invariant count <= i <= 3 && ret == padded + Padding(i - count)
    {
      ret := ret + "=";
      i := i + 1;
    }
    assert Padding(3 - count) == if count == 1 then "==" else "=";
  }

  function Padding(n: nat): (t: string)
    ensures |t| == n
  {
    seq(n, _ => '=')
  }

  lemma DecodeFront(s: string, k: nat, m: nat)
    requires AllValid(s) && k + 4 == m <= |s|
    ensures DecodeValid(s[k..]) == DecodeValid(s[k..m]) + DecodeValid(s[m..])
  {
    hide ValueOf, Join, IsBase64;
    assert s[k..][4..] == s[m..] && s[k..m][4..] == "";
    assert s[k..m][0] == s[k..][0] && s[k..m][1] == s[k..][1] && s[k..m][2] == s[k..][2] && s[k..m][3] == s[k..][3];
    assert DecodeValid("") == [];
  }

  /** Replaces the first n characters by their positions in the alphabet. */
  method LookUp(four: array<byte>, n: nat, ghost t: string)
    requires n <= |t| && n <= four.Length && AllValid(t) && forall j :: 0 <= j < n ==> four[j] == t[j] as int
    modifies four
    ensures forall j :: 0 <= j < n ==> four[j] == ValueOf(t[j])
  {
    hide ValueOf;
    for j := 0 to n
      invariant forall m :: 0 <= m < j ==> four[m] == ValueOf(t[m])
      invariant forall m :: j <= m < n ==> four[m] == t[m] as int
    {
      assert four[j] as char == t[j];
      four[j] := ValueOf(four[j] as char);
    }
  }

  method Base64Decode(encoded: string) returns (ret: seq<byte>)
    ensures ret == Decode(encoded)
  {
    hide ValueOf, ValidLength, DecodeValid, IsBase64;
    ret := [];
    var four, three := new byte[4], new byte[3];
    var i, k := 0, 0;
    ghost var all := encoded[..ValidLength(encoded)];
    ValidChars(encoded);
    while k < |encoded| && encoded[k] != '=' && IsBase64(encoded[k])
      invariant 0 <= i < 4 && i <= k <= |all|
      invariant forall j :: 0 <= j < i ==> four[j] == all[k - i + j] as int
      invariant DecodeValid(all) == ret + DecodeValid(all[k - i..])
    {
      four[i] := encoded[k] as int;
      i, k := i + 1, k + 1;
      if i == 4 {
        var group := DecodeGroup(four, three, 4, all[k - 4..k]);
        ret := ret + group;
        DecodeFront(all, k - 4, k);
        i := 0;
      }
    }
    assert k == |all|;
    if i != 0 {
      var group := DecodeGroup(four, three, i, all[k - i..]);
      ret := ret + group;
    } else {
      assert all[k..] == "";
      NothingDecoded();
    }
  }

  lemma ValidChars(s: string)
    ensures AllValid(s[..ValidLength(s)])
    ensures forall c :: IsBase64(c) ==> c != '=' && c as int < 128
  {
  }

  lemma NothingDecoded()
    ensures DecodeValid("") == []
  {
  }

  /** The bytes of a group, which is incomplete if it is the last one. */
  method DecodeGroup(four: array<byte>, three: array<byte>, n: nat, ghost t: string) returns (r: seq<byte>)
    requires four.Length == 4 && three.Length == 3 && 1 <= n <= 4 && |t| == n && AllValid(t)
    requires forall j :: 0 <= j < n ==> four[j] == t[j] as int
    modifies four, three
    ensures r == DecodeValid(t)
  {
    hide ValueOf, Join;
    LookUp(four, n, t);
    JoinInto(four, three, t, n);
    r := three[..n - 1];
    if n == 4 {
      assert three[..3] == three[..] && t[4..] == "";
    }
  }

  // the three shifts, in unsigned bytes

  function FirstByte(a: int, b: int): byte { (a * 4 + b % 64 / 16) % 256 }

  function SecondByte(b: int, c: int): byte { (b % 16 * 16 + c % 64 / 4) % 256 }

  function ThirdByte(c: int, d: int): byte { (c % 4 * 64 + d) % 256 }

  lemma Shifts(p: sextet, q: sextet, r: sextet, s: sextet)
    ensures Join(p, q, r, s) == [FirstByte(p, q), SecondByte(q, r), ThirdByte(r, s)]
  {
    FirstShift(p, q);
    SecondShift(q, r);
    ThirdShift(r, s);
    hide FirstByte, SecondByte, ThirdByte;
  }

  lemma FirstShift(p: sextet, q: sextet)
    ensures FirstByte(p, q) == p * 4 + q / 16
  {
    assert q % 64 == q;
  }

  lemma SecondShift(q: sextet, r: sextet)
    ensures SecondByte(q, r) == q % 16 * 16 + r / 4
  {
    assert r % 64 == r;
  }

  lemma ThirdShift(r: sextet, s: sextet)
    ensures ThirdByte(r, s) == r % 4 * 64 + s
  {
    assert r % 4 <= 3;
  }

  /** The bytes of the first n groups; the others are whatever was left in the buffer. */
  method JoinInto(four: array<byte>, three: array<byte>, ghost t: string, n: nat)
    requires four.Length == 4 && three.Length == 3 && 1 <= n <= 4 && n <= |t| && AllValid(t)
    requires forall j :: 0 <= j < n ==> four[j] == ValueOf(t[j])
    modifies three
    ensures n == 4 ==> three[..] == Join(ValueOf(t[0]), ValueOf(t[1]), ValueOf(t[2]), ValueOf(t[3]))
    ensures n < 4 && n == |t| ==> three[..n - 1] == DecodeTail(t)
  {
    hide ValueOf, Join, FirstByte, SecondByte, ThirdByte;
    three[0] := FirstByte(four[0], four[1]);
    three[1] := SecondByte(four[1], four[2]);
    three[2] := ThirdByte(four[2], four[3]);
    if n >= 2 {
      Shifts(ValueOf(t[0]), ValueOf(t[1]), if n >= 3 then ValueOf(t[2]) else 0, if n == 4 then ValueOf(t[3]) else 0);
    }
  }
}
