/** The substitution cipher: tables of 256 bytes, their inverses, and streams. */
module KeyTable {
  import opened Octets

  const TABLE_SIZE: nat := 256

  predicate IsTable(p: seq<byte>) { |p| == TABLE_SIZE }

  // ----- permutations -----

  predicate NoRepeats(s: seq<byte>) {
    forall i, j :: 0 <= i < j < |s| ==> s[i] != s[j]
  }

  predicate IsPermutation(p: seq<byte>) { IsTable(p) && NoRepeats(p) }

  /** Fewer than n values cannot fill n places without repeats. */
  lemma {:induction false} Pigeonhole(s: seq<byte>, n: nat)
    requires NoRepeats(s) && forall i :: 0 <= i < |s| ==> s[i] < n
    ensures |s| <= n
    decreases n
  {
    if s == [] {
    } else if k :| 0 <= k < |s| && s[k] == n - 1 {
      Pigeonhole(s[..k] + s[k + 1..], n - 1);
    } else {
      assert s[0] < n;
      Pigeonhole(s, n - 1);
    }
  }

  /** A table without repeats holds every byte. */
  lemma EveryByte(p: seq<byte>, b: byte)
    requires IsPermutation(p)
    ensures b in p
  {
    if b !in p {
      // with b in the place of the largest byte there would be too few values
      var last: byte := TABLE_SIZE - 1;
      var q := seq(|p|, i requires 0 <= i < |p| => if p[i] == last then b else p[i]);
      Pigeonhole(q, TABLE_SIZE - 1);
      assert false;
    }
  }

  function IndexOf(s: seq<byte>, b: byte): (k: nat)
    requires b in s
    ensures k < |s| && s[k] == b
  {
    if s[0] == b then 0 else 1 + IndexOf(s[1..], b)
  }

  /** Fewer places than bytes cannot hold every byte. */
  lemma EnoughPlaces(s: seq<byte>)
    requires forall b: byte :: b in s
    ensures |s| >= TABLE_SIZE
  {
    if |s| < TABLE_SIZE {
      var places: seq<byte> := seq(TABLE_SIZE, b requires 0 <= b < TABLE_SIZE => IndexOf(s, b));
      forall i, j | 0 <= i < j < |places|
        ensures places[i] != places[j]
      {
        assert s[places[i]] == i && s[places[j]] == j;
      }
      Pigeonhole(places, |s|);
    }
  }

  // ----- substitution -----

  function Mapped(table: seq<byte>, s: seq<byte>): (r: seq<byte>)
    requires IsTable(table)
    ensures |r| == |s|
  {
    seq(|s|, i requires 0 <= i < |s| => table[s[i]])
  }

  /** Every byte is replaced by its entry in the table, once and by itself. */
  lemma MappedAt(table: seq<byte>, s: seq<byte>, r: seq<byte>)
    requires IsTable(table)
    ensures r == Mapped(table, s) <==> |r| == |s| && forall i :: 0 <= i < |s| ==> r[i] == table[s[i]]
  {
  }

  /** The inverse table leads back from a byte to the one that is replaced by it. */
  lemma InverseAt(p: seq<byte>, t: seq<byte>)
    requires IsPermutation(p)
    ensures t == Inverse(p) <==> |t| == TABLE_SIZE && forall a: byte, b: byte :: t[b] == a <==> p[a] == b
  {
    var q := Inverse(p);
    forall a: byte, b: byte
      ensures q[b] == a <==> p[a] == b
    {
      InverseFinds(p, TABLE_SIZE, a);
      EveryByte(p, b);
      var k :| 0 <= k < |p| && p[k] == b;
      InverseFinds(p, TABLE_SIZE, k);
    }
    if |t| == TABLE_SIZE && forall a: byte, b: byte :: t[b] == a <==> p[a] == b {
      forall b | 0 <= b < TABLE_SIZE
        ensures t[b] == q[b]
      {
        var a: byte := q[b];
        assert p[a] == b;
      }
      assert t == q;
    }
  }

  lemma MappedConcat(table: seq<byte>, a: seq<byte>, b: seq<byte>)
    requires IsTable(table)
    ensures Mapped(table, a + b) == Mapped(table, a) + Mapped(table, b)
  {
  }

  /** What the loop t[p[i]] = i leaves for b after the first n entries. */
  function InverseUpTo(p: seq<byte>, n: nat, b: byte): byte
    requires IsTable(p) && n <= TABLE_SIZE
  {
    if n == 0 then 0 else if p[n - 1] == b then n - 1 else InverseUpTo(p, n - 1, b)
  }

  function Inverse(p: seq<byte>): (t: seq<byte>)
    requires IsTable(p)
    ensures IsTable(t)
  {
    seq(TABLE_SIZE, b requires 0 <= b < TABLE_SIZE => InverseUpTo(p, TABLE_SIZE, b))
  }

  lemma {:induction false} InverseFinds(p: seq<byte>, n: nat, i: nat)
    requires IsPermutation(p) && i < n <= TABLE_SIZE
    ensures InverseUpTo(p, n, p[i]) == i
    decreases n
  {
    if i < n - 1 {
      InverseFinds(p, n - 1, i);
    }
  }

  /** Substitution by a permutation is undone by its inverse table, in both orders. */
  lemma InverseMapped(p: seq<byte>, s: seq<byte>)
    requires IsPermutation(p)
    ensures Mapped(Inverse(p), Mapped(p, s)) == s && Mapped(p, Mapped(Inverse(p), s)) == s
  {
    forall i | 0 <= i < |s|
      ensures Inverse(p)[p[s[i]]] == s[i] && p[Inverse(p)[s[i]]] == s[i]
    {
      InverseFinds(p, TABLE_SIZE, s[i]);
      EveryByte(p, s[i]);
      var k :| 0 <= k < |p| && p[k] == s[i];
      InverseFinds(p, TABLE_SIZE, k);
    }
  }

  /** When the table repeats a byte, no way of decoding gives every stream back: two different
      streams are encoded alike. */
  lemma RepeatsLose(p: seq<byte>)
    requires IsTable(p)
    ensures IsPermutation(p) <==> forall s: seq<byte>, t: seq<byte> :: Mapped(p, s) == Mapped(p, t) ==> s == t
  {
    if IsPermutation(p) {
      forall s: seq<byte>, t: seq<byte> | Mapped(p, s) == Mapped(p, t)
        ensures s == t
      {
        InverseMapped(p, s);
        InverseMapped(p, t);
      }
    } else {
      var i, j :| 0 <= i < j < |p| && p[i] == p[j];
      assert Mapped(p, [i]) == [p[i]] && Mapped(p, [j]) == [p[j]];
      assert [i] != [j];
    }
  }

  // ----- streams cut into segments -----

  function Flatten(segments: seq<seq<byte>>): seq<byte> {
    if segments == [] then [] else segments[0] + Flatten(segments[1..])
  }

  function MapEach(table: seq<byte>, segments: seq<seq<byte>>): (r: seq<seq<byte>>)
    requires IsTable(table)
    ensures |r| == |segments|
  {
    seq(|segments|, i requires 0 <= i < |segments| => Mapped(table, segments[i]))
  }

  /** Where a stream is cut does not matter to its substitution. */
  lemma {:induction false} MappedSegments(table: seq<byte>, segments: seq<seq<byte>>)
    requires IsTable(table)
    ensures Flatten(MapEach(table, segments)) == Mapped(table, Flatten(segments))
    decreases |segments|
  {
    if segments != [] {
      assert MapEach(table, segments)[1..] == MapEach(table, segments[1..]);
      MappedSegments(table, segments[1..]);
      MappedConcat(table, segments[0], Flatten(segments[1..]));
    }
  }

  /** A stream that is encoded in some segments, carried in order, and decoded in any others
      arrives as it was; and so does one that is decoded first and encoded later. */
  lemma EndToEnd(p: seq<byte>, out: seq<seq<byte>>, arriving: seq<seq<byte>>)
    requires IsPermutation(p)
    ensures Flatten(arriving) == Flatten(MapEach(p, out)) ==> Flatten(MapEach(Inverse(p), arriving)) == Flatten(out)
    ensures Flatten(arriving) == Flatten(MapEach(Inverse(p), out)) ==> Flatten(MapEach(p, arriving)) == Flatten(out)
  {
    MappedSegments(p, out);
    MappedSegments(Inverse(p), out);
    MappedSegments(p, arriving);
    MappedSegments(Inverse(p), arriving);
    InverseMapped(p, Flatten(out));
  }
}
