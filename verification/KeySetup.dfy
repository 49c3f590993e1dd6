/** How the key table is made, carried to both sides as text, and set up there. */
module KeySetup {
  import opened Octets
  import opened KeyTable
  import opened Base64

  /** The draws without those that were drawn before. */
  function Distinct(draws: seq<byte>): (r: seq<byte>)
    ensures NoRepeats(r) && forall b :: b in r <==> b in draws
  {
    if draws == [] then []
    else
      var rest, x := Distinct(draws[..|draws| - 1]), draws[|draws| - 1];
      assert draws == draws[..|draws| - 1] + [x];
      if x in rest then rest else rest + [x]
  }

  /** Draws bytes until 256 different ones were seen.  The random device is a sequence of draws,
      which suffices exactly when every byte is drawn. */
  method GenPassword(draws: seq<byte>) returns (ok: bool, p: string)
    ensures ok <==> forall b: byte :: b in draws
    ensures ok ==> IsPermutation(Distinct(draws)) && p == Encode(Distinct(draws))
  {
    var pwd := new byte[TABLE_SIZE];
    var index, k := 0, 0;
    while k < |draws|
      invariant k <= |draws| && 0 <= index < TABLE_SIZE
      invariant pwd[..index] == Distinct(draws[..k])
    {
      var num := draws[k];
      var flag := true;
      for j := 0 to index
        invariant flag && num !in pwd[..j]
      {
        if num == pwd[j] {
          flag := false;
          assert num in pwd[..index];
          break;
        }
        assert pwd[..j + 1] == pwd[..j] + [pwd[j]];
      }
      assert draws[..k + 1][..k] == draws[..k];
      if flag {
        pwd[index] := num;
        index := index + 1;
        assert pwd[..index] == pwd[..index - 1] + [num];
      }
      k := k + 1;
      if index == TABLE_SIZE {
        assert pwd[..] == pwd[..index];
        AllDrawn(draws, k);
        NoMoreDrawn(draws, k);
        p := Base64Encode(pwd[..]);
        return true, p;
      }
    }
    assert draws[..k] == draws;
    NotAllDrawn(draws);
    ok, p := false, "";
  }

  /** A byte in front of another one was drawn before that one was. */
  lemma {:induction false} DrawnInOrder(draws: seq<byte>, i: nat, j: nat)
    requires i < j < |Distinct(draws)|
    ensures exists k :: 0 <= k < |draws| && draws[k] == Distinct(draws)[i] && Distinct(draws)[j] !in draws[..k + 1]
    decreases |draws|
  {
    var before := draws[..|draws| - 1];
    var rest, r := Distinct(before), Distinct(draws);
    var k: nat;
    if j < |rest| {
      DrawnInOrder(before, i, j);
      k :| 0 <= k < |before| && before[k] == rest[i] && rest[j] !in before[..k + 1];
    } else {
      assert rest[i] in before && r[j] !in before;
      k :| 0 <= k < |before| && before[k] == rest[i];
    }
    assert draws[..k + 1] == before[..k + 1] && draws[k] == r[i];
  }

  /** Draws after all bytes were drawn do not matter. */
  lemma {:induction false} NoMoreDrawn(draws: seq<byte>, k: nat)
    requires k <= |draws| && |Distinct(draws[..k])| == TABLE_SIZE
    ensures Distinct(draws) == Distinct(draws[..k])
    decreases |draws|
  {
    if k == |draws| {
      assert draws[..k] == draws;
    } else {
      var before := draws[..|draws| - 1];
      assert before[..k] == draws[..k];
      NoMoreDrawn(before, k);
      EveryByte(Distinct(before), draws[|draws| - 1]);
    }
  }

  lemma AllDrawn(draws: seq<byte>, k: nat)
    requires k <= |draws| && |Distinct(draws[..k])| == TABLE_SIZE
    ensures forall b: byte :: b in draws
  {
    forall b: byte
      ensures b in draws
    {
      EveryByte(Distinct(draws[..k]), b);
      assert b in draws[..k];
    }
  }

  lemma NotAllDrawn(draws: seq<byte>)
    requires |Distinct(draws)| < TABLE_SIZE
    ensures !forall b: byte :: b in draws
  {
    if forall b: byte :: b in draws {
      EnoughPlaces(Distinct(draws));
    }
  }

  /** Decodes the configured password into the table.  A password of more than 256 bytes would
      be written past its end. */
  method SetConfig(password: string, table: array<byte>)
    requires table.Length == TABLE_SIZE && |Decode(password)| <= TABLE_SIZE
    modifies table
    ensures table[..] == Decode(password) + old(table[..])[|Decode(password)|..]
  {
    var decoded := Base64Decode(password);
    for i := 0 to |decoded|
      invariant forall k :: 0 <= k < i ==> table[k] == decoded[k]
      invariant forall k :: i <= k < TABLE_SIZE ==> table[k] == old(table[k])
    {
      table[i] := decoded[i];
    }
  }

  /** The password generated once and configured on both sides makes the same permutation
      there, whatever the tables held before. */
  method SetUpBothSides(draws: seq<byte>, client: array<byte>, server: array<byte>) returns (ok: bool)
    requires client.Length == TABLE_SIZE && server.Length == TABLE_SIZE && client != server
    modifies client, server
    ensures ok <==> forall b: byte :: b in draws
    ensures ok ==> IsPermutation(client[..]) && server[..] == client[..] == Distinct(draws)
  {
    var p;
    ok, p := GenPassword(draws);
    if ok {
      RoundTrip(Distinct(draws));
      SetConfig(p, client);
      SetConfig(p, server);
    }
  }
}
