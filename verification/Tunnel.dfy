/** A stream through the client, over the network in any segments, and through the server. */
module Tunnel {
  import opened Arithmetic
  import opened Octets
  import opened KeyTable
  import opened Bufferevents
  import Cipher
  import Client

  /** One side carries a stream that arrives in segments. */
  method SendAll(segments: seq<seq<byte>>, chunk: nat, table: array<byte>) returns (wire: seq<byte>)
    requires table.Length == TABLE_SIZE && chunk > 0
    ensures wire == Mapped(table[..], Flatten(segments))
  {
    var source := new Bufferevent();
    var target := new Bufferevent();
    Cipher.NothingMapped(table[..], []);
    for i := 0 to |segments|
      invariant source.live && target.live && source.input == []
      invariant target.output == Mapped(table[..], Flatten(segments[..i]))
    {
      source.input := source.input + segments[i];
      assert source.input == segments[i];
      Cipher.Carry(source, target, chunk, table);
      FlattenNext(segments, i);
      MappedConcat(table[..], Flatten(segments[..i]), segments[i]);
    }
    assert segments[..|segments|] == segments;
    wire := target.output;
  }

  lemma FlattenNext(segments: seq<seq<byte>>, i: nat)
    requires i < |segments|
    ensures Flatten(segments[..i + 1]) == Flatten(segments[..i]) + segments[i]
  {
    assert segments[..i + 1] == segments[..i] + [segments[i]];
    FlattenAppend(segments[..i], segments[i]);
  }

  lemma {:induction false} FlattenAppend(segments: seq<seq<byte>>, s: seq<byte>)
    ensures Flatten(segments + [s]) == Flatten(segments) + s
    decreases |segments|
  {
    if segments == [] {
      assert segments + [s] == [s];
    } else {
      assert (segments + [s])[1..] == segments[1..] + [s];
      FlattenAppend(segments[1..], s);
    }
  }

  /** How the network cuts a stream. */
  function Cut(s: seq<byte>, cuts: seq<nat>): (r: seq<seq<byte>>)
    ensures Flatten(r) == s
    decreases |cuts|
  {
    if cuts == [] then
      assert Flatten([s]) == s + Flatten([]);
      [s]
    else
      var n := Min(cuts[0], |s|);
      var rest := Cut(s[n..], cuts[1..]);
      assert ([s[..n]] + rest)[1..] == rest;
      [s[..n]] + rest
  }

  /** From the application to its target: the client encrypts, the server decrypts. */
  method Forward(out: seq<seq<byte>>, cuts: seq<nat>, client: array<byte>, server: array<byte>) returns (arrived: seq<byte>)
    requires client.Length == TABLE_SIZE && server.Length == TABLE_SIZE
    requires IsPermutation(client[..]) && server[..] == client[..]
    ensures arrived == Flatten(out)
  {
    var wire := SendAll(out, Client.CLIENT_CHUNK, client);
    var t := Cipher.InvertTable(server);
    arrived := SendAll(Cut(wire, cuts), Cipher.SERVER_CHUNK, t);
    InverseMapped(client[..], Flatten(out));
  }

  /** From the target back to the application: the server encrypts, the client decrypts. */
  method Backward(out: seq<seq<byte>>, cuts: seq<nat>, client: array<byte>, server: array<byte>) returns (arrived: seq<byte>)
    requires client.Length == TABLE_SIZE && server.Length == TABLE_SIZE
    requires IsPermutation(client[..]) && server[..] == client[..]
    ensures arrived == Flatten(out)
  {
    var wire := SendAll(out, Cipher.SERVER_CHUNK, server);
    var t := Cipher.InvertTable(client);
    arrived := SendAll(Cut(wire, cuts), Client.CLIENT_CHUNK, t);
    InverseMapped(client[..], Flatten(out));
  }
}
