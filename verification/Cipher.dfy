/** The loops that carry a stream through the substitution, on the client and on the server. */
module Cipher {
  import opened Octets
  import opened KeyTable
  import opened Bufferevents

  /** t[password[i]] = i for all i. */
  method InvertTable(password: array<byte>) returns (t: array<byte>)
    requires password.Length == TABLE_SIZE
    ensures fresh(t) && t.Length == TABLE_SIZE && t[..] == Inverse(password[..])
  {
    t := new byte[TABLE_SIZE](_ => 0);
    ghost var p := password[..];
    for i := 0 to TABLE_SIZE
      invariant password[..] == p
      invariant forall b :: 0 <= b < TABLE_SIZE ==> t[b] == InverseUpTo(p, i, b)
    {
      t[password[i]] := i;
    }
  }

  /** Substitutes the first n bytes of a buffer. */
  method Substitute(data: array<byte>, n: nat, table: array<byte>) returns (r: seq<byte>)
    requires n <= data.Length && table.Length == TABLE_SIZE
    ensures r == Mapped(table[..], data[..n])
  {
    var temp := new byte[data.Length](_ => 0);
    for i := 0 to n
      invariant forall k :: 0 <= k < i ==> temp[k] == table[data[k]]
    {
      temp[i] := table[data[i]];
    }
    r := temp[..n];
  }

  /** Reads in chunks until the input is empty, substitutes each, and writes it to the other
      end. */
  method Carry(source: Bufferevent, target: Bufferevent, chunk: nat, table: array<byte>)
    requires source.live && target.live && source != target && table.Length == TABLE_SIZE && chunk > 0
    modifies source`input, target`output
    ensures source.input == []
    ensures target.output == old(target.output) + Mapped(table[..], old(source.input))
  {
    hide Mapped;
    ghost var done: seq<byte> := [];
    NothingMapped(table[..], target.output);
    while true
      invariant old(source.input) == done + source.input
      invariant target.output == old(target.output) + Mapped(table[..], done)
      decreases |source.input|
    {
      var data := new byte[chunk + 1](_ => 0);
      var n := source.Read(data, chunk);
      if n == 0 {
        break;
      }
      var piece := Substitute(data, n, table);
      target.Write(piece);
      MappedConcat(table[..], done, data[..n]);
      done := done + data[..n];
    }
    assert done == old(source.input);
  }

  lemma NothingMapped(table: seq<byte>, s: seq<byte>)
    requires IsTable(table)
    ensures s + Mapped(table, []) == s
  {
  }

  // ----- the server's cipher -----

  const SERVER_CHUNK: nat := 2047

  /** From the client to the target. */
  method Decrypt(self: Bufferevent, partner: Bufferevent, password: array<byte>)
    requires self.live && partner.live && self != partner && password.Length == TABLE_SIZE
    modifies self`input, partner`output
    ensures self.input == []
    ensures partner.output == old(partner.output) + Mapped(Inverse(password[..]), old(self.input))
  {
    var t := InvertTable(password);
    Carry(self, partner, SERVER_CHUNK, t);
  }

  /** From the target to the client. */
  method Encrypt(self: Bufferevent, partner: Bufferevent, password: array<byte>)
    requires self.live && partner.live && self != partner && password.Length == TABLE_SIZE
    modifies partner`input, self`output
    ensures partner.input == []
    ensures self.output == old(self.output) + Mapped(password[..], old(partner.input))
  {
    Carry(partner, self, SERVER_CHUNK, password);
  }

  /** The buffer these two copy to has 32 bytes. */
  const HANDSHAKE_MAX: nat := 32

  method EncryptBytes(bytes: array<byte>, len: nat, password: array<byte>)
    requires len <= bytes.Length && len <= HANDSHAKE_MAX && password.Length == TABLE_SIZE && password != bytes
    modifies bytes
    ensures bytes[..] == Mapped(password[..], old(bytes[..len])) + old(bytes[len..])
  {
    SubstituteInPlace(bytes, len, password);
  }

  method DecryptBytes(bytes: array<byte>, len: nat, password: array<byte>)
    requires len <= bytes.Length && len <= HANDSHAKE_MAX && password.Length == TABLE_SIZE && password != bytes
    modifies bytes
    ensures bytes[..] == Mapped(Inverse(password[..]), old(bytes[..len])) + old(bytes[len..])
  {
    var r := InvertTable(password);
    SubstituteInPlace(bytes, len, r);
  }

  method SubstituteInPlace(bytes: array<byte>, len: nat, table: array<byte>)
    requires len <= bytes.Length && len <= HANDSHAKE_MAX && table.Length == TABLE_SIZE && table != bytes
    modifies bytes
    ensures bytes[..] == Mapped(table[..], old(bytes[..len])) + old(bytes[len..])
  {
    var copy := new byte[HANDSHAKE_MAX](_ => 0);
    for k := 0 to len
      invariant bytes[..] == old(bytes[..])
      invariant forall j :: 0 <= j < k ==> copy[j] == bytes[j]
    {
      copy[k] := bytes[k];
    }
    for i := 0 to len
      invariant forall j :: 0 <= j < i ==> bytes[j] == table[copy[j]]
      invariant forall j :: i <= j < bytes.Length ==> bytes[j] == old(bytes[j])
      invariant forall j :: 0 <= j < len ==> copy[j] == old(bytes[j])
    {
      bytes[i] := table[copy[i]];
    }
  }

  /** A handshake encrypted on one side and decrypted on the other is itself again. */
  method Handshake(bytes: array<byte>, len: nat, client: array<byte>, server: array<byte>)
    requires len <= bytes.Length && len <= HANDSHAKE_MAX && client.Length == TABLE_SIZE && server.Length == TABLE_SIZE
    requires bytes != client && bytes != server && IsPermutation(client[..]) && server[..] == client[..]
    modifies bytes
    ensures bytes[..] == old(bytes[..])
  {
    ghost var s := bytes[..len];
    EncryptBytes(bytes, len, client);
    assert bytes[..len] == Mapped(client[..], s);
    DecryptBytes(bytes, len, server);
    InverseMapped(client[..], s);
  }
}
