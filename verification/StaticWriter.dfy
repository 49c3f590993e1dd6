/** Writing into a bounded character buffer. */
module StaticWriter {
  import opened Arithmetic

  /** What a buffer of the given capacity keeps of a text. */
  function Clip(t: string, capacity: nat): string { t[..Min(|t|, capacity)] }

  /** Keeps a NUL after the text, so that one character of the buffer is never used for it. */
  class StaticStringWriter {
    const buffer: array<char>
    var p: nat

    ghost predicate Valid()
      reads this, buffer
    {
      p < buffer.Length && buffer[p] == '\0'
    }

    ghost function Contents(): string
      reads this, buffer
      requires p <= buffer.Length
    {
      buffer[..p]
    }

    function Capacity(): nat
      requires buffer.Length > 0
    {
      buffer.Length - 1
    }

    constructor (buffer: array<char>)
      requires buffer.Length > 0
      modifies buffer
      ensures this.buffer == buffer && Valid() && Contents() == ""
    {
      this.buffer := buffer;
      p := 0;
      new;
      buffer[0] := '\0';
    }

    method WriteChar(c: char) returns (n: nat)
      requires Valid()
      modifies this, buffer
      ensures Valid() && Contents() == Clip(old(Contents()) + [c], Capacity())
      ensures n == p - old(p)
    {
      if p >= buffer.Length - 1 {
        return 0;
      }
      buffer[p] := c;
      p := p + 1;
      buffer[p] := '\0';
      n := 1;
    }

    method Write(s: string) returns (n: nat)
      requires Valid()
      modifies this, buffer
      ensures Valid() && Contents() == Clip(old(Contents()) + s, Capacity())
      ensures n == p - old(p)
    {
      var i := 0;
      while p < buffer.Length - 1 && i < |s|
        invariant i <= |s| && p == old(p) + i < buffer.Length
        invariant Contents() == old(Contents()) + s[..i]
      {
        buffer[p] := s[i];
        p, i := p + 1, i + 1;
        assert Contents() == old(Contents()) + s[..i - 1] + [s[i - 1]];
      }
      buffer[p] := '\0';
      n := i;
    }
  }

  lemma ClipTwice(t: string, u: string, capacity: nat)
    ensures Clip(Clip(t, capacity) + u, capacity) == Clip(t + u, capacity)
  {
  }
}
