/** Where deserializers put strings: StringCopier copies them into the memory pool, StringMover
    leaves them in the buffer being read. */
module StringStorage {
  import opened Document
  import opened StoredDocument

  /** A string under construction. */
  datatype Builder = Builder(start: nat, capacity: nat, size: nat, valid: bool)

  class Storage {
    /** The characters strings are stored in: the pool's buffer, or the input. */
    const arena: array<char>
    const inPlace: bool
    // the pool's free region
    var left: nat
    var right: nat
    // the in-place write cursor
    var ptr: nat

    ghost predicate Valid()
      reads this
    {
      left <= right && if inPlace then ptr <= arena.Length else right <= arena.Length
    }

    /** Where the stored strings end. */
    ghost function Written(): nat
      reads this
    {
      if inPlace then ptr else left
    }

    ghost function Room(): Memory
      reads this
      requires left <= right
    {
      Memory(!inPlace, right - left)
    }

    constructor (arena: array<char>, inPlace: bool, capacity: nat)
      requires !inPlace ==> capacity <= arena.Length
      ensures this.arena == arena && this.inPlace == inPlace
      ensures Valid() && ptr == 0 && Written() == 0 && Room() == Memory(!inPlace, capacity)
    {
      this.arena, this.inPlace := arena, inPlace;
      left, right, ptr := 0, capacity, 0;
    }

    /** Room for one more slot, at the right end of the pool. */
    method AllocSlot() returns (ok: bool)
      requires Valid()
      modifies this`right
      ensures Valid() && ok == old(Room()).Has(SLOT_SIZE)
      ensures Room() == if ok then old(Room()).Take(SLOT_SIZE) else old(Room())
    {
      ok := right - left >= SLOT_SIZE;
      if ok {
        right := right - SLOT_SIZE;
      }
    }

    ghost predicate Reads(p: nat, done: string)
      reads arena
    {
      p + |done| <= arena.Length && forall k :: 0 <= k < |done| ==> arena[p + k] == done[k]
    }

    /** `done` is what the builder has received so far. */
    ghost predicate Holds(b: Builder, done: string)
      reads this, arena
    {
      if inPlace then
        b.start + |done| == ptr && Reads(b.start, done)
      else
        && left == right == b.start + b.capacity <= arena.Length
        && (b.valid ==> b.size == |done| <= b.capacity && Reads(b.start, done))
        && (!b.valid ==> |done| > b.capacity)
    }

    method StartString() returns (b: Builder)
      requires Valid()
      modifies this`left
      ensures Valid() && Holds(b, "") && b.start == old(Written())
      ensures if inPlace then left == old(left) else b.capacity == old(right - left)
    {
      if inPlace {
        b := Builder(ptr, 0, 0, true);
      } else {
        b := Builder(left, right - left, 0, true);
        left := right;
      }
    }

    /** StringCopier: past the end of the pool the string is lost, but reading goes on. */
    method CopierAppend(b: Builder, c: char, ghost done: string) returns (r: Builder)
      requires Valid() && !inPlace && Holds(b, done)
      modifies arena
      ensures r.start == b.start && r.capacity == b.capacity
      ensures Holds(r, done + [c])
      ensures Extends(old(arena[..]), arena[..], b.start)
    {
      r := b;
      if b.valid {
        if b.size >= b.capacity {
          r := b.(valid := false);
        } else {
          arena[b.start + b.size] := c;
          r := b.(size := b.size + 1);
        }
      }
    }

    /** StringMover: the character lands where the cursor is. */
    method MoverAppend(b: Builder, c: char, ghost done: string)
      requires Valid() && inPlace && Holds(b, done) && ptr < arena.Length
      modifies this`ptr, arena
      ensures Valid() && ptr == old(ptr) + 1 && Holds(b, done + [c])
      ensures Extends(old(arena[..]), arena[..], b.start)
      ensures forall k :: ptr <= k < arena.Length ==> arena[k] == old(arena[k])
    {
      arena[ptr] := c;
      ptr := ptr + 1;
    }

    method Append(b: Builder, c: char, ghost done: string) returns (r: Builder)
      requires Valid() && Holds(b, done) && (inPlace ==> ptr < arena.Length)
      modifies this`ptr, arena
      ensures Valid() && r.start == b.start && r.capacity == b.capacity && Holds(r, done + [c])
      ensures ptr == if inPlace then old(ptr) + 1 else old(ptr)
      ensures Extends(old(arena[..]), arena[..], b.start)
      ensures inPlace ==> forall k :: ptr <= k < arena.Length ==> arena[k] == old(arena[k])
    {
      if inPlace {
        MoverAppend(b, c, done);
        r := b;
      } else {
        r := CopierAppend(b, c, done);
      }
    }

    /** Closes the string; a copy that did not fit leaves the pool full. */
    method Complete(b: Builder, ghost done: string) returns (ok: bool)
      requires Valid() && Holds(b, done) && (inPlace ==> ptr < arena.Length)
      modifies this`ptr, this`left, arena
      ensures Valid() && Extends(old(arena[..]), arena[..], b.start)
      ensures ok <==> inPlace || |done| + 1 <= b.capacity
      ensures ok ==> Written() == b.start + |done| + 1 <= arena.Length
      ensures ok ==> Terminated(arena[..], b.start, Written()) && CStr(arena[..], b.start) == UpToNul(done)
      ensures !ok ==> left == right
      ensures if inPlace then left == old(left) && ptr == old(ptr) + 1 else ptr == old(ptr)
      ensures inPlace ==> forall k :: ptr <= k < arena.Length ==> arena[k] == old(arena[k])
    {
      ok := true;
      if inPlace {
        MoverAppend(b, '\0', done);
      } else {
        var r := CopierAppend(b, '\0', done);
        ok := r.valid;
        if ok {
          left := left - (r.capacity - r.size);
        }
      }
      if ok {
        assert Reads(b.start, done + ['\0']);
        ClosedText(arena[..], b.start, done, Written());
      }
    }
  }

  lemma ClosedText(a: string, p: nat, done: string, w: nat)
    requires p + |done| + 1 == w <= |a|
    requires forall k :: 0 <= k < |done + ['\0']| ==> a[p + k] == (done + ['\0'])[k]
    ensures CStr(a, p) == UpToNul(done) && Terminated(a, p, w)
  {
    assert a[p + |done|] == (done + ['\0'])[|done|];
    assert forall k :: 0 <= k < |done| ==> a[p + k] == (done + ['\0'])[k] == done[k];
    assert a[p..p + |done|] == done;
    TextWritten(a, p, done, w);
  }
}
