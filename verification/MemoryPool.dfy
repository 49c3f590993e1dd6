/** The two-ended pool: strings grow from the left, slots from the right. */
module MemoryPool {
  import opened Document
  import opened StoredDocument
  import opened SlotMemory
  import opened SlotLists

  /** Memory: characters by address, and the slots that lie in it. */
  class Ram {
    var text: string
    var cells: Cells

    constructor (text: string)
      ensures this.text == text && cells == map[]
    {
      this.text, cells := text, map[];
    }

    /** Writes a C string. */
    method Put(p: nat, t: string)
      requires p + |t| < |text|
      modifies this`text
      ensures text == Written(old(text), p, t)
    {
      text := text[..p] + t + ['\0'] + text[p + |t| + 1..];
    }
  }

  /** The characters once a C string was written at p. */
  function Written(a: string, p: nat, t: string): (b: string)
    requires p + |t| < |a|
    ensures |b| == |a|
  {
    a[..p] + t + ['\0'] + a[p + |t| + 1..]
  }

  lemma WrittenReads(a: string, p: nat, t: string)
    requires p + |t| < |a| && NulFree(t)
    ensures var b, w := Written(a, p, t), p + |t| + 1;
            Rewritten(a, b, p, w) && CStr(b, p) == t && Terminated(b, p, w)
  {
    var b := Written(a, p, t);
    assert b[p..p + |t|] == t && b[p + |t|] == '\0';
    TextWritten(b, p, t, p + |t| + 1);
    UpToNulFree(t);
  }

  /** Rounded up to the size of a pointer, at which the blocks and slots are aligned. */
  function Padded(n: nat): (r: nat)
    ensures n <= r < n + 8 && Aligned(r)
  {
    (n + 7) / 8 * 8
  }

  predicate Aligned(n: int) { n % 8 == 0 }

  /** The four pointers of a pool. */
  datatype Extent = Extent(begin: nat, left: nat, right: nat, end: nat) {
    predicate Valid() {
      && begin <= left <= right <= end && (begin == 0 ==> end == 0)
      && Aligned(begin) && Aligned(end) && WholeSlots(end - right)
    }

    function Size(): int { left - begin + end - right }

    function Capacity(): int { end - begin }

    function Room(): int { right - left }
  }

  /** Only characters in [lo, hi) differ. */
  ghost predicate Rewritten(a: string, b: string, lo: nat, hi: nat) {
    |a| == |b| && forall k :: 0 <= k < |a| && !(lo <= k < hi) ==> b[k] == a[k]
  }

  /** A string that lies before lo or from hi on. */
  predicate Settled(text: string, p: nat, lo: nat, hi: nat) {
    lo <= |text| && (Terminated(text, p, lo) || (hi <= p && Terminated(text, p, |text|)))
  }

  lemma {:induction false} StringStays(a: string, b: string, p: nat, w: nat, lo: nat, hi: nat)
    requires Rewritten(a, b, lo, hi) && w <= |a| && Terminated(a, p, w) && (w <= lo || hi <= p)
    ensures CStr(b, p) == CStr(a, p) && Terminated(b, p, w)
    decreases w - p
  {
    if a[p] != '\0' {
      StringStays(a, b, p + 1, w, lo, hi);
    }
  }

  lemma SettledStays(a: string, b: string, p: nat, lo: nat, hi: nat)
    requires Settled(a, p, lo, hi) && Rewritten(a, b, lo, hi)
    ensures CStr(b, p) == CStr(a, p) && Settled(b, p, lo, hi)
  {
    if Terminated(a, p, lo) {
      StringStays(a, b, p, lo, lo, hi);
    } else {
      StringStays(a, b, p, |a|, lo, hi);
    }
  }

  lemma {:induction false} LengthInside(a: string, p: nat, w: nat)
    requires w <= |a| && Terminated(a, p, w)
    ensures p + |CStr(a, p)| < w && a[p..p + |CStr(a, p)|] == CStr(a, p) && a[p + |CStr(a, p)|] == '\0'
    decreases w - p
  {
    if a[p] != '\0' {
      LengthInside(a, p + 1, w);
    }
  }

  class Pool {
    const ram: Ram
    var begin: nat
    var left: nat
    var right: nat
    var end: nat

    ghost predicate Valid()
      reads this, ram
    {
      Bounds().Valid() && end <= |ram.text|
    }

    ghost function Bounds(): Extent
      reads this
    {
      Extent(begin, left, right, end)
    }

    /** A pool on an aligned block of memory. */
    constructor (ram: Ram, begin: nat, capacity: nat)
      requires begin + capacity <= |ram.text| && Aligned(begin) && Aligned(capacity)
      requires begin == 0 ==> capacity == 0
      ensures this.ram == ram && Valid()
      ensures Bounds() == Extent(begin, begin, begin + capacity, begin + capacity)
    {
      this.ram := ram;
      this.begin, this.left := begin, begin;
      this.right, this.end := begin + capacity, begin + capacity;
    }

    method Clear()
      requires Valid()
      modifies this
      ensures Valid() && Bounds() == Extent(old(begin), old(begin), old(end), old(end))
    {
      left, right := begin, end;
    }

    /** The address of a new slot, or 0. */
    method AllocVariant() returns (slot: nat)
      requires Valid()
      modifies this`right
      ensures Valid()
      ensures if old(Bounds()).Room() >= SLOT_SIZE then
                slot == right == old(right) - SLOT_SIZE && slot != 0 && OnGrid(slot, left, end)
              else
                slot == 0 && right == old(right)
    {
      if left + SLOT_SIZE > right {
        return 0;
      }
      right := right - SLOT_SIZE;
      slot := right;
    }

    /** Copies the C string at p into the pool; a null pointer is not copied. */
    method Save(p: nat) returns (dup: nat)
      requires Valid() && (p != 0 ==> Settled(ram.text, p, left, right))
      modifies this`left, ram`text
      ensures Valid() && Rewritten(old(ram.text), ram.text, old(left), left)
      ensures p != 0 ==> CStr(ram.text, p) == CStr(old(ram.text), p)
      ensures var n := |CStr(old(ram.text), p)| + 1;
              if p != 0 && n <= old(Bounds()).Room() then
                && dup == old(left) != 0 && left == old(left) + n
                && Terminated(ram.text, dup, left) && CStr(ram.text, dup) == CStr(old(ram.text), p)
              else
                dup == 0 && left == old(left) && ram.text == old(ram.text)
    {
      if p == 0 {
        return 0;
      }
      var s := CStr(ram.text, p);
      var n := |s| + 1;
      if left + n > right {
        return 0;
      }
      dup := left;
      ghost var before := ram.text;
      WrittenReads(before, dup, s);
      ram.Put(dup, s);
      left := left + n;
      SettledStays(before, ram.text, p, dup, right);
    }

    /** Slides the slots down to the strings, and gives up the space between them. */
    method Squash() returns (reclaimed: int)
      requires Valid()
      modifies this`right, this`end, ram`cells
      ensures reclaimed >= 0
      ensures if Padded(old(left)) >= old(right) then
                reclaimed == 0 && right == old(right) && end == old(end) && ram.cells == old(ram.cells)
              else
                && reclaimed == old(right) - Padded(old(left)) > 0
                && right == old(right) - reclaimed && end == old(end) - reclaimed
                && ram.cells == Slide(old(ram.cells), old(right), old(end), -reclaimed)
      ensures Valid()
    {
      hide Slide, Aligned, Padded;
      var to := Padded(left);
      if to >= right {
        return 0;
      }
      var size := end - right;
      reclaimed := right - to;
      PaddedSlots(to, size);
      ram.cells := Slide(ram.cells, right, end, -reclaimed);
      right := to;
      end := to + size;
    }

    method MovePointers(offset: int)
      requires begin + offset >= 0
      requires left + offset >= 0 && right + offset >= 0 && end + offset >= 0
      modifies this
      ensures Bounds() == Extent(old(begin) + offset, old(left) + offset, old(right) + offset, old(end) + offset)
    {
      begin, left, right, end := begin + offset, left + offset, right + offset, end + offset;
    }
  }

  predicate Arrives(cells: Cells, a: nat, distance: int) { a - distance in cells }

  /** The slots in [lo, hi) moved by the given distance, over whatever was there. */
  function Slide(cells: Cells, lo: nat, hi: nat, distance: int): Cells
    requires lo + distance >= 0
  {
    (map a | a in cells && !(lo <= a < hi) && !(lo <= a - distance < hi) :: cells[a]) +
    (map a: nat | lo + distance <= a < hi + distance && Arrives(cells, a, distance) :: cells[a - distance])
  }

  lemma SlideInside(cells: Cells, lo: nat, hi: nat, distance: int, a: nat)
    requires lo + distance >= 0 && lo <= a < hi && a in cells
    ensures a + distance in Slide(cells, lo, hi, distance) && Slide(cells, lo, hi, distance)[a + distance] == cells[a]
  {
    assert Arrives(cells, a + distance, distance);
  }

  lemma SlideOutside(cells: Cells, lo: nat, hi: nat, distance: int, a: nat)
    requires lo + distance >= 0 && a in cells && !(lo <= a < hi) && !(lo <= a - distance < hi)
    ensures a in Slide(cells, lo, hi, distance) && Slide(cells, lo, hi, distance)[a] == cells[a]
  {
  }

  lemma AlignedSum(a: int, b: int)
    requires Aligned(a) && Aligned(b)
    ensures Aligned(a + b) && Aligned(a - b)
  {
  }

  lemma SlotsAligned(size: int)
    requires WholeSlots(size)
    ensures Aligned(size)
  {
    assert size % 32 == 0;
  }

  lemma PaddedSlots(to: nat, size: nat)
    requires Aligned(to) && WholeSlots(size)
    ensures Aligned(to + size)
  {
    hide Aligned, WholeSlots;
    SlotsAligned(size);
    AlignedSum(to, size);
  }
}
