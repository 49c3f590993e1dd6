/** The ring buffer of spdlog's asynchronous queue: a bounded FIFO that overruns its oldest item
    when it is full. */
module CircularQueue {
  import opened Document

  // ----- the bounded FIFO it refines -----

  /** `enabled` is false after the queue was moved from, or built without a size. */
  datatype Fifo<T> = Fifo(items: seq<T>, capacity: nat, enabled: bool, overrun: nat) {
    predicate Valid() { |items| <= capacity && (!enabled ==> capacity == 0) }

    predicate IsFull() { enabled && |items| == capacity }

    function Push(x: T): Fifo<T> {
      if !enabled then this
      else if IsFull() then this.(items := (items + [x])[1..], overrun := overrun + 1)
      else this.(items := items + [x])
    }

    function Pop(): Fifo<T>
      requires items != []
    {
      this.(items := items[1..])
    }
  }

  /** x modulo m, for x below 2 * m. */
  lemma Around(x: nat, m: nat)
    requires x < 2 * m
    ensures x % m == if x < m then x else x - m
  {
    if x >= m {
      assert x == m * 1 + (x - m);
    }
  }

  /** n items from i on, around the end. */
  function Window<T>(s: seq<T>, i: nat, n: nat): (w: seq<T>)
    requires (i < |s| && n <= |s|) || (n == 0 && i == 0)
    ensures |w| == n
  {
    if i + n <= |s| then s[i..i + n] else s[i..] + s[..i + n - |s|]
  }

  lemma InWindow<T>(s: seq<T>, i: nat, n: nat)
    requires (i < |s| && n <= |s|) || (n == 0 && i == 0)
    ensures forall k :: 0 <= k < n ==> Window(s, i, n)[k] == s[Wrapped(i + k, |s|)]
  {
  }

  function Wrapped(x: nat, m: nat): nat { if x < m then x else x - m }

  /** The next index around the buffer. */
  function Successor(i: nat, m: nat): (k: nat)
    requires i < m
    ensures k == Wrapped(i + 1, m) < m
  {
    Around(i + 1, m);
    (i + 1) % m
  }

  /** Writing after the window makes it longer; when it fills the buffer but for one place, it
      moves on instead. */
  lemma PushWindow<T>(s: seq<T>, i: nat, n: nat, x: T)
    requires i < |s| && n < |s|
    ensures var w, s' := Window(s, i, n), s[Wrapped(i + n, |s|) := x];
            && (n + 1 < |s| ==> Window(s', i, n + 1) == w + [x])
            && (n + 1 == |s| ==> Window(s', Wrapped(i + 1, |s|), n) == (w + [x])[1..])
  {
    hide Window;
    var w, s' := Window(s, i, n), s[Wrapped(i + n, |s|) := x];
    InWindow(s, i, n);
    if n + 1 < |s| {
      InWindow(s', i, n + 1);
      forall k | 0 <= k < n + 1
        ensures Window(s', i, n + 1)[k] == (w + [x])[k]
      {
      }
    } else {
      InWindow(s', Wrapped(i + 1, |s|), n);
      forall k | 0 <= k < n
        ensures Window(s', Wrapped(i + 1, |s|), n)[k] == (w + [x])[1..][k]
      {
        WrappedTwice(i + 1, k, |s|);
      }
    }
  }

  /** How many items lie from head on up to tail. */
  function Count(head: nat, tail: nat, m: nat): (n: nat)
    requires m > 0 ==> head < m && tail < m
    requires m == 0 ==> head == tail
    ensures m > 0 ==> n < m
  {
    if tail >= head then tail - head else m - (head - tail)
  }

  /** What writing at the tail, advancing it, and perhaps the head, too, comes to. */
  lemma Pushed<T>(s: seq<T>, head: nat, tail: nat, x: T)
    requires head < |s| && tail < |s|
    ensures var m, n, tail' := |s|, Count(head, tail, |s|), Wrapped(tail + 1, |s|);
            var head' := if tail' == head then Wrapped(head + 1, m) else head;
            && tail' < m && head' < m && (tail' == head <==> n + 1 == m)
            && Window(s[tail := x], head', Count(head', tail', m)) ==
               if n + 1 == m then (Window(s, head, n) + [x])[1..] else Window(s, head, n) + [x]
  {
    hide Window;
    PushWindow(s, head, Count(head, tail, |s|), x);
  }

  /** The same on the FIFO. */
  lemma PushedFifo<T>(s: seq<T>, head: nat, tail: nat, x: T, overrun: nat)
    requires head < |s| && tail < |s|
    ensures var m, tail' := |s|, Wrapped(tail + 1, |s|);
            var head' := if tail' == head then Wrapped(head + 1, m) else head;
            && tail' < m && head' < m
            && Fifo(Window(s[tail := x], head', Count(head', tail', m)), m - 1, true, if tail' == head then overrun + 1 else overrun) ==
               Fifo(Window(s, head, Count(head, tail, m)), m - 1, true, overrun).Push(x)
  {
    hide Window, Count, Wrapped;
    Pushed(s, head, tail, x);
  }

  lemma PopWindow<T>(s: seq<T>, i: nat, n: nat)
    requires i < |s| && 0 < n <= |s|
    ensures Window(s, Wrapped(i + 1, |s|), n - 1) == Window(s, i, n)[1..]
  {
    hide Window, Wrapped;
    var j := Wrapped(i + 1, |s|);
    WrappedOnce(i + 1, |s|);
    InWindow(s, i, n);
    InWindow(s, j, n - 1);
    forall k | 0 <= k < n - 1
      ensures Window(s, j, n - 1)[k] == Window(s, i, n)[1..][k]
    {
      WrappedTwice(i + 1, k, |s|);
    }
  }

  lemma WrappedOnce(x: nat, m: nat)
    requires 0 < x <= m
    ensures Wrapped(x, m) < m
  {
  }

  lemma WrappedTwice(x: nat, k: nat, m: nat)
    requires x <= m && k < m
    ensures Wrapped(Wrapped(x, m) + k, m) == Wrapped(x + k, m)
  {
  }

  class CircularQ<T(0)> {
    var maxItems: nat
    var head: nat
    var tail: nat
    var overrunCounter: nat
    var v: array<T>

    ghost predicate Valid()
      reads this
    {
      v.Length == maxItems && if maxItems == 0 then head == 0 == tail else head < maxItems && tail < maxItems
    }

    ghost function Model(): Fifo<T>
      reads this, v
      requires Valid()
    {
      Fifo(Window(v[..], head, Size()), if maxItems == 0 then 0 else maxItems - 1, maxItems > 0, overrunCounter)
    }

    constructor Disabled()
      ensures Valid() && Model() == Fifo([], 0, false, 0) && fresh(v)
    {
      maxItems, head, tail, overrunCounter := 0, 0, 0, 0;
      v := new T[0];
    }

    constructor (maxItems: nat)
      ensures Valid() && Model() == Fifo([], maxItems, true, 0) && fresh(v)
    {
      this.maxItems := maxItems + 1;
      head, tail, overrunCounter := 0, 0, 0;
      v := new T[maxItems + 1];
    }

    function Size(): (n: nat)
      reads this
      requires Valid()
      ensures maxItems > 0 ==> n < maxItems
    {
      Count(head, tail, maxItems)
    }

    predicate Empty()
      reads this
    {
      tail == head
    }

    predicate Full()
      reads this
      requires Valid()
    {
      maxItems > 0 && Successor(tail, maxItems) == head
    }

    /** The tests tell the state of the FIFO. */
    lemma Tests()
      requires Valid()
      ensures Size() == |Model().items| && Model().Valid()
      ensures Empty() <==> Model().items == []
      ensures Full() <==> Model().IsFull()
    {
    }

    method Front() returns (x: T)
      requires Valid() && Model().items != []
      ensures x == Model().items[0]
    {
      InWindow(v[..], head, Size());
      x := v[head];
    }

    method At(i: nat) returns (x: T)
      requires Valid() && i < |Model().items|
      ensures x == Model().items[i]
    {
      Around(head + i, maxItems);
      InWindow(v[..], head, Size());
      x := v[(head + i) % maxItems];
    }

    method PushBack(item: T)
      requires Valid()
      modifies this`tail, this`head, this`overrunCounter, v
      ensures Valid() && Model() == old(Model()).Push(item)
    {
      hide Window, Successor, Count;
      if maxItems > 0 {
        ghost var s, q := v[..], Model();
        PushedFifo(s, head, tail, item, overrunCounter);
        ghost var r := q.Push(item);
        s := s[tail := item];
        v[tail] := item;
        tail := Successor(tail, maxItems);
        if tail == head {
          head := Successor(head, maxItems);
          overrunCounter := overrunCounter + 1;
        }
        assert v[..] == s;
        assert Model() == r;
      }
    }

    method PopFront()
      requires Valid() && Model().items != []
      modifies this`head
      ensures Valid() && Model() == old(Model()).Pop()
    {
      PopWindow(v[..], head, Size());
      head := Successor(head, maxItems);
    }

    /** Takes over the items of another queue and leaves it disabled. */
    method CopyMoveable(other: CircularQ<T>)
      requires other.Valid() && other != this
      modifies this, other
      ensures Valid() && Model() == old(other.Model()) && v == old(other.v)
      ensures other.Valid() && other.Model() == Fifo([], 0, false, 0) && fresh(other.v)
    {
      maxItems, head, tail := other.maxItems, other.head, other.tail;
      overrunCounter := other.overrunCounter;
      v := other.v;
      other.v := new T[0];
      other.maxItems := 0;
      other.head, other.tail := 0, 0;
      other.overrunCounter := 0;
      assert Model().items == old(other.Model()).items;
    }
  }

  // ----- whole histories -----

  datatype Op<T> = PushOp(x: T) | PopOp | MoveOp

  /** A history of operations on one queue; moving it changes its owner only. */
  function Run<T>(q: Fifo<T>, ops: seq<Op<T>>): Option<Fifo<T>>
    decreases |ops|
  {
    if ops == [] then Some(q)
    else if ops[0].PopOp? && q.items == [] then None
    else Run(Step(q, ops[0]), ops[1..])
  }

  function Pushes<T>(ops: seq<Op<T>>): seq<T> {
    if ops == [] then [] else (if ops[0].PushOp? then [ops[0].x] else []) + Pushes(ops[1..])
  }

  function Pops<T>(ops: seq<Op<T>>): nat {
    if ops == [] then 0 else (if ops[0].PopOp? then 1 else 0) + Pops(ops[1..])
  }

  /** After any history that never pops an empty queue, the items are the last ones pushed, in
      order: everything before them was popped or counted as overrun. */
  lemma {:induction false} LastItems<T>(q: Fifo<T>, ops: seq<Op<T>>)
    requires q.Valid() && q.enabled && Run(q, ops).Some?
    ensures var r, all := Run(q, ops).value, q.items + Pushes(ops);
            var gone := Pops(ops) + (r.overrun - q.overrun);
            && r.Valid() && r.enabled && r.capacity == q.capacity && r.overrun >= q.overrun
            && gone <= |all| && r.items == all[gone..]
            && |all| == Pops(ops) + (r.overrun - q.overrun) + |r.items|
    decreases |ops|
  {
    if ops == [] {
      assert q.items + [] == q.items;
    } else {
      var q', rest := Step(q, ops[0]), ops[1..];
      LastItems(q', rest);
      FirstGone(q, ops);
    }
  }

  function Step<T>(q: Fifo<T>, op: Op<T>): Fifo<T>
    requires op.PopOp? ==> q.items != []
  {
    match op
    case PushOp(x) => q.Push(x)
    case PopOp => q.Pop()
    case MoveOp => q
  }

  /** One operation takes at most one item from the front. */
  lemma FirstGone<T>(q: Fifo<T>, ops: seq<Op<T>>)
    requires q.Valid() && q.enabled && ops != [] && (ops[0].PopOp? ==> q.items != [])
    ensures var q' := Step(q, ops[0]);
            var gone := (if ops[0].PopOp? then 1 else 0) + q'.overrun - q.overrun;
            && 0 <= gone <= 1 && q'.Valid() && q'.enabled && q'.capacity == q.capacity
            && q'.items + Pushes(ops[1..]) == (q.items + Pushes(ops))[gone..]
  {
    var rest := Pushes(ops[1..]);
    match ops[0]
    case PushOp(x) =>
      Regroup(q.items, [x], rest);
      DropFirst(q.items + [x], rest);
    case PopOp =>
      Regroup(q.items, [], rest);
      DropFirst(q.items, rest);
    case MoveOp =>
      Regroup(q.items, [], rest);
      DropFirst(q.items, rest);
  }

  lemma Regroup<T>(a: seq<T>, b: seq<T>, c: seq<T>)
    ensures a + (b + c) == a + b + c && [] + c == c
  {
  }

  lemma DropFirst<T>(a: seq<T>, b: seq<T>)
    ensures (a + b)[0..] == a + b
    ensures a != [] ==> (a + b)[1..] == a[1..] + b
  {
  }

  /** A queue that was moved from stays empty whatever is pushed, and counts nothing. */
  lemma {:induction false} DisabledStays<T>(q: Fifo<T>, ops: seq<Op<T>>)
    requires q.Valid() && !q.enabled && Run(q, ops).Some?
    ensures Run(q, ops).value == q && Pops(ops) == 0
  {
    if ops != [] {
      DisabledStays(q, ops[1..]);
    }
  }
}
