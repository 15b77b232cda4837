/** The bounded FIFO that `circular_q` implements, and its runs. */
module BoundedFifo {
  import opened Sequences

  /** Appending to a queue that keeps only its newest cap items. */
  function Push<T>(items: seq<T>, cap: nat, x: T): (r: seq<T>)
    requires |items| <= cap
    ensures |r| <= cap
  {
    if |items| < cap then items + [x] else (items + [x])[1..]
  }

  datatype Op<T> = PushOp(x: T) | PopOp

  /** Contents, pops and overruns so far, and what was popped. */
  datatype State<T> = State(items: seq<T>, pops: nat, overruns: nat, popped: seq<T>)

  predicate Legal<T>(s: State<T>, op: Op<T>) { op.PopOp? ==> s.items != [] }

  function Apply<T>(cap: nat, s: State<T>, op: Op<T>): (r: State<T>)
    requires |s.items| <= cap && Legal(s, op)
    ensures |r.items| <= cap
  {
    match op
    case PushOp(x) => s.(items := Push(s.items, cap, x), overruns := s.overruns + (if |s.items| < cap then 0 else 1))
    case PopOp => s.(items := s.items[1..], pops := s.pops + 1, popped := s.popped + [s.items[0]])
  }

  /** A run is legal when every pop meets a non-empty queue. */
  predicate LegalRun<T>(cap: nat, s: State<T>, ops: seq<Op<T>>)
    requires |s.items| <= cap
    decreases |ops|
  {
    ops == [] || (Legal(s, ops[0]) && LegalRun(cap, Apply(cap, s, ops[0]), ops[1..]))
  }

  function Run<T>(cap: nat, s: State<T>, ops: seq<Op<T>>): (r: State<T>)
    requires |s.items| <= cap && LegalRun(cap, s, ops)
    ensures |r.items| <= cap
    decreases |ops|
  {
    if ops == [] then s else Run(cap, Apply(cap, s, ops[0]), ops[1..])
  }

  function Pushed<T>(ops: seq<Op<T>>): (xs: seq<T>) {
    if ops == [] then [] else (if ops[0].PushOp? then [ops[0].x] else []) + Pushed(ops[1..])
  }

  /** Over every run: what is held is the newest part of what was pushed, and pushes are pops, overruns and held
      items together. */
  lemma {:induction false} RunKeepsNewest<T>(cap: nat, s: State<T>, ops: seq<Op<T>>)
    requires |s.items| <= cap && LegalRun(cap, s, ops)
    ensures Accounted(s, Run(cap, s, ops), s.items + Pushed(ops), Run(cap, s, ops).items)
    decreases |ops|
  {
    if ops == [] {
      assert s.items + [] == s.items;
    } else {
      var next, later, r := Apply(cap, s, ops[0]), Pushed(ops[1..]), Run(cap, s, ops);
      RunKeepsNewest(cap, next, ops[1..]);
      StepKeepsNewest(cap, s, ops[0], later);
      var first := if ops[0].PushOp? then [ops[0].x] else [];
      Reassociated(s.items, first, later);
      AccountsCompose(s, next, r, s.items + first + later, next.items + later, r.items);
    }
  }

  /** From s to r the stream lost its pops and overruns at the front, which leaves rest. */
  ghost predicate Accounted<T>(s: State<T>, r: State<T>, stream: seq<T>, rest: seq<T>) {
    && |stream| == (r.pops - s.pops) + (r.overruns - s.overruns) + |rest|
    && r.pops >= s.pops && r.overruns >= s.overruns && IsSuffix(rest, stream)
  }

  lemma AccountsCompose<T>(s: State<T>, t: State<T>, r: State<T>, a: seq<T>, b: seq<T>, c: seq<T>)
    requires Accounted(s, t, a, b) && Accounted(t, r, b, c)
    ensures Accounted(s, r, a, c)
  {
    SuffixOfSuffix(c, b, a);
  }

  lemma StepKeepsNewest<T>(cap: nat, s: State<T>, op: Op<T>, later: seq<T>)
    requires |s.items| <= cap && Legal(s, op)
    ensures var next, stream := Apply(cap, s, op), s.items + (if op.PushOp? then [op.x] else []) + later;
            Accounted(s, next, stream, next.items + later)
  {}

  /** A run whose pushes all meet a queue with room. */
  predicate Guarded<T>(cap: nat, s: State<T>, ops: seq<Op<T>>)
    requires |s.items| <= cap && LegalRun(cap, s, ops)
    decreases |ops|
  {
    ops == [] || ((ops[0].PushOp? ==> |s.items| < cap) && Guarded(cap, Apply(cap, s, ops[0]), ops[1..]))
  }

  /** Such a run never overruns, and delivers in order everything it was given. */
  lemma {:induction false} GuardedRunLosesNothing<T>(cap: nat, s: State<T>, ops: seq<Op<T>>)
    requires |s.items| <= cap && LegalRun(cap, s, ops) && Guarded(cap, s, ops)
    ensures var r := Run(cap, s, ops);
            r.overruns == s.overruns && r.popped + r.items == s.popped + s.items + Pushed(ops)
    decreases |ops|
  {
    if ops == [] {
      assert s.popped + s.items + [] == s.popped + s.items;
    } else {
      var next := Apply(cap, s, ops[0]);
      GuardedRunLosesNothing(cap, next, ops[1..]);
      assert s.popped + s.items + Pushed(ops) == next.popped + next.items + Pushed(ops[1..]);
    }
  }
}

/** `circular_q`: a ring buffer over an array with one slot reserved to tell full from empty. */
module CircularQueues {
  import opened BoundedFifo

  /** A slot number taken modulo the number of slots. */
  function Wrap(k: nat, n: nat): (slot: nat)
    requires k < 2 * n
    ensures slot == if k < n then k else k - n
  {
    k % n
  }

  /** The items in the slots from head up to tail, around the end. */
  function Ring<T>(slots: seq<T>, head: nat, tail: nat): seq<T>
    requires head <= |slots| && tail <= |slots|
  {
    if head <= tail then slots[head..tail] else slots[head..] + slots[..tail]
  }

  /** Storing an item at the tail appends it, or with a full ring replaces the oldest item. */
  lemma RingPush<T>(was: seq<T>, now: seq<T>, head: nat, tail: nat, item: T)
    requires head < |was| && tail < |was| && now == was[tail := item]
    ensures |Ring(was, head, tail)| < |was|
    ensures var next := Wrap(tail + 1, |was|);
            && (next == head <==> |Ring(was, head, tail)| == |was| - 1)
            && Ring(now, if next == head then Wrap(head + 1, |was|) else head, next)
               == Push(Ring(was, head, tail), |was| - 1, item)
  {
    var n, next := |was|, Wrap(tail + 1, |was|);
    if next != head {
      RingGrows(was, now, head, tail, item);
    } else if head == 0 {
      assert now == was[..n - 1] + [item];
    } else {
      RingTurns(was, now, head, item);
    }
  }

  lemma RingGrows<T>(was: seq<T>, now: seq<T>, head: nat, tail: nat, item: T)
    requires head < |was| && tail < |was| && now == was[tail := item] && Wrap(tail + 1, |was|) != head
    ensures Ring(now, head, Wrap(tail + 1, |was|)) == Ring(was, head, tail) + [item]
  {
    if head <= tail {
      if tail + 1 < |was| {
        assert now[head..tail + 1] == was[head..tail] + [item];
      } else {
        assert now[head..] + now[..0] == was[head..tail] + [item];
      }
    } else {
      assert now[head..] == was[head..] && now[..tail + 1] == was[..tail] + [item];
    }
  }

  lemma RingTurns<T>(was: seq<T>, now: seq<T>, head: nat, item: T)
    requires 0 < head < |was| && now == was[head - 1 := item]
    ensures Ring(now, Wrap(head + 1, |was|), head) == (Ring(was, head, head - 1) + [item])[1..]
  {
    var oldest, rest := was[head..], was[..head - 1];
    assert now[..head] == rest + [item];
    if head + 1 < |was| {
      assert now[head + 1..] == oldest[1..];
    } else {
      assert oldest[1..] == [];
    }
  }

  class CircularQ<T(0)> {
    var maxItems: nat      // slots in v: the capacity plus the reserved one; 0 for a disabled queue
    var head: nat
    var tail: nat
    var overrunCounter: nat
    var v: array<T>

    ghost predicate Valid()
      reads this
    {
      v.Length == maxItems && (if maxItems == 0 then head == 0 && tail == 0 else head < maxItems && tail < maxItems)
    }

    ghost function Capacity(): nat
      reads this
    {
      if maxItems == 0 then 0 else maxItems - 1
    }

    /** The stored items, oldest first. */
    ghost function Contents(): (items: seq<T>)
      requires Valid()
      reads this, v
      ensures |items| <= Capacity()
    {
      Ring(v[..], head, tail)
    }

    constructor Disabled()
      ensures Valid() && Contents() == [] && maxItems == 0 && overrunCounter == 0 && fresh(v)
    {
      maxItems, head, tail, overrunCounter := 0, 0, 0, 0;
      v := new T[0];
    }

    constructor (capacity: nat)
      ensures Valid() && Contents() == [] && maxItems == capacity + 1 && overrunCounter == 0 && fresh(v)
    {
      maxItems, head, tail, overrunCounter := capacity + 1, 0, 0, 0;
      v := new T[capacity + 1];
    }

    /** The move constructor: takes everything over and leaves the source disabled. */
    constructor MoveFrom(other: CircularQ<T>)
      requires other.Valid()
      modifies other
      ensures Valid() && Contents() == old(other.Contents()) && maxItems == old(other.maxItems)
      ensures overrunCounter == old(other.overrunCounter)
      ensures other.Valid() && other.Contents() == [] && other.maxItems == 0 && other.overrunCounter == 0
    {
      maxItems, head, tail, overrunCounter := other.maxItems, other.head, other.tail, other.overrunCounter;
      v := other.v;
      new;
      other.maxItems, other.head, other.tail, other.overrunCounter := 0, 0, 0, 0;
      other.v := new T[0];
    }

    /** A disabled queue ignores the item; a full one drops its oldest item and counts the overrun. */
    method PushBack(item: T)
      requires Valid()
      modifies this, v
      ensures Valid() && v == old(v) && maxItems == old(maxItems)
      ensures maxItems == 0 ==> Contents() == old(Contents()) && overrunCounter == old(overrunCounter)
      ensures maxItems > 0 ==> Contents() == Push(old(Contents()), Capacity(), item)
      ensures maxItems > 0 ==>
        overrunCounter == old(overrunCounter) + (if |old(Contents())| < Capacity() then 0 else 1)
    {
      if maxItems > 0 {
        ghost var was, at := v[..], tail;
        v[tail] := item;
        RingPush(was, v[..], head, at, item);
        tail := Wrap(tail + 1, maxItems);
        if tail == head {
          head := Wrap(head + 1, maxItems);
          overrunCounter := overrunCounter + 1;
        }
      }
    }

    function Front(): (x: T)
      requires Valid() && Contents() != []
      reads this, v
      ensures x == Contents()[0]
    {
      v[head]
    }

    function Size(): (n: nat)
      requires Valid()
      reads this, v
      ensures n == |Contents()|
    {
      if tail >= head then tail - head else maxItems - (head - tail)
    }

    /** The i-th oldest item. */
    function At(i: nat): (x: T)
      requires Valid() && i < Size()
      reads this, v
      ensures x == Contents()[i]
    {
      v[Wrap(head + i, maxItems)]
    }

    method PopFront()
      requires Valid() && Contents() != []
      modifies this
      ensures Valid() && v == old(v) && maxItems == old(maxItems) && overrunCounter == old(overrunCounter)
      ensures Contents() == old(Contents())[1..]
    {
      head := Wrap(head + 1, maxItems);
    }

    predicate Empty()
      requires Valid()
      reads this, v
      ensures Empty() <==> Contents() == []
    {
      tail == head
    }

    /** A disabled queue is never full. */
    predicate Full()
      requires Valid()
      reads this, v
      ensures Full() <==> maxItems > 0 && |Contents()| == Capacity()
    {
      maxItems > 0 && Wrap(tail + 1, maxItems) == head
    }
  }
}
