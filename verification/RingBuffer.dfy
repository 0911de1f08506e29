/** The ring buffer of package dt: a fixed number of slots written round and round, holding the last pushes that have
    not been popped. */
module RingBuffer {
  import opened RingIndex
  import opened Sequences
  import opened Wrappers

  const MAX_RING_SIZE := 4294967296
  const DEFAULT_RING_SIZE := 1024

  // ---------------------------------------------------------------- slots

  /** The slot the j-th push goes to. */
  function Slot(j: int, n: nat): (i: nat)
    requires n >= 1
    ensures i < n
  {
    j % n
  }

  function Abs(x: int): nat {
    if x < 0 then -x else x
  }

  /** The ring's own index arithmetic: a multiple of the size is added so that the remainder is never of a negative
      number. */
  function Offset(idx: int, step: int, n: nat): int {
    n * (if Abs(idx) >= 1 then Abs(idx) else 1) + (idx + step)
  }

  function After(idx: int, n: nat): int
    requires n >= 1
  {
    Offset(idx, 1, n) % n
  }

  function Before(idx: int, n: nat): int
    requires n >= 1
  {
    Offset(idx, -1, n) % n
  }

  lemma {:induction false} SlotWraps(j: int, m: int, n: nat)
    requires n >= 1
    ensures Slot(j + m * n, n) == Slot(j, n)
  {
    var (q, r) := (j / n, j % n);
    Distribute(-m, q, n);
    ModUnique(j + m * n, n, q + m, r);
  }

  /** After and Before step one slot forward and back around the ring. */
  lemma {:induction false} AfterBefore(j: int, n: nat)
    requires n >= 2
    ensures After(Slot(j, n), n) == Slot(j + 1, n) && Before(Slot(j, n), n) == Slot(j - 1, n)
  {
    var i := Slot(j, n);
    var m := if Abs(i) >= 1 then Abs(i) else 1;
    var q := j / n;
    assert j == q * n + i;
    assert n * m == m * n;
    SlotWraps(i + 1, m, n);
    SlotWraps(i - 1, m, n);
    SlotWraps(i + 1, q, n);
    SlotWraps(i - 1, q, n);
    assert Offset(i, 1, n) == i + 1 + m * n && Offset(i, -1, n) == i - 1 + m * n;
    assert i + 1 + q * n == j + 1 && i - 1 + q * n == j - 1;
  }

  lemma {:induction false} SlotsDiffer(j: int, k: int, n: nat)
    requires j < k < j + n
    ensures Slot(j, n) != Slot(k, n)
  {
    CloseIndicesDiffer(j, k, n);
  }

  lemma {:induction false} SlotBack(j: int, n: nat)
    requires n >= 1
    ensures Slot(j - n, n) == Slot(j, n)
  {
    SlotWraps(j, -1, n);
  }

  lemma {:induction false} SlotSmall(j: nat, n: nat)
    requires j < n
    ensures Slot(j, n) == j
  {
    ModUnique(j, n, 0, j);
  }

  // ---------------------------------------------------------------- the simple queue

  /** What a drop-oldest queue of the given size holds after x is pushed onto q. */
  function PushDroppingOldest<T>(q: seq<T>, x: T, size: nat): seq<T> {
    if |q| < size then q + [x] else if q == [] then q else q[1..] + [x]
  }

  /** The queue after pushing xs in order. */
  ghost function PushAll<T>(q: seq<T>, xs: seq<T>, size: nat): seq<T>
    decreases |xs|
  {
    if xs == [] then q else PushDroppingOldest(PushAll(q, xs[..|xs| - 1], size), xs[|xs| - 1], size)
  }

  /** Of everything queued or pushed exactly the last `size` values are kept, in order. */
  lemma {:induction false} LastPushesAreKept<T>(q: seq<T>, xs: seq<T>, size: nat)
    requires |q| <= size && size > 0
    ensures var all := q + xs;
            PushAll(q, xs, size) == if |all| <= size then all else all[|all| - size..]
    decreases |xs|
  {
    hide PushDroppingOldest;
    if xs == [] {
      assert q + xs == q;
    } else {
      var (most, x) := (xs[..|xs| - 1], xs[|xs| - 1]);
      LastPushesAreKept(q, most, size);
      assert q + xs == (q + most) + [x];
      DropOldestOfLast(q + most, x, size);
    }
  }

  lemma {:induction false} DropOldestOfLast<T>(all: seq<T>, x: T, size: nat)
    requires size > 0
    ensures PushDroppingOldest(if |all| <= size then all else all[|all| - size..], x, size)
            == if |all| + 1 <= size then all + [x] else (all + [x])[|all| + 1 - size..]
  {
  }

  lemma {:induction false} PushKeepsLast<T>(log: seq<T>, count: nat, x: T, size: nat)
    requires count <= |log| && count <= size && size >= 2
    ensures var count' := if count < size then count + 1 else count;
            (log + [x])[|log| + 1 - count'..] == PushDroppingOldest(log[|log| - count..], x, size)
  {
  }

  // ---------------------------------------------------------------- the ring

  class Ring<T> {
    const zero: T
    const size: nat
    const ring: array<T>
    const used: array<bool>   // whether the slot's entry in the pointer slice is non-nil
    var count: nat
    var pos: nat
    var total: nat
    ghost var log: seq<T>     // everything ever pushed

    /** Slot by slot: the last `count` pushes are there, and the slots of the ones before them are free. */
    ghost predicate Filled()
      reads this, ring, used
      requires size >= 2 && ring.Length == used.Length == size && count <= |log|
    {
      && (forall j {:trigger Slot(j, size)} :: |log| - count <= j < |log| ==>
            used[Slot(j, size)] && ring[Slot(j, size)] == log[j])
      && (forall j {:trigger Slot(j, size)} :: |log| - size <= j < |log| - count ==> !used[Slot(j, size)])
    }

    ghost predicate Valid()
      reads this, ring, used
    {
      && size >= 2 && ring.Length == used.Length == size && ring as object != used as object
      && total == |log| && count <= size && count <= total
      && pos == Slot(total, size)
      && Filled()
    }

    ghost function Contents(): seq<T>
      reads this
      requires count <= |log|
    {
      log[|log| - count..]
    }

    constructor (zero: T, size: nat)
      requires size >= 2
      ensures Valid() && this.size == size && Contents() == [] && log == [] && fresh(ring) && fresh(used)
    {
      this.zero, this.size := zero, size;
      ring := new T[size](_ => zero);
      used := new bool[size](_ => false);
      count, pos, total, log := 0, 0, 0, [];
      new;
      SlotSmall(0, size);
    }

    method Push(val: T)
      requires Valid()
      modifies this, ring, used
      ensures Valid() && log == old(log) + [val]
      ensures Contents() == PushDroppingOldest(old(Contents()), val, size)
    {
      hide Slot, After, PushDroppingOldest;
      PushKeepsLast(log, count, val, size);
      AfterBefore(total, size);
      SlotBack(total, size);
      forall j | |log| - size < j < |log|
        ensures Slot(j, size) != pos
      {
        SlotsDiffer(j, |log|, size);
      }
      total := total + 1;
      if count < size {
        count := count + 1;
      }
      ring[pos] := val;
      used[pos] := true;
      pos := After(pos, size);
      log := log + [val];
    }

    function HasWrapped(): bool
      reads this
    {
      total > size
    }

    /** Where the scan for the oldest item starts. */
    function Oldest(): nat
      reads this
    {
      if HasWrapped() then pos else 0
    }

    /** The push that the slot at Oldest() belongs to. */
    ghost function ScanStart(): int
      reads this
    {
      if |log| > size then |log| - size else 0
    }

    /** From the start of the scan on, one slot is used iff it holds one of the last `count` pushes. */
    lemma {:induction false} UsedFrom(j: int)
      requires Valid() && ScanStart() <= j < ScanStart() + size
      ensures used[Slot(j, size)] <==> |log| - count <= j < |log|
    {
      hide Slot;
      if j >= |log| {
        SlotBack(j, size);
      }
    }

    lemma {:induction false} OldestIsStart()
      requires Valid()
      ensures Oldest() == Slot(ScanStart(), size)
    {
      SlotBack(total, size);
      SlotSmall(0, size);
    }

    /** Empties the slot of the oldest item. */
    method TakeOut(idx: nat) returns (item: T)
      requires Valid() && count > 0 && idx == Slot(|log| - count, size)
      modifies `count, ring, used
      ensures Valid() && count == old(count) - 1 && item == log[|log| - old(count)]
    {
      hide Slot;
      forall j | |log| - size <= j < |log| && j != |log| - count
        ensures Slot(j, size) != idx
      {
        if j < |log| - count {
          SlotsDiffer(j, |log| - count, size);
        } else {
          SlotsDiffer(|log| - count, j, size);
        }
      }
      item := ring[idx];
      ring[idx] := zero;
      used[idx] := false;
      count := count - 1;
    }

    method Pop() returns (r: Option<T>)
      requires Valid()
      modifies `count, ring, used
      ensures Valid()
      ensures if old(Contents()) == [] then r == None && Contents() == []
              else r == Some(old(Contents()[0])) && Contents() == old(Contents()[1..])
    {
      hide Slot, After;
      OldestIsStart();
      var idx := Oldest();
      ghost var j := ScanStart();
      while count > 0
        invariant Valid() && count == old(count) && log == old(log)
        invariant ScanStart() <= j <= |log| - count && idx == Slot(j, size)
        decreases |log| - j
      {
        UsedFrom(j);
        if !used[idx] {
          AfterBefore(j, size);
          idx, j := After(idx, size), j + 1;
          continue;
        }
        var item := TakeOut(idx);
        return Some(item);
      }
      r := None;
    }
  }

  /** Setup. With null for the zero ring, no size means the default one, and a size out of range is an invariant
      violation, for which null stands again. A ring that has been set up stays as it is. */
  method Setup<T>(ring: Ring?<T>, zero: T, size: int) returns (r: Ring?<T>)
    requires ring != null ==> ring.Valid()
    ensures ring != null ==> r == ring && r.Valid()
    ensures ring == null ==> (r == null <==> size != 0 && (size > MAX_RING_SIZE || size < 2))
    ensures ring == null && r != null ==>
              r.Valid() && r.Contents() == [] && r.size == if size == 0 then DEFAULT_RING_SIZE else size
  {
    if ring != null {
      return ring;
    }
    var n := if size == 0 then DEFAULT_RING_SIZE else size;
    if n > MAX_RING_SIZE || n < 2 {
      return null;
    }
    r := new Ring(zero, n);
  }

  // ---------------------------------------------------------------- walking the ring

  /** What the slot of push j shows. */
  ghost function Seen<T>(log: seq<T>, count: nat, j: int): seq<T>
    requires count <= |log|
  {
    if |log| - count <= j < |log| then [log[j]] else []
  }

  /** The push whose slot is met after k steps. */
  ghost function Met(start: int, forward: bool, k: nat): int {
    if forward then start + k else start - k
  }

  /** What a walk of `size` slots still shows when k of them are behind it. */
  ghost function Ahead<T>(log: seq<T>, count: nat, size: nat, start: int, forward: bool, k: nat): seq<T>
    requires count <= |log|
    decreases size - k
  {
    if k >= size then []
    else Seen(log, count, Met(start, forward, k)) + Ahead(log, count, size, start, forward, k + 1)
  }

  lemma {:induction false} AheadNext<T>(log: seq<T>, count: nat, size: nat, start: int, forward: bool, k: nat)
    requires count <= |log| && k < size
    ensures var j := Met(start, forward, k);
            Ahead(log, count, size, start, forward, k)
            == (if |log| - count <= j < |log| then [log[j]] else []) + Ahead(log, count, size, start, forward, k + 1)
  {
  }

  /** A whole walk forward shows the contents, oldest first, */
  lemma {:induction false} ForwardShowsAll<T>(log: seq<T>, count: nat, size: nat, start: int, k: nat)
    requires count <= |log| && start <= |log| - count && |log| <= start + size && k <= size
    ensures Ahead(log, count, size, start, true, k)
            == if start + k <= |log| - count then log[|log| - count..]
               else if start + k <= |log| then log[start + k..]
               else []
    decreases size - k
  {
    hide Ahead;
    if k == size {
      NothingAhead(log, count, size, start, true, k);
    } else {
      AheadNext(log, count, size, start, true, k);
      ForwardShowsAll(log, count, size, start, k + 1);
      if |log| - count <= start + k < |log| {
        assert log[start + k..] == [log[start + k]] + log[start + k + 1..];
      }
    }
  }

  /** and a whole walk backward shows them newest first. */
  lemma {:induction false} BackwardShowsAll<T>(log: seq<T>, count: nat, size: nat, k: nat)
    requires count <= |log| && count <= size && k <= size
    ensures Ahead(log, count, size, |log| - 1, false, k)
            == if k <= count then Reversed(log[|log| - count..|log| - k]) else []
    decreases size - k
  {
    hide Ahead, Reversed;
    if k == count {
      assert log[|log| - count..|log| - k] == [];
      ReversedEmpty<T>();
    }
    if k < size {
      AheadNext(log, count, size, |log| - 1, false, k);
      BackwardShowsAll(log, count, size, k + 1);
      if k < count {
        ReversedSlice(log, |log| - count, |log| - k);
      }
    } else {
      NothingAhead(log, count, size, |log| - 1, false, k);
    }
  }

  lemma {:induction false} NothingAhead<T>(log: seq<T>, count: nat, size: nat, start: int, forward: bool, k: nat)
    requires count == 0 || (count <= |log| && k >= size)
    ensures Ahead(log, count, size, start, forward, k) == []
    decreases size - k
  {
    if k < size {
      NothingAhead(log, count, size, start, forward, k + 1);
    }
  }

  /** One iterator over a ring. It keeps its place from one use to the next. */
  class Walk<T> {
    const ring: Ring<T>
    const forward: bool
    const from: nat
    var count: nat
    var next: nat

    ghost function Start(): int
      reads this, ring
    {
      if forward then ring.ScanStart() else |ring.log| - 1
    }

    /** The ring is where it was when the iterator was made. */
    ghost predicate Valid()
      reads this, ring, ring.ring, ring.used
    {
      && ring.Valid() && count <= ring.size
      && from == Slot(Start(), ring.size) && next == Slot(Met(Start(), forward, count), ring.size)
    }

    ghost function Left(): seq<T>
      reads this, ring, ring.ring, ring.used
      requires Valid()
    {
      Ahead(ring.log, ring.count, ring.size, Start(), forward, count)
    }

    constructor FIFO(ring: Ring<T>)
      requires ring.Valid()
      ensures Valid() && this.ring == ring && Left() == ring.Contents()
    {
      this.ring, forward, from, count, next := ring, true, ring.Oldest(), 0, ring.Oldest();
      new;
      ring.OldestIsStart();
      ForwardShowsAll(ring.log, ring.count, ring.size, Start(), 0);
    }

    constructor LIFO(ring: Ring<T>)
      requires ring.Valid()
      ensures Valid() && this.ring == ring && Left() == Reversed(ring.Contents())
    {
      hide Slot, Before, Ring.Filled, Ahead, Reversed;
      AfterBefore(ring.total, ring.size);
      var b := Before(ring.pos, ring.size);
      this.ring, forward, from, count, next := ring, false, b, 0, b;
      new;
      BackwardShowsAll(ring.log, ring.count, ring.size, 0);
      assert ring.log[|ring.log| - ring.count..|ring.log|] == ring.Contents();
    }

    function Advance(idx: nat): int
      requires ring.size >= 1
      reads this
    {
      if forward then After(idx, ring.size) else Before(idx, ring.size)
    }

    lemma {:induction false} MetSlot()
      requires Valid() && count < ring.size
      ensures var j := Met(Start(), forward, count);
              && ring.used[next] == (|ring.log| - ring.count <= j < |ring.log|)
              && (ring.used[next] ==> ring.ring[next] == ring.log[j])
              && Advance(next) == Slot(Met(Start(), forward, count + 1), ring.size)
    {
      hide Slot, After, Before;
      var j := Met(Start(), forward, count);
      AfterBefore(j, ring.size);
      if forward {
        ring.UsedFrom(j);
      }
    }

    /** The walk is back where it began only when it has seen every slot. */
    lemma {:induction false} BackAtStart()
      requires Valid()
      ensures next != from <==> 0 < count < ring.size
    {
      hide Slot, Ring.Filled;
      if 0 < count < ring.size {
        if forward {
          SlotsDiffer(Start(), Start() + count, ring.size);
        } else {
          SlotsDiffer(Start() - count, Start(), ring.size);
        }
      } else {
        SlotBack(if forward then Start() + ring.size else Start(), ring.size);
      }
    }

    /** A loop over the iterator that stops at its limit-th item at the latest. It shows what is left, in order, and
        stops early only when nothing is left; the next loop goes on from there. */
    method Run(limit: nat) returns (out: seq<T>)
      requires Valid() && limit > 0
      modifies `count, `next
      ensures Valid() && out + Left() == old(Left())
      ensures |out| <= limit && (|out| < limit ==> Left() == [])
    {
      hide Slot, After, Before, Ring.Filled, Ahead, Met;
      out := [];
      BackAtStart();
      while ring.count > 0 && (count == 0 || next != from)
        invariant Valid() && out + Left() == old(Left()) && |out| < limit
        invariant next != from <==> 0 < count < ring.size
        decreases ring.size - count
      {
        MetSlot();
        AheadNext(ring.log, ring.count, ring.size, Start(), forward, count);
        ghost var left := Ahead(ring.log, ring.count, ring.size, Start(), forward, count + 1);
        assert forall x :: out + ([x] + left) == (out + [x]) + left;
        var current := next;
        next := Advance(current);
        count := count + 1;
        BackAtStart();
        if ring.used[current] {
          out := out + [ring.ring[current]];
          if |out| == limit {
            return;
          }
        }
      }
      NothingAhead(ring.log, ring.count, ring.size, Start(), forward, count);
    }
  }
}
