/** The deque object: a ring of elements through a root. Every method is a stretch of code that runs with the lock
    held, and is proved to do to the ring what the function of the same name does to the monitor. */
module LinkedDeque {
  import opened Limits
  import opened Wrappers
  import opened Links
  import opened DequeModel

  /** What an element carries besides its links; a removed one has lost its item but keeps its number. */
  datatype Slot<T> = Slot(item: Option<T>, seqno: int, removed: bool)

  class Deque<T> {
    const tracker: LimitTracker
    const root: Node<Slot<T>>
    var drainers: nat
    var closed: bool
    var lo: int
    var hi: int
    var nfront: set<Tid>
    var nback: set<Tid>
    var updates: set<Tid>

    ghost var nodes: seq<Node<Slot<T>>>   // the ring, root first
    ghost var live: seq<Cell<T>>          // what the elements after the root hold

    ghost predicate Linked()
      reads `nodes, `live, nodes
    {
      && IsRing(nodes) && nodes[0] == root && |nodes| == |live| + 1
      && root.data == Slot(None, 0, false)
      && (forall i :: 0 < i < |nodes| ==> nodes[i].data == Slot(Some(live[i - 1].item), live[i - 1].seqno, false))
    }

    ghost predicate Valid()
      reads this, tracker, nodes
    {
      Linked() && Abs().Counted()
    }

    ghost function Abs(): Monitor<T>
      reads this, tracker
    {
      Monitor(live, lo, hi, tracker.Abs(), drainers, closed, nfront, nback, updates)
    }

    /** A cursor is the root, a linked element, or one that has been removed. */
    ghost predicate IsCursor(e: Node<Slot<T>>, place: Place)
      reads `nodes, e
    {
      match place
      case Root => e == root
      case At(seqno) => e.data.seqno == seqno && e != root && (e in nodes <==> !e.data.removed)
    }

    constructor (tracker: LimitTracker)
      requires tracker.Abs().Valid() && tracker.length == 0
      ensures Valid() && this.tracker == tracker && fresh(root) && nodes == [root]
      ensures Abs() == Monitor([], 0, 0, tracker.Abs(), 0, false, {}, {}, {})
    {
      var r := new Node<Slot<T>>(Slot(None, 0, false));
      r.next, r.prev := r, r;
      this.tracker, root := tracker, r;
      drainers, closed, lo, hi, nfront, nback, updates := 0, false, 0, 0, {}, {}, {};
      nodes, live := [r], [];
    }

    method Notify()
      modifies `nfront, `nback, `updates
      ensures nfront == nback == updates == {}
    {
      nfront, nback, updates := {}, {}, {};
    }

    /** Links a new element after the k-th node. */
    method LinkAfter(cell: Cell<T>, after: Node<Slot<T>>, ghost k: nat)
      requires Linked() && k < |nodes| && after == nodes[k]
      modifies `nodes, `live, nodes`next, nodes`prev
      ensures Linked() && live == old(Inserted(live, k, cell))
      ensures Gained(old(nodes), nodes, k + 1) && fresh(nodes[k + 1])
    {
      hide IsRing;
      var it := new Node<Slot<T>>(Slot(Some(cell.item), cell.seqno, false));
      Attach(it, after, nodes, k);
      ghost var (was, held) := (nodes, live);
      nodes, live := Inserted(nodes, k + 1, it), Inserted(live, k, cell);
      forall i | 0 < i < |nodes|
        ensures nodes[i].data == Slot(Some(live[i - 1].item), live[i - 1].seqno, false)
      {
        assert nodes[i] == if i <= k then was[i] else if i == k + 1 then it else was[i - 1];
        assert live[i - 1] == if i <= k then held[i - 1] else if i == k + 1 then cell else held[i - 2];
      }
    }

    /** Takes the k-th node out and clears it; its number stays. */
    method Unlink(it: Node<Slot<T>>, ghost k: nat) returns (item: T)
      requires Linked() && 0 < k < |nodes| && it == nodes[k]
      modifies `nodes, `live, it`data, nodes`next, nodes`prev
      ensures Linked() && live == old(Without(live, k - 1)) && item == old(live[k - 1].item)
      ensures nodes == old(Without(nodes, k)) && it.data == Slot(None, old(live[k - 1].seqno), true)
      ensures it.next == it.prev == null
    {
      item := it.data.item.value;
      Detach(it, nodes, k);
      nodes, live := Without(nodes, k), Without(live, k - 1);
      assert forall i :: 0 < i < |nodes| ==> nodes[i].data == Slot(Some(live[i - 1].item), live[i - 1].seqno, false);
      Clear(it, nodes);
    }

    method CheckOpen() returns (r: Outcome<T>)
      ensures r == (if drainers > 0 then Failed(Draining) else if closed then Failed(Closed) else Done)
    {
      if drainers > 0 {
        return Failed(Draining);
      }
      if closed {
        return Failed(Closed);
      }
      r := Done;
    }

    method Add(item: T, side: Side) returns (r: Outcome<T>)
      requires Valid()
      modifies this, tracker, nodes`next, nodes`prev
      ensures Valid() && (Abs(), r) == DoAdd(old(Abs()), item, side) && Added(old(nodes), r, side)
      ensures forall e: Node<Slot<T>>, place: Place ::
                old(allocated(e)) && old(IsCursor(e, place)) ==> IsCursor(e, place)
    {
      r := CheckOpen();
      if r.Done? {
        r := AddOpen(item, side);
      }
    }

    method AddOpen(item: T, side: Side) returns (r: Outcome<T>)
      requires Valid() && !closed && drainers == 0
      modifies this, tracker, nodes`next, nodes`prev
      ensures Valid() && (Abs(), r) == DoAdd(old(Abs()), item, side) && Added(old(nodes), r, side)
    {
      var t := tracker.Add();
      if t.Refused? {
        updates := {};
        return Failed(OverLimit(t.why));
      }
      PutIn(item, side);
      r := Done;
    }

    /** An accepted element is a new node at its end of the ring. */
    twostate predicate Added(was: seq<Node<Slot<T>>>, r: Outcome<T>, side: Side)
      reads `nodes
    {
      if r.Done? then Gained(was, nodes, EndOf(nodes, side)) && fresh(nodes[EndOf(nodes, side)]) else nodes == was
    }

    /** Numbers and links a new element at one end, and wakes everybody. */
    method PutIn(item: T, side: Side)
      requires Linked()
      modifies `nodes, `live, `lo, `hi, `nfront, `nback, `updates, nodes`next, nodes`prev
      ensures Linked() && nfront == nback == updates == {}
      ensures Gained(old(nodes), nodes, EndOf(nodes, side)) && fresh(nodes[EndOf(nodes, side)])
      ensures side == Back ==> hi == old(hi) + 1 && lo == old(lo) && live == old(live) + [Cell(hi, item)]
      ensures side == Front ==> lo == old(lo) - 1 && hi == old(hi) && live == [Cell(lo, item)] + old(live)
    {
      Notify();
      if side == Back {
        hi := hi + 1;
        LinkAfter(Cell(hi, item), root.prev, |nodes| - 1);
      } else {
        lo := lo - 1;
        LinkAfter(Cell(lo, item), root, 0);
      }
    }

    method Pop(it: Node<Slot<T>>, side: Side) returns (r: Outcome<T>)
      requires Valid() && it == AtEnd(side)
      modifies this, tracker, it`data, nodes`next, nodes`prev
      ensures Valid() && (Abs(), r) == DoPop(old(Abs()), side)
      ensures if r.Item? then
                nodes == old(Without(nodes, EndOf(nodes, side))) && it.data == Slot(None, r.cell.seqno, true)
              else nodes == old(nodes)
      ensures forall e: Node<Slot<T>>, place: Place ::
                old(allocated(e)) && old(IsCursor(e, place)) ==> IsCursor(e, place)
    {
      if closed || it == root {
        return Nothing;
      }
      var cell := Remove(it, side);
      r := Item(cell);
    }

    /** Uncounts and unlinks the element at one end. */
    method Remove(it: Node<Slot<T>>, side: Side) returns (cell: Cell<T>)
      requires Valid() && !closed && live != [] && it == AtEnd(side)
      modifies this, tracker, it`data, nodes`next, nodes`prev
      ensures Valid() && (Abs(), Item(cell)) == DoPop(old(Abs()), side)
      ensures nodes == old(Without(nodes, EndOf(nodes, side))) && it.data == Slot(None, cell.seqno, true)
    {
      hide IsRing;
      tracker.Remove();
      cell := TakeOut(it, side);
    }

    /** Unlinks the element at one end, and wakes everybody. */
    method TakeOut(it: Node<Slot<T>>, side: Side) returns (cell: Cell<T>)
      requires Linked() && live != [] && it == AtEnd(side)
      modifies `nodes, `live, `nfront, `nback, `updates, it`data, nodes`next, nodes`prev
      ensures Linked() && nfront == nback == updates == {}
      ensures nodes == old(Without(nodes, EndOf(nodes, side))) && it.data == Slot(None, cell.seqno, true)
      ensures side == Front ==> cell == old(live[0]) && live == old(live[1..])
      ensures side == Back ==> cell == old(live[|live| - 1]) && live == old(live[..|live| - 1])
    {
      Notify();
      ghost var k := EndOf(nodes, side);
      var seqno := it.data.seqno;
      var out := Unlink(it, k);
      cell := Cell(seqno, out);
    }

    /** The element at one end, or the root. */
    function AtEnd(side: Side): Node?<Slot<T>>
      reads root
    {
      if side == Front then root.next else root.prev
    }

    method ForcePush(item: T, side: Side) returns (r: Outcome<T>)
      requires Valid()
      modifies this, tracker, nodes
      ensures Valid() && (Abs(), r) == DequeModel.ForcePush(old(Abs()), item, side)
      ensures forall e: Node<Slot<T>>, place: Place ::
                old(allocated(e)) && old(IsCursor(e, place)) ==> IsCursor(e, place)
    {
      r := CheckOpen();
      if !r.Done? {
        return;
      }
      MakeRoom(side);
      r := Add(item, side);
    }

    method MakeRoom(side: Side)
      requires Valid() && !closed && drainers == 0
      modifies this, tracker, nodes
      ensures Valid() && Abs() == Evict(old(Abs()), side).0
      ensures forall i :: 0 <= i < |nodes| ==> nodes[i] in old(nodes)
      ensures forall e: Node<Slot<T>>, place: Place ::
                old(allocated(e)) && old(IsCursor(e, place)) ==> IsCursor(e, place)
    {
      if tracker.Abs().Cap() == tracker.length {
        var evicted := Pop(AtEnd(Opposite(side)), Opposite(side));
      }
    }

    method Close()
      requires Valid()
      modifies `closed, `nfront, `nback, `updates
      ensures Valid() && Abs() == DoClose(old(Abs()))
    {
      closed := true;
      Notify();
    }

    method WaitPush(tid: Tid, ended: bool, item: T, side: Side) returns (r: Outcome<T>)
      requires Valid()
      modifies this, tracker, nodes`next, nodes`prev
      ensures Valid() && (Abs(), r) == DequeModel.WaitPush(old(Abs()), tid, ended, item, side)
      ensures Added(old(nodes), r, side)
      ensures forall e: Node<Slot<T>>, place: Place ::
                old(allocated(e)) && old(IsCursor(e, place)) ==> IsCursor(e, place)
    {
      r := CheckOpen();
      if !r.Done? {
        return;
      }
      if ended {
        return Failed(ContextEnded);
      }
      if tracker.Abs().Cap() > tracker.length {
        r := Add(item, side);
        return;
      }
      updates := updates + {tid};
      r := Blocked;
    }

    method SleepOn(tid: Tid, side: Side)
      requires Valid()
      modifies `nfront, `nback
      ensures Valid() && Abs() == DequeModel.SleepOn(old(Abs()), tid, side)
    {
      if side == Front {
        nfront := nfront + {tid};
      } else {
        nback := nback + {tid};
      }
    }

    method WaitPop(tid: Tid, ended: bool, side: Side) returns (r: Outcome<T>)
      requires Valid()
      modifies this, tracker, nodes
      ensures Valid() && (Abs(), r) == DequeModel.WaitPop(old(Abs()), tid, ended, side)
      ensures nodes == if r.Item? then old(Without(nodes, EndOf(nodes, side))) else old(nodes)
      ensures forall e: Node<Slot<T>>, place: Place ::
                old(allocated(e)) && old(IsCursor(e, place)) ==> IsCursor(e, place)
    {
      if closed {
        return Failed(Closed);
      }
      if ended {
        return Failed(ContextEnded);
      }
      if AtEnd(side) != root {
        r := Pop(AtEnd(side), side);
        return;
      }
      SleepOn(tid, side);
      r := Blocked;
    }

    method DrainLoop(tid: Tid, ended: bool, shutdown: bool) returns (r: Outcome<T>)
      requires Valid() && drainers > 0
      modifies `drainers, `closed, `nfront, `nback, `updates
      ensures Valid() && (Abs(), r) == DequeModel.DrainLoop(old(Abs()), tid, ended, shutdown)
    {
      if tracker.length > 0 {
        if closed {
          drainers := drainers - 1;
          return Failed(Closed);
        }
        if ended {
          drainers := drainers - 1;
          return Failed(ContextEnded);
        }
        updates := updates + {tid};
        return Blocked;
      }
      drainers := drainers - 1;
      if shutdown {
        Close();
      }
      r := Done;
    }

    method DrainEnter(tid: Tid, ended: bool, shutdown: bool) returns (r: Outcome<T>)
      requires Valid()
      modifies `drainers, `closed, `nfront, `nback, `updates
      ensures Valid() && (Abs(), r) == DequeModel.DrainEnter(old(Abs()), tid, ended, shutdown)
    {
      if closed {
        return Failed(Closed);
      }
      if ended {
        return Failed(ContextEnded);
      }
      drainers := drainers + 1;
      updates := {};
      r := DrainLoop(tid, ended, shutdown);
    }

    /** The node of the k-th linked element, or the root if there is none. */
    ghost function NodeAt(k: int): Node<Slot<T>>
      reads `nodes
      requires nodes != []
    {
      if 0 <= k < |nodes| - 1 then nodes[k + 1] else root
    }

    lemma LinksOf(k: int)
      requires Linked() && -1 <= k <= |live|
      ensures k < |live| ==> NodeAt(k).next == NodeAt(k + 1)
      ensures 0 <= k ==> NodeAt(k).prev == NodeAt(k - 1)
      ensures root.next == NodeAt(0) && root.prev == NodeAt(|live| - 1)
      ensures 0 <= k < |live| <==> NodeAt(k) != root
    {
    }

    /** The element an iterator goes to from a cursor: along the link of a linked element, and for a removed one,
        which has none, by scanning for where its number would be. */
    method NeighborOf(e: Node<Slot<T>>, ghost place: Place, from: Side) returns (next: Node<Slot<T>>)
      requires Valid() && Sorted(live) && IsCursor(e, place)
      ensures next == NodeAt(Neighbor(live, place, from))
      ensures next != root ==> next in nodes && next.data.item.Some?
      ensures Step(Abs(), place, from) == (if next == root then Nothing else
                                             Yielded(CellOf(next)))
    {
      hide IsRing, Neighbor, Sorted;
      next := NeighborNode(e, place, from);
      LinksOf(Neighbor(live, place, from));
    }

    method NeighborNode(e: Node<Slot<T>>, ghost place: Place, from: Side) returns (next: Node<Slot<T>>)
      requires Valid() && Sorted(live) && IsCursor(e, place)
      ensures next == NodeAt(Neighbor(live, place, from))
    {
      if !e.data.removed {
        ghost var j: int :| 0 <= j < |nodes| && nodes[j] == e;
        LinksOf(j - 1);
        if j > 0 {
          LinkedNeighborIsAdjacent(live, j - 1, from);
        }
        next := if from == Back then e.prev else e.next;
      } else if from == Back {
        next := ScanBack(e.data.seqno);
      } else {
        next := ScanFront(e.data.seqno);
      }
    }

    /** One pull of an iterator, which holds `current` between pulls. */
    method Pull(tid: Tid, ended: bool, blocking: bool, current: Node<Slot<T>>, ghost place: Place, from: Side)
      returns (r: Outcome<T>, next: Node<Slot<T>>)
      requires Valid() && Sorted(live) && IsCursor(current, place)
      modifies `nfront, `nback
      ensures Valid()
      ensures (Abs(), r) == if blocking then WaitNext(old(Abs()), tid, ended, place, from)
                            else (old(Abs()), Step(old(Abs()), place, from))
      ensures IsCursor(next, if r.Yielded? then At(r.cell.seqno) else place)
    {
      hide IsRing, Neighbor, Sorted;
      next := current;
      if blocking && !closed {
        if ended {
          return Nothing, current;
        }
        var ahead := NeighborOf(current, place, from);
        if ahead == root {
          SleepOn(tid, from);
          return Blocked, current;
        }
      }
      var n := NeighborOf(current, place, from);
      if n == root {
        return Nothing, current;
      }
      r, next := Yielded(CellOf(n)), n;
    }

    method ScanFront(seqno: int) returns (n: Node<Slot<T>>)
      requires Linked()
      ensures n == NodeAt(Neighbor(live, At(seqno), Front))
    {
      n := root.next;
      ghost var i := 0;
      LinksOf(0);
      while n != root && n.data.seqno <= seqno
        invariant 0 <= i <= |live| && n == NodeAt(i)
        invariant ScanUp(live, At(seqno), i) == ScanUp(live, At(seqno), 0)
        decreases |live| - i
      {
        LinksOf(i);
        n, i := n.next, i + 1;
      }
    }

    method ScanBack(seqno: int) returns (n: Node<Slot<T>>)
      requires Linked()
      ensures n == NodeAt(Neighbor(live, At(seqno), Back))
    {
      n := root.prev;
      ghost var i := |live| - 1;
      LinksOf(i);
      while n != root && n.data.seqno >= seqno
        invariant -1 <= i < |live| && n == NodeAt(i)
        invariant ScanDown(live, At(seqno), i) == ScanDown(live, At(seqno), |live| - 1)
        decreases i
      {
        LinksOf(i);
        n, i := n.prev, i - 1;
      }
    }
  }

  function CellOf<T>(e: Node<Slot<T>>): Cell<T>
    requires e.data.item.Some?
    reads e
  {
    Cell(e.data.seqno, e.data.item.value)
  }

  ghost function EndOf<A>(nodes: seq<A>, side: Side): int {
    if side == Front then 1 else |nodes| - 1
  }

  /** One more than before, at the k-th position. */
  ghost predicate Gained<A>(s: seq<A>, t: seq<A>, k: int) {
    |t| == |s| + 1 && 0 <= k < |t| && t == Inserted(s, k, t[k])
  }

  /** Drops everything an element outside the ring refers to. */
  method Clear<T>(it: Node<Slot<T>>, ghost nodes: seq<Node<Slot<T>>>)
    requires it !in nodes && IsRing(nodes)
    modifies it`data, it`next, it`prev
    ensures IsRing(nodes) && it.data == Slot(None, old(it.data.seqno), true) && it.next == it.prev == null
  {
    it.data, it.next, it.prev := Slot(None, it.data.seqno, true), null, null;
  }
}
