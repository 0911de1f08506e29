/** The list inside the ordered set and map of package adt. Its elements keep their identity through both sorts. */
module SimpleList {
  import opened Links
  import opened Sequences
  import opened Sorting

  datatype Slot<T(!new)> = Slot(list: List?<T>, item: T, isRoot: bool)

  type Element<T(!new)> = Node<Slot<T>>

  class List<T(!new)> {
    const zero: T
    const head: Element<T>
    var size: int
    ghost var nodes: seq<Element<T>>    // the ring, root first
    ghost var items: seq<T>
    ghost var rep: set<Element<T>>      // the elements of the ring

    ghost predicate Valid()
      reads this, rep
    {
      && rep == Members(nodes)
      && IsRing(nodes) && nodes[0] == head && |nodes| == |items| + 1 && size == |items|
      && head.data == Slot(this, zero, true)
      && (forall i :: 0 < i < |nodes| ==> nodes[i].data == Slot(this, items[i - 1], false))
    }

    /** The elements that hold the items. */
    ghost function Elems(): set<Element<T>>
      reads this
    {
      rep - {head}
    }

    constructor (zero: T)
      ensures Valid() && items == [] && this.zero == zero && fresh(head) && rep == {head}
    {
      var h := new Node(Slot(null, zero, true));
      h.next, h.prev := h, h;
      this.zero, head, size, nodes, items, rep := zero, h, 0, [h], [], {h};
      new;
      h.data := Slot(this, zero, true);
    }

    predicate In(e: Element<T>)
      reads e
    {
      e.data.list == this && !e.data.isRoot
    }

    function Size(): (n: int)
      requires Valid()
      reads this, rep
      ensures n == |items|
    {
      size
    }

    function Front(): (e: Element<T>)
      requires Valid()
      reads this, rep
      ensures e == if items == [] then head else nodes[1]
      ensures items != [] ==> e.data.item == items[0]
    {
      head.next
    }

    function Back(): (e: Element<T>)
      requires Valid()
      reads this, rep
      ensures e == nodes[|items|]
    {
      head.prev
    }

    function Next(e: Element<T>, ghost k: nat): (n: Element<T>)
      requires Valid() && k < |nodes| && e == nodes[k]
      reads this, rep
      ensures n == if k == |items| then head else nodes[k + 1]
    {
      e.next
    }

    /** e.PushBack(n) for the k-th element e: n comes right after it. Nothing asks whether n is linked already. */
    method PushAfter(e: Element<T>, n: Element<T>, ghost k: nat)
      requires Valid() && k < |nodes| && e == nodes[k] && n !in rep && !n.data.isRoot
      modifies this, rep`next, rep`prev, n
      ensures Valid() && n.data.item == old(n.data.item)
      ensures nodes == old(Inserted(nodes, k + 1, n)) && items == old(Inserted(items, k, n.data.item))
      ensures rep == old(rep) + {n}
    {
      hide IsRing;
      size := size + 1;
      n.data := Slot(e.data.list, n.data.item, false);
      Attach(n, e, nodes, k);
      ghost var was := nodes;
      InsertedMembers(nodes, k + 1, n);
      nodes, items, rep := Inserted(nodes, k + 1, n), Inserted(items, k, n.data.item), rep + {n};
      forall i | 0 < i < |nodes|
        ensures nodes[i].data == Slot(this, items[i - 1], false)
      {
        assert nodes[i] == if i <= k then was[i] else if i == k + 1 then n else was[i - 1];
      }
    }

    /** e.Set(v) on a linked element: it keeps its place. */
    method SetItem(e: Element<T>, v: T, ghost k: nat)
      requires Valid() && 0 < k < |nodes| && e == nodes[k]
      modifies `items, e`data
      ensures Valid() && items == old(items)[k - 1 := v] && e.data.item == v
    {
      e.data := Slot(e.data.list, v, e.data.isRoot);
      items := items[k - 1 := v];
    }

    /** e.Pop(): the root stays where it is. */
    method PopElement(e: Element<T>, ghost k: nat)
      requires Valid() && k < |nodes| && e == nodes[k]
      modifies this, rep
      ensures Valid() && e.data.item == old(e.data.item)
      ensures k == 0 ==> nodes == old(nodes) && items == old(items) && rep == old(rep)
      ensures k > 0 ==> nodes == old(Without(nodes, k)) && items == old(Without(items, k - 1)) && rep == old(rep) - {e}
      ensures k > 0 ==> e.data == Slot(null, old(items[k - 1]), false)
      ensures forall n :: n in rep ==> n.data == old(n.data)
    {
      hide IsRing;
      if !In(e) {
        return;
      }
      RingWithout(nodes, k);
      size := if size - 1 > 0 then size - 1 else 0;
      Detach(e, nodes, k);
      ghost var was := nodes;
      nodes, items, rep := Without(nodes, k), Without(items, k - 1), rep - {e};
      e.data := Slot(null, e.data.item, e.data.isRoot);
      forall i | 0 < i < |nodes|
        ensures nodes[i].data == Slot(this, items[i - 1], false)
      {
        assert nodes[i] == was[if i < k then i else i + 1];
      }
    }

    method PushBackE(e: Element<T>)
      requires Valid() && e !in rep && !e.data.isRoot
      modifies this, rep`next, rep`prev, e
      ensures Valid() && e.data.item == old(e.data.item)
      ensures items == old(items + [e.data.item]) && rep == old(rep) + {e}
    {
      PushAfter(Back(), e, |items|);
    }

    method PushFrontE(e: Element<T>)
      requires Valid() && e !in rep && !e.data.isRoot
      modifies this, rep`next, rep`prev, e
      ensures Valid() && e.data.item == old(e.data.item)
      ensures items == old([e.data.item] + items) && rep == old(rep) + {e}
    {
      PushAfter(head, e, 0);
    }

    /** Where a popping iterator stands: `last` is the front, not popped yet, and `it` comes after it; before the
        first pull there is no `last`. */
    ghost predicate Cursor(last: Node?<Slot<T>>, it: Element<T>)
      reads this, rep
    {
      && Valid()
      && if last == null then it == Front()
         else items != [] && last == nodes[1] && it == (if |items| == 1 then head else nodes[2])
    }

    lemma {:induction false} CursorIn(last: Node?<Slot<T>>, it: Element<T>)
      requires Cursor(last, it)
      ensures Valid() && (In(it) <==> |items| > if last == null then 0 else 1)
      ensures last != null ==> items != [] && last == Front()
    {
    }

    /** Pulling the next element, when the one before has been popped. */
    method Pull(it: Element<T>) returns (last: Element<T>, next: Element<T>)
      requires Cursor(null, it) && items != []
      ensures last == it && Cursor(last, next)
    {
      last, next := it, Next(it, 1);
    }
  }

  // ---------------------------------------------------------------- moving elements between lists

  ghost predicate Apart<T(!new)>(a: List<T>, b: List<T>)
    reads a, b
  {
    a != b && a.rep !! b.rep
  }

  lemma {:induction false} ApartIsMutual<T(!new)>(a: List<T>, b: List<T>)
    requires Apart(a, b)
    ensures Apart(b, a)
  {
  }

  /** None of the elements has changed its item. */
  twostate predicate SameItems<T(!new)>(pool: set<Element<T>>)
    reads pool
  {
    forall n :: n in pool ==> n.data.item == old(n.data.item)
  }

  /** The front element e of one list goes to the front or the back of the other. */
  method MoveElement<T(!new)>(from: List<T>, to: List<T>, e: Element<T>, front: bool)
    requires from.Valid() && to.Valid() && Apart(from, to) && from.items != [] && e == from.Front()
    modifies from, from.rep, to, to.rep`next, to.rep`prev
    ensures from.Valid() && to.Valid() && Apart(from, to)
    ensures from.items == old(from.items)[1..]
    ensures to.items == if front then [old(from.items)[0]] + old(to.items) else old(to.items) + [old(from.items)[0]]
    ensures from.nodes == old(Without(from.nodes, 1))
    ensures from.rep + to.rep == old(from.rep + to.rep) && from.rep <= old(from.rep)
    ensures SameItems(old(from.rep + to.rep))
  {
    hide IsRing;
    from.PopElement(e, 1);
    if front {
      to.PushFrontE(e);
    } else {
      to.PushBackE(e);
    }
  }

  /** to.PushFrontE(from.PopFrontE()), or PushBackE. A third list stays as it is. */
  method Move<T(!new)>(from: List<T>, to: List<T>, front: bool, ghost beside: List<T>)
    requires from.Valid() && to.Valid() && Apart(from, to) && from.items != []
    requires beside.Valid() && Apart(from, beside) && Apart(beside, to)
    modifies from, from.rep, to, to.rep`next, to.rep`prev
    ensures from.Valid() && to.Valid() && Apart(from, to)
    ensures from.items == old(from.items)[1..]
    ensures to.items == if front then [old(from.items)[0]] + old(to.items) else old(to.items) + [old(from.items)[0]]
    ensures from.rep + to.rep == old(from.rep + to.rep) && from.rep <= old(from.rep)
    ensures SameItems(old(from.rep + to.rep))
    ensures beside.Valid() && beside.items == old(beside.items) && beside.rep == old(beside.rep)
    ensures Apart(from, beside) && Apart(beside, from) && Apart(beside, to) && SameItems(old(beside.rep))
  {
    hide IsRing;
    MoveElement(from, to, from.Front(), front);
  }

  // ---------------------------------------------------------------- merge sort

  /** The merge of the two halves: a tie takes the left one. */
  ghost function MergeLeft<T>(cf: (T, T) -> int, a: seq<T>, b: seq<T>): seq<T>
    decreases |a| + |b|
  {
    if a == [] then b
    else if b == [] then a
    else if cf(a[0], b[0]) <= 0 then [a[0]] + MergeLeft(cf, a[1..], b)
    else [b[0]] + MergeLeft(cf, a, b[1..])
  }

  /** The list is split by pushing its elements onto the fronts of two others, which turns both halves round. */
  ghost function MergeSorted<T>(cf: (T, T) -> int, s: seq<T>): seq<T>
    decreases |s|
  {
    if |s| <= 1 then s
    else
      var h := |s| / 2;
      MergeLeft(cf, MergeSorted(cf, Reversed(s[..h])), MergeSorted(cf, Reversed(s[h..])))
  }

  lemma {:induction false} MergeLeftStep<T>(cf: (T, T) -> int, a: seq<T>, b: seq<T>)
    requires a != [] && b != []
    ensures MergeLeft(cf, a, b) == if cf(a[0], b[0]) <= 0 then [a[0]] + MergeLeft(cf, a[1..], b)
                                   else [b[0]] + MergeLeft(cf, a, b[1..])
  {
  }

  lemma {:induction false} MergeLeftRest<T>(cf: (T, T) -> int, a: seq<T>, b: seq<T>)
    requires a == [] || b == []
    ensures MergeLeft(cf, a, b) == a + b
  {
  }

  /** Turns the first n elements of a list round into another, empty one. */
  method MoveFront<T(!new)>(from: List<T>, to: List<T>, n: nat, ghost beside: List<T>)
    requires from.Valid() && to.Valid() && Apart(from, to) && n <= |from.items| && to.items == []
    requires beside.Valid() && Apart(from, beside) && Apart(beside, to)
    modifies from, from.rep, to, to.rep
    ensures from.Valid() && to.Valid() && Apart(from, to)
    ensures from.items == old(from.items[n..]) && to.items == old(Reversed(from.items[..n]))
    ensures from.rep + to.rep == old(from.rep + to.rep) && from.rep <= old(from.rep)
    ensures SameItems(old(from.rep + to.rep))
    ensures beside.Valid() && beside.items == old(beside.items) && beside.rep == old(beside.rep)
    ensures Apart(from, beside) && Apart(beside, to) && SameItems(old(beside.rep))
  {
    hide List.Valid, Apart, Reversed;
    ghost var was := from.items;
    ReversedEmpty<T>();
    for k := 0 to n
      invariant from.Valid() && to.Valid() && Apart(from, to)
      invariant from.items == was[k..] && to.items == Reversed(was[..k])
      invariant from.rep + to.rep == old(from.rep + to.rep) && from.rep <= old(from.rep)
      invariant SameItems(old(from.rep + to.rep))
      invariant beside.Valid() && beside.items == old(beside.items) && beside.rep == old(beside.rep)
      invariant Apart(from, beside) && Apart(beside, to) && SameItems(old(beside.rep))
    {
      ReversedSlice(was, 0, k + 1);
      Move(from, to, true, beside);
    }
  }

  /** Three lists that have nothing in common. */
  ghost predicate AllApart<T(!new)>(l: List<T>, a: List<T>, b: List<T>)
    reads l, a, b
  {
    Apart(l, a) && Apart(a, l) && Apart(l, b) && Apart(b, l) && Apart(a, b) && Apart(b, a)
  }

  /** The smaller front of the two lists is popped and goes to the back of l. */
  method MergeFront<T(!new)>(cf: (T, T) -> int, l: List<T>, a: List<T>, b: List<T>)
    requires l.Valid() && a.Valid() && b.Valid() && AllApart(l, a, b) && a.items != [] && b.items != []
    modifies l, l.rep, a, a.rep, b, b.rep
    ensures l.Valid() && a.Valid() && b.Valid() && AllApart(l, a, b)
    ensures l.items + MergeLeft(cf, a.items, b.items) == old(l.items + MergeLeft(cf, a.items, b.items))
    ensures |a.items| + |b.items| < old(|a.items| + |b.items|)
    ensures l.rep + a.rep + b.rep == old(l.rep + a.rep + b.rep) && a.rep <= old(a.rep) && b.rep <= old(b.rep)
    ensures SameItems(old(l.rep + a.rep + b.rep))
  {
    hide List.Valid, MergeLeft;
    MergeLeftStep(cf, a.items, b.items);
    if cf(a.Front().data.item, b.Front().data.item) <= 0 {
      Move(a, l, false, b);
    } else {
      Move(b, l, false, a);
    }
  }

  /** The element the iterator holds is popped and goes to the back of l. */
  method MoveLast<T(!new)>(from: List<T>, l: List<T>, last: Element<T>, it: Element<T>, ghost beside: List<T>)
    requires l.Valid() && from.Cursor(last, it) && Apart(from, l)
    requires beside.Valid() && Apart(from, beside) && Apart(beside, l)
    modifies l, l.rep, from, from.rep
    ensures l.Valid() && from.Valid() && from.Cursor(null, it) && Apart(from, l)
    ensures old(from.items) != [] && from.items == old(from.items)[1..]
    ensures l.items == old(l.items) + [old(from.items)[0]]
    ensures l.rep + from.rep == old(l.rep + from.rep) && from.rep <= old(from.rep)
    ensures SameItems(old(l.rep + from.rep))
    ensures beside.Valid() && beside.items == old(beside.items) && beside.rep == old(beside.rep)
    ensures Apart(from, beside) && Apart(beside, from) && Apart(beside, l) && SameItems(old(beside.rep))
  {
    hide IsRing;
    MoveElement(from, l, last, false);
  }

  /** One round of the iterator: the element it holds is moved, and the next one pulled. */
  method PullNext<T(!new)>(from: List<T>, l: List<T>, last: Node?<Slot<T>>, it: Element<T>, ghost beside: List<T>)
    returns (last': Element<T>, it': Element<T>)
    requires l.Valid() && from.Cursor(last, it) && Apart(from, l) && from.In(it)
    requires beside.Valid() && Apart(from, beside) && Apart(beside, l)
    modifies l, l.rep, from, from.rep
    ensures l.Valid() && from.Cursor(last', it') && Apart(from, l)
    ensures l.items + from.items == old(l.items + from.items)
    ensures |from.items| == old(|from.items|) - if last == null then 0 else 1
    ensures l.rep + from.rep == old(l.rep + from.rep) && from.rep <= old(from.rep)
    ensures SameItems(old(l.rep + from.rep))
    ensures beside.Valid() && beside.items == old(beside.items) && beside.rep == old(beside.rep)
    ensures Apart(from, beside) && Apart(beside, from) && Apart(beside, l) && SameItems(old(beside.rep))
  {
    hide List.Valid, List.Cursor, Apart;
    from.CursorIn(last, it);
    ApartIsMutual(from, beside);
    if last != null {
      MoveLast(from, l, last, it, beside);
    }
    last', it' := from.Pull(it);
  }

  /** l.ExtendE(from.IteratorPopFrontE()): the iterator pops an element only when it already holds the next one. */
  method ExtendPopped<T(!new)>(l: List<T>, from: List<T>, ghost beside: List<T>)
    requires l.Valid() && from.Valid() && Apart(from, l) && beside.Valid() && Apart(from, beside) && Apart(beside, l)
    modifies l, l.rep, from, from.rep
    ensures l.Valid() && from.Valid() && from.items == [] && Apart(from, l)
    ensures l.items == old(l.items + from.items)
    ensures l.rep + from.rep == old(l.rep + from.rep) && from.rep <= old(from.rep)
    ensures SameItems(old(l.rep + from.rep))
    ensures beside.Valid() && beside.items == old(beside.items) && beside.rep == old(beside.rep)
    ensures Apart(from, beside) && Apart(beside, from) && Apart(beside, l) && SameItems(old(beside.rep))
  {
    hide List.Valid, List.Cursor, Apart;
    var it := StartAt(from);
    var last: Node?<Slot<T>> := null;
    assert Apart(beside, from) by {
      ApartIsMutual(from, beside);
    }
    while from.In(it)
      invariant l.Valid() && from.Cursor(last, it) && Apart(from, l)
      invariant l.items + from.items == old(l.items + from.items)
      invariant l.rep + from.rep == old(l.rep + from.rep) && from.rep <= old(from.rep)
      invariant SameItems(old(l.rep + from.rep))
      invariant beside.Valid() && beside.items == old(beside.items) && beside.rep == old(beside.rep)
      invariant Apart(from, beside) && Apart(beside, from) && Apart(beside, l) && SameItems(old(beside.rep))
      decreases |from.items|, last == null
    {
      last, it := PullNext(from, l, last, it, beside);
    }
    from.CursorIn(last, it);
    if last != null {
      MoveLast(from, l, last, it, beside);
    }
  }

  /** The merge of two sorted halves into the emptied list. */
  method MergeBack<T(!new)>(cf: (T, T) -> int, l: List<T>, a: List<T>, b: List<T>)
    requires l.Valid() && a.Valid() && b.Valid() && AllApart(l, a, b) && l.items == []
    modifies l, l.rep, a, a.rep, b, b.rep
    ensures l.Valid() && a.Valid() && b.Valid() && AllApart(l, a, b) && a.items == b.items == []
    ensures l.items == old(MergeLeft(cf, a.items, b.items))
    ensures l.rep + a.rep + b.rep == old(l.rep + a.rep + b.rep) && a.rep <= old(a.rep) && b.rep <= old(b.rep)
    ensures SameItems(old(l.rep + a.rep + b.rep))
  {
    hide List.Valid, AllApart, Apart, MergeLeft;
    ghost var merged := MergeLeft(cf, a.items, b.items);
    assert merged == l.items + merged;
    while a.Size() > 0 && b.Size() > 0
      invariant l.Valid() && a.Valid() && b.Valid() && AllApart(l, a, b)
      invariant l.items + MergeLeft(cf, a.items, b.items) == merged
      invariant l.rep + a.rep + b.rep == old(l.rep + a.rep + b.rep) && a.rep <= old(a.rep) && b.rep <= old(b.rep)
      invariant SameItems(old(l.rep + a.rep + b.rep))
      decreases |a.items| + |b.items|
    {
      MergeFront(cf, l, a, b);
    }
    MergeLeftRest(cf, a.items, b.items);
    ApartPairs(l, a, b);
    ExtendPopped(l, a, b);
    ExtendPopped(l, b, a);
    AllApartFrom(l, a, b);
  }

  lemma {:induction false} ApartPairs<T(!new)>(l: List<T>, a: List<T>, b: List<T>)
    requires AllApart(l, a, b)
    ensures Apart(l, a) && Apart(a, l) && Apart(l, b) && Apart(b, l) && Apart(a, b) && Apart(b, a)
  {
  }

  lemma {:induction false} AllApartFrom<T(!new)>(l: List<T>, a: List<T>, b: List<T>)
    requires Apart(a, l) && Apart(b, l) && Apart(b, a)
    ensures AllApart(l, a, b)
  {
  }

  method StartAt<T(!new)>(from: List<T>) returns (it: Element<T>)
    requires from.Valid()
    ensures from.Cursor(null, it)
  {
    it := from.Front();
  }

  /** The front half is turned round into one list and the rest into the other. */
  method SplitHalves<T(!new)>(l: List<T>, left: List<T>, right: List<T>)
    requires l.Valid() && left.Valid() && right.Valid() && AllApart(l, left, right)
    requires left.items == right.items == [] && |l.items| >= 2
    modifies l, l.rep, left, left.rep, right, right.rep
    ensures l.Valid() && left.Valid() && right.Valid() && AllApart(l, left, right)
    ensures l.items == [] && left.items == old(Reversed(l.items[..|l.items| / 2]))
    ensures right.items == old(Reversed(l.items[|l.items| / 2..]))
    ensures l.rep + left.rep + right.rep == old(l.rep + left.rep + right.rep)
    ensures left.rep <= old(l.rep + left.rep) && right.rep <= old(l.rep + right.rep)
    ensures SameItems(old(l.rep + left.rep + right.rep))
  {
    hide List.Valid, Apart, AllApart, Reversed;
    ApartPairs(l, left, right);
    ghost var rest := l.items[|l.items| / 2..];
    MoveFront(l, left, l.Size() / 2, right);
    ApartIsMutual(right, left);
    ApartIsMutual(l, left);
    assert l.items[..|l.items|] == rest;
    MoveFront(l, right, l.Size(), left);
    ApartIsMutual(l, left);
    ApartIsMutual(l, right);
    ApartIsMutual(left, right);
    AllApartFrom(l, left, right);
  }

  /** Sorting one of three lists leaves the others as they are. */
  method SortBeside<T(!new)>(l: List<T>, cf: (T, T) -> int, ghost m: List<T>, ghost n: List<T>)
    requires l.Valid() && m.Valid() && n.Valid() && AllApart(m, l, n)
    modifies l, l.rep
    ensures l.Valid() && m.Valid() && n.Valid() && AllApart(m, l, n)
    ensures l.items == old(MergeSorted(cf, l.items)) && l.rep == old(l.rep) && SameItems(old(l.rep))
    ensures m.items == old(m.items) && m.rep == old(m.rep) && SameItems(old(m.rep))
    ensures n.items == old(n.items) && n.rep == old(n.rep) && SameItems(old(n.rep))
    decreases |l.items|, 2
  {
    hide IsRing, MergeSorted;
    SortMerge(l, cf);
  }

  method SortBoth<T(!new)>(a: List<T>, b: List<T>, cf: (T, T) -> int, ghost l: List<T>)
    requires l.Valid() && a.Valid() && b.Valid() && AllApart(l, a, b) && a.items != [] && b.items != []
    modifies a, a.rep, b, b.rep
    ensures l.Valid() && a.Valid() && b.Valid() && AllApart(l, a, b)
    ensures a.items == old(MergeSorted(cf, a.items)) && b.items == old(MergeSorted(cf, b.items))
    ensures a.rep == old(a.rep) && b.rep == old(b.rep) && l.items == old(l.items) && l.rep == old(l.rep)
    ensures SameItems(old(l.rep + a.rep + b.rep))
    decreases |a.items| + |b.items|, 0
  {
    hide List.Valid, AllApart, Apart, MergeSorted;
    SortBeside(a, cf, l, b);
    AllApartTurned(l, a, b);
    SortBeside(b, cf, l, a);
    AllApartTurned(l, b, a);
  }

  /** Both halves go into lists of their own, are sorted, and are merged back: the same elements, each with its item. */
  method SortMerge<T(!new)>(l: List<T>, cf: (T, T) -> int)
    requires l.Valid()
    modifies l, l.rep
    ensures l.Valid() && l.items == old(MergeSorted(cf, l.items))
    ensures l.rep == old(l.rep) && SameItems(old(l.rep))
    decreases |l.items|, 1
  {
    hide List.Valid, AllApart, Apart, MergeLeft;
    if l.Size() <= 1 {
      return;
    }
    var left, right := NewHalves(l);
    HeadsDiffer(l, left, right);
    ghost var heads := left.rep + right.rep;
    SplitHalves(l, left, right);
    SortBoth(left, right, cf, l);
    MergeBack(cf, l, left, right);
    OnlyHead(left);
    OnlyHead(right);
    HeadsDiffer(l, left, right);
    SameRest(old(l.rep), l.rep, heads);
  }

  lemma {:induction false} SameRest<A>(s: set<A>, t: set<A>, u: set<A>)
    requires s + u == t + u && s !! u && t !! u
    ensures s == t
  {
    assert s == (s + u) - u && t == (t + u) - u;
  }

  lemma {:induction false} AllApartTurned<T(!new)>(l: List<T>, a: List<T>, b: List<T>)
    requires AllApart(l, a, b)
    ensures AllApart(l, b, a)
  {
  }

  lemma {:induction false} HeadsDiffer<T(!new)>(l: List<T>, a: List<T>, b: List<T>)
    requires AllApart(l, a, b)
    ensures l.rep !! a.rep + b.rep
  {
  }

  method NewHalves<T(!new)>(l: List<T>) returns (left: List<T>, right: List<T>)
    requires l.Valid()
    ensures left.Valid() && right.Valid() && left.items == right.items == [] && AllApart(l, left, right)
    ensures fresh(left) && fresh(right) && fresh(left.rep) && fresh(right.rep)
    ensures left.rep == {left.head} && right.rep == {right.head}
  {
    left := new List(l.zero);
    right := new List(l.zero);
  }

  lemma {:induction false} OnlyHead<T(!new)>(l: List<T>)
    requires l.Valid() && l.items == []
    ensures l.rep == {l.head}
  {
  }

  // ---------------------------------------------------------------- what the merge sort computes

  /** With its arguments the other way round this is the merge of package dt. */
  lemma {:induction false} MergeLeftIsMerge<T(!new)>(cf: (T, T) -> int, a: seq<T>, b: seq<T>)
    requires TotalPreorder(cf)
    ensures MergeLeft(cf, a, b) == Merge(cf, b, a)
    decreases |a| + |b|
  {
    if a != [] && b != [] {
      MergeLeftIsMerge(cf, a[1..], b);
      MergeLeftIsMerge(cf, a, b[1..]);
    }
  }

  lemma {:induction false} MergeLeftPermutes<T>(cf: (T, T) -> int, a: seq<T>, b: seq<T>)
    ensures multiset(MergeLeft(cf, a, b)) == multiset(a + b)
    decreases |a| + |b|
  {
    hide MergeLeft;
    if a == [] || b == [] {
      MergeLeftRest(cf, a, b);
      return;
    }
    MergeLeftStep(cf, a, b);
    if cf(a[0], b[0]) <= 0 {
      MergeLeftPermutes(cf, a[1..], b);
      assert a + b == [a[0]] + (a[1..] + b);
    } else {
      MergeLeftPermutes(cf, a, b[1..]);
      assert a == [a[0]] + a[1..] && b == [b[0]] + b[1..];
    }
  }

  lemma {:induction false} ReversedPermutes<T>(s: seq<T>)
    ensures multiset(Reversed(s)) == multiset(s)
  {
    if s != [] {
      ReversedPermutes(s[..|s| - 1]);
      assert s == s[..|s| - 1] + [s[|s| - 1]];
    }
  }

  /** It permutes, whatever the comparison function. */
  lemma {:induction false} MergePermutes<T>(cf: (T, T) -> int, s: seq<T>)
    ensures multiset(MergeSorted(cf, s)) == multiset(s)
    decreases |s|
  {
    hide MergeLeft, Reversed;
    if |s| > 1 {
      var h := |s| / 2;
      var (left, right) := (Reversed(s[..h]), Reversed(s[h..]));
      MergePermutes(cf, left);
      MergePermutes(cf, right);
      MergeLeftPermutes(cf, MergeSorted(cf, left), MergeSorted(cf, right));
      ReversedPermutes(s[..h]);
      ReversedPermutes(s[h..]);
      assert s == s[..h] + s[h..];
    }
  }

  /** It sorts. */
  lemma {:induction false} MergeSorts<T(!new)>(cf: (T, T) -> int, s: seq<T>)
    requires TotalPreorder(cf)
    ensures Sorted(cf, MergeSorted(cf, s)) && multiset(MergeSorted(cf, s)) == multiset(s)
    decreases |s|
  {
    hide TotalPreorder, Sorted, MergeLeft, Merge, Reversed;
    MergePermutes(cf, s);
    if |s| <= 1 {
      SortedShort(cf, s);
    } else {
      var h := |s| / 2;
      var (left, right) := (Reversed(s[..h]), Reversed(s[h..]));
      MergeSorts(cf, left);
      MergeSorts(cf, right);
      MergeLeftIsMerge(cf, MergeSorted(cf, left), MergeSorted(cf, right));
      MergeIsSorted(cf, MergeSorted(cf, right), MergeSorted(cf, left));
    }
  }

  lemma {:induction false} SortedShort<T>(cf: (T, T) -> int, s: seq<T>)
    requires |s| <= 1
    ensures Sorted(cf, s)
  {
  }

  /** It is not always stable: four values that compare equal come out as second, first, fourth, third. */
  lemma {:induction false} MergeSortIsNotStable()
    ensures var equal := (x: int, y: int) => 0;
            && TotalPreorder(equal) && MergeSorted(equal, [1, 2, 3, 4]) == [2, 1, 4, 3]
            && !IsStableSort(equal, [1, 2, 3, 4], MergeSorted(equal, [1, 2, 3, 4]))
  {
    hide Sorted, MergeSorted, Class;
    var equal := (x: int, y: int) => 0;
    FourEqual(equal);
    ClassNext(equal, [1, 2, 3, 4], 0);
    ClassNext(equal, [2, 1, 4, 3], 0);
    assert Class(equal, [1, 2, 3, 4], 0)[0] == 1 && Class(equal, [2, 1, 4, 3], 0)[0] == 2;
  }

  lemma {:induction false} FourEqual(cf: (int, int) -> int)
    requires forall x, y :: cf(x, y) == 0
    ensures MergeSorted(cf, [1, 2, 3, 4]) == [2, 1, 4, 3]
  {
    hide MergeLeft;
    var s := [1, 2, 3, 4];
    assert s[..2] == [1, 2] && s[2..] == [3, 4];
    assert Reversed([1, 2]) == [2, 1] && Reversed([3, 4]) == [4, 3];
    EqualPairStays(cf, 2, 1);
    EqualPairStays(cf, 4, 3);
    MergeLeftStep(cf, [2, 1], [4, 3]);
    assert [2, 1][1..] == [1] && [1][1..] == [];
    MergeLeftStep(cf, [1], [4, 3]);
    MergeLeftRest(cf, [], [4, 3]);
  }

  lemma {:induction false} EqualPairStays(cf: (int, int) -> int, x: int, y: int)
    requires cf(x, y) == 0
    ensures MergeSorted(cf, [x, y]) == [x, y]
  {
    assert [x, y][..1] == [x] && [x, y][1..] == [y];
    assert Reversed([x]) == [x] && Reversed([y]) == [y];
    MergeLeftStep(cf, [x], [y]);
    assert MergeLeft(cf, [], [y]) == [y] && [x][1..] == [];
  }

  // ---------------------------------------------------------------- quick sort

  /** Distinct elements that are in no list and hold the given values. */
  ghost predicate Loose<T(!new)>(elems: seq<Element<T>>, vals: seq<T>)
    reads elems
  {
    && |elems| == |vals| && Distinct(elems)
    && forall i :: 0 <= i < |elems| ==> elems[i].data == Slot(null, vals[i], false)
  }

  lemma {:induction false} LooseWith<T(!new)>(elems: seq<Element<T>>, vals: seq<T>, k: nat, e: Element<T>, v: T)
    requires Loose(elems, vals) && k <= |elems| && e !in elems && e.data == Slot(null, v, false)
    ensures Loose(Inserted(elems, k, e), Inserted(vals, k, v))
    ensures Members(Inserted(elems, k, e)) == Members(elems) + {e}
  {
    InsertedMembers(elems, k, e);
  }

  /** slices.SortFunc over elements: sorted, and the same elements. Nothing is promised about ties. Callers rely on
      the contract alone; the body is one way to meet it. */
  method SortFunc<T(!new)>(elems: seq<Element<T>>, ghost vals: seq<T>, cf: (T, T) -> int)
    returns (sorted: seq<Element<T>>, ghost order: seq<T>)
    requires TotalPreorder(cf) && Loose(elems, vals)
    ensures Loose(sorted, order) && Members(sorted) == Members(elems)
    ensures Sorted(cf, order) && multiset(order) == multiset(vals)
  {
    hide TotalPreorder, HeapSorted;
    sorted, order := [], HeapSorted(cf, []);
    HeapEmpty(cf);
    for j := 0 to |elems|
      invariant Loose(sorted, order) && order == HeapSorted(cf, vals[..j]) && Members(sorted) == Members(elems[..j])
    {
      var k := InsertIndex(cf, sorted, order, elems[j].data.item);
      HeapPush(cf, vals[..j], vals[j]);
      assert vals[..j + 1] == vals[..j] + [vals[j]];
      assert elems[..j + 1] == elems[..j] + [elems[j]];
      assert elems[j] !in Members(elems[..j]);
      LooseWith(sorted, order, k, elems[j], vals[j]);
      sorted, order := sorted[..k] + [elems[j]] + sorted[k..], Inserted(order, k, vals[j]);
    }
    assert vals[..|elems|] == vals && elems[..|elems|] == elems;
    HeapSortIsStable(cf, vals);
    HeapSortPermutes(cf, vals);
  }

  method InsertIndex<T(!new)>(cf: (T, T) -> int, elems: seq<Element<T>>, ghost vals: seq<T>, t: T) returns (k: nat)
    requires Loose(elems, vals)
    ensures k == InsertAt(cf, vals, t)
  {
    k := |elems|;
    while k > 0 && cf(t, elems[k - 1].data.item) < 0
      invariant k <= |elems| && forall i :: k <= i < |vals| ==> cf(t, vals[i]) < 0
    {
      k := k - 1;
    }
  }

  method CollectLast<T(!new)>(l: List<T>, elems: seq<Element<T>>, ghost vals: seq<T>, last: Element<T>, it: Element<T>)
    returns (elems': seq<Element<T>>, ghost vals': seq<T>)
    requires l.Cursor(last, it) && Loose(elems, vals) && l.rep !! Members(elems)
    modifies l, l.rep
    ensures l.Valid() && l.Cursor(null, it) && Loose(elems', vals') && l.rep !! Members(elems')
    ensures old(l.items) != [] && l.items == old(l.items)[1..] && vals' == vals + [old(l.items)[0]]
    ensures l.rep + Members(elems') == old(l.rep) + Members(elems) && SameItems(old(l.rep))
  {
    hide IsRing;
    InsertedMembers(elems, |elems|, last);
    assert elems + [last] == Inserted(elems, |elems|, last);
    l.PopElement(last, 1);
    elems', vals' := elems + [last], vals + [old(l.items)[0]];
  }

  /** The elements as a slice, popped one behind the iterator. */
  method Collect<T(!new)>(l: List<T>) returns (elems: seq<Element<T>>)
    requires l.Valid()
    modifies l, l.rep
    ensures l.Valid() && l.items == [] && Loose(elems, old(l.items))
    ensures l.rep !! Members(elems) && l.rep + Members(elems) == old(l.rep) && SameItems(old(l.rep))
  {
    hide List.Valid, List.Cursor, Loose;
    elems := [];
    ghost var vals := [];
    NoneLoose<T>();
    var it := StartAt(l);
    var last: Node?<Slot<T>> := null;
    while l.In(it)
      invariant l.Cursor(last, it) && Loose(elems, vals) && vals + l.items == old(l.items)
      invariant l.rep !! Members(elems) && l.rep + Members(elems) == old(l.rep) && SameItems(old(l.rep))
      decreases |l.items|, last == null
    {
      l.CursorIn(last, it);
      if last != null {
        elems, vals := CollectLast(l, elems, vals, last, it);
      }
      last, it := l.Pull(it);
    }
    l.CursorIn(last, it);
    if last != null {
      elems, vals := CollectLast(l, elems, vals, last, it);
    }
    assert vals == old(l.items);
  }

  lemma {:induction false} NoneLoose<T(!new)>()
    ensures Loose<T>([], [])
  {
  }

  method PutBack<T(!new)>(l: List<T>, elems: seq<Element<T>>, ghost vals: seq<T>)
    requires l.Valid() && l.items == [] && Loose(elems, vals) && l.rep !! Members(elems)
    modifies l, l.rep, Members(elems)
    ensures l.Valid() && l.items == vals && l.rep == old(l.rep) + Members(elems)
    ensures SameItems(old(l.rep + Members(elems)))
  {
    hide List.Valid;
    for i := 0 to |elems|
      invariant l.Valid() && l.items == vals[..i] && l.rep == old(l.rep) + Members(elems[..i])
      invariant forall j :: i <= j < |elems| ==> elems[j].data == Slot(null, vals[j], false) && elems[j] !in l.rep
      invariant SameItems(old(l.rep + Members(elems)))
    {
      assert elems[..i + 1] == Inserted(elems[..i], i, elems[i]);
      InsertedMembers(elems[..i], i, elems[i]);
      l.PushBackE(elems[i]);
    }
    assert elems[..|elems|] == elems;
  }

  /** The elements are taken out, sorted, and put back: the same elements, each with its item, in sorted order. */
  method SortQuick<T(!new)>(l: List<T>, cf: (T, T) -> int)
    requires l.Valid() && TotalPreorder(cf)
    modifies l, l.rep
    ensures l.Valid() && IsSort(cf, old(l.items), l.items)
    ensures NoTies(cf, old(l.items)) ==> IsStableSort(cf, old(l.items), l.items)
    ensures l.rep == old(l.rep) && SameItems(old(l.rep))
  {
    hide List.Valid, Loose, TotalPreorder, Sorted, IsStableSort, NoTies;
    if l.Size() <= 1 {
      SortedShort(cf, l.items);
    } else {
      var elems := Collect(l);
      ghost var order := old(l.items);
      elems, order := SortFunc(elems, order, cf);
      PutBack(l, elems, order);
    }
    if NoTies(cf, old(l.items)) {
      NoTiesIsStable(cf, old(l.items), l.items);
    }
  }
}
