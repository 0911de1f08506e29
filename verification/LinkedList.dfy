/** The list of package dt: a ring of elements through a root, its merge sort and its quick sort, and the heap that
    keeps such a list sorted. */
module LinkedList {
  import opened Links
  import opened Sorting
  import opened Wrappers

  /** What an element carries: the list it says it belongs to, and a value unless it is the root or empty. */
  datatype Payload<T(!new)> = Payload(list: List?<T>, item: Option<T>)

  type Element<T(!new)> = Node<Payload<T>>

  /** The length is kept behind a pointer, which list objects share after a merge sort. */
  class Meta {
    var length: nat

    constructor ()
      ensures length == 0
    {
      length := 0;
    }
  }

  method NewElement<T(!new)>(v: T) returns (e: Element<T>)
    ensures fresh(e) && e.data == Payload(null, Some(v))
  {
    e := new Node(Payload(null, Some(v)));
  }

  class List<T(!new)> {
    var head: Element<T>
    var meta: Meta
    ghost var owner: List<T>            // the list object that the elements point at
    ghost var nodes: seq<Element<T>>    // the ring, root first
    ghost var items: seq<T>
    ghost var rep: set<Element<T>>      // the elements of the ring

    ghost predicate Valid()
      reads this, owner`head, owner`meta, meta, rep
    {
      && (forall i :: 0 <= i < |nodes| ==> nodes[i] in rep)
      && IsRing(nodes) && nodes[0] == head && |nodes| == |items| + 1
      && meta.length == |items|
      && owner.head == head && owner.meta == meta
      && head.data == Payload(owner, None)
      && (forall i :: 0 < i < |nodes| ==> nodes[i].data == Payload(owner, Some(items[i - 1])))
    }

    constructor ()
      ensures Valid() && items == [] && owner == this && fresh(head) && fresh(meta) && nodes == [head] && rep == {head}
    {
      var h := new Node<Payload<T>>(Payload(null, None));
      var m := new Meta();
      h.next, h.prev := h, h;
      head, meta, owner, nodes, items, rep := h, m, this, [h], [], {h};
      new;
      h.data := Payload(this, None);
    }

    function Len(): (n: nat)
      requires Valid()
      reads this, owner`head, owner`meta, meta, rep
      ensures n == |items|
    {
      meta.length
    }

    /** Membership, as the element sees it. */
    predicate Has(e: Element<T>)
      reads e
    {
      e.data.list == this
    }

    method UncheckedAppend(e: Element<T>, val: Element<T>, ghost k: nat)
      requires Valid() && k < |nodes| && e == nodes[k] && val !in nodes && val.data.item.Some?
      modifies `nodes, `items, `rep, meta, rep`next, rep`prev, val
      ensures Valid() && val.data.item == old(val.data.item)
      ensures nodes == old(Inserted(nodes, k + 1, val)) && items == old(Inserted(items, k, val.data.item.value))
      ensures rep == old(rep) + {val}
    {
      hide IsRing;
      e.data.list.meta.length := e.data.list.meta.length + 1;
      val.data := Payload(e.data.list, val.data.item);
      Attach(val, e, nodes, k);
      ghost var was := nodes;
      nodes, items, rep := Inserted(nodes, k + 1, val), Inserted(items, k, val.data.item.value), rep + {val};
      forall i | 0 <= i < |nodes|
        ensures nodes[i] in rep && (i > 0 ==> nodes[i].data == Payload(owner, Some(items[i - 1])))
      {
        assert nodes[i] == if i <= k then was[i] else if i == k + 1 then val else was[i - 1];
      }
    }

    method UncheckedRemove(it: Element<T>, ghost k: nat)
      requires Valid() && 0 < k < |nodes| && it == nodes[k]
      modifies `nodes, `items, `rep, meta, rep
      ensures Valid() && it.data == Payload(null, Some(old(items[k - 1])))
      ensures nodes == old(Without(nodes, k)) && items == old(Without(items, k - 1)) && rep == old(rep) - {it}
    {
      hide IsRing;
      it.data.list.meta.length := it.data.list.meta.length - 1;
      Detach(it, nodes, k);
      ghost var was := nodes;
      nodes, items, rep := Without(nodes, k), Without(items, k - 1), rep - {it};
      forall i | 0 <= i < |nodes|
        ensures nodes[i] in rep && (i > 0 ==> nodes[i].data == Payload(owner, Some(items[i - 1])))
      {
        assert nodes[i] == was[if i < k then i else i + 1];
      }
      it.data := Payload(null, it.data.item);
    }

    /** e.Append(val) for the k-th element e: only a detached element that holds a value is linked in. */
    method Append(e: Element<T>, val: Element<T>, ghost k: nat)
      requires Valid() && k < |nodes| && e == nodes[k]
      modifies `nodes, `items, `rep, meta, rep`next, rep`prev, val
      ensures Valid()
      ensures val.data.item == old(val.data.item)
      ensures if old(val.data.list == null && val.data.item.Some?)
              then nodes == old(Inserted(nodes, k + 1, val)) && items == old(Inserted(items, k, val.data.item.value))
              else nodes == old(nodes) && items == old(items) && val.data == old(val.data)
      ensures rep == if old(val.data.list == null && val.data.item.Some?) then old(rep) + {val} else old(rep)
    {
      if val.data.item.Some? && e.data.list != null && val.data.list == null {
        UncheckedAppend(e, val, k);
      }
    }

    /** l.pop: an element that is not a removable member of this list is answered by an empty one. */
    method PopElement(it: Element<T>, ghost k: nat) returns (r: Element<T>)
      requires Valid() && k < |nodes| && it == nodes[k]
      modifies `nodes, `items, `rep, meta, rep
      ensures Valid()
      ensures k == 0 ==> fresh(r) && r.data == Payload(null, None) && nodes == old(nodes) && items == old(items)
      ensures k > 0 ==> r == it && r.data == Payload(null, Some(old(items[k - 1])))
      ensures k > 0 ==> nodes == old(Without(nodes, k)) && items == old(Without(items, k - 1))
      ensures rep == if k > 0 then old(rep) - {r} else old(rep)
    {
      if it.data.list == null || it.data.list.head == it || it.data.list.meta.length == 0 || it.data.list.head != head {
        r := new Node(Payload(null, None));
        return;
      }
      UncheckedRemove(it, k);
      r := it;
    }

    function Front(): (e: Element<T>)
      requires Valid()
      reads this, owner`head, owner`meta, meta, rep
      ensures e == if items == [] then head else nodes[1]
      ensures items != [] ==> e.data.item == Some(items[0])
    {
      head.next
    }

    function Back(): (e: Element<T>)
      requires Valid()
      reads this, owner`head, owner`meta, meta, rep
      ensures e == nodes[|items|]
    {
      head.prev
    }

    function Next(e: Element<T>, ghost k: nat): (n: Element<T>)
      requires Valid() && k < |nodes| && e == nodes[k]
      reads this, owner`head, owner`meta, meta, rep
      ensures n == if k == |items| then head else nodes[k + 1]
    {
      e.next
    }

    method PopFront() returns (r: Element<T>)
      requires Valid()
      modifies `nodes, `items, `rep, meta, rep
      ensures Valid()
      ensures old(items) == [] ==> fresh(r) && r.data == Payload(null, None) && nodes == old(nodes) && items == []
      ensures old(items) != [] ==> r == old(nodes[1]) && r.data == Payload(null, Some(old(items[0]))) && r in old(rep)
      ensures old(items) != [] ==> nodes == old(Without(nodes, 1)) && items == old(items[1..])
      ensures rep == old(rep) - {r}
    {
      r := PopElement(Front(), if |items| == 0 then 0 else 1);
    }

    /** l.Back().Append(val) */
    method AppendBack(val: Element<T>)
      requires Valid() && val.data.list == null && val.data.item.Some?
      modifies `nodes, `items, `rep, meta, rep`next, rep`prev, val
      ensures Valid() && items == old(items + [val.data.item.value]) && rep == old(rep) + {val}
    {
      Append(Back(), val, |items|);
    }

    method PushBack(v: T)
      requires Valid()
      modifies `nodes, `items, `rep, meta, rep`next, rep`prev
      ensures Valid() && items == old(items) + [v]
      ensures fresh(rep - old(rep))
    {
      var e := NewElement(v);
      AppendBack(e);
    }

    method PushFront(v: T)
      requires Valid()
      modifies `nodes, `items, `rep, meta, rep`next, rep`prev
      ensures Valid() && items == [v] + old(items) && fresh(rep - old(rep))
    {
      var e := NewElement(v);
      Append(head, e, 0);
    }

    /** The list object takes over the root and the length of the sorted list. Its elements keep pointing at the list
        object that the merge made, so they no longer see themselves as members of this one. */
    method SortMerge(cf: (T, T) -> int)
      requires Valid()
      modifies this, meta, rep
      ensures Valid() && items == old(MergeSorted(cf, items))
      ensures old(|items|) >= 2 ==> forall i :: 0 <= i < |nodes| ==> !Has(nodes[i])
      ensures old(|items|) < 2 ==> owner == old(owner) && nodes == old(nodes)
      ensures fresh(rep - old(rep))
    {
      hide IsRing, MergeSorted;
      var r := MergeSort(this, cf);
      if r == this {
        return;   // assigning the list to itself changes nothing
      }
      head, meta, owner, nodes, items, rep := r.head, r.meta, r.owner, r.nodes, r.items, r.rep;
    }

    /** Every element out, in order. */
    method TakeAll() returns (elems: seq<Element<T>>)
      requires Valid()
      modifies `nodes, `items, `rep, meta, rep
      ensures Valid() && items == [] && Loose(elems, old(items))
      ensures forall i :: 0 <= i < |elems| ==> elems[i] in old(rep) && elems[i] !in rep
      ensures rep <= old(rep) && forall n :: n in old(rep) ==> n in rep || n in elems
    {
      hide Valid;
      elems := [];
      ghost var vals := [];
      while Len() > 0
        invariant Valid() && Loose(elems, vals) && vals + items == old(items)
        invariant forall i :: 0 <= i < |elems| ==> elems[i] in old(rep) && elems[i] !in rep
        invariant rep <= old(rep) && forall n :: n in old(rep) ==> n in rep || n in elems
        decreases |items|
      {
        vals := vals + [items[0]];
        var e := PopFront();
        elems := elems + [e];
      }
    }

    /** Elements without a list, appended in order. */
    method PutBack(elems: seq<Element<T>>, ghost vals: seq<T>)
      requires Valid() && items == [] && Loose(elems, vals) && forall i :: 0 <= i < |elems| ==> elems[i] !in rep
      modifies `nodes, `items, `rep, meta, rep`next, rep`prev, elems
      ensures Valid() && items == vals
      ensures forall n :: n in rep <==> n in old(rep) || n in elems
    {
      hide Valid;
      for idx := 0 to |elems|
        invariant Valid() && items == vals[..idx]
        invariant forall i :: idx <= i < |elems| ==> elems[i].data == Payload(null, Some(vals[i])) && elems[i] !in rep
        invariant forall n :: n in rep <==> n in old(rep) || n in elems[..idx]
      {
        AppendBack(elems[idx]);
      }
    }

    /** The elements are taken out, sorted as a slice, and put back: the same elements, and still members. */
    method SortQuick(cf: (T, T) -> int)
      requires Valid() && TotalPreorder(cf)
      modifies `nodes, `items, `rep, meta, rep
      ensures Valid() && items == old(MergeSorted(cf, items))
      ensures rep == old(rep) && owner == old(owner)
    {
      var elems := TakeAll();
      ghost var was := old(items);
      var sorted, order := SortStableFunc(elems, was, cf);
      forall i | 0 <= i < |sorted|
        ensures sorted[i] in old(rep) && sorted[i] !in rep
      {
        assert sorted[i] in elems;
      }
      PutBack(sorted, order);
      ThreeSortsAgree(cf, was, order);
    }
  }

  /** Distinct elements that belong to no list and hold the given values. */
  ghost predicate Loose<T(!new)>(elems: seq<Element<T>>, vals: seq<T>)
    reads elems
  {
    && |elems| == |vals| && Distinct(elems)
    && forall i :: 0 <= i < |elems| ==> elems[i].data == Payload(null, Some(vals[i]))
  }

  lemma {:induction false} LooseWith<T(!new)>(elems: seq<Element<T>>, vals: seq<T>, k: nat, e: Element<T>, v: T)
    requires Loose(elems, vals) && k <= |elems| && e !in elems && e.data == Payload(null, Some(v))
    ensures Loose(Inserted(elems, k, e), Inserted(vals, k, v))
    ensures forall n :: n in Inserted(elems, k, e) <==> n in elems || n == e
  {
    var r := Inserted(elems, k, e);
    forall n
      ensures n in r <==> n in elems || n == e
    {
      assert elems == elems[..k] + elems[k..];
    }
  }

  /** slices.SortStableFunc over elements, comparing what they hold. Callers rely on its contract alone; the body is
      one way to meet it. */
  method SortStableFunc<T(!new)>(elems: seq<Element<T>>, ghost vals: seq<T>, cf: (T, T) -> int)
    returns (sorted: seq<Element<T>>, ghost order: seq<T>)
    requires TotalPreorder(cf) && Loose(elems, vals)
    ensures Loose(sorted, order) && IsStableSort(cf, vals, order)
    ensures forall n :: n in sorted <==> n in elems
  {
    hide TotalPreorder, IsStableSort, HeapSorted;
    sorted, order := [], HeapSorted(cf, []);
    HeapEmpty(cf);
    for j := 0 to |elems|
      invariant Loose(sorted, order) && order == HeapSorted(cf, vals[..j])
      invariant forall n :: n in sorted <==> n in elems[..j]
    {
      var k := InsertIndex(cf, sorted, order, elems[j].data.item.value);
      HeapPush(cf, vals[..j], vals[j]);
      assert vals[..j + 1] == vals[..j] + [vals[j]];
      assert elems[..j + 1] == elems[..j] + [elems[j]];
      LooseWith(sorted, order, k, elems[j], vals[j]);
      sorted, order := sorted[..k] + [elems[j]] + sorted[k..], Inserted(order, k, vals[j]);
    }
    assert vals[..|elems|] == vals;
    HeapSortIsStable(cf, vals);
  }

  method InsertIndex<T(!new)>(cf: (T, T) -> int, elems: seq<Element<T>>, ghost vals: seq<T>, t: T) returns (k: nat)
    requires Loose(elems, vals)
    ensures k == InsertAt(cf, vals, t)
  {
    k := |elems|;
    while k > 0 && cf(t, elems[k - 1].data.item.value) < 0
      invariant k <= |elems| && forall i :: k <= i < |vals| ==> cf(t, vals[i]) < 0
    {
      k := k - 1;
    }
  }

  // ---------------------------------------------------------------- sorting

  /** Two lists that share nothing that changes. */
  ghost predicate Apart<T(!new)>(a: List<T>, b: List<T>)
    reads a, b
  {
    a != b && a.meta != b.meta && a.rep !! b.rep
  }

  lemma {:induction false} ApartIsMutual<T(!new)>(a: List<T>, b: List<T>)
    requires Apart(a, b)
    ensures Apart(b, a)
  {
  }

  /** out.Back().Append(from.PopFront()) */
  method Take<T(!new)>(from: List<T>, out: List<T>)
    requires from.Valid() && out.Valid() && Apart(from, out) && from.items != []
    modifies from`nodes, from`items, from`rep, from.meta, from.rep
    modifies out`nodes, out`items, out`rep, out.meta, out.rep`next, out.rep`prev
    ensures from.Valid() && out.Valid() && Apart(from, out)
    ensures from.items == old(from.items)[1..] && out.items == old(out.items) + [old(from.items)[0]]
    ensures from.rep <= old(from.rep)
    ensures out.rep <= old(out.rep + from.rep)
  {
    hide IsRing;
    var e := from.PopFront();
    out.AppendBack(e);
  }

  /** The same, and a third list stays as it is. */
  method TakeBeside<T(!new)>(from: List<T>, out: List<T>, ghost beside: List<T>)
    requires from.Valid() && out.Valid() && Apart(from, out) && from.items != []
    requires beside.Valid() && Apart(from, beside) && Apart(beside, out)
    modifies from`nodes, from`items, from`rep, from.meta, from.rep
    modifies out`nodes, out`items, out`rep, out.meta, out.rep`next, out.rep`prev
    ensures from.Valid() && out.Valid() && Apart(from, out)
    ensures beside.Valid() && beside.items == old(beside.items)
    ensures Apart(from, beside) && Apart(beside, from) && Apart(beside, out)
    ensures from.items == old(from.items)[1..] && out.items == old(out.items) + [old(from.items)[0]]
    ensures from.rep <= old(from.rep)
    ensures out.rep <= old(out.rep + from.rep)
  {
    Take(from, out);
  }

  method NewListApart<T(!new)>(a: List<T>, b: List<T>) returns (out: List<T>)
    requires a.Valid() && b.Valid()
    ensures out.Valid() && out.items == [] && Apart(a, out) && Apart(b, out)
    ensures fresh(out) && fresh(out.meta) && fresh(out.owner) && fresh(out.rep)
  {
    out := new List();
  }

  /** The front half, the larger one, is moved off into a list of its own. */
  method Split<T(!new)>(list: List<T>) returns (out: List<T>)
    requires list.Valid()
    modifies list`nodes, list`items, list`rep, list.meta, list.rep
    ensures list.Valid() && out.Valid() && Apart(list, out) && fresh(out) && fresh(out.meta)
    ensures out.items == old(list.items[..Half(|list.items|)]) && list.items == old(list.items[Half(|list.items|)..])
    ensures list.rep <= old(list.rep)
    ensures fresh(out.rep - old(list.rep))
  {
    hide List.Valid, Apart;
    var total := list.Len();
    out := NewListApart(list, list);
    while list.Len() > total / 2
      invariant list.Valid() && out.Valid() && Apart(list, out) && fresh(out.meta)
      invariant out.items + list.items == old(list.items) && |list.items| >= total / 2
      invariant list.rep <= old(list.rep)
      invariant fresh(out.rep - old(list.rep))
    {
      Take(list, out);
    }
  }

  /** out.Extend(from.IteratorFront()): every value of `from` goes to the back of out, in a new element. */
  method Extend<T(!new)>(out: List<T>, from: List<T>)
    requires from.Valid() && out.Valid() && Apart(from, out)
    modifies out`nodes, out`items, out`rep, out.meta, out.rep`next, out.rep`prev
    ensures out.Valid() && out.items == old(out.items) + from.items
    ensures fresh(out.rep - old(out.rep))
  {
    hide IsRing;
    var item := from.Front();
    ghost var k := 1;
    while item.data.item.Some?
      invariant from.Valid() && out.Valid() && Apart(from, out)
      invariant 1 <= k <= |from.nodes| && item == (if k == |from.nodes| then from.head else from.nodes[k])
      invariant out.items == old(out.items) + from.items[..k - 1]
      invariant fresh(out.rep - old(out.rep))
      decreases |from.nodes| - k
    {
      out.PushBack(item.data.item.value);
      item, k := from.Next(item, k), k + 1;
    }
  }

  /** The same, and a third list stays as it is. */
  method ExtendBeside<T(!new)>(out: List<T>, from: List<T>, ghost beside: List<T>)
    requires from.Valid() && out.Valid() && Apart(from, out)
    requires beside.Valid() && Apart(beside, out)
    modifies out`nodes, out`items, out`rep, out.meta, out.rep`next, out.rep`prev
    ensures out.Valid() && out.items == old(out.items) + from.items
    ensures beside.Valid() && beside.items == old(beside.items) && Apart(beside, out)
    ensures fresh(out.rep - old(out.rep))
  {
    Extend(out, from);
  }

  /** The smaller front is moved; a tie moves b's. */
  method MergeFront<T(!new)>(cf: (T, T) -> int, a: List<T>, b: List<T>, out: List<T>)
    requires a.Valid() && b.Valid() && out.Valid() && Apart(a, b) && Apart(b, a) && Apart(a, out) && Apart(b, out)
    requires a.items != [] && b.items != []
    modifies a`nodes, a`items, a`rep, a.meta, a.rep, b`nodes, b`items, b`rep, b.meta, b.rep
    modifies out`nodes, out`items, out`rep, out.meta, out.rep`next, out.rep`prev
    ensures a.Valid() && b.Valid() && out.Valid() && Apart(a, b) && Apart(b, a) && Apart(a, out) && Apart(b, out)
    ensures out.items + Merge(cf, a.items, b.items) == old(out.items + Merge(cf, a.items, b.items))
    ensures |a.items| + |b.items| < old(|a.items| + |b.items|)
    ensures a.rep <= old(a.rep) && b.rep <= old(b.rep) && out.rep <= old(out.rep + a.rep + b.rep)
  {
    hide List.Valid, Apart, Merge;
    MergeStep(cf, a.items, b.items);
    if cf(a.Front().data.item.value, b.Front().data.item.value) < 0 {
      TakeBeside(a, out, b);
    } else {
      TakeBeside(b, out, a);
    }
  }

  /** While both lists have elements, the smaller front is moved. */
  method MergeFronts<T(!new)>(cf: (T, T) -> int, a: List<T>, b: List<T>, out: List<T>)
    requires a.Valid() && b.Valid() && out.Valid() && Apart(a, b) && Apart(b, a)
    requires Apart(a, out) && Apart(b, out) && out.items == []
    modifies a`nodes, a`items, a`rep, a.meta, a.rep, b`nodes, b`items, b`rep, b.meta, b.rep
    modifies out`nodes, out`items, out`rep, out.meta, out.rep`next, out.rep`prev
    ensures a.Valid() && b.Valid() && out.Valid() && Apart(a, out) && Apart(b, out)
    ensures a.items == [] || b.items == []
    ensures out.items + a.items + b.items == old(Merge(cf, a.items, b.items))
    ensures out.rep <= old(out.rep + a.rep + b.rep)
  {
    hide List.Valid, Apart, Merge;
    ghost var merged := Merge(cf, a.items, b.items);
    assert merged == out.items + merged;
    while a.Len() != 0 && b.Len() != 0
      invariant a.Valid() && b.Valid() && out.Valid() && Apart(a, b) && Apart(b, a) && Apart(a, out) && Apart(b, out)
      invariant merged == out.items + Merge(cf, a.items, b.items)
      invariant a.rep <= old(a.rep)
      invariant b.rep <= old(b.rep)
      invariant out.rep <= old(out.rep + a.rep + b.rep)
      decreases |a.items| + |b.items|
    {
      MergeFront(cf, a, b, out);
    }
    MergeRest(cf, a.items, b.items);
    assert out.items + a.items + b.items == out.items + (a.items + b.items);
  }

  /** The elements of the merge are those of a and b, except for what is left of the longer list: that is copied. */
  method MergeLists<T(!new)>(cf: (T, T) -> int, a: List<T>, b: List<T>) returns (out: List<T>)
    requires a.Valid() && b.Valid() && Apart(a, b)
    modifies a`nodes, a`items, a`rep, a.meta, a.rep, b`nodes, b`items, b`rep, b.meta, b.rep
    ensures out.Valid() && out.items == old(Merge(cf, a.items, b.items))
    ensures fresh(out) && fresh(out.meta) && fresh(out.owner)
    ensures fresh(out.rep - old(a.rep + b.rep))
  {
    hide List.Valid, Apart, Merge;
    ApartIsMutual(a, b);
    out := NewListApart(a, b);
    MergeFronts(cf, a, b, out);
    ExtendBeside(out, a, b);
    Extend(out, b);
  }

  method MergeSort<T(!new)>(list: List<T>, cf: (T, T) -> int) returns (r: List<T>)
    requires list.Valid()
    modifies list`nodes, list`items, list`rep, list.meta, list.rep
    ensures r.Valid() && r.items == old(MergeSorted(cf, list.items))
    ensures if old(|list.items|) < 2 then r == list && r.nodes == old(list.nodes)
            else fresh(r) && fresh(r.meta) && fresh(r.owner)
    ensures fresh(r.rep - old(list.rep))
    decreases |list.items|
  {
    hide List.Valid, Merge;
    if list.Len() < 2 {
      return list;
    }
    var tail := Split(list);
    var back := MergeSort(list, cf);
    var front := MergeSort(tail, cf);
    r := MergeLists(cf, back, front);
  }

  // ---------------------------------------------------------------- the heap

  /** A list kept sorted: a value goes in front of everything it is strictly before, found from the back. */
  class Heap<T(!new)> {
    const cf: (T, T) -> int
    const list: List<T>

    constructor (cf: (T, T) -> int)
      ensures this.cf == cf && list.Valid() && list.items == [] && fresh(list) && fresh(list.meta) && fresh(list.rep)
    {
      this.cf := cf;
      list := new List();
    }

    method Push(t: T)
      requires list.Valid()
      modifies list`nodes, list`items, list`rep, list.meta, list.rep`next, list.rep`prev
      ensures list.Valid() && list.items == Insert(cf, old(list.items), t) && fresh(list.rep - old(list.rep))
    {
      if list.Len() == 0 {
        list.PushBack(t);
        return;
      }
      var item := list.Back();
      ghost var k := |list.items|;
      while item.data.item.Some?
        invariant list.Valid() && list.items == old(list.items) && list.rep == old(list.rep)
        invariant 0 <= k < |list.nodes| && item == list.nodes[k]
        invariant forall i :: k <= i < |list.items| ==> cf(t, list.items[i]) < 0
        decreases k
      {
        if cf(t, item.data.item.value) >= 0 {
          var e := NewElement(t);
          list.Append(item, e, k);
          return;
        }
        item, k := item.prev, k - 1;
      }
      list.PushFront(t);
    }

    /** The first value, if there is one. */
    method Pop() returns (value: Option<T>)
      requires list.Valid()
      modifies list`nodes, list`items, list`rep, list.meta, list.rep
      ensures list.Valid()
      ensures if old(list.items) == [] then value == None && list.items == []
              else value == Some(old(list.items[0])) && list.items == old(list.items[1..])
    {
      var e := list.PopFront();
      value := e.data.item;
    }

    method Peek() returns (value: Option<T>)
      requires list.Valid()
      ensures value == if list.items == [] then None else Some(list.items[0])
    {
      value := list.Front().data.item;
    }
  }
}
