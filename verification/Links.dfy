/** The circular double links that the deque and both linked lists are made of: a root and the elements after it. */
module Links {

  class Node<P> {
    var next: Node?<P>
    var prev: Node?<P>
    var data: P

    constructor (data: P)
      ensures this.data == data
    {
      next, prev, this.data := null, null, data;
    }
  }

  /** `nodes` is a whole ring in link order, the root first. */
  ghost predicate IsRing<P>(nodes: seq<Node<P>>)
    reads nodes
  {
    && nodes != []
    && Distinct(nodes)
    && (forall i {:trigger nodes[i].next} :: 0 <= i < |nodes| - 1 ==> nodes[i].next == nodes[i + 1])
    && (forall i {:trigger nodes[i].prev} :: 0 < i < |nodes| ==> nodes[i].prev == nodes[i - 1])
    && nodes[|nodes| - 1].next == nodes[0] && nodes[0].prev == nodes[|nodes| - 1]
  }

  ghost predicate Distinct<A>(s: seq<A>) {
    forall i, j :: 0 <= i < j < |s| ==> s[i] != s[j]
  }

  ghost function Members<A>(s: seq<A>): set<A> {
    set x | x in s
  }

  ghost function Inserted<A>(s: seq<A>, k: nat, x: A): seq<A>
    requires k <= |s|
  {
    s[..k] + [x] + s[k..]
  }

  ghost function Without<A>(s: seq<A>, k: nat): seq<A>
    requires k < |s|
  {
    s[..k] + s[k + 1..]
  }

  lemma {:induction false} InsertedMembers<A>(s: seq<A>, k: nat, x: A)
    requires k <= |s|
    ensures Members(Inserted(s, k, x)) == Members(s) + {x}
  {
    assert s == s[..k] + s[k..];
  }

  lemma {:induction false} WithoutMembers<A>(s: seq<A>, k: nat)
    requires k < |s| && Distinct(s)
    ensures Members(Without(s, k)) == Members(s) - {s[k]}
  {
    assert s == s[..k] + [s[k]] + s[k + 1..];
  }

  lemma {:induction false} RingWithout<P>(nodes: seq<Node<P>>, k: nat)
    requires IsRing(nodes) && k < |nodes|
    ensures Members(Without(nodes, k)) == Members(nodes) - {nodes[k]}
  {
    WithoutMembers(nodes, k);
  }

  /** Puts `it` right after the k-th node of a ring. */
  method Attach<P>(it: Node<P>, after: Node<P>, ghost nodes: seq<Node<P>>, ghost k: nat)
    requires IsRing(nodes) && k < |nodes| && after == nodes[k] && it !in nodes
    modifies it`next, it`prev, nodes`next, nodes`prev
    ensures IsRing(Inserted(nodes, k + 1, it))
  {
    it.prev := after;
    it.next := after.next;
    it.prev.next := it;
    it.next.prev := it;
  }

  /** Takes the k-th node out of a ring. The node itself keeps its links. */
  method Detach<P>(it: Node<P>, ghost nodes: seq<Node<P>>, ghost k: nat)
    requires IsRing(nodes) && 0 < k < |nodes| && it == nodes[k]
    modifies nodes`next, nodes`prev
    ensures IsRing(Without(nodes, k)) && it !in Without(nodes, k)
    ensures it.next == old(it.next) && it.prev == old(it.prev)
  {
    it.prev.next := it.next;
    it.next.prev := it.prev;
  }
}
