/** The ordered set and the ordered map of package adt: a hash from each key to the list element that holds it. */
module OrderedContainers {
  import opened Links
  import opened SimpleList
  import opened Sorting
  import opened SplitOrder
  import opened Wrappers

  // ---------------------------------------------------------------- the simple container: a sequence

  /** Where the first item with key k is, or the length. */
  ghost function IndexOf<K(!new), E>(key: E -> K, s: seq<E>, k: K): (i: nat)
    ensures i <= |s| && (i < |s| ==> key(s[i]) == k) && forall j :: 0 <= j < i ==> key(s[j]) != k
  {
    if s == [] then 0 else if key(s[0]) == k then 0 else 1 + IndexOf(key, s[1..], k)
  }

  ghost predicate Has<K(!new), E>(key: E -> K, s: seq<E>, k: K) {
    IndexOf(key, s, k) < |s|
  }

  ghost function Dropped<K(!new), E>(key: E -> K, s: seq<E>, k: K): seq<E> {
    var i := IndexOf(key, s, k);
    if i < |s| then Without(s, i) else s
  }

  /** x under key k: in the place of the item with that key, or at the end. */
  ghost function Put<K(!new), E>(key: E -> K, s: seq<E>, k: K, x: E): seq<E> {
    var i := IndexOf(key, s, k);
    if i < |s| then s[i := x] else s + [x]
  }

  ghost predicate DistinctKeys<K(!new), E>(key: E -> K, s: seq<E>) {
    forall i, j :: 0 <= i < j < |s| ==> key(s[i]) != key(s[j])
  }

  // ---------------------------------------------------------------- the hash and the list

  /** Each key leads to the one element that holds it, and each element is led to by its key. */
  ghost predicate Agrees<K, E(!new)>(hash: map<K, Element<E>>, list: List<E>, key: E -> K)
    reads list, list.rep
  {
    && list.Valid()
    && (forall k :: k in hash ==> hash[k] in list.Elems() && key(hash[k].data.item) == k)
    && (forall n :: n in list.Elems() ==> key(n.data.item) in hash && hash[key(n.data.item)] == n)
  }

  /** Where a key's element is in the ring. */
  lemma {:induction false} KeyIndex<K(!new), E(!new)>(hash: map<K, Element<E>>, list: List<E>, key: E -> K, k: K)
    requires Agrees(hash, list, key)
    ensures k in hash <==> Has(key, list.items, k)
    ensures k in hash ==> list.nodes[IndexOf(key, list.items, k) + 1] == hash[k]
  {
    var i := IndexOf(key, list.items, k);
    if i < |list.items| {
      assert list.nodes[i + 1] in list.Elems();
    }
    if k in hash {
      var j :| 0 <= j < |list.nodes| && list.nodes[j] == hash[k];
      assert key(list.items[j - 1]) == k;
    }
  }

  lemma {:induction false} KeysAreDistinct<K(!new), E(!new)>(hash: map<K, Element<E>>, list: List<E>, key: E -> K)
    requires Agrees(hash, list, key)
    ensures DistinctKeys(key, list.items)
  {
    forall i, j | 0 <= i < j < |list.items|
      ensures key(list.items[i]) != key(list.items[j])
    {
      assert list.nodes[i + 1] in list.Elems() && list.nodes[j + 1] in list.Elems();
    }
  }

  lemma {:induction false} DistinctSize<A>(s: seq<A>)
    requires Distinct(s)
    ensures |Members(s)| == |s|
  {
    if s == [] {
      assert Members(s) == {};
    } else {
      var most := s[..|s| - 1];
      DistinctSize(most);
      InsertedMembers(most, |most|, s[|s| - 1]);
      assert s == Inserted(most, |most|, s[|s| - 1]);
    }
  }

  /** The hash and the list are of the same size. */
  lemma {:induction false} SameLength<K(!new), E(!new)>(hash: map<K, Element<E>>, list: List<E>, key: E -> K)
    requires Agrees(hash, list, key)
    ensures |hash| == |list.items|
  {
    var items := list.items;
    var keys := seq(|items|, i requires 0 <= i < |items| => key(items[i]));
    KeysAreDistinct(hash, list, key);
    DistinctSize(keys);
    forall k
      ensures k in hash.Keys <==> k in Members(keys)
    {
      KeyIndex(hash, list, key, k);
      if k in hash {
        assert keys[IndexOf(key, items, k)] == k;
      }
    }
    assert hash.Keys == Members(keys);
  }

  /** A fresh element for a new key goes to the back. */
  method AddNew<K(!new), E(!new)>(ghost hash: map<K, Element<E>>, list: List<E>, ghost key: E -> K, x: E)
    returns (e: Element<E>)
    requires Agrees(hash, list, key) && key(x) !in hash
    modifies list, list.rep
    ensures Agrees(hash[key(x) := e], list, key) && list.items == old(list.items) + [x]
    ensures fresh(list.rep - old(list.rep))
  {
    hide IsRing;
    e := new Node(Slot(list, x, false));
    list.PushBackE(e);
  }

  /** The element of a key that the hash holds is unlinked. */
  method Unlink<K(!new), E(!new)>(ghost hash: map<K, Element<E>>, list: List<E>, ghost key: E -> K, k: K, e: Element<E>)
    requires Agrees(hash, list, key) && k in hash && e == hash[k]
    modifies list, list.rep
    ensures Agrees(hash - {k}, list, key) && list.items == Dropped(key, old(list.items), k)
    ensures list.rep <= old(list.rep)
  {
    KeyIndex(hash, list, key, k);
    hide IsRing;
    list.PopElement(e, IndexOf(key, list.items, k) + 1);
  }

  /** The element of a key gets another value for the same key. */
  method Overwrite<K(!new), E(!new)>(ghost hash: map<K, Element<E>>, list: List<E>, ghost key: E -> K,
                                     x: E, e: Element<E>)
    requires Agrees(hash, list, key) && key(x) in hash && e == hash[key(x)]
    modifies list`items, e`data
    ensures Agrees(hash, list, key) && list.items == Put(key, old(list.items), key(x), x)
  {
    KeyIndex(hash, list, key, key(x));
    hide IsRing;
    list.SetItem(e, x, IndexOf(key, list.items, key(x)) + 1);
  }

  // ---------------------------------------------------------------- the set

  function Itself<T>(x: T): T {
    x
  }

  class OrderedSet<T(==, !new)> {
    var hash: map<T, Element<T>>
    const list: List<T>

    ghost predicate Valid()
      reads this, list, list.rep
    {
      Agrees(hash, list, Itself)
    }

    constructor (zero: T)
      ensures Valid() && list.items == [] && fresh(list) && fresh(list.rep)
    {
      hash := map[];
      list := new List(zero);
    }

    method Len() returns (n: nat)
      requires Valid()
      ensures n == |list.items| && n == list.Size()
    {
      SameLength(hash, list, Itself);
      n := |hash|;
    }

    method Check(x: T) returns (ok: bool)
      requires Valid()
      ensures ok <==> Has(Itself, list.items, x)
    {
      KeyIndex(hash, list, Itself, x);
      ok := x in hash;
    }

    method Add(x: T) returns (ok: bool)
      requires Valid()
      modifies this, list, list.rep
      ensures Valid() && ok == Has(Itself, old(list.items), x)
      ensures list.items == if ok then old(list.items) else old(list.items) + [x]
    {
      KeyIndex(hash, list, Itself, x);
      ok := x in hash;
      if ok {
        return;
      }
      var e := AddNew(hash, list, Itself, x);
      hash := hash[x := e];
    }

    method Delete(x: T) returns (ok: bool)
      requires Valid()
      modifies this, list, list.rep
      ensures Valid() && ok == Has(Itself, old(list.items), x)
      ensures list.items == Dropped(Itself, old(list.items), x)
    {
      KeyIndex(hash, list, Itself, x);
      if x !in hash {
        return false;
      }
      Unlink(hash, list, Itself, x, hash[x]);
      hash := hash - {x};
      ok := true;
    }

    method SortQuick(cf: (T, T) -> int)
      requires Valid() && TotalPreorder(cf)
      modifies list, list.rep
      ensures Valid() && IsSort(cf, old(list.items), list.items)
      ensures NoTies(cf, old(list.items)) ==> IsStableSort(cf, old(list.items), list.items)
    {
      hide IsRing, TotalPreorder, Sorted, NoTies, IsStableSort;
      SimpleList.SortQuick(list, cf);
    }

    method SortMerge(cf: (T, T) -> int)
      requires Valid()
      modifies list, list.rep
      ensures Valid() && list.items == old(SimpleList.MergeSorted(cf, list.items))
      ensures multiset(list.items) == multiset(old(list.items)) && (TotalPreorder(cf) ==> Sorted(cf, list.items))
      ensures TotalPreorder(cf) ==> (IsStableSort(cf, old(list.items), list.items) <==> KeepsTies(cf, old(list.items)))
    {
      hide IsRing, TotalPreorder, Sorted, SimpleList.MergeSorted, KeepsTies, IsStableSort;
      MergePermutes(cf, list.items);
      if TotalPreorder(cf) {
        MergeSorts(cf, list.items);
        KeysAreDistinct(hash, list, Itself);
        assert Distinct(list.items);
        StableIff(cf, list.items);
      }
      SimpleList.SortMerge(list, cf);
    }
  }

  // ---------------------------------------------------------------- the map

  datatype KV<K, V> = KV(key: K, value: V)

  function KeyOf<K, V>(p: KV<K, V>): K {
    p.key
  }

  ghost function Lookup<K(!new), V>(s: seq<KV<K, V>>, k: K): Option<V> {
    var i := IndexOf(KeyOf, s, k);
    if i < |s| then Some(s[i].value) else None
  }

  /** Setting a key changes what that key leads to and nothing else, and a key that was there keeps its place. */
  lemma {:induction false} PutThenLookup<K(!new), V>(s: seq<KV<K, V>>, k: K, v: V, other: K)
    ensures var r := Put(KeyOf, s, k, KV(k, v));
            && Lookup(r, other) == (if other == k then Some(v) else Lookup(s, other))
            && (Has(KeyOf, s, k) ==> |r| == |s| && forall i :: 0 <= i < |s| ==> r[i].key == s[i].key)
  {
    var r := Put(KeyOf, s, k, KV(k, v));
    var (at, i, j) := (IndexOf(KeyOf, s, k), IndexOf(KeyOf, s, other), IndexOf(KeyOf, r, other));
    forall n | 0 <= n < |r|
      ensures KeyOf(r[n]) == if n < |s| then KeyOf(s[n]) else k
    {
    }
    assert i < |s| ==> j <= i && KeyOf(r[i]) == other;
    assert j < |s| ==> i <= j && KeyOf(s[j]) == other;
    if at == |s| {
      assert r[|s|] == KV(k, v) && KeyOf(r[|s|]) == k;
    }
  }

  /** Deleting a key takes that key out and nothing else. */
  lemma {:induction false} DropThenLookup<K(!new), V>(s: seq<KV<K, V>>, k: K, other: K)
    requires DistinctKeys(KeyOf, s)
    ensures Lookup(Dropped(KeyOf, s, k), other) == if other == k then None else Lookup(s, other)
  {
    var r := Dropped(KeyOf, s, k);
    var (at, i) := (IndexOf(KeyOf, s, k), IndexOf(KeyOf, s, other));
    if at < |s| {
      forall n | 0 <= n < |r|
        ensures r[n].key != k && (other != k && r[n].key == other ==> r[n] == s[i])
      {
        var m := if n < at then n else n + 1;
        assert r[n] == s[m] && m != at;
        assert KeyOf(s[m]) != KeyOf(s[at]);
        assert i < |s| && m != i ==> KeyOf(s[m]) != KeyOf(s[i]);
      }
      if other != k && i < |s| {
        assert r[if i < at then i else i - 1] == s[i];
      }
    }
  }

  class OrderedMap<K(==, !new), V(!new)> {
    var hash: map<K, Element<KV<K, V>>>
    const list: List<KV<K, V>>
    const zero: V

    ghost predicate Valid()
      reads this, list, list.rep
    {
      Agrees(hash, list, KeyOf)
    }

    constructor (noKey: K, zero: V)
      ensures Valid() && list.items == [] && fresh(list) && fresh(list.rep) && this.zero == zero
    {
      hash, this.zero := map[], zero;
      list := new List(KV(noKey, zero));
    }

    method Len() returns (n: int)
      requires Valid()
      ensures n == |list.items| == |hash|
    {
      SameLength(hash, list, KeyOf);
      n := list.Size();
    }

    method Load(k: K) returns (r: Option<V>)
      requires Valid()
      ensures r == Lookup(list.items, k)
    {
      KeyIndex(hash, list, KeyOf, k);
      if k in hash {
        return Some(hash[k].data.item.value);
      }
      r := None;
    }

    /** innerSet */
    method Set(k: K, v: V) returns (existed: bool)
      requires Valid()
      modifies this, list, list.rep
      ensures Valid() && existed == Has(KeyOf, old(list.items), k)
      ensures list.items == Put(KeyOf, old(list.items), k, KV(k, v))
    {
      KeyIndex(hash, list, KeyOf, k);
      existed := k in hash;
      if !existed {
        var e := AddNew(hash, list, KeyOf, KV(k, v));
        hash := hash[k := e];
        return;
      }
      Overwrite(hash, list, KeyOf, KV(k, v), hash[k]);
    }

    method Ensure(k: K) returns (existed: bool)
      requires Valid()
      modifies this, list, list.rep
      ensures Valid() && existed == Has(KeyOf, old(list.items), k)
      ensures list.items == if existed then old(list.items) else old(list.items) + [KV(k, zero)]
    {
      KeyIndex(hash, list, KeyOf, k);
      if k in hash {
        return true;
      }
      existed := Set(k, zero);
    }

    method Delete(k: K)
      requires Valid()
      modifies this, list, list.rep
      ensures Valid() && list.items == Dropped(KeyOf, old(list.items), k)
    {
      KeyIndex(hash, list, KeyOf, k);
      if k !in hash {
        return;
      }
      Unlink(hash, list, KeyOf, k, hash[k]);
      hash := hash - {k};
    }
  }
}
