/** What the list's two sorts and the sorted-list heap compute, and why all three give the same sequence. */
module Sorting {

  /** What the comparison functions are required to be: a total preorder, negative meaning strictly before. */
  ghost predicate TotalPreorder<T(!new)>(cf: (T, T) -> int) {
    && (forall x, y :: cf(x, y) < 0 <==> cf(y, x) > 0)
    && (forall x, y, z :: cf(x, y) <= 0 && cf(y, z) <= 0 ==> cf(x, z) <= 0)
  }

  ghost predicate Sorted<T>(cf: (T, T) -> int, s: seq<T>) {
    forall i, j :: 0 <= i < j < |s| ==> cf(s[i], s[j]) <= 0
  }

  /** The values of s that compare equal to x, in order. */
  ghost function Class<T>(cf: (T, T) -> int, s: seq<T>, x: T): (c: seq<T>) {
    if s == [] then []
    else (if cf(s[0], x) == 0 then [s[0]] else []) + Class(cf, s[1..], x)
  }

  /** t is s sorted, and values that compare equal have kept their order. */
  ghost predicate IsStableSort<T(!new)>(cf: (T, T) -> int, s: seq<T>, t: seq<T>) {
    Sorted(cf, t) && forall x :: Class(cf, t, x) == Class(cf, s, x)
  }

  // ---------------------------------------------------------------- classes of equal values

  lemma {:induction false} ClassNext<T>(cf: (T, T) -> int, s: seq<T>, x: T)
    requires s != []
    ensures Class(cf, s, x) == (if cf(s[0], x) == 0 then [s[0]] else []) + Class(cf, s[1..], x)
  {
  }

  lemma {:induction false} ClassOfNone<T>(cf: (T, T) -> int, x: T)
    ensures Class(cf, [], x) == []
  {
  }

  lemma {:induction false} ClassOfConcat<T>(cf: (T, T) -> int, s: seq<T>, t: seq<T>, x: T)
    ensures Class(cf, s + t, x) == Class(cf, s, x) + Class(cf, t, x)
  {
    hide Class;
    if s == [] {
      assert s + t == t;
      ClassOfNone(cf, x);
    } else {
      ClassOfConcat(cf, s[1..], t, x);
      assert (s + t)[1..] == s[1..] + t;
      ClassNext(cf, s, x);
      ClassNext(cf, s + t, x);
    }
  }

  lemma {:induction false} ClassHasMember<T>(cf: (T, T) -> int, s: seq<T>, x: T, i: nat)
    requires i < |s| && cf(s[i], x) == 0
    ensures Class(cf, s, x) != []
  {
    if i > 0 {
      ClassHasMember(cf, s[1..], x, i - 1);
    }
  }

  lemma {:induction false} ClassIsEmpty<T>(cf: (T, T) -> int, s: seq<T>, x: T)
    requires forall i :: 0 <= i < |s| ==> cf(s[i], x) != 0
    ensures Class(cf, s, x) == []
  {
    if s != [] {
      ClassIsEmpty(cf, s[1..], x);
    }
  }

  lemma {:induction false} MemberOfClass<T>(cf: (T, T) -> int, s: seq<T>, x: T) returns (i: nat)
    requires Class(cf, s, x) != []
    ensures i < |s| && cf(s[i], x) == 0
  {
    if cf(s[0], x) == 0 {
      i := 0;
    } else {
      i := MemberOfClass(cf, s[1..], x);
      i := i + 1;
    }
  }

  // ---------------------------------------------------------------- a stable sort is unique

  lemma {:induction false} SameHead<T(!new)>(cf: (T, T) -> int, t: seq<T>, u: seq<T>)
    requires TotalPreorder(cf) && Sorted(cf, t) && Sorted(cf, u) && t != [] && u != []
    requires forall x :: Class(cf, t, x) == Class(cf, u, x)
    ensures t[0] == u[0]
  {
    ClassHasMember(cf, t, t[0], 0);
    ClassHasMember(cf, u, u[0], 0);
    var i := MemberOfClass(cf, u, t[0]);
    var j := MemberOfClass(cf, t, u[0]);
    assert cf(u[0], u[i]) <= 0 && cf(u[i], t[0]) <= 0;
    assert cf(t[0], t[j]) <= 0 && cf(t[j], u[0]) <= 0;
    assert cf(u[0], t[0]) <= 0 && cf(t[0], u[0]) <= 0;
    assert Class(cf, t, t[0])[0] == t[0];
    assert Class(cf, u, t[0])[0] == u[0];
  }

  lemma {:induction false} StableSortIsUnique<T(!new)>(cf: (T, T) -> int, s: seq<T>, t: seq<T>, u: seq<T>)
    requires TotalPreorder(cf) && IsStableSort(cf, s, t) && IsStableSort(cf, s, u)
    ensures t == u
  {
    SameSequence(cf, t, u);
  }

  lemma {:induction false} SameSequence<T(!new)>(cf: (T, T) -> int, t: seq<T>, u: seq<T>)
    requires TotalPreorder(cf) && Sorted(cf, t) && Sorted(cf, u)
    requires forall x :: Class(cf, t, x) == Class(cf, u, x)
    ensures t == u
  {
    if t == [] {
      if u != [] {
        ClassHasMember(cf, u, u[0], 0);
      }
    } else if u == [] {
      ClassHasMember(cf, t, t[0], 0);
    } else {
      SameHead(cf, t, u);
      forall x
        ensures Class(cf, t[1..], x) == Class(cf, u[1..], x)
      {
        var head := if cf(t[0], x) == 0 then [t[0]] else [];
        assert Class(cf, t, x) == head + Class(cf, t[1..], x);
        assert Class(cf, u, x) == head + Class(cf, u[1..], x);
        assert Class(cf, t[1..], x) == Class(cf, t, x)[|head|..];
        assert Class(cf, u[1..], x) == Class(cf, u, x)[|head|..];
      }
      SameSequence(cf, t[1..], u[1..]);
      assert t == [t[0]] + t[1..] && u == [u[0]] + u[1..];
    }
  }

  // ---------------------------------------------------------------- any sort

  /** What slices.SortFunc promises: t is s sorted. */
  ghost predicate IsSort<T(!new)>(cf: (T, T) -> int, s: seq<T>, t: seq<T>) {
    Sorted(cf, t) && multiset(t) == multiset(s)
  }

  /** Values that compare equal are the same. */
  ghost predicate NoTies<T>(cf: (T, T) -> int, s: seq<T>) {
    forall i, j :: 0 <= i < j < |s| && cf(s[i], s[j]) == 0 ==> s[i] == s[j]
  }

  lemma {:induction false} ClassCounts<T(!new)>(cf: (T, T) -> int, s: seq<T>, x: T, y: T)
    ensures multiset(Class(cf, s, x))[y] == if cf(y, x) == 0 then multiset(s)[y] else 0
  {
    if s != [] {
      ClassCounts(cf, s[1..], x, y);
      assert s == [s[0]] + s[1..];
    }
  }

  lemma {:induction false} ClassIsUniform<T(!new)>(cf: (T, T) -> int, s: seq<T>, x: T, y: T, z: T)
    requires TotalPreorder(cf) && NoTies(cf, s) && y in Class(cf, s, x) && z in Class(cf, s, x)
    ensures y == z
  {
    hide Class;
    assert y in multiset(Class(cf, s, x)) && z in multiset(Class(cf, s, x));
    ClassCounts(cf, s, x, y);
    ClassCounts(cf, s, x, z);
    assert y in multiset(s) && z in multiset(s);
    var i :| 0 <= i < |s| && s[i] == y;
    var j :| 0 <= j < |s| && s[j] == z;
    assert cf(x, z) <= 0 && cf(x, y) <= 0;
    assert cf(y, z) <= 0 && cf(z, y) <= 0;
  }

  lemma {:induction false} UniformEqual<T>(a: seq<T>, b: seq<T>)
    requires multiset(a) == multiset(b) && forall i, j :: 0 <= i < |a| && 0 <= j < |a| ==> a[i] == a[j]
    ensures a == b
  {
    assert |a| == |multiset(a)| == |multiset(b)| == |b|;
    forall k | 0 <= k < |a|
      ensures a[k] == b[k]
    {
      assert b[k] in multiset(a);
    }
  }

  lemma {:induction false} NoTiesIsStable<T(!new)>(cf: (T, T) -> int, s: seq<T>, t: seq<T>)
    requires TotalPreorder(cf) && NoTies(cf, s) && IsSort(cf, s, t)
    ensures IsStableSort(cf, s, t)
  {
    hide TotalPreorder, Sorted, NoTies, Class;
    forall x
      ensures Class(cf, t, x) == Class(cf, s, x)
    {
      forall y
        ensures multiset(Class(cf, s, x))[y] == multiset(Class(cf, t, x))[y]
      {
        ClassCounts(cf, s, x, y);
        ClassCounts(cf, t, x, y);
      }
      var c := Class(cf, s, x);
      forall i, j | 0 <= i < |c| && 0 <= j < |c|
        ensures c[i] == c[j]
      {
        ClassIsUniform(cf, s, x, c[i], c[j]);
      }
      UniformEqual(c, Class(cf, t, x));
    }
  }

  // ---------------------------------------------------------------- merge sort

  /** The merge of two lists: a's front goes out only when it is strictly before b's. */
  ghost function Merge<T>(cf: (T, T) -> int, a: seq<T>, b: seq<T>): seq<T>
    decreases |a| + |b|
  {
    if a == [] then b
    else if b == [] then a
    else if cf(a[0], b[0]) < 0 then [a[0]] + Merge(cf, a[1..], b)
    else [b[0]] + Merge(cf, a, b[1..])
  }

  lemma {:induction false} MergeStep<T>(cf: (T, T) -> int, a: seq<T>, b: seq<T>)
    requires a != [] && b != []
    ensures Merge(cf, a, b) == if cf(a[0], b[0]) < 0 then [a[0]] + Merge(cf, a[1..], b)
                               else [b[0]] + Merge(cf, a, b[1..])
  {
  }

  lemma {:induction false} MergeRest<T>(cf: (T, T) -> int, a: seq<T>, b: seq<T>)
    requires a == [] || b == []
    ensures Merge(cf, a, b) == a + b
  {
  }

  /** How many elements the split takes off the front. */
  function Half(n: nat): (h: nat)
    ensures n <= 2 * h <= n + 1
  {
    n - n / 2
  }

  /** The front part is split off and merged as the second list. */
  ghost function MergeSorted<T>(cf: (T, T) -> int, s: seq<T>): seq<T>
    decreases |s|
  {
    if |s| < 2 then s
    else Merge(cf, MergeSorted(cf, s[Half(|s|)..]), MergeSorted(cf, s[..Half(|s|)]))
  }

  /** Every value of the merge comes from one of the two lists. */
  lemma {:induction false} MergeSource<T>(cf: (T, T) -> int, a: seq<T>, b: seq<T>, i: nat)
    requires i < |Merge(cf, a, b)|
    ensures Merge(cf, a, b)[i] in a || Merge(cf, a, b)[i] in b
    decreases |a| + |b|
  {
    if a != [] && b != [] && i > 0 {
      if cf(a[0], b[0]) < 0 {
        MergeSource(cf, a[1..], b, i - 1);
      } else {
        MergeSource(cf, a, b[1..], i - 1);
      }
    }
  }

  /** A sorted sequence with something in front that is before all of it. */
  lemma {:induction false} SortedCons<T>(cf: (T, T) -> int, x: T, s: seq<T>)
    requires Sorted(cf, s) && forall i :: 0 <= i < |s| ==> cf(x, s[i]) <= 0
    ensures Sorted(cf, [x] + s)
  {
  }

  lemma {:induction false} MergeIsSorted<T(!new)>(cf: (T, T) -> int, a: seq<T>, b: seq<T>)
    requires TotalPreorder(cf) && Sorted(cf, a) && Sorted(cf, b)
    ensures Sorted(cf, Merge(cf, a, b))
    decreases |a| + |b|
  {
    if a != [] && b != [] {
      var (x, a', b') := if cf(a[0], b[0]) < 0 then (a[0], a[1..], b) else (b[0], a, b[1..]);
      var rest := Merge(cf, a', b');
      MergeIsSorted(cf, a', b');
      FrontIsFirst(cf, x, a);
      FrontIsFirst(cf, x, b);
      forall i | 0 <= i < |rest|
        ensures cf(x, rest[i]) <= 0
      {
        MergeSource(cf, a', b', i);
      }
      SortedCons(cf, x, rest);
    }
  }

  lemma {:induction false} FrontIsFirst<T(!new)>(cf: (T, T) -> int, x: T, s: seq<T>)
    requires TotalPreorder(cf) && Sorted(cf, s) && s != [] && cf(x, s[0]) <= 0
    ensures forall y :: y in s ==> cf(x, y) <= 0
  {
    forall y | y in s
      ensures cf(x, y) <= 0
    {
      var i :| 0 <= i < |s| && s[i] == y;
      assert cf(s[0], s[0]) <= 0;
      assert cf(s[0], s[i]) <= 0;
    }
  }

  /** In a merge the second list's equals come first. */
  lemma {:induction false} MergeClass<T(!new)>(cf: (T, T) -> int, a: seq<T>, b: seq<T>, x: T)
    requires TotalPreorder(cf) && Sorted(cf, a) && Sorted(cf, b)
    ensures Class(cf, Merge(cf, a, b), x) == Class(cf, b, x) + Class(cf, a, x)
    decreases |a| + |b|
  {
    if a != [] && b != [] {
      if cf(a[0], b[0]) < 0 {
        MergeClass(cf, a[1..], b, x);
        assert Merge(cf, a, b)[1..] == Merge(cf, a[1..], b);
        if cf(a[0], x) == 0 {
          forall i | 0 <= i < |b|
            ensures cf(b[i], x) != 0
          {
            FrontIsFirst(cf, b[0], b);
            StrictlyBefore(cf, a[0], b[0], b[i], x);
          }
          ClassIsEmpty(cf, b, x);
        }
      } else {
        MergeClass(cf, a, b[1..], x);
        assert Merge(cf, a, b)[1..] == Merge(cf, a, b[1..]);
      }
    }
  }

  lemma {:induction false} StrictlyBefore<T(!new)>(cf: (T, T) -> int, p: T, q: T, r: T, x: T)
    requires TotalPreorder(cf) && cf(p, q) < 0 && cf(q, r) <= 0 && cf(p, x) == 0
    ensures cf(r, x) != 0
  {
    assert cf(x, p) <= 0;
    assert cf(r, x) <= 0 ==> cf(q, x) <= 0;
    assert cf(q, x) <= 0 ==> cf(q, p) <= 0;
  }

  lemma {:induction false} SortedEmpty<T>(cf: (T, T) -> int, s: seq<T>)
    requires |s| < 2
    ensures Sorted(cf, s)
  {
  }

  lemma {:induction false} MergeSortIsStable<T(!new)>(cf: (T, T) -> int, s: seq<T>)
    requires TotalPreorder(cf)
    ensures IsStableSort(cf, s, MergeSorted(cf, s))
    decreases |s|
  {
    hide TotalPreorder, Class, Sorted, Merge;
    if |s| < 2 {
      SortedEmpty(cf, s);
    } else {
      var (front, back) := (s[..Half(|s|)], s[Half(|s|)..]);
      MergeSortIsStable(cf, front);
      MergeSortIsStable(cf, back);
      MergeIsSorted(cf, MergeSorted(cf, back), MergeSorted(cf, front));
      forall x
        ensures Class(cf, MergeSorted(cf, s), x) == Class(cf, s, x)
      {
        MergeClass(cf, MergeSorted(cf, back), MergeSorted(cf, front), x);
        ClassOfConcat(cf, front, back, x);
        assert s == front + back;
      }
    }
  }

  // ---------------------------------------------------------------- insertion from the back: the heap

  /** Where the heap puts t: behind the last value it is not strictly before. */
  ghost function InsertAt<T>(cf: (T, T) -> int, s: seq<T>, t: T): (k: nat)
    ensures k <= |s| && (forall i :: k <= i < |s| ==> cf(t, s[i]) < 0) && (k > 0 ==> cf(t, s[k - 1]) >= 0)
  {
    if s == [] || cf(t, s[|s| - 1]) >= 0 then |s| else InsertAt(cf, s[..|s| - 1], t)
  }

  ghost function Insert<T>(cf: (T, T) -> int, s: seq<T>, t: T): seq<T> {
    var k := InsertAt(cf, s, t);
    s[..k] + [t] + s[k..]
  }

  /** The heap after the values of s have been pushed in order. */
  ghost function HeapSorted<T>(cf: (T, T) -> int, s: seq<T>): seq<T> {
    if s == [] then [] else Insert(cf, HeapSorted(cf, s[..|s| - 1]), s[|s| - 1])
  }

  lemma {:induction false} HeapEmpty<T>(cf: (T, T) -> int)
    ensures HeapSorted(cf, []) == []
  {
  }

  lemma {:induction false} HeapPush<T>(cf: (T, T) -> int, s: seq<T>, t: T)
    ensures HeapSorted(cf, s + [t]) == Insert(cf, HeapSorted(cf, s), t)
  {
    assert (s + [t])[..|s|] == s;
  }

  lemma {:induction false} SortedWith<T>(cf: (T, T) -> int, s: seq<T>, k: nat, t: T)
    requires Sorted(cf, s) && k <= |s|
    requires forall i :: 0 <= i < k ==> cf(s[i], t) <= 0
    requires forall i :: k <= i < |s| ==> cf(t, s[i]) <= 0
    ensures Sorted(cf, s[..k] + [t] + s[k..])
  {
    var r := s[..k] + [t] + s[k..];
    forall i, j | 0 <= i < j < |r|
      ensures cf(r[i], r[j]) <= 0
    {
      assert r[i] == if i < k then s[i] else if i == k then t else s[i - 1];
      assert r[j] == if j < k then s[j] else if j == k then t else s[j - 1];
    }
  }

  lemma {:induction false} InsertKeepsSorted<T(!new)>(cf: (T, T) -> int, s: seq<T>, t: T)
    requires TotalPreorder(cf) && Sorted(cf, s)
    ensures Sorted(cf, Insert(cf, s, t))
  {
    var k := InsertAt(cf, s, t);
    forall i | 0 <= i < k
      ensures cf(s[i], t) <= 0
    {
      assert cf(s[k - 1], t) <= 0;
      assert i < k - 1 ==> cf(s[i], s[k - 1]) <= 0;
    }
    SortedWith(cf, s, k, t);
  }

  /** A value goes behind its equals. */
  lemma {:induction false} InsertClass<T(!new)>(cf: (T, T) -> int, s: seq<T>, t: T, x: T)
    requires TotalPreorder(cf)
    ensures Class(cf, Insert(cf, s, t), x) == Class(cf, s, x) + Class(cf, [t], x)
  {
    hide TotalPreorder, Class;
    var k := InsertAt(cf, s, t);
    ClassOfConcat(cf, s[..k] + [t], s[k..], x);
    ClassOfConcat(cf, s[..k], [t], x);
    ClassOfConcat(cf, s[..k], s[k..], x);
    assert s == s[..k] + s[k..];
    if cf(t, x) == 0 {
      EqualsAreBefore(cf, s[k..], t, x);
    } else {
      ClassIsEmpty(cf, [t], x);
    }
  }

  lemma {:induction false} EqualsAreBefore<T(!new)>(cf: (T, T) -> int, s: seq<T>, t: T, x: T)
    requires TotalPreorder(cf) && cf(t, x) == 0 && forall i :: 0 <= i < |s| ==> cf(t, s[i]) < 0
    ensures Class(cf, s, x) == []
  {
    forall i | 0 <= i < |s|
      ensures cf(s[i], x) != 0
    {
      assert cf(s[i], s[i]) <= 0;
      StrictlyBefore(cf, t, s[i], s[i], x);
    }
    ClassIsEmpty(cf, s, x);
  }

  lemma {:induction false} HeapSortIsStable<T(!new)>(cf: (T, T) -> int, s: seq<T>)
    requires TotalPreorder(cf)
    ensures IsStableSort(cf, s, HeapSorted(cf, s))
  {
    hide TotalPreorder, Class, Sorted, Insert;
    if s == [] {
      SortedEmpty(cf, s);
    } else {
      var (most, last) := (s[..|s| - 1], s[|s| - 1]);
      HeapSortIsStable(cf, most);
      InsertKeepsSorted(cf, HeapSorted(cf, most), last);
      forall x
        ensures Class(cf, HeapSorted(cf, s), x) == Class(cf, s, x)
      {
        InsertClass(cf, HeapSorted(cf, most), last, x);
        ClassOfConcat(cf, most, [last], x);
        assert s == most + [last];
      }
    }
  }

  lemma {:induction false} InsertPermutes<T>(cf: (T, T) -> int, s: seq<T>, t: T)
    ensures multiset(Insert(cf, s, t)) == multiset(s) + multiset{t}
  {
    var k := InsertAt(cf, s, t);
    assert s == s[..k] + s[k..];
  }

  lemma {:induction false} HeapSortPermutes<T>(cf: (T, T) -> int, s: seq<T>)
    ensures multiset(HeapSorted(cf, s)) == multiset(s)
  {
    hide Insert;
    if s != [] {
      var (most, last) := (s[..|s| - 1], s[|s| - 1]);
      HeapSortPermutes(cf, most);
      InsertPermutes(cf, HeapSorted(cf, most), last);
      assert s == most + [last];
    }
  }

  // ---------------------------------------------------------------- the three agree

  /** Merge sort, the heap, and any stable sort at all give the identical sequence. */
  lemma {:induction false} ThreeSortsAgree<T(!new)>(cf: (T, T) -> int, s: seq<T>, quick: seq<T>)
    requires TotalPreorder(cf)
    ensures MergeSorted(cf, s) == HeapSorted(cf, s)
    ensures IsStableSort(cf, s, quick) <==> quick == MergeSorted(cf, s)
    ensures multiset(MergeSorted(cf, s)) == multiset(s)
  {
    HeapSortPermutes(cf, s);
    MergeSortIsStable(cf, s);
    HeapSortIsStable(cf, s);
    StableSortIsUnique(cf, s, MergeSorted(cf, s), HeapSorted(cf, s));
    if IsStableSort(cf, s, quick) {
      StableSortIsUnique(cf, s, MergeSorted(cf, s), quick);
    }
  }

  // ---------------------------------------------------------------- when any sort at all is stable

  ghost function Exchanged<T>(s: seq<T>, p: nat, q: nat): (r: seq<T>)
    requires p < |s| && q < |s|
    ensures |r| == |s| && multiset(r) == multiset(s)
  {
    s[p := s[q]][q := s[p]]
  }

  /** Exchanging two values that compare equal leaves a sorted sequence sorted. */
  lemma {:induction false} ExchangedIsSorted<T(!new)>(cf: (T, T) -> int, s: seq<T>, p: nat, q: nat)
    requires TotalPreorder(cf) && Sorted(cf, s) && p < |s| && q < |s| && cf(s[p], s[q]) == 0
    ensures Sorted(cf, Exchanged(s, p, q))
  {
    var t := Exchanged(s, p, q);
    assert cf(s[q], s[p]) == 0;
    forall a, b | 0 <= a < b < |t|
      ensures cf(t[a], t[b]) <= 0
    {
      assert cf(s[a], s[b]) <= 0;
      assert cf(t[a], s[a]) <= 0 by { assert cf(s[a], s[a]) == 0; }
      assert cf(s[b], t[b]) <= 0 by { assert cf(s[b], s[b]) == 0; }
      assert cf(t[a], s[b]) <= 0;
    }
  }

  /** A tie between different values can come out in either order. */
  lemma {:induction false} TieIsFree<T(!new)>(cf: (T, T) -> int, s: seq<T>, i: nat, j: nat) returns (t: seq<T>)
    requires TotalPreorder(cf) && i < j < |s| && cf(s[i], s[j]) == 0 && s[i] != s[j]
    ensures IsSort(cf, s, t) && !IsStableSort(cf, s, t)
  {
    hide TotalPreorder, Sorted, MergeSorted, HeapSorted, Class;
    var u := MergeSorted(cf, s);
    MergeSortIsStable(cf, s);
    ThreeSortsAgree(cf, s, u);
    assert s[i] in multiset(u) && s[j] in multiset(u);
    var p :| 0 <= p < |u| && u[p] == s[i];
    var q :| 0 <= q < |u| && u[q] == s[j];
    t := Exchanged(u, p, q);
    ExchangedIsSorted(cf, u, p, q);
    assert t[p] != u[p];
    if IsStableSort(cf, s, t) {
      StableSortIsUnique(cf, s, t, u);
    }
  }

  /** Whatever else a sort does, it is bound to be stable exactly when no two different values tie. */
  lemma {:induction false} AnySortIsStableIff<T(!new)>(cf: (T, T) -> int, s: seq<T>)
    requires TotalPreorder(cf)
    ensures NoTies(cf, s) <==> forall t :: IsSort(cf, s, t) ==> IsStableSort(cf, s, t)
  {
    hide TotalPreorder, IsSort, IsStableSort;
    if NoTies(cf, s) {
      forall t | IsSort(cf, s, t)
        ensures IsStableSort(cf, s, t)
      {
        NoTiesIsStable(cf, s, t);
      }
    } else {
      var i: nat, j: nat :| i < j < |s| && cf(s[i], s[j]) == 0 && s[i] != s[j];
      var t := TieIsFree(cf, s, i, j);
    }
  }
}
