/** Which ties the adt list's merge sort keeps in order. Splitting turns both halves round, so that is a matter of
    the two positions and the length alone. */
module SplitOrder {
  import opened Links
  import opened Sequences
  import opened SimpleList
  import Sorting

  /** Values that compare equal at positions i < j of n come out in that order. Positions in different halves do; two
      in one half change sides when it is turned round, and come out in order when they then do not. */
  predicate Kept(i: nat, j: nat, n: nat)
    requires i < j < n
    decreases n
  {
    var h := n / 2;
    if j < h then !Kept(h - 1 - j, h - 1 - i, h)
    else if i < h then true
    else !Kept(n - 1 - j, n - 1 - i, n - h)
  }

  /** The caller's condition: every two values that compare equal are at positions that keep their order. */
  ghost predicate KeepsTies<T>(cf: (T, T) -> int, s: seq<T>) {
    forall i, j :: 0 <= i < j < |s| && cf(s[i], s[j]) == 0 ==> Kept(i, j, |s|)
  }

  /** Of the values equal to x at positions a to b all pairs keep their order, or all of them lose it. */
  ghost predicate AlikeIn<T>(cf: (T, T) -> int, s: seq<T>, a: nat, b: nat, x: T, kept: bool)
    requires b <= |s|
  {
    forall i, j :: a <= i < j < b && cf(s[i], x) == 0 && cf(s[j], x) == 0 ==> Kept(i, j, |s|) == kept
  }

  ghost predicate Alike<T>(cf: (T, T) -> int, s: seq<T>, x: T, kept: bool) {
    AlikeIn(cf, s, 0, |s|, x, kept)
  }

  // ---------------------------------------------------------------- turning round

  lemma {:induction false} ReversedAt<T>(s: seq<T>, k: nat)
    requires k < |s|
    ensures Reversed(s)[k] == s[|s| - 1 - k]
  {
    if k > 0 {
      ReversedAt(s[..|s| - 1], k - 1);
    }
  }

  lemma {:induction false} ReversedConcat<T>(s: seq<T>, t: seq<T>)
    ensures Reversed(s + t) == Reversed(t) + Reversed(s)
  {
    if t == [] {
      assert s + t == s;
    } else {
      ReversedConcat(s, t[..|t| - 1]);
      assert (s + t)[..|s + t| - 1] == s + t[..|t| - 1];
    }
  }

  lemma {:induction false} ReversedTwice<T>(s: seq<T>)
    ensures Reversed(Reversed(s)) == s
  {
    forall k | 0 <= k < |s|
      ensures Reversed(Reversed(s))[k] == s[k]
    {
      ReversedAt(Reversed(s), k);
      ReversedAt(s, |s| - 1 - k);
    }
  }

  lemma {:induction false} ClassTurned<T(!new)>(cf: (T, T) -> int, s: seq<T>, x: T)
    ensures Sorting.Class(cf, Reversed(s), x) == Reversed(Sorting.Class(cf, s, x))
  {
    if s != [] {
      var (most, last) := (s[..|s| - 1], [s[|s| - 1]]);
      ClassTurned(cf, most, x);
      assert s == most + last;
      Sorting.ClassOfConcat(cf, most, last, x);
      Sorting.ClassOfConcat(cf, last, Reversed(most), x);
      ReversedConcat(Sorting.Class(cf, most, x), Sorting.Class(cf, last, x));
      assert Reversed(last) == last;
    }
  }

  /** From a to b is one of the halves of n. */
  predicate IsHalf(a: nat, b: nat, n: nat) {
    n >= 2 && ((a == 0 && b == n / 2) || (a == n / 2 && b == n))
  }

  /** Two positions of one half, seen from that half turned round. */
  lemma {:induction false} KeptTurned(a: nat, b: nat, n: nat, i: nat, j: nat)
    requires IsHalf(a, b, n) && a <= i < j < b
    ensures Kept(i, j, n) == !Kept(b - 1 - j, b - 1 - i, b - a)
  {
  }

  lemma {:induction false} AlikeTurned<T>(cf: (T, T) -> int, s: seq<T>, a: nat, b: nat, x: T, kept: bool)
    requires IsHalf(a, b, |s|)
    ensures Alike(cf, Reversed(s[a..b]), x, !kept) <==> AlikeIn(cf, s, a, b, x, kept)
  {
    hide Kept, Reversed;
    var t := Reversed(s[a..b]);
    forall k | 0 <= k < b - a
      ensures t[k] == s[b - 1 - k]
    {
      ReversedAt(s[a..b], k);
    }
    if Alike(cf, t, x, !kept) {
      forall i, j | a <= i < j < b && cf(s[i], x) == 0 && cf(s[j], x) == 0
        ensures Kept(i, j, |s|) == kept
      {
        KeptTurned(a, b, |s|, i, j);
        assert t[b - 1 - j] == s[j] && t[b - 1 - i] == s[i];
      }
    }
    if AlikeIn(cf, s, a, b, x, kept) {
      forall i, j | 0 <= i < j < |t| && cf(t[i], x) == 0 && cf(t[j], x) == 0
        ensures Kept(i, j, |t|) == !kept
      {
        KeptTurned(a, b, |s|, b - 1 - j, b - 1 - i);
      }
    }
  }

  // ---------------------------------------------------------------- the sort, one class of equal values at a time

  /** What the sort does to the values equal to x: each half's come out as that half, turned round, is sorted. */
  lemma {:induction false} ClassOfHalves<T(!new)>(cf: (T, T) -> int, s: seq<T>, x: T)
    requires Sorting.TotalPreorder(cf) && |s| >= 2
    ensures var h := |s| / 2;
            Sorting.Class(cf, MergeSorted(cf, s), x) ==
            Sorting.Class(cf, MergeSorted(cf, Reversed(s[..h])), x) +
            Sorting.Class(cf, MergeSorted(cf, Reversed(s[h..])), x)
  {
    hide Sorting.TotalPreorder, Sorting.Sorted, Sorting.Class, MergeLeft, Sorting.Merge, Reversed;
    var h := |s| / 2;
    var (left, right) := (Reversed(s[..h]), Reversed(s[h..]));
    MergeSorts(cf, left);
    MergeSorts(cf, right);
    MergeLeftIsMerge(cf, MergeSorted(cf, left), MergeSorted(cf, right));
    Sorting.MergeClass(cf, MergeSorted(cf, right), MergeSorted(cf, left), x);
  }

  lemma {:induction false} ClassMembers<T(!new)>(cf: (T, T) -> int, s: seq<T>, x: T)
    ensures forall y :: y in Sorting.Class(cf, s, x) <==> y in s && cf(y, x) == 0
  {
    if s != [] {
      ClassMembers(cf, s[1..], x);
      assert s == [s[0]] + s[1..];
    }
  }

  /** All pairs are alike when those within each half are; a pair across the halves keeps its order. */
  lemma {:induction false} AlikeHalves<T(!new)>(cf: (T, T) -> int, s: seq<T>, x: T, kept: bool)
    requires |s| >= 2
    ensures var h := |s| / 2;
            Alike(cf, s, x, kept) <==>
              && AlikeIn(cf, s, 0, h, x, kept) && AlikeIn(cf, s, h, |s|, x, kept)
              && (kept || Sorting.Class(cf, s[..h], x) == [] || Sorting.Class(cf, s[h..], x) == [])
  {
    var h := |s| / 2;
    ClassMembers(cf, s[..h], x);
    ClassMembers(cf, s[h..], x);
    var (left, right) := (Sorting.Class(cf, s[..h], x), Sorting.Class(cf, s[h..], x));
    hide Sorting.Class;
    if left != [] && right != [] {
      assert left[0] in s[..h] && right[0] in s[h..];
      var i :| 0 <= i < h && s[..h][i] == left[0];
      var j :| 0 <= j < |s| - h && s[h..][j] == right[0];
      assert cf(s[i], x) == 0 && cf(s[h + j], x) == 0 && Kept(i, h + j, |s|);
    }
    forall i, j | 0 <= i < h <= j < |s| && cf(s[i], x) == 0 && cf(s[j], x) == 0
      ensures left != [] && right != [] && Kept(i, j, |s|)
    {
      assert s[..h][i] in s[..h] && s[h..][j - h] in s[h..];
    }
  }

  /** s, as it is or turned round. */
  ghost function Way<T>(s: seq<T>, kept: bool): seq<T> {
    if kept then s else Reversed(s)
  }

  lemma {:induction false} ShortIsAlike<T>(cf: (T, T) -> int, s: seq<T>, x: T, kept: bool)
    requires |s| <= 1
    ensures Alike(cf, s, x, kept) && MergeSorted(cf, s) == s
    ensures Sorting.Class(cf, s, x) == Way(Sorting.Class(cf, s, x), kept)
  {
  }

  lemma {:induction false} SameMembers<T(!new)>(s: seq<T>, t: seq<T>)
    requires multiset(s) == multiset(t)
    ensures forall y :: y in s <==> y in t
  {
    forall y
      ensures y in s <==> y in t
    {
      assert y in s <==> y in multiset(s);
      assert y in t <==> y in multiset(t);
    }
  }

  lemma {:induction false} InTurned<T(!new)>(s: seq<T>)
    ensures forall y :: y in Reversed(s) <==> y in s
    ensures Distinct(s) ==> Distinct(Reversed(s))
  {
    ReversedPermutes(s);
    SameMembers(Reversed(s), s);
    forall k | 0 <= k < |s|
      ensures Reversed(s)[k] == s[|s| - 1 - k]
    {
      ReversedAt(s, k);
    }
  }

  lemma {:induction false} HalfTurned<T(!new)>(cf: (T, T) -> int, s: seq<T>, a: nat, b: nat, x: T, kept: bool)
    requires IsHalf(a, b, |s|)
    ensures var turned := Reversed(s[a..b]);
            && Way(Sorting.Class(cf, turned, x), !kept) == Way(Sorting.Class(cf, s[a..b], x), kept)
            && (Alike(cf, turned, x, !kept) <==> AlikeIn(cf, s, a, b, x, kept))
            && (Distinct(s) ==> Distinct(turned))
  {
    hide Sorting.Class, Reversed, Alike, AlikeIn;
    ClassTurned(cf, s[a..b], x);
    ReversedTwice(Sorting.Class(cf, s[a..b], x));
    AlikeTurned(cf, s, a, b, x, kept);
    InTurned(s[a..b]);
  }

  /** The values equal to x that come out of a half came from it. */
  lemma {:induction false} ClassOfHalf<T(!new)>(cf: (T, T) -> int, half: seq<T>, x: T)
    ensures forall y :: y in Sorting.Class(cf, MergeSorted(cf, Reversed(half)), x) ==> y in half
  {
    var sorted := MergeSorted(cf, Reversed(half));
    MergePermutes(cf, Reversed(half));
    SameMembers(sorted, Reversed(half));
    InTurned(half);
    ClassMembers(cf, sorted, x);
    forall y | y in Sorting.Class(cf, sorted, x)
      ensures y in half
    {
      assert y in sorted;
      assert y in Reversed(half);
    }
  }

  /** The back half's class does not come out before the front half's, unless one of them is empty. */
  lemma {:induction false} HalvesStay<T(!new)>(cf: (T, T) -> int, s: seq<T>, x: T)
    requires |s| >= 2 && Distinct(s)
    ensures var h := |s| / 2;
            var (l, r) := (Sorting.Class(cf, s[..h], x), Sorting.Class(cf, s[h..], x));
            var out := Sorting.Class(cf, MergeSorted(cf, Reversed(s[..h])), x);
            out != [] && r != [] ==> out[0] != Reversed(r)[0]
  {
    var h := |s| / 2;
    var r := Sorting.Class(cf, s[h..], x);
    var out := Sorting.Class(cf, MergeSorted(cf, Reversed(s[..h])), x);
    ClassOfHalf(cf, s[..h], x);
    ClassMembers(cf, s[h..], x);
    InTurned(r);
    if out != [] && r != [] {
      assert out[0] in s[..h];
      assert Reversed(r)[0] in Reversed(r) && Reversed(r)[0] in s[h..];
      var i :| 0 <= i < h && s[..h][i] == out[0];
      var j :| 0 <= j < |s| - h && s[h..][j] == Reversed(r)[0];
      assert s[i] != s[h + j];
    }
  }

  lemma {:induction false} SplitWay<T>(l': seq<T>, r': seq<T>, l: seq<T>, r: seq<T>, kept: bool)
    requires |l'| == |l| && |r'| == |r| && l' + r' == Way(l + r, kept)
    requires l' != [] && r != [] ==> l'[0] != Reversed(r)[0]
    ensures l' == Way(l, kept) && r' == Way(r, kept) && (kept || l == [] || r == [])
  {
    ReversedConcat(l, r);
    assert (l' + r')[..|l|] == l' && (l' + r')[|l|..] == r';
    assert (l + r)[..|l|] == l && (l + r)[|l|..] == r;
    var turned := Reversed(r) + Reversed(l);
    assert r != [] ==> turned[0] == Reversed(r)[0];
    assert l' != [] ==> (l' + r')[0] == l'[0];
  }

  /** The values equal to x come out in order when all pairs of them keep theirs, and in reverse when all lose it; and
      when no value occurs twice, only then. */
  lemma {:induction false} ClassSorted<T(!new)>(cf: (T, T) -> int, s: seq<T>, x: T, kept: bool)
    requires Sorting.TotalPreorder(cf)
    ensures var (before, after) := (Sorting.Class(cf, s, x), Sorting.Class(cf, MergeSorted(cf, s), x));
            && |after| == |before|
            && (Alike(cf, s, x, kept) ==> after == Way(before, kept))
            && (Distinct(s) && after == Way(before, kept) ==> Alike(cf, s, x, kept))
    decreases |s|
  {
    hide Sorting.TotalPreorder, Alike, AlikeIn, MergeSorted, Reversed, Sorting.Class;
    if |s| <= 1 {
      ShortIsAlike(cf, s, x, kept);
      return;
    }
    var h := |s| / 2;
    var (left, right) := (Reversed(s[..h]), Reversed(s[h..]));
    var (l, r) := (Sorting.Class(cf, s[..h], x), Sorting.Class(cf, s[h..], x));
    ClassSorted(cf, left, x, !kept);
    ClassSorted(cf, right, x, !kept);
    HalfTurned(cf, s, 0, h, x, kept);
    HalfTurned(cf, s, h, |s|, x, kept);
    assert s[0..h] == s[..h] && s[h..|s|] == s[h..] && s == s[..h] + s[h..];
    ClassOfHalves(cf, s, x);
    Sorting.ClassOfConcat(cf, s[..h], s[h..], x);
    AlikeHalves(cf, s, x, kept);
    ReversedConcat(l, r);
    var (l', r') := (Sorting.Class(cf, MergeSorted(cf, left), x), Sorting.Class(cf, MergeSorted(cf, right), x));
    if Distinct(s) && l' + r' == Way(l + r, kept) {
      HalvesStay(cf, s, x);
      SplitWay(l', r', l, r, kept);
    }
  }

  /** For a total preorder, and values no two of which are the same, as in a set, the sort is stable exactly when every
      tie is at positions that keep their order. */
  lemma {:induction false} StableIff<T(!new)>(cf: (T, T) -> int, s: seq<T>)
    requires Sorting.TotalPreorder(cf)
    ensures KeepsTies(cf, s) ==> Sorting.IsStableSort(cf, s, MergeSorted(cf, s))
    ensures Distinct(s) ==> (Sorting.IsStableSort(cf, s, MergeSorted(cf, s)) <==> KeepsTies(cf, s))
  {
    hide Sorting.Sorted, Sorting.Class, MergeSorted, Kept;
    MergeSorts(cf, s);
    forall x
      ensures KeepsTies(cf, s) ==> Alike(cf, s, x, true)
      ensures Alike(cf, s, x, true) ==> Sorting.Class(cf, MergeSorted(cf, s), x) == Sorting.Class(cf, s, x)
      ensures Distinct(s) && Sorting.Class(cf, MergeSorted(cf, s), x) == Sorting.Class(cf, s, x) ==>
                Alike(cf, s, x, true)
    {
      if KeepsTies(cf, s) {
        TiesAreAlike(cf, s, x);
      }
      ClassSorted(cf, s, x, true);
    }
    if Distinct(s) && Sorting.IsStableSort(cf, s, MergeSorted(cf, s)) {
      forall i, j | 0 <= i < j < |s| && cf(s[i], s[j]) == 0
        ensures Kept(i, j, |s|)
      {
        assert Alike(cf, s, s[j], true) && cf(s[j], s[j]) == 0;
      }
    }
  }

  lemma {:induction false} TiesAreAlike<T(!new)>(cf: (T, T) -> int, s: seq<T>, x: T)
    requires Sorting.TotalPreorder(cf) && KeepsTies(cf, s)
    ensures Alike(cf, s, x, true)
  {
    hide Kept;
    forall i, j | 0 <= i < j < |s| && cf(s[i], x) == 0 && cf(s[j], x) == 0
      ensures Kept(i, j, |s|)
    {
      assert cf(x, s[j]) <= 0 && cf(x, s[i]) <= 0;
      assert cf(s[i], s[j]) <= 0 && cf(s[j], s[i]) <= 0;
    }
  }
}
