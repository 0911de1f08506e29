/** Sums over a histogram's counts, and how far a walk over them goes that stops when it has seen the total. */
module Counts {

  function Sum(s: seq<int>): int {
    if s == [] then 0 else Sum(s[..|s| - 1]) + s[|s| - 1]
  }

  lemma {:induction false} SumUpdate(s: seq<int>, i: nat, d: int)
    requires i < |s|
    ensures Sum(s[i := s[i] + d]) == Sum(s) + d
    decreases |s|
  {
    var t := s[i := s[i] + d];
    var n := |s| - 1;
    if i == n {
      assert t[..n] == s[..n];
    } else {
      assert t[..n] == s[..n][i := s[i] + d];
      SumUpdate(s[..n], i, d);
    }
  }

  /** The sum of the first i counts. */
  function Prefix(s: seq<int>, i: nat): int
    requires i <= |s|
  {
    Sum(s[..i])
  }

  lemma {:induction false} PrefixNext(s: seq<int>, i: nat)
    requires i < |s|
    ensures Prefix(s, i + 1) == Prefix(s, i) + s[i]
    ensures Prefix(s, |s|) == Sum(s)
  {
    assert s[..i + 1][..i] == s[..i];
    assert s[..|s|] == s;
  }

  lemma {:induction false} PrefixNone(s: seq<int>)
    ensures Prefix(s, 0) == 0
  {
  }

  lemma {:induction false} PrefixWhole(s: seq<int>)
    ensures Prefix(s, |s|) == Sum(s)
  {
    assert s[..|s|] == s;
  }

  lemma {:induction false} PrefixAtMostSum(s: seq<int>, i: nat)
    requires i <= |s| && forall j :: i <= j < |s| ==> s[j] >= 0
    ensures Prefix(s, i) <= Sum(s)
    ensures Prefix(s, i) == Sum(s) ==> forall j :: i <= j < |s| ==> s[j] == 0
    decreases |s| - i
  {
    if i < |s| {
      PrefixAtMostSum(s, i + 1);
      PrefixNext(s, i);
    } else {
      assert s[..i] == s;
    }
  }

  ghost predicate NonNegative(counts: seq<int>) {
    forall i :: 0 <= i < |counts| ==> counts[i] >= 0
  }

  lemma {:induction false} Zeros(s: seq<int>)
    requires forall i :: 0 <= i < |s| ==> s[i] == 0
    ensures Sum(s) == 0
    decreases |s|
  {
    if s != [] {
      Zeros(s[..|s| - 1]);
    }
  }

  lemma {:induction false} PrefixOfZeros(s: seq<int>, m: nat, n: nat)
    requires m <= n <= |s| && forall i :: m <= i < n ==> s[i] == 0
    ensures Prefix(s, m) == Prefix(s, n)
    decreases n
  {
    if m < n {
      PrefixOfZeros(s, m, n - 1);
      PrefixNext(s, n - 1);
    }
  }

  // ---------------------------------------------------------------- the total that Import computes

  function SumOfPositive(s: seq<int>): int {
    if s == [] then 0 else SumOfPositive(s[..|s| - 1]) + (if s[|s| - 1] > 0 then s[|s| - 1] else 0)
  }

  lemma {:induction false} SumOfPositiveIsSum(s: seq<int>)
    ensures SumOfPositive(s) >= Sum(s)
    ensures SumOfPositive(s) == Sum(s) <==> NonNegative(s)
    decreases |s|
  {
    if s != [] {
      SumOfPositiveIsSum(s[..|s| - 1]);
    }
  }

  /** A negative count is missing from the total. */
  lemma {:induction false} NegativeCountIsMissed()
    ensures SumOfPositive([2, -1]) == 2 && Sum([2, -1]) == 1
  {
    assert [2, -1][..1] == [2] && [2][..0] == [];
    assert [2, -1][1..] == [-1];
  }

  lemma {:induction false} PrefixOfPositive(s: seq<int>, n: nat)
    requires n <= |s|
    ensures SumOfPositive(s[..n]) <= SumOfPositive(s)
    ensures SumOfPositive(s[..n]) == SumOfPositive(s) <==> forall j :: n <= j < |s| ==> s[j] <= 0
    decreases |s|
  {
    var k := |s| - 1;
    if n <= k {
      PrefixOfPositive(s[..k], n);
      assert s[..k][..n] == s[..n];
      assert forall j :: n <= j < k ==> s[..k][j] == s[j];
    } else {
      assert s[..n] == s;
    }
  }

  // ---------------------------------------------------------------- how far a walk goes

  /** A walk that adds up the counts has seen the total for the first time when it has read n of them. */
  ghost predicate StopsAt(counts: seq<int>, total: int, n: nat) {
    n <= |counts| && Prefix(counts, n) >= total && forall m :: 0 <= m < n ==> Prefix(counts, m) < total
  }

  /** The walk has not seen the total when there are no more counts. */
  ghost predicate RunsOff(counts: seq<int>, total: int) {
    forall n :: 0 <= n <= |counts| ==> Prefix(counts, n) < total
  }

  /** It stops at a place where it has seen more than the total. */
  ghost predicate Overshoots(counts: seq<int>, total: int) {
    exists n: nat :: StopsAt(counts, total, n) && Prefix(counts, n) > total
  }

  /** The sum of the counts is always seen; and when none is negative it is seen exactly, and the rest is empty. */
  lemma {:induction false} SumIsSeen(counts: seq<int>)
    ensures !RunsOff(counts, Sum(counts))
    ensures NonNegative(counts) ==> !Overshoots(counts, Sum(counts))
    ensures forall n: nat :: NonNegative(counts) && StopsAt(counts, Sum(counts), n) ==>
              forall i :: n <= i < |counts| ==> counts[i] == 0
  {
    PrefixWhole(counts);
    if NonNegative(counts) {
      forall n: nat | StopsAt(counts, Sum(counts), n)
        ensures Prefix(counts, n) == Sum(counts) && forall i :: n <= i < |counts| ==> counts[i] == 0
      {
        PrefixAtMostSum(counts, n);
      }
    }
  }

  /** With the total that Import computes the walk never overshoots, and it runs off exactly when there is a negative
      count before a positive one. */
  lemma {:induction false} ImportedRunsOff(s: seq<int>)
    ensures !Overshoots(s, SumOfPositive(s))
    ensures RunsOff(s, SumOfPositive(s)) <==> exists i, j :: 0 <= i < j < |s| && s[i] < 0 < s[j]
  {
    forall n: nat | n <= |s|
      ensures Prefix(s, n) <= SumOfPositive(s)
      ensures Prefix(s, n) == SumOfPositive(s) <==> NonNegative(s[..n]) && forall j :: n <= j < |s| ==> s[j] <= 0
    {
      SumOfPositiveIsSum(s[..n]);
      PrefixOfPositive(s, n);
    }
    if i, j :| 0 <= i < j < |s| && s[i] < 0 < s[j] {
      forall n: nat | n <= |s|
        ensures Prefix(s, n) < SumOfPositive(s)
      {
        if n > i {
          assert s[..n][i] < 0;
        }
      }
    } else {
      var n := FirstNegative(s);
      assert Prefix(s, n) == SumOfPositive(s);
    }
  }

  lemma {:induction false} FirstNegative(s: seq<int>) returns (n: nat)
    ensures n <= |s| && NonNegative(s[..n]) && (n < |s| ==> s[n] < 0)
  {
    n := 0;
    while n < |s| && s[n] >= 0
      invariant n <= |s| && NonNegative(s[..n])
    {
      n := n + 1;
    }
  }

  /** Counts -1 and 2 are imported with a total of 2, which is never seen. */
  lemma {:induction false} NegativeFirstRunsOff()
    ensures RunsOff([-1, 2], SumOfPositive([-1, 2]))
  {
    var s := [-1, 2];
    assert s[0] < 0 < s[1];
    ImportedRunsOff(s);
  }

  /** Counts 2 and -1 with their sum as total: the walk stops after the first, having seen one too many. */
  lemma {:induction false} NegativeLastOvershoots()
    ensures Sum([2, -1]) == 1 && Overshoots([2, -1], 1)
  {
    var s := [2, -1];
    assert s[..1] == [2] && s[..0] == [];
    assert Prefix(s, 1) == 2 && Prefix(s, 0) == 0;
    assert Sum(s) == 1;
    assert StopsAt(s, 1, 1);
  }
}
