/** Sequences turned round, mapped, and picked from by index. */
module Sequences {
  import opened Links

  function Reversed<T>(s: seq<T>): (r: seq<T>)
    ensures |r| == |s|
  {
    if s == [] then [] else [s[|s| - 1]] + Reversed(s[..|s| - 1])
  }

  lemma {:induction false} ReversedEmpty<T>()
    ensures Reversed<T>([]) == []
  {
  }

  lemma {:induction false} ReversedSlice<T>(s: seq<T>, a: nat, b: nat)
    requires a < b <= |s|
    ensures Reversed(s[a..b]) == [s[b - 1]] + Reversed(s[a..b - 1])
  {
    assert s[a..b][..b - a - 1] == s[a..b - 1];
  }

  // ---------------------------------------------------------------- picking by index

  function Count(s: seq<nat>, i: nat): nat {
    multiset(s)[i]
  }

  lemma {:induction false} CountMore(s: seq<nat>, x: nat, i: nat)
    ensures Count(s + [x], i) == Count(s, i) + if x == i then 1 else 0
  {
  }

  function Map<A, B>(op: A -> B, s: seq<A>): seq<B> {
    seq(|s|, i requires 0 <= i < |s| => op(s[i]))
  }

  predicate Within(idx: seq<nat>, n: nat) {
    forall k :: 0 <= k < |idx| ==> idx[k] < n
  }

  function Picked<A>(input: seq<A>, idx: seq<nat>): seq<A>
    requires Within(idx, |input|)
  {
    seq(|idx|, k requires 0 <= k < |idx| => input[idx[k]])
  }

  lemma {:induction false} RemoveOne<A>(s: seq<A>, k: nat)
    requires k < |s|
    ensures multiset(s) == multiset(Without(s, k)) + multiset{s[k]}
  {
    assert s == s[..k] + [s[k]] + s[k + 1..];
  }

  lemma {:induction false} CountWithout(s: seq<nat>, k: nat, i: nat)
    requires k < |s|
    ensures Count(Without(s, k), i) == Count(s, i) - if s[k] == i then 1 else 0
  {
    RemoveOne(s, k);
  }

  lemma {:induction false} FindOne(s: seq<nat>, i: nat) returns (k: nat)
    requires Count(s, i) > 0
    ensures k < |s| && s[k] == i
  {
    assert i in multiset(s);
    k :| 0 <= k < |s| && s[k] == i;
  }

  lemma {:induction false} CountMember(s: seq<nat>, k: nat)
    requires k < |s|
    ensures Count(s, s[k]) > 0
  {
    assert s[k] in multiset(s);
  }

  lemma {:induction false} NoMembers(s: seq<nat>)
    requires forall i: nat :: Count(s, i) == 0
    ensures s == []
  {
    if s != [] {
      CountMember(s, 0);
    }
  }

  lemma {:induction false} PermutationPicksAll<A>(input: seq<A>, idx: seq<nat>, n: nat)
    requires n <= |input| && forall i: nat :: Count(idx, i) == if i < n then 1 else 0
    ensures Within(idx, |input|) && multiset(Picked(input, idx)) == multiset(input[..n])
  {
    hide Count;
    forall k | 0 <= k < |idx|
      ensures idx[k] < n
    {
      CountMember(idx, k);
    }
    if n == 0 {
      NoMembers(idx);
    } else {
      var k := FindOne(idx, n - 1);
      var rest := Without(idx, k);
      forall i: nat
        ensures Count(rest, i) == if i < n - 1 then 1 else 0
      {
        CountWithout(idx, k, i);
      }
      PermutationPicksAll(input, rest, n - 1);
      var all := Picked(input, idx);
      RemoveOne(all, k);
      assert Without(all, k) == Picked(input, rest);
      assert input[..n] == input[..n - 1] + [input[n - 1]];
    }
  }
}
