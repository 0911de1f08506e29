/** Mutable.Replace: the first n non-overlapping matches of a pattern, replaced inside the buffer when the result
    fits its capacity. The simple left-to-right replacement is the specification. */
module Replace {

  type Byte = bv8

  // ---------------------------------------------------------------- matching

  predicate MatchAt(s: seq<Byte>, p: seq<Byte>, i: nat) {
    i + |p| <= |s| && forall k :: 0 <= k < |p| ==> s[i + k] == p[k]
  }

  /** bytes.Index: where p first occurs in s at or after `from`, or -1. */
  function IndexFrom(s: seq<Byte>, p: seq<Byte>, from: nat): (i: int)
    requires from <= |s|
    ensures -1 <= i && (i >= 0 ==> from <= i && i + |p| <= |s|)
    decreases |s| - from
  {
    if MatchAt(s, p, from) then from
    else if from == |s| then -1
    else IndexFrom(s, p, from + 1)
  }

  /** It is a match, there is no match before it, and there is none at all if it is -1. */
  lemma {:induction false} IndexFromIsFirst(s: seq<Byte>, p: seq<Byte>, from: nat)
    requires from <= |s|
    ensures var i := IndexFrom(s, p, from);
            && (i >= 0 ==> MatchAt(s, p, i))
            && (forall j: nat :: from <= j && (i < 0 || j < i) ==> !MatchAt(s, p, j))
    decreases |s| - from
  {
    if !MatchAt(s, p, from) && from < |s| {
      IndexFromIsFirst(s, p, from + 1);
    }
  }

  // ---------------------------------------------------------------- the specification

  /** The text from `from` on with its first n matches replaced; n < 0 means all of them. */
  function Replaced(s: seq<Byte>, pat: seq<Byte>, sub: seq<Byte>, n: int, from: nat): seq<Byte>
    requires from <= |s| && pat != []
    decreases |s| - from
  {
    var i := IndexFrom(s, pat, from);
    if n == 0 || i < 0 then s[from..]
    else s[from..i] + sub + Replaced(s, pat, sub, n - 1, i + |pat|)
  }

  /** Where those matches are. */
  function Matches(s: seq<Byte>, pat: seq<Byte>, n: int, from: nat): (ms: seq<nat>)
    requires from <= |s| && pat != []
    ensures Spaced(s, pat, ms, from)
    decreases |s| - from
  {
    var i := IndexFrom(s, pat, from);
    if n == 0 || i < 0 then [] else [i] + Matches(s, pat, n - 1, i + |pat|)
  }

  /** Matches in order, without overlap, from `from` on. */
  predicate Spaced(s: seq<Byte>, pat: seq<Byte>, ms: seq<nat>, from: nat)
    decreases |ms|
  {
    ms == [] || (from <= ms[0] && ms[0] + |pat| <= |s| && Spaced(s, pat, ms[1..], ms[0] + |pat|))
  }

  /** The text from `from` on with the given matches replaced. */
  function Spliced(s: seq<Byte>, pat: seq<Byte>, sub: seq<Byte>, ms: seq<nat>, from: nat): (r: seq<Byte>)
    requires from <= |s| && Spaced(s, pat, ms, from)
    decreases |ms|
  {
    if ms == [] then s[from..]
    else s[from..ms[0]] + sub + Spliced(s, pat, sub, ms[1..], ms[0] + |pat|)
  }

  /** By how much k replacements, each d longer, move what is behind them. */
  ghost function Growth(k: nat, d: int): (g: int)
    ensures (d >= 0 ==> g >= 0) && (k == 0 ==> g == 0)
  {
    k * d
  }

  lemma {:induction false} OneMore(k: nat, d: int)
    requires k > 0
    ensures Growth(k, d) == Growth(k - 1, d) + d
  {
  }

  lemma {:induction false} SplicedLength(s: seq<Byte>, pat: seq<Byte>, sub: seq<Byte>, ms: seq<nat>, from: nat)
    requires from <= |s| && Spaced(s, pat, ms, from)
    ensures |Spliced(s, pat, sub, ms, from)| == |s| - from + Growth(|ms|, |sub| - |pat|)
    decreases |ms|
  {
    if ms != [] {
      SplicedLength(s, pat, sub, ms[1..], ms[0] + |pat|);
      OneMore(|ms|, |sub| - |pat|);
    }
  }

  lemma {:induction false} SplicedIsReplaced(s: seq<Byte>, pat: seq<Byte>, sub: seq<Byte>, n: int, from: nat)
    requires from <= |s| && pat != []
    ensures Spliced(s, pat, sub, Matches(s, pat, n, from), from) == Replaced(s, pat, sub, n, from)
    decreases |s| - from
  {
    hide IndexFrom, MatchAt;
    var i := IndexFrom(s, pat, from);
    IndexFromIsFirst(s, pat, from);
    if n != 0 && i >= 0 {
      SplicedIsReplaced(s, pat, sub, n - 1, i + |pat|);
      assert Matches(s, pat, n, from)[1..] == Matches(s, pat, n - 1, i + |pat|);
    }
  }

  ghost predicate NoneBetween(s: seq<Byte>, pat: seq<Byte>, a: nat, b: int) {
    forall j: nat :: a <= j < b ==> !MatchAt(s, pat, j)
  }

  /** Each is the first match from where the one before it ends. */
  ghost predicate Leftmost(s: seq<Byte>, pat: seq<Byte>, ms: seq<nat>, from: nat)
    decreases |ms|
  {
    ms == [] || (MatchAt(s, pat, ms[0]) && NoneBetween(s, pat, from, ms[0])
                 && Leftmost(s, pat, ms[1..], ms[0] + |pat|))
  }

  /** They are the leftmost matches without overlap, and with fewer than n, or without a bound, none is left behind. */
  lemma {:induction false} MatchesAreLeftmost(s: seq<Byte>, pat: seq<Byte>, n: int, from: nat)
    requires from <= |s| && pat != []
    ensures var ms := Matches(s, pat, n, from);
            && Leftmost(s, pat, ms, from) && (n >= 0 ==> |ms| <= n)
            && (n < 0 || |ms| < n ==>
                  NoneBetween(s, pat, if ms == [] then from else ms[|ms| - 1] + |pat|, |s| + 1))
    decreases |s| - from
  {
    hide IndexFrom, MatchAt;
    var ms := Matches(s, pat, n, from);
    IndexFromIsFirst(s, pat, from);
    if ms != [] {
      MatchesAreLeftmost(s, pat, n - 1, ms[0] + |pat|);
      assert ms[1..] == Matches(s, pat, n - 1, ms[0] + |pat|);
    }
  }

  /** Replacing a pattern by itself changes nothing. */
  lemma {:induction false} ReplacedByItself(s: seq<Byte>, pat: seq<Byte>, n: int, from: nat)
    requires from <= |s| && pat != []
    ensures Replaced(s, pat, pat, n, from) == s[from..]
    decreases |s| - from
  {
    var i := IndexFrom(s, pat, from);
    IndexFromIsFirst(s, pat, from);
    if n != 0 && i >= 0 {
      ReplacedByItself(s, pat, n - 1, i + |pat|);
      assert s[i..i + |pat|] == pat;
      assert s[from..] == s[from..i] + s[i..i + |pat|] + s[i + |pat|..];
    }
  }

  lemma {:induction false} SplicedEmpty(s: seq<Byte>, pat: seq<Byte>, sub: seq<Byte>, from: nat)
    requires from <= |s|
    ensures Spaced(s, pat, [], from) && Spliced(s, pat, sub, [], from) == s[from..]
  {
  }

  /** Splicing may start anywhere before the first match. */
  lemma {:induction false} SplicedLater(s: seq<Byte>, pat: seq<Byte>, sub: seq<Byte>, ms: seq<nat>,
                                        from: nat, later: nat)
    requires from <= later <= |s| && Spaced(s, pat, ms, from) && (ms != [] ==> later <= ms[0])
    ensures Spaced(s, pat, ms, later)
    ensures Spliced(s, pat, sub, ms, from) == s[from..later] + Spliced(s, pat, sub, ms, later)
  {
    if ms == [] {
      assert s[from..] == s[from..later] + s[later..];
    } else {
      var rest := Spliced(s, pat, sub, ms[1..], ms[0] + |pat|);
      assert s[from..ms[0]] + sub + rest == s[from..later] + (s[later..ms[0]] + sub + rest);
    }
  }

  // ---------------------------------------------------------------- in place

  /** t with the bytes from i on overwritten by sub. */
  ghost function Overwritten(t: seq<Byte>, sub: seq<Byte>, i: nat): seq<Byte>
    requires i + |sub| <= |t|
  {
    t[..i] + sub + t[i + |sub|..]
  }

  /** The built-in copy: the ranges may overlap. */
  method Copy(a: array<Byte>, dst: nat, src: nat, n: nat)
    requires dst + n <= a.Length && src + n <= a.Length
    modifies a
    ensures a[..] == Overwritten(old(a[..]), old(a[src..src + n]), dst)
  {
    forall i | 0 <= i < n {
      a[dst + i] := a[src + i];
    }
  }

  method CopyIn(a: array<Byte>, dst: nat, bytes: seq<Byte>)
    requires dst + |bytes| <= a.Length
    modifies a
    ensures a[..] == Overwritten(old(a[..]), bytes, dst)
  {
    forall i | 0 <= i < |bytes| {
      a[dst + i] := bytes[i];
    }
  }

  lemma {:induction false} OverwrittenWithin(t: seq<Byte>, sub: seq<Byte>, i: nat, len: nat)
    requires i + |sub| <= len <= |t|
    ensures Overwritten(t, sub, i)[..len] == Overwritten(t[..len], sub, i)
    ensures Overwritten(t, sub, i)[len..] == t[len..]
  {
  }

  /** t is the text with everything before `start` done, and `rest` is what the remainder, still that of s, is to
      become. */
  ghost predicate DoneUpTo(s: seq<Byte>, t: seq<Byte>, start: nat, rest: seq<Byte>, goal: seq<Byte>) {
    |t| == |s| && start <= |s| && t[start..] == s[start..] && t[..start] + rest == goal
  }

  lemma {:induction false} OverwriteMatch(s: seq<Byte>, t: seq<Byte>, sub: seq<Byte>, start: nat, i: nat,
                                          rest: seq<Byte>, goal: seq<Byte>)
    requires start <= i && i + |sub| <= |s| && DoneUpTo(s, t, start, s[start..i] + sub + rest, goal)
    ensures DoneUpTo(s, Overwritten(t, sub, i), i + |sub|, rest, goal)
  {
    assert t[i + |sub|..] == t[start..][i + |sub| - start..];
    assert s[i + |sub|..] == s[start..][i + |sub| - start..];
    assert t[start..i] == t[start..][..i - start] == s[start..][..i - start] == s[start..i];
    assert t[..i] == t[..start] + t[start..i];
    assert Overwritten(t, sub, i)[..i + |sub|] == t[..start] + s[start..i] + sub;
  }

  /** Searching only looks at the text from where it starts. */
  lemma {:induction false} IndexInSuffix(s: seq<Byte>, t: seq<Byte>, p: seq<Byte>, from: nat)
    requires |s| == |t| && from <= |s| && s[from..] == t[from..]
    ensures IndexFrom(s, p, from) == IndexFrom(t, p, from)
    decreases |s| - from
  {
    forall j | from <= j < |s|
      ensures s[j] == t[j]
    {
      assert s[from..][j - from] == t[from..][j - from];
    }
    if from < |s| {
      assert s[from + 1..] == s[from..][1..];
      assert t[from + 1..] == t[from..][1..];
      IndexInSuffix(s, t, p, from + 1);
    }
  }

  lemma {:induction false} ReplacedNext(s: seq<Byte>, pat: seq<Byte>, sub: seq<Byte>, n: int, from: nat)
    requires from <= |s| && pat != []
    ensures var i := IndexFrom(s, pat, from);
            Replaced(s, pat, sub, n, from) == if n == 0 || i < 0 then s[from..]
                                              else s[from..i] + sub + Replaced(s, pat, sub, n - 1, i + |pat|)
  {
  }

  /** Replacing by something of the same length: each match is overwritten, and the search goes on behind it. */
  method ReplaceSameLength(a: array<Byte>, len: nat, pat: seq<Byte>, sub: seq<Byte>, n: int)
    requires len <= a.Length && pat != [] && |sub| == |pat|
    modifies a
    ensures a[..len] == old(Replaced(a[..len], pat, sub, n, 0)) && a[len..] == old(a[len..])
  {
    hide IndexFrom, Replaced;
    ghost var s := a[..len];
    ghost var goal := Replaced(s, pat, sub, n, 0);
    var replaced := 0;
    var start := 0;
    while replaced < n || n < 0
      invariant 0 <= start <= len && (n >= 0 ==> replaced <= n)
      invariant DoneUpTo(s, a[..len], start, Replaced(s, pat, sub, n - replaced, start), goal)
      invariant a[len..] == old(a[len..])
      decreases len - start
    {
      ghost var (all, t) := (a[..], a[..len]);
      ReplacedNext(s, pat, sub, n - replaced, start);
      IndexInSuffix(t, s, pat, start);
      var idx := IndexFrom(a[..len], pat, start);
      if idx < 0 {
        break;
      }
      OverwriteMatch(s, t, sub, start, idx, Replaced(s, pat, sub, n - replaced - 1, idx + |pat|), goal);
      CopyIn(a, idx, sub);
      OverwrittenWithin(all, sub, idx, len);
      assert a[..len] == a[..][..len] && all[..len] == t;
      assert a[len..] == a[..][len..] && all[len..] == old(a[len..]);
      start, replaced := idx + |sub|, replaced + 1;
    }
    ReplacedNext(s, pat, sub, n - replaced, start);
    assert a[..len] == a[..len][..start] + a[..len][start..];
  }

  // ---------------------------------------------------------------- growing: from the back

  lemma {:induction false} MatchesNext(s: seq<Byte>, pat: seq<Byte>, n: int, from: nat)
    requires from <= |s| && pat != []
    ensures var i := IndexFrom(s, pat, from);
            Matches(s, pat, n, from) == if n == 0 || i < 0 then [] else [i] + Matches(s, pat, n - 1, i + |pat|)
    ensures from == |s| ==> Matches(s, pat, n, from) == []
  {
  }

  /** Each match ends where or before the next one starts. */
  lemma {:induction false} SpacedFrom(s: seq<Byte>, pat: seq<Byte>, ms: seq<nat>, from: nat, k: nat)
    requires Spaced(s, pat, ms, from) && 0 < k <= |ms|
    ensures from <= ms[k - 1] && ms[k - 1] + |pat| <= |s|
    ensures Spaced(s, pat, ms[k - 1..], ms[k - 1]) && Spaced(s, pat, ms[k..], ms[k - 1] + |pat|)
    decreases k
  {
    if k == 1 {
      assert ms[0..] == ms;
    } else {
      SpacedFrom(s, pat, ms[1..], ms[0] + |pat|, k - 1);
      assert ms[1..][k - 2..] == ms[k - 1..] && ms[1..][k - 1..] == ms[k..];
    }
  }

  lemma {:induction false} SplicedFirst(s: seq<Byte>, pat: seq<Byte>, sub: seq<Byte>, ms: seq<nat>)
    requires ms != [] && ms[0] + |pat| <= |s| && Spaced(s, pat, ms, ms[0])
    ensures Spliced(s, pat, sub, ms, ms[0]) == sub + Spliced(s, pat, sub, ms[1..], ms[0] + |pat|)
  {
    assert s[ms[0]..ms[0]] == [];
  }

  /** The finished back of the text, extended over one more match. */
  lemma {:induction false} SplicedBack(s: seq<Byte>, pat: seq<Byte>, sub: seq<Byte>, ms: seq<nat>, k: nat, readPos: nat)
    requires 0 < k <= |ms| && readPos <= |s| && Spaced(s, pat, ms, 0) && Spaced(s, pat, ms[k..], readPos)
    requires readPos == if k < |ms| then ms[k] else |s|
    ensures var v := ms[k - 1];
            && v + |pat| <= readPos && Spaced(s, pat, ms[k - 1..], v)
            && Spliced(s, pat, sub, ms[k - 1..], v)
               == sub + (s[v + |pat|..readPos] + Spliced(s, pat, sub, ms[k..], readPos))
  {
    hide Spaced, Spliced;
    var v := ms[k - 1];
    SpacedFrom(s, pat, ms, 0, k);
    SplicedLater(s, pat, sub, ms[k..], v + |pat|, readPos);
    assert ms[k - 1..][1..] == ms[k..] && ms[k - 1..][0] == v;
    SplicedFirst(s, pat, sub, ms[k - 1..]);
  }

  /** All matches, before anything is moved. */
  method FindMatches(a: array<Byte>, len: nat, pat: seq<Byte>, n: int) returns (ms: seq<nat>)
    requires len <= a.Length && pat != []
    ensures ms == Matches(a[..len], pat, n, 0)
  {
    hide IndexFrom, Matches, Spaced;
    ms := [];
    var start := 0;
    while |ms| < n || n < 0
      invariant 0 <= start <= len && (n >= 0 ==> |ms| <= n)
      invariant ms + Matches(a[..len], pat, n - |ms|, start) == Matches(a[..len], pat, n, 0)
      decreases len - start
    {
      MatchesNext(a[..len], pat, n - |ms|, start);
      var idx := IndexFrom(a[..len], pat, start);
      if idx < 0 {
        break;
      }
      ms, start := ms + [idx], idx + |pat|;
    }
    MatchesNext(a[..len], pat, n - |ms|, start);
  }

  /** How many there are: what Replace counts first. */
  method CountMatches(a: array<Byte>, len: nat, pat: seq<Byte>, n: int) returns (count: nat)
    requires len <= a.Length && pat != []
    ensures count == |Matches(a[..len], pat, n, 0)|
  {
    hide IndexFrom, Matches, Spaced;
    count := 0;
    var start := 0;
    while start < len
      invariant 0 <= start <= len && (n >= 0 ==> count <= n)
      invariant count + |Matches(a[..len], pat, n - count, start)| == |Matches(a[..len], pat, n, 0)|
      decreases len - start
    {
      MatchesNext(a[..len], pat, n - count, start);
      if n >= 0 && count >= n {
        return;
      }
      var idx := IndexFrom(a[..len], pat, start);
      if idx < 0 {
        return;
      }
      count, start := count + 1, idx + |pat|;
    }
    MatchesNext(a[..len], pat, n - count, start);
  }

  /** Two writes next to each other, the later one in front. */
  lemma {:induction false} OverwrittenTwice(t: seq<Byte>, mid: seq<Byte>, sub: seq<Byte>, at: nat, v: nat, end: nat)
    requires v <= at && at + |sub| + |mid| <= end <= |t|
    ensures var r := Overwritten(Overwritten(t, mid, at + |sub|), sub, at);
            && r[..v] == t[..v] && r[end..] == t[end..]
            && r[at..end] == sub + (mid + t[at + |sub| + |mid|..end])
  {
    var r := Overwritten(Overwritten(t, mid, at + |sub|), sub, at);
    var written := sub + (mid + t[at + |sub| + |mid|..end]);
    assert r == (t[..at] + written) + t[end..];
    hide Overwritten;
    assert |t[..at]| == at && |written| == end - at;
  }

  /** From buffer t to buffer r: the text behind match v up to readPos has been put in front of writePos, and the
      replacement in front of that, at `at`. */
  ghost predicate MatchMoved(t: seq<Byte>, r: seq<Byte>, pat: seq<Byte>, sub: seq<Byte>, v: nat,
                             readPos: nat, writePos: nat, newLen: nat, at: nat) {
    && v + |pat| <= readPos <= writePos <= newLen <= |t| == |r|
    && at == writePos - (readPos - v - |pat|) - |sub| && v <= at
    && r[..v] == t[..v]
    && r[at..newLen] == sub + (t[v + |pat|..readPos] + t[writePos..newLen])
  }

  /** One match from the back: what follows it moves to its final place, and the replacement goes before that. */
  method MoveMatch(a: array<Byte>, pat: seq<Byte>, sub: seq<Byte>, v: nat, readPos: nat, writePos: nat, newLen: nat)
    returns (at: nat)
    requires v + |pat| <= readPos <= writePos <= newLen <= a.Length && v + |sub| <= writePos - (readPos - v - |pat|)
    modifies a
    ensures MatchMoved(old(a[..]), a[..], pat, sub, v, readPos, writePos, newLen, at)
    ensures a[..][newLen..] == old(a[..])[newLen..]
  {
    hide Overwritten;
    var copyLen := readPos - (v + |pat|);
    var to := writePos - copyLen;
    ghost var t := a[..];
    ghost var mid := t[v + |pat|..readPos];
    assert mid == a[v + |pat|..readPos];
    Copy(a, to, v + |pat|, copyLen);
    at := to - |sub|;
    CopyIn(a, at, sub);
    OverwrittenTwice(t, mid, sub, at, v, newLen);
    assert at + |sub| + |mid| == writePos;
  }

  /** In buffer t the matches from the k-th on are done: the replaced text behind readPos stands at the end, and
      everything before readPos is still that of s. */
  ghost predicate BackDone(s: seq<Byte>, pat: seq<Byte>, sub: seq<Byte>, ms: seq<nat>, k: nat,
                           t: seq<Byte>, readPos: nat, writePos: nat, newLen: nat) {
    && k <= |ms| && Spaced(s, pat, ms, 0) && |pat| <= |sub|
    && readPos == (if k < |ms| then ms[k] else |s|) && readPos <= |s|
    && Spaced(s, pat, ms[k..], readPos)
    && writePos == readPos + Growth(k, |sub| - |pat|) && writePos <= newLen <= |t|
    && t[..readPos] == s[..readPos]
    && t[writePos..newLen] == Spliced(s, pat, sub, ms[k..], readPos)
  }

  lemma {:induction false} BackStart(s: seq<Byte>, pat: seq<Byte>, sub: seq<Byte>, ms: seq<nat>,
                                     t: seq<Byte>, newLen: nat)
    requires Spaced(s, pat, ms, 0) && |pat| <= |sub| && |s| <= newLen <= |t| && t[..|s|] == s
    requires newLen == |s| + Growth(|ms|, |sub| - |pat|)
    ensures BackDone(s, pat, sub, ms, |ms|, t, |s|, newLen, newLen)
  {
    assert ms[|ms|..] == [];
    SplicedEmpty(s, pat, sub, |s|);
  }

  /** There is room to move the next match, and when it is moved one more is done. */
  lemma {:induction false} BackStep(s: seq<Byte>, pat: seq<Byte>, sub: seq<Byte>, ms: seq<nat>, k: nat,
                                    t: seq<Byte>, readPos: nat, writePos: nat, newLen: nat)
    requires BackDone(s, pat, sub, ms, k, t, readPos, writePos, newLen) && k > 0
    ensures var v := ms[k - 1];
            && v + |pat| <= readPos <= writePos && v + |sub| <= writePos - (readPos - v - |pat|)
            && forall r: seq<Byte>, at: nat ::
                 MatchMoved(t, r, pat, sub, v, readPos, writePos, newLen, at)
                 ==> BackDone(s, pat, sub, ms, k - 1, r, v, at, newLen)
  {
    hide Growth, Spaced, Spliced;
    var v := ms[k - 1];
    SplicedBack(s, pat, sub, ms, k, readPos);
    OneMore(k, |sub| - |pat|);
    assert t[..v] == t[..readPos][..v] == s[..v];
    assert t[v + |pat|..readPos] == t[..readPos][v + |pat|..] == s[v + |pat|..readPos];
  }

  lemma {:induction false} BackEnd(s: seq<Byte>, pat: seq<Byte>, sub: seq<Byte>, n: int, ms: seq<nat>,
                                   t: seq<Byte>, readPos: nat, newLen: nat)
    requires pat != [] && ms == Matches(s, pat, n, 0) && BackDone(s, pat, sub, ms, 0, t, readPos, readPos, newLen)
    ensures t[..newLen] == Replaced(s, pat, sub, n, 0)
  {
    hide Spaced, Spliced, Replaced, Matches;
    assert ms[0..] == ms;
    SplicedLater(s, pat, sub, ms, 0, readPos);
    SplicedIsReplaced(s, pat, sub, n, 0);
    assert t[..newLen] == t[..readPos] + t[readPos..newLen];
  }

  method ReplaceGrowing(a: array<Byte>, len: nat, pat: seq<Byte>, sub: seq<Byte>, n: int, newLen: nat)
    requires len <= newLen <= a.Length && pat != [] && |sub| > |pat|
    requires newLen == len + Growth(|Matches(a[..len], pat, n, 0)|, |sub| - |pat|)
    modifies a
    ensures a[..newLen] == old(Replaced(a[..len], pat, sub, n, 0)) && a[newLen..] == old(a[newLen..])
  {
    hide IndexFrom, Matches, Replaced, Spaced, Spliced, Growth;
    ghost var s := a[..len];
    var ms := FindMatches(a, len, pat, n);
    var writePos, readPos := newLen, len;
    var k := |ms|;
    assert a[..][..len] == s;
    BackStart(s, pat, sub, ms, a[..], newLen);
    while k > 0
      invariant 0 <= k <= |ms| && BackDone(s, pat, sub, ms, k, a[..], readPos, writePos, newLen)
      invariant a[..][newLen..] == old(a[newLen..])
    {
      var v := ms[k - 1];
      BackStep(s, pat, sub, ms, k, a[..], readPos, writePos, newLen);
      hide BackDone;
      writePos := MoveMatch(a, pat, sub, v, readPos, writePos, newLen);
      readPos, k := v, k - 1;
    }
    BackEnd(s, pat, sub, n, ms, a[..], readPos, newLen);
    ghost var t := a[..];
    if readPos > 0 {
      Copy(a, 0, 0, readPos);
      assert a[..] == t;
    }
    assert a[..newLen] == t[..newLen];
    assert a[newLen..] == t[newLen..];
  }

  // ---------------------------------------------------------------- the buffer

  class Mutable {
    var buf: array<Byte>
    var len: nat

    ghost predicate Valid() reads this {
      len <= buf.Length
    }

    ghost function Bytes(): seq<Byte> reads this, buf requires Valid() {
      buf[..len]
    }

    constructor (bytes: seq<Byte>, capacity: nat)
      requires |bytes| <= capacity
      ensures Valid() && fresh(buf) && buf.Length == capacity && Bytes() == bytes
    {
      buf := new Byte[capacity](i => if 0 <= i < |bytes| then bytes[i] else 0);
      len := |bytes|;
    }

    /** bytes.Replace: the result in new storage. */
    static method ReplacedCopy(a: array<Byte>, len: nat, pat: seq<Byte>, sub: seq<Byte>, n: int)
      returns (b: array<Byte>)
      requires len <= a.Length && pat != []
      ensures fresh(b) && b[..] == Replaced(a[..len], pat, sub, n, 0)
    {
      var r := Replaced(a[..len], pat, sub, n, 0);
      b := new Byte[|r|](i requires 0 <= i < |r| => r[i]);
    }

    /** Whether the result fits where the text is, or there is nothing to do. */
    ghost predicate InPlace(pat: seq<Byte>, sub: seq<Byte>, n: int)
      reads this, buf
      requires Valid()
    {
      || n == 0 || pat == [] || Matches(Bytes(), pat, n, 0) == []
      || (|sub| >= |pat| && |Replaced(Bytes(), pat, sub, n, 0)| <= buf.Length)
    }

    /** The text becomes its simple replacement; the storage stays iff the result fits and is no shorter, and no byte
        behind the result is written then. */
    method Replace(pat: seq<Byte>, sub: seq<Byte>, n: int)
      requires Valid()
      modifies this, buf
      ensures Valid()
      ensures Bytes() == if pat == [] then old(Bytes()) else old(Replaced(Bytes(), pat, sub, n, 0))
      ensures buf == old(buf) <==> old(InPlace(pat, sub, n))
      ensures buf != old(buf) ==> fresh(buf) && old(buf)[..] == old(buf[..])
      ensures buf == old(buf) ==> old(len) <= len && buf[len..] == old(buf[..])[len..]
    {
      if n == 0 || |pat| == 0 {
        return;
      }
      hide IndexFrom, Matches, Replaced, Spaced, Spliced;
      ghost var s := buf[..len];
      var count := CountMatches(buf, len, pat, n);
      SplicedIsReplaced(s, pat, sub, n, 0);
      SplicedLength(s, pat, sub, Matches(s, pat, n, 0), 0);
      if count == 0 {
        SplicedEmpty(s, pat, sub, 0);
        return;
      }
      var newLen := len + count * (|sub| - |pat|);
      if |sub| >= |pat| && newLen <= buf.Length {
        if |sub| == |pat| {
          ReplaceSameLength(buf, len, pat, sub, n);
        } else {
          ReplaceGrowing(buf, len, pat, sub, n, newLen);
        }
        len := newLen;
        return;
      }
      buf := ReplacedCopy(buf, len, pat, sub, n);
      len := buf.Length;
    }
  }
}
