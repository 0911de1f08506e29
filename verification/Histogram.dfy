/** The histogram itself: recording, iterating, quantiles, merging, and the round trip through a snapshot. */
module Histogram {
  import opened Counts
  import opened HdrIndex
  import opened Wrappers

  // ---------------------------------------------------------------- counting

  /** How many elements are below i. */
  function CountBelow(s: seq<int>, i: int): nat {
    if s == [] then 0 else CountBelow(s[1..], i) + (if s[0] < i then 1 else 0)
  }

  lemma {:induction false} CountBelowAppend(a: seq<int>, b: seq<int>, i: int)
    ensures CountBelow(a + b, i) == CountBelow(a, i) + CountBelow(b, i)
    decreases |a|
  {
    if a == [] {
      assert a + b == b;
    } else {
      assert (a + b)[1..] == a[1..] + b;
      CountBelowAppend(a[1..], b, i);
    }
  }

  function Repeat<A>(v: A, n: nat): (s: seq<A>) {
    seq(n, _ => v)
  }

  /** What `len` counts are after hitting the given slots one by one. */
  ghost function TallyOf(len: nat, slots: seq<int>): (counts: seq<int>)
    ensures |counts| == len
    decreases |slots|
  {
    if slots == [] then seq(len, _ => 0)
    else
      var n := |slots| - 1;
      var counts := TallyOf(len, slots[..n]);
      var k := slots[n];
      if 0 <= k < len then counts[k := counts[k] + 1] else counts
  }

  lemma {:induction false} TallyOfNext(len: nat, slots: seq<int>, k: int)
    requires 0 <= k < len
    ensures var counts := TallyOf(len, slots); TallyOf(len, slots + [k]) == counts[k := counts[k] + 1]
  {
    assert (slots + [k])[..|slots|] == slots;
  }

  lemma {:induction false} TallyOfRepeat(len: nat, slots: seq<int>, k: int, n: nat)
    requires 0 <= k < len
    ensures var counts := TallyOf(len, slots);
            TallyOf(len, slots + Repeat(k, n)) == counts[k := counts[k] + n]
  {
    hide TallyOf;
    if n == 0 {
      assert slots + Repeat(k, n) == slots;
    } else {
      TallyOfRepeat(len, slots, k, n - 1);
      assert slots + Repeat(k, n) == (slots + Repeat(k, n - 1)) + [k];
      TallyOfNext(len, slots + Repeat(k, n - 1), k);
    }
  }

  /** A count says how often its index occurs, so a prefix sum says how many slots are below. */
  lemma {:induction false} TallyPrefix(len: nat, slots: seq<int>, i: nat)
    requires i <= len && forall j :: 0 <= j < |slots| ==> slots[j] >= 0
    ensures Prefix(TallyOf(len, slots), i) == CountBelow(slots, i)
    ensures forall j :: 0 <= j < len ==> TallyOf(len, slots)[j] >= 0
    decreases |slots|
  {
    if slots == [] {
      Zeros(TallyOf(len, slots)[..i]);
    } else {
      var n := |slots| - 1;
      var k := slots[n];
      var counts := TallyOf(len, slots[..n]);
      TallyPrefix(len, slots[..n], i);
      assert slots == slots[..n] + [k];
      CountBelowAppend(slots[..n], [k], i);
      if k < i {
        assert counts[k := counts[k] + 1][..i] == counts[..i][k := counts[k] + 1];
        SumUpdate(counts[..i], k, 1);
      } else if k < len {
        assert counts[k := counts[k] + 1][..i] == counts[..i];
      }
    }
  }

  // ---------------------------------------------------------------- order statistics

  /** x is the r-th smallest of the values: fewer than r are below it, and at least r are not above it. */
  ghost predicate IsOrderStatistic(values: seq<int>, r: int, x: int) {
    CountBelow(values, x) < r <= CountBelow(values, x + 1)
  }

  lemma {:induction false} CountBelowMono(s: seq<int>, i: int, j: int)
    requires i <= j
    ensures CountBelow(s, i) <= CountBelow(s, j) <= |s|
    ensures CountBelow(s, i) < CountBelow(s, i + 1) ==> i in s
  {
    if s != [] {
      CountBelowMono(s[1..], i, j);
      CountBelowMono(s[1..], i, i + 1);
    }
  }

  lemma {:induction false} CountBelowExtremes(s: seq<int>, lo: int, hi: int)
    requires forall i :: 0 <= i < |s| ==> lo <= s[i] < hi
    ensures CountBelow(s, lo) == 0 && CountBelow(s, hi) == |s|
  {
    if s != [] {
      CountBelowExtremes(s[1..], lo, hi);
    }
  }

  ghost predicate IsLargest(values: seq<int>, x: int) {
    x in values && forall i :: 0 <= i < |values| ==> values[i] <= x
  }

  ghost predicate IsSmallest(values: seq<int>, x: int) {
    x in values && forall i :: 0 <= i < |values| ==> x <= values[i]
  }

  lemma {:induction false} AllOrNoneBelow(s: seq<int>, i: int, j: nat)
    requires j < |s|
    ensures CountBelow(s, i) <= |s|
    ensures CountBelow(s, i) == |s| ==> s[j] < i
    ensures CountBelow(s, i) == 0 ==> i <= s[j]
  {
    CountBelowMono(s[1..], i, i);
    if j > 0 {
      AllOrNoneBelow(s[1..], i, j - 1);
    }
  }

  lemma {:induction false} TopRankIsLargest(values: seq<int>, x: int)
    requires x in values && IsOrderStatistic(values, |values|, x)
    ensures IsLargest(values, x)
  {
    forall j | 0 <= j < |values|
      ensures values[j] <= x
    {
      AllOrNoneBelow(values, x + 1, j);
    }
  }

  lemma {:induction false} FirstRankIsSmallest(values: seq<int>, x: int)
    requires x in values && IsOrderStatistic(values, 1, x)
    ensures IsSmallest(values, x)
  {
    forall j | 0 <= j < |values|
      ensures x <= values[j]
    {
      AllOrNoneBelow(values, x, j);
    }
  }

  /** Every rank from 1 to the number of values has exactly one order statistic, and it is one of the values. */
  lemma {:induction false} OrderStatisticExists(values: seq<int>, r: int, lo: int, hi: int) returns (x: int)
    requires CountBelow(values, lo) < r <= CountBelow(values, hi)
    ensures IsOrderStatistic(values, r, x) && x in values
    ensures forall y :: IsOrderStatistic(values, r, y) ==> y == x
    decreases hi - lo
  {
    if lo + 1 >= hi {
      CountBelowMono(values, hi, lo + 1);
      x := lo;
      CountBelowMono(values, x, x);
      forall y | IsOrderStatistic(values, r, y)
        ensures y == x
      {
        if y < x {
          CountBelowMono(values, y + 1, x);
        } else if y > x {
          CountBelowMono(values, x + 1, y);
        }
      }
    } else if CountBelow(values, lo + 1) < r {
      x := OrderStatisticExists(values, r, lo + 1, hi);
    } else {
      x := OrderStatisticExists(values, r, lo, lo + 1);
    }
  }

  // ---------------------------------------------------------------- values and their slots

  function Slots(c: Config, values: seq<nat>): (s: seq<int>)
    ensures |s| == |values|
  {
    seq(|values|, i requires 0 <= i < |values| => c.Index(values[i]))
  }

  lemma {:induction false} SlotsAppend(c: Config, a: seq<nat>, v: nat, n: nat)
    ensures Slots(c, a + Repeat(v, n)) == Slots(c, a) + Repeat(c.Index(v), n)
  {
  }

  /** The counts are exactly those of the recorded values. */
  ghost predicate IsTallyOf(c: Config, counts: seq<int>, total: int, recorded: seq<nat>) {
    counts == TallyOf(|counts|, Slots(c, recorded)) && |recorded| == total
  }

  lemma {:induction false} RecordTally(c: Config, counts: seq<int>, total: int, recorded: seq<nat>, v: nat, n: nat)
    requires IsTallyOf(c, counts, total, recorded) && 0 <= c.Index(v) < |counts|
    ensures var k := c.Index(v);
            IsTallyOf(c, counts[k := counts[k] + n], total + n, recorded + Repeat(v, n))
  {
    SlotsAppend(c, recorded, v, n);
    TallyOfRepeat(|counts|, Slots(c, recorded), c.Index(v), n);
  }

  lemma {:induction false} TallyMeans(c: Config, counts: seq<int>, total: int, recorded: seq<nat>, i: nat)
    requires c.bucketCount >= 1 && IsTallyOf(c, counts, total, recorded) && i <= |counts|
    ensures Prefix(counts, i) == CountBelow(Slots(c, recorded), i)
    ensures NonNegative(counts)
  {
    forall j | 0 <= j < |recorded|
      ensures c.Index(recorded[j]) >= 0
    {
      c.FitsBelowLimit(recorded[j]);
    }
    TallyPrefix(|counts|, Slots(c, recorded), i);
  }

  /** Counting slots around the slot of x compares with counting values around x. */
  lemma {:induction false} SlotsAroundValue(c: Config, values: seq<nat>, x: nat)
    ensures CountBelow(Slots(c, values), c.Index(x)) <= CountBelow(values, x)
    ensures CountBelow(values, x + 1) <= CountBelow(Slots(c, values), c.Index(x) + 1)
  {
    if values != [] {
      assert Slots(c, values)[1..] == Slots(c, values[1..]);
      SlotsAroundValue(c, values[1..], x);
      if values[0] <= x {
        c.IndexMono(values[0], x);
      } else {
        c.IndexMono(x, values[0]);
      }
    }
  }

  /** The slot of the r-th smallest value is where the running count first reaches r. */
  lemma {:induction false} RankSlot(c: Config, counts: seq<int>, values: seq<nat>, r: int, x: nat, i: nat)
    requires c.bucketCount >= 1 && IsTallyOf(c, counts, |values|, values) && IsOrderStatistic(values, r, x)
    requires i < |counts| && Prefix(counts, i) < r <= Prefix(counts, i + 1)
    ensures c.Index(x) == i
  {
    var slots := Slots(c, values);
    TallyMeans(c, counts, |values|, values, i);
    TallyMeans(c, counts, |values|, values, i + 1);
    SlotsAroundValue(c, values, x);
    if c.Index(x) < i {
      CountBelowMono(slots, c.Index(x) + 1, i);
    }
    if i < c.Index(x) {
      CountBelowMono(slots, i + 1, c.Index(x));
    }
  }

  /** Each slot's lowest value as many times as the slot counts. */
  ghost function Expanded(c: Config, counts: seq<int>): seq<nat> {
    if counts == [] then []
    else
      var n := |counts| - 1;
      Expanded(c, counts[..n]) + Repeat(SlotValue(c, n), Max(0, counts[n]))
  }

  lemma {:induction false} IndexOfSlotValue(c: Config, i: nat)
    ensures c.Index(SlotValue(c, i)) == i
  {
    c.ValueAtIndex(i);
  }

  /** Recorded one by one they give these counts. */
  lemma {:induction false} ExpandedSlots(c: Config, counts: seq<int>, len: nat)
    requires |counts| <= len && NonNegative(counts)
    ensures TallyOf(len, Slots(c, Expanded(c, counts))) == counts + seq(len - |counts|, _ => 0)
    ensures |Expanded(c, counts)| == Sum(counts)
    decreases |counts|
  {
    hide Config.Index, SlotValue;
    if counts != [] {
      var n := |counts| - 1;
      IndexOfSlotValue(c, n);
      var (before, v) := (Expanded(c, counts[..n]), SlotValue(c, n));
      ExpandedSlots(c, counts[..n], len);
      SlotsAppend(c, before, v, counts[n]);
      TallyOfRepeat(len, Slots(c, before), n, counts[n]);
    }
  }

  lemma {:induction false} ExpandedTally(c: Config, counts: seq<int>)
    requires NonNegative(counts)
    ensures IsTallyOf(c, counts, Sum(counts), Expanded(c, counts))
  {
    ExpandedSlots(c, counts, |counts|);
  }

  /** The lowest value of the i-th slot. */
  function SlotValue(c: Config, i: nat): nat {
    var (b, s) := c.PairOf(i);
    c.ValueFromIndex(b, s)
  }

  lemma {:induction false} HighestIsNatural(c: Config, i: nat)
    ensures c.Highest(SlotValue(c, i)) >= 0
  {
    c.SameIndexIffEquivalent(SlotValue(c, i), SlotValue(c, i));
  }

  function EndOfSlot(c: Config, i: nat): nat {
    HighestIsNatural(c, i);
    c.Highest(SlotValue(c, i))
  }

  lemma {:induction false} SlotValueEquivalent(c: Config, i: nat, x: nat)
    requires c.Index(x) == i
    ensures var v := SlotValue(c, i);
            && c.Highest(v) >= v && c.Lowest(v) == c.Lowest(x) && c.Highest(v) == c.Highest(x)
            && c.Highest(c.Highest(v)) == c.Highest(x) && c.Lowest(c.Highest(v)) == c.Lowest(x)
  {
    var v := SlotValue(c, i);
    c.ValueAtIndex(i);
    c.SameIndexIffEquivalent(v, x);
    c.SameIndexIffEquivalent(v, c.Highest(v));
    c.SameIndexIffEquivalent(v, v);
  }

  // ---------------------------------------------------------------- the object

  datatype Snapshot = Snapshot(lowest: int, highest: int, sigfigs: int, counts: seq<int>)

  /** New, with null standing for its panic. */
  method New(lowest: int, highest: int, sigfigs: int) returns (h: Hist?)
    requires InRange(lowest, highest)
    ensures h == null <==> sigfigs < 1 || 5 < sigfigs
    ensures h != null ==> fresh(h) && fresh(h.counts) && h.Exact() && h.recorded == []
    ensures h != null ==> h.cfg == ConfigFor(lowest, highest, sigfigs) && h.totalCount == 0
    ensures h != null ==> forall i :: 0 <= i < h.counts.Length ==> h.counts[i] == 0
  {
    if sigfigs < 1 || 5 < sigfigs {
      return null;
    }
    var half := Max(CeilLog2(2 * Pow10(sigfigs)), 1) - 1;
    var bits := BitLenOf(lowest);
    var unit := bits - 1;
    var subBucketCount := Pow2(half + 1);
    ShlMono(1, subBucketCount, unit);
    ShlZero(unit);
    var smallestUntrackable := Shl(subBucketCount, unit);
    var bucketsNeeded := 1;
    while smallestUntrackable < highest
      invariant smallestUntrackable >= 1 && bucketsNeeded >= 1
      invariant bucketsNeeded - 1 + BucketsFor(smallestUntrackable, highest)
                == BucketsFor(Shl(subBucketCount, unit), highest)
      decreases highest - smallestUntrackable
    {
      smallestUntrackable := 2 * smallestUntrackable;
      bucketsNeeded := bucketsNeeded + 1;
    }
    var cfg := Config(lowest, highest, sigfigs, unit, half, bucketsNeeded);
    h := new Hist(cfg);
  }

  /** Rebuilds a histogram from a snapshot; null stands for a panic, on a bad precision or too few counts. */
  method Import(s: Snapshot) returns (h: Hist?)
    requires InRange(s.lowest, s.highest)
    ensures h == null <==> (s.sigfigs < 1 || 5 < s.sigfigs
                            || |s.counts| < ConfigFor(s.lowest, s.highest, s.sigfigs).CountsLen())
    ensures h != null ==>
              && fresh(h) && fresh(h.counts) && h.Shaped() && h.cfg == ConfigFor(s.lowest, s.highest, s.sigfigs)
              && h.counts[..] == s.counts[..h.cfg.CountsLen()] && h.totalCount == SumOfPositive(h.counts[..])
              && (h.Valid() <==> NonNegative(h.counts[..])) && (h.Exact() <==> NonNegative(h.counts[..]))
  {
    var blank := New(s.lowest, s.highest, s.sigfigs);
    if blank == null || |s.counts| < blank.cfg.CountsLen() {
      return null;
    }
    var n := blank.cfg.CountsLen();
    var counts := new int[n](i requires 0 <= i < n => s.counts[i]);
    var total := 0;
    for i := 0 to n
      invariant total == SumOfPositive(s.counts[..i]) && counts[..] == s.counts[..n]
    {
      assert s.counts[..i + 1][..i] == s.counts[..i];
      if counts[i] > 0 {
        total := total + counts[i];
      }
    }
    SumOfPositiveIsSum(counts[..]);
    h := new Hist.Adopt(blank.cfg, counts, total);
  }

  /** Import undoes Export: every count comes back, and the total too exactly when no count is negative. */
  method RoundTrip(h: Hist) returns (copy: Hist?)
    requires h.Shaped()
    ensures copy != null && fresh(copy) && copy.cfg == h.cfg && copy.counts[..] == h.counts[..]
    ensures copy.Shaped() && copy.totalCount == SumOfPositive(h.counts[..])
    ensures h.Valid() ==> (NonNegative(h.counts[..]) <==> copy.totalCount == h.totalCount)
    ensures NonNegative(h.counts[..]) <==> copy.Exact()
  {
    var s := h.Export();
    assert s.counts[..h.cfg.CountsLen()] == s.counts;
    copy := Import(s);
    SumOfPositiveIsSum(h.counts[..]);
  }

  /** An imported histogram answers every quantile that the exported one does, in the same way. */
  method RoundTripAnswers(h: Hist, q: real) returns (r: Option<int>, r': Option<int>)
    requires h.Exact()
    ensures r.Some? && r == r'
  {
    hide Prefix, RunsOff, IsAnswer, IsTallyOf, IsQuantile, Reports, RankOf;
    TallyMeans(h.cfg, h.counts[..], h.totalCount, h.recorded, 0);
    var copy := RoundTrip(h);
    r := h.ValueAtQuantile(q);
    r' := copy.ValueAtQuantile(q);
    ghost var rank := RankOf(q, h.totalCount);
    ghost var n: nat :| IsAnswer(h.cfg, h.counts[..], h.totalCount, rank, r, n);
    ghost var m: nat :| IsAnswer(h.cfg, h.counts[..], h.totalCount, rank, r', m);
    AnswerIsUnique(h.cfg, h.counts[..], h.totalCount, rank, r, n, r', m);
  }

  lemma {:induction false} KeepsArguments(lowest: int, highest: int, sigfigs: int)
    requires lowest >= 1 && 1 <= sigfigs <= 5
    ensures var c := ConfigFor(lowest, highest, sigfigs); c.lowest == lowest && c.highest == highest
  {
  }

  lemma {:induction false} RecordsSmall(c: Config, v: nat)
    requires Configured(c) && c.lowest == 1 && c.highest > 1 && v < 2
    ensures c.bucketCount >= 1 && c.CountsLen() >= 2 && c.IndexOf(v) == v < c.Limit()
  {
    hide ConfigFor, Configured;
    ConfiguredMeans(c);
    FirstTwoSlots(c);
    TrackableValues(c, 1);
    c.FitsBelowLimit(v);
  }

  /** Merging a histogram into itself runs off as soon as it holds one value. */
  method SelfMergeRunsOff() returns (dropped: Option<int>)
    ensures dropped == None
  {
    hide ConfigFor, Sum, Prefix, TallyOf, IsTallyOf, Merged, Dropped, RunsOff, Overshoots, Visits, SlotValue;
    hide Config.IndexOf, Config.Index, Config.CountsLen, Config.Limit, Config.Highest, EndOfSlot, Expanded;
    var h := New(1, 100, 1);
    KeepsArguments(1, 100, 1);
    RecordsSmall(h.cfg, 1);
    var ok := h.RecordValue(1);
    dropped := h.Merge(h);
  }

  /** A negative count before a positive one does not survive Export, Import and Max. */
  method NegativeCountRunsOff() returns (r: Option<int>)
    ensures r == None
  {
    hide ConfigFor, Sum, Prefix, TallyOf, IsTallyOf, Merged, Dropped, RunsOff, Overshoots, Visits, SlotValue;
    hide Config.IndexOf, Config.Index, Config.CountsLen, Config.Limit, Config.Highest, EndOfSlot, Expanded;
    var h := New(1, 100, 1);
    KeepsArguments(1, 100, 1);
    RecordsSmall(h.cfg, 0);
    RecordsSmall(h.cfg, 1);
    ghost var cs := h.counts[..];
    var ok := h.RecordValues(0, -1);
    assert h.counts[..] == cs[0 := -1];
    ok := h.RecordValues(1, 2);
    assert h.counts[..] == cs[0 := -1][1 := 2];
    var copy := RoundTrip(h);
    assert copy.counts[..][0] == -1 && copy.counts[..][1] == 2;
    ImportedRunsOff(copy.counts[..]);
    r := copy.Maximum();
  }

  class Hist {
    const cfg: Config
    const counts: array<int>
    var totalCount: int
    ghost var recorded: seq<nat>   // every value ever recorded, as it was given

    /** As many counts as the configuration has slots. */
    ghost predicate Shaped() {
      Configured(cfg) && counts.Length == cfg.CountsLen() && cfg.bucketCount >= 1
    }

    /** The total is the sum of the counts. */
    ghost predicate Valid()
      reads this, counts
    {
      Shaped() && totalCount == Sum(counts[..])
    }

    /** The counts are those of the recorded values. */
    ghost predicate Exact()
      reads this, counts
    {
      Valid() && IsTallyOf(cfg, counts[..], totalCount, recorded)
    }

    constructor (cfg: Config)
      requires Configured(cfg)
      ensures Exact() && this.cfg == cfg && recorded == [] && fresh(counts)
      ensures forall i :: 0 <= i < counts.Length ==> counts[i] == 0
    {
      this.cfg := cfg;
      counts := new int[cfg.CountsLen()](_ => 0);
      totalCount := 0;
      recorded := [];
      new;
      ConfiguredMeans(cfg);
      Zeros(counts[..]);
    }

    /** Takes over counts and a total that were computed elsewhere; they stand for each slot's lowest value as many
        times as the slot counts. */
    constructor Adopt(cfg: Config, counts: array<int>, total: int)
      requires Configured(cfg) && counts.Length == cfg.CountsLen()
      ensures Shaped() && this.cfg == cfg && this.counts == counts && totalCount == total
      ensures Valid() <==> total == Sum(counts[..])
      ensures total == Sum(counts[..]) && NonNegative(counts[..]) ==> Exact()
    {
      this.cfg, this.counts, totalCount, recorded := cfg, counts, total, Expanded(cfg, counts[..]);
      new;
      ConfiguredMeans(cfg);
      if NonNegative(counts[..]) {
        ExpandedTally(cfg, counts[..]);
      }
    }

    function Export(): Snapshot
      reads this, counts
    {
      Snapshot(cfg.lowest, cfg.highest, cfg.sigfigs, counts[..])
    }

    method Equals(other: Hist) returns (same: bool)
      requires Shaped() && other.Shaped()
      ensures same <==> cfg == other.cfg && totalCount == other.totalCount && counts[..] == other.counts[..]
    {
      if cfg != other.cfg || totalCount != other.totalCount {
        return false;
      }
      for i := 0 to counts.Length
        invariant forall j :: 0 <= j < i ==> counts[j] == other.counts[j]
      {
        if counts[i] != other.counts[i] {
          assert counts[..][i] != other.counts[..][i];
          return false;
        }
      }
      same := true;
    }

    method Reset()
      requires Shaped()
      modifies this, counts
      ensures Exact() && recorded == [] && totalCount == 0
      ensures forall i :: 0 <= i < counts.Length ==> counts[i] == 0
    {
      totalCount := 0;
      for i := 0 to counts.Length
        invariant totalCount == 0 && forall j :: 0 <= j < i ==> counts[j] == 0
      {
        counts[i] := 0;
      }
      recorded := [];
      Zeros(counts[..]);
    }

    /** Records n occurrences of v, or refuses the value because it is negative or too large. */
    method RecordValues(v: int, n: int) returns (ok: bool)
      requires Shaped()
      modifies this, counts
      ensures ok <==> 0 <= v < cfg.Limit()
      ensures counts[..] == Recorded(cfg, old(counts[..]), v, n)
      ensures totalCount == old(totalCount) + (if ok then n else 0)
      ensures totalCount - Sum(counts[..]) == old(totalCount - Sum(counts[..]))
      ensures n >= 0 && old(Exact()) ==> Exact() && recorded == old(recorded) + (if ok then Repeat(v, n) else [])
    {
      cfg.FitsInRange(v);
      var idx := cfg.IndexOf(v);
      if idx < 0 || cfg.CountsLen() <= idx {
        assert old(recorded) + [] == recorded;
        return false;
      }
      AddAt(idx, v, n);
      ok := true;
    }

    method RecordValue(v: int) returns (ok: bool)
      requires Shaped()
      modifies this, counts
      ensures ok <==> 0 <= v < cfg.Limit()
      ensures counts[..] == Recorded(cfg, old(counts[..]), v, 1)
      ensures totalCount == old(totalCount) + (if ok then 1 else 0)
      ensures totalCount - Sum(counts[..]) == old(totalCount - Sum(counts[..]))
      ensures old(Exact()) ==> Exact() && recorded == old(recorded) + (if ok then [v] else [])
    {
      ok := RecordValues(v, 1);
      assert ok ==> Repeat<nat>(v, 1) == [v];
    }

    method AddAt(idx: int, v: nat, n: int)
      requires Shaped() && idx == cfg.Index(v) && 0 <= idx < counts.Length
      modifies this, counts
      ensures counts[..] == old(counts[..])[idx := old(counts[idx]) + n]
      ensures totalCount == old(totalCount) + n && Sum(counts[..]) == old(Sum(counts[..])) + n
      ensures n >= 0 && old(Exact()) ==> Exact() && recorded == old(recorded) + Repeat(v, n)
    {
      hide Sum, IsTallyOf, Config.Index;
      SumUpdate(counts[..], idx, n);
      counts[idx] := counts[idx] + n;
      assert counts[..] == old(counts[..])[idx := old(counts[idx]) + n];
      totalCount := totalCount + n;
      if n >= 0 && old(Exact()) {
        RecordTally(cfg, old(counts[..]), old(totalCount), recorded, v, n);
        recorded := recorded + Repeat(v, n);
      }
    }

    /** The value at a quantile in percent; None stands for a panic, when the scan runs off the buckets. */
    method ValueAtQuantile(q: real) returns (r: Option<int>)
      requires Shaped()
      ensures var rank := RankOf(q, totalCount);
              && (r == None <==> RunsOff(counts[..], totalCount) && NeverReaches(counts[..], rank, counts.Length))
              && (exists n: nat :: IsAnswer(cfg, counts[..], totalCount, rank, r, n))
              && (Exact() ==> r.Some? && IsQuantile(cfg, recorded, rank, r.value))
              && (Exact() && 1 <= rank <= |recorded| ==> Reports(cfg, recorded, rank, r.value))
      ensures Exact() && recorded != [] && 0.0 <= q <= 100.0 ==> r.Some? && CutsOff(cfg, recorded, q, r.value)
      ensures Exact() && recorded != [] && q >= 100.0 ==>
                r.Some? && exists x: nat :: IsLargest(recorded, x) && r.value == cfg.Highest(x)
    {
      hide Prefix, RunsOff, IsAnswer, IsQuantile, Reports, RankOf, CutsOff, NeverReaches;
      r := ValueAtRank(RankOf(q, totalCount));
      if Exact() && recorded != [] {
        TallySize(cfg, counts[..], totalCount, recorded);
        if 0.0 <= q <= 100.0 {
          QuantileCutsOff(cfg, recorded, q, r.value);
        }
        if q >= 100.0 {
          RankMono(q, q, totalCount);
          TopIsLargest(cfg, recorded, r.value);
        }
      }
    }

    method ValueAtRank(rank: int) returns (r: Option<int>)
      requires Shaped()
      ensures r == None <==> RunsOff(counts[..], totalCount) && NeverReaches(counts[..], rank, counts.Length)
      ensures exists n: nat :: IsAnswer(cfg, counts[..], totalCount, rank, r, n)
      ensures Exact() ==> r.Some? && IsQuantile(cfg, recorded, rank, r.value)
      ensures Exact() && 1 <= rank <= |recorded| ==> Reports(cfg, recorded, rank, r.value)
    {
      ghost var n;
      r, n := FindRank(rank);
      NoAnswer(cfg, counts[..], totalCount, rank, r, n);
      if Exact() {
        ExactAnswer(cfg, counts[..], totalCount, recorded, rank, r, n);
      }
    }

    /** The scan: n slots are read before it finds the rank, stops, or runs off. */
    method FindRank(rank: int) returns (r: Option<int>, ghost n: nat)
      requires Shaped()
      ensures IsAnswer(cfg, counts[..], totalCount, rank, r, n)
    {
      hide Sum, Prefix, Config.Highest, Config.PairOf;
      ghost var cs := counts[..];
      PrefixNone(cs);
      var total := 0;
      var it := new Iterator(this);
      n := 0;
      var step := it.Next();
      while step.More?
        invariant it.h == this && fresh(it) && (step.OutOfBounds? || it.Valid())
        invariant n <= |cs| && total == Prefix(cs, n) && NeverReaches(cs, rank, n) && NotYet(cs, totalCount, n)
        invariant step.More? ==> n < |cs| && it.Reads(n) && it.countToIdx == total + cs[n] && total < totalCount
        invariant step.Done? ==> total >= totalCount
        invariant step.OutOfBounds? ==> n == |cs| && total < totalCount
        decreases |cs| - n, step.More?
      {
        PrefixNext(cs, n);
        total := total + it.countAtIdx;
        if total >= rank {
          r := Some(cfg.Highest(it.valueFromIdx));
          return;
        }
        n := n + 1;
        step := it.Next();
      }
      r := if step.Done? then Some(0) else None;
    }

    /** What is reported for the last slot in use; None stands for a panic. */
    method Maximum() returns (r: Option<int>)
      requires Shaped()
      ensures r == None <==> RunsOff(counts[..], totalCount)
      ensures forall n: nat, last :: StopsAt(counts[..], totalCount, n) && IsLastUsed(counts[..], last, n) ==>
                r == Some(cfg.Highest(if last < 0 then 0 else EndOfSlot(cfg, last)))
      ensures Exact() ==> r.Some? && (recorded == [] ==> r.value == cfg.Highest(0))
      ensures Exact() && recorded != [] ==> exists x: nat :: IsLargest(recorded, x) && r.value == cfg.Highest(x)
    {
      var maxVal, last, n := LastUsed();
      r := if maxVal.Some? then Some(cfg.Highest(maxVal.value)) else None;
      LastUsedOnce(counts[..], totalCount, last, n, maxVal.Some?);
      if Exact() {
        SumIsSeen(counts[..]);
        TallyMeans(cfg, counts[..], totalCount, recorded, 0);
        LargestSlot(cfg, counts[..], totalCount, recorded, last, n);
        if recorded != [] {
          ghost var x := RecordedOrderStatistic(recorded, |recorded|);
          TopRankIsLargest(recorded, x);
        }
      }
    }

    /** The scan of Maximum: what the iterator reports at the last slot in use. */
    method LastUsed() returns (maxVal: Option<nat>, ghost last: int, ghost n: nat)
      requires Shaped()
      ensures n <= counts.Length && IsLastUsed(counts[..], last, n)
      ensures maxVal.Some? ==> StopsAt(counts[..], totalCount, n)
      ensures maxVal.Some? ==> maxVal.value == if last < 0 then 0 else EndOfSlot(cfg, last)
      ensures maxVal == None ==> RunsOff(counts[..], totalCount)
    {
      hide Sum, Prefix, Config.Highest, Config.PairOf;
      ghost var cs := counts[..];
      PrefixNone(cs);
      var max: nat := 0;
      last, n := -1, 0;
      var it := new Iterator(this);
      var step := it.Next();
      while step.More?
        invariant it.h == this && fresh(it) && (step.OutOfBounds? || it.Valid())
        invariant n <= |cs| && NotYet(cs, totalCount, n) && IsLastUsed(cs, last, n)
        invariant max == if last < 0 then 0 else EndOfSlot(cfg, last)
        invariant step.More? ==> n < |cs| && it.Reads(n) && it.countToIdx == Prefix(cs, n) + cs[n]
                                 && Prefix(cs, n) < totalCount
        invariant step.Done? ==> Prefix(cs, n) >= totalCount
        invariant step.OutOfBounds? ==> n == |cs| && Prefix(cs, n) < totalCount
        decreases |cs| - n, step.More?
      {
        PrefixNext(cs, n);
        if it.countAtIdx != 0 {
          HighestIsNatural(cfg, n);
          max, last := it.highestEquivalentValue, n;
        }
        n := n + 1;
        step := it.Next();
      }
      maxVal := if step.Done? then Some(max) else None;
    }

    /** What is reported for the first slot in use, from below; None stands for a panic. */
    method Minimum() returns (r: Option<int>)
      requires Shaped()
      ensures r == None <==> totalCount > 0 && forall i :: 0 <= i < counts.Length ==> counts[i] == 0
      ensures totalCount <= 0 ==> r == Some(cfg.Lowest(0))
      ensures forall i: nat :: totalCount > 0 && IsFirstUsed(counts[..], i) ==>
                r == Some(cfg.Lowest(EndOfSlot(cfg, i)))
      ensures Exact() ==> r.Some? && (recorded == [] ==> r.value == 0)
      ensures Exact() && recorded != [] ==> exists x: nat :: IsSmallest(recorded, x) && r.value == cfg.Lowest(x)
    {
      var minVal, first := FirstUsed();
      r := if minVal.Some? then Some(cfg.Lowest(minVal.value)) else None;
      if Exact() {
        TallyMeans(cfg, counts[..], totalCount, recorded, 0);
        if first < 0 {
          cfg.SameIndexIffEquivalent(0, 0);
          NothingSeen(cfg, counts[..], totalCount, recorded);
        } else {
          SmallestSlot(cfg, counts[..], totalCount, recorded, first);
          ghost var x := RecordedOrderStatistic(recorded, 1);
          FirstRankIsSmallest(recorded, x);
        }
      }
    }

    /** The scan of Minimum: what the iterator reports at the first slot in use. */
    method FirstUsed() returns (minVal: Option<nat>, ghost first: int)
      requires Shaped()
      ensures first >= 0 <==> totalCount > 0 && exists i :: 0 <= i < counts.Length && counts[i] != 0
      ensures first >= 0 ==> IsFirstUsed(counts[..], first) && minVal == Some(EndOfSlot(cfg, first))
      ensures first < 0 ==> minVal == if totalCount > 0 then None else Some(0)
    {
      hide Sum, Prefix, Config.Highest, Config.PairOf;
      var it := new Iterator(this);
      ghost var n: nat := 0;
      first := -1;
      var min: nat := 0;
      var step := it.Next();
      while step.More?
        invariant it.h == this && fresh(it) && (step.OutOfBounds? || it.Valid())
        invariant n <= counts.Length && min == 0 && forall i :: 0 <= i < n ==> counts[i] == 0
        invariant step.More? ==> n < counts.Length && it.Reads(n) && it.countToIdx == counts[n] && totalCount > 0
        invariant step.Done? ==> totalCount <= 0
        invariant step.OutOfBounds? ==> n == counts.Length && totalCount > 0
        decreases counts.Length - n, step.More?
      {
        if it.countAtIdx != 0 && min == 0 {
          HighestIsNatural(cfg, n);
          min, first := it.highestEquivalentValue, n;
          return Some(min), first;
        }
        n := n + 1;
        step := it.Next();
      }
      minVal := if step.Done? then Some(min) else None;
    }

    /** Records v and, for a stall, the values that were missed: one expected interval after another below v. */
    method RecordCorrectedValue(v: int, expInterval: int) returns (ok: bool)
      requires Shaped()
      modifies this, counts
      ensures ok <==> 0 <= v < cfg.Limit()
      ensures var vs: seq<nat> := if ok then [v] + Missing(v, expInterval) else [];
              && counts[..] == AllRecorded(cfg, old(counts[..]), vs) && totalCount == old(totalCount) + |vs|
              && (old(Exact()) ==> Exact() && recorded == old(recorded) + vs)
    {
      hide IsTallyOf, Config.IndexOf, Recorded, Sum, Config.Limit, AllRecorded, MissingFrom;
      ghost var (cs, missing) := (counts[..], Missing(v, expInterval));
      ok := RecordValue(v);
      FirstRecorded(cfg, cs, v);
      if !ok {
        return;
      }
      AllRecordedThen(cfg, cs, [v], missing);
      if expInterval <= 0 || v <= expInterval {
        assert [v] + missing == [v];
        return;
      }
      FillIn(v - expInterval, expInterval);
    }

    /** The loop over the missing values. None of them is refused, as they are all below v. */
    method FillIn(first: nat, interval: nat)
      requires Shaped() && 0 < interval && first < cfg.Limit()
      modifies this, counts
      ensures counts[..] == AllRecorded(cfg, old(counts[..]), MissingFrom(first, interval))
      ensures totalCount == old(totalCount) + |MissingFrom(first, interval)|
      ensures old(Exact()) ==> Exact() && recorded == old(recorded) + MissingFrom(first, interval)
    {
      hide IsTallyOf, Config.IndexOf, Recorded, Sum, Config.Limit, AllRecorded;
      FirstRecorded(cfg, counts[..], first);
      var missing := first;
      ghost var done: seq<nat> := [];
      ghost var all := MissingFrom(first, interval);
      while missing >= interval
        invariant 0 <= missing <= first && done + MissingFrom(missing, interval) == all
        invariant counts[..] == AllRecorded(cfg, old(counts[..]), done) && totalCount == old(totalCount) + |done|
        invariant old(Exact()) ==> Exact() && recorded == old(recorded) + done
      {
        MissingNext(done, missing, interval);
        var fits := RecordValue(missing);
        AllRecordedNext(cfg, old(counts[..]), done, missing);
        done := done + [missing];
        missing := missing - interval;
      }
      assert done == all;
    }

    /** One slot of a merge; empty ones are skipped. */
    method MergeSlot(v: nat, c: int) returns (lost: int)
      requires Shaped()
      modifies this, counts
      ensures counts[..] == Recorded(cfg, old(counts[..]), v, c)
      ensures lost == (if v < cfg.Limit() then 0 else c) && totalCount == old(totalCount) + c - lost
      ensures totalCount - Sum(counts[..]) == old(totalCount - Sum(counts[..]))
      ensures c >= 0 && old(Exact()) ==>
                Exact() && recorded == old(recorded) + (if v < cfg.Limit() then Repeat(v, c) else [])
    {
      lost := 0;
      if c != 0 {
        var ok := RecordValues(v, c);
        if !ok {
          lost := c;
        }
      } else {
        cfg.FitsBelowLimit(v);
      }
    }

    /** Adds a histogram's counts slot by slot, each under the lowest value of its slot, and returns how many did not
        fit; None stands for a panic, when the scan runs off the buckets. A histogram that is merged into itself keeps
        its scan from ever catching up with its total. */
    method Merge(from: Hist) returns (dropped: Option<int>)
      requires Shaped() && from.Shaped() && (from == this || from.counts != counts)
      modifies this, counts
      ensures totalCount - Sum(counts[..]) == old(totalCount - Sum(counts[..]))
      // another histogram
      ensures from != this ==> (dropped == None <==> RunsOff(from.counts[..], from.totalCount))
      ensures from != this ==>
                forall n: nat :: Visits(from.counts[..], from.totalCount, n) ==>
                  var lost := Dropped(cfg, from.cfg, from.counts[..n]);
                  && counts[..] == Merged(cfg, old(counts[..]), from.cfg, from.counts[..n])
                  && totalCount == old(totalCount) + Prefix(from.counts[..], n) - lost
                  && (dropped.Some? ==> dropped.value == lost)
      ensures from != this && dropped.Some? ==>
                (totalCount == old(totalCount) + from.totalCount - dropped.value <==>
                 !Overshoots(from.counts[..], from.totalCount))
      ensures from != this && from.Valid() && NonNegative(from.counts[..]) ==>
                && dropped == Some(Dropped(cfg, from.cfg, from.counts[..]))
                && counts[..] == Merged(cfg, old(counts[..]), from.cfg, from.counts[..])
                && totalCount == old(totalCount) + from.totalCount - dropped.value
      ensures from != this && NonNegative(from.counts[..]) && old(Exact()) ==> Exact()
      ensures from != this && from.Valid() && NonNegative(from.counts[..]) && old(Exact()) ==>
                recorded == old(recorded) + MergedValues(cfg, from.cfg, from.counts[..])
      // itself
      ensures from == this ==> dropped == if old(totalCount) > 0 then None else Some(0)
      ensures from == this && old(totalCount) <= 0 ==> counts[..] == old(counts[..]) && totalCount == old(totalCount)
      ensures from == this && old(totalCount) > 0 ==>
                && totalCount == old(totalCount) + old(Sum(counts[..]))
                && forall i :: 0 <= i < counts.Length ==> counts[i] == 2 * old(counts[i])
    {
      hide Merged, Dropped, Sum, Prefix, IsTallyOf, SlotValue, Config.Limit, Overshoots, MergedValues;
      ghost var (cs, fs, total) := (counts[..], from.counts[..], from.totalCount);
      ghost var n;
      dropped, n := MergeScan(from);
      assert fs[..|fs|] == fs && fs[..0] == [];
      if from == this {
        MergeSameConfig(cfg, cs, cs);
        MergedNone(cfg, cs, cfg);
        PrefixNone(cs);
        PrefixWhole(cs);
        assert (GoesOn(true, cs, total, n) <==> total > 0) && (GoesOn(true, cs, total, 0) <==> total > 0);
        assert fs[..n] == if total > 0 then cs else [];
      } else {
        ScanEnds(fs, total, n, dropped == None);
        if Sum(fs) == total && NonNegative(fs) {
          SumIsSeen(fs);
          PrefixWhole(fs);
          MergedRest(cfg, cs, from.cfg, fs, n);
          MergedValuesRest(cfg, from.cfg, fs, n);
        }
      }
    }

    /** The scan of Merge: n slots are read. The total to be seen is the source's at the time, which for a merge into
        itself grows with every slot. */
    method MergeScan(from: Hist) returns (dropped: Option<int>, ghost n: nat)
      requires Shaped() && from.Shaped() && (from == this || from.counts != counts)
      modifies this, counts
      ensures from != this ==> from.counts[..] == old(from.counts[..]) && from.totalCount == old(from.totalCount)
      ensures totalCount - Sum(counts[..]) == old(totalCount - Sum(counts[..]))
      ensures n <= old(|from.counts[..]|) && counts[..] == Merged(cfg, old(counts[..]), from.cfg, old(from.counts[..n]))
      ensures var lost := Dropped(cfg, from.cfg, old(from.counts[..n]));
              && totalCount == old(totalCount) + Prefix(old(from.counts[..]), n) - lost
              && (dropped.Some? ==> dropped.value == lost)
      ensures dropped.Some? <==> !GoesOn(from == this, old(from.counts[..]), old(from.totalCount), n)
      ensures dropped == None ==> n == |old(from.counts[..])|
      ensures AllGoOn(from == this, old(from.counts[..]), old(from.totalCount), n)
      ensures NonNegative(old(from.counts[..])) && old(Exact()) ==>
                Exact() && recorded == old(recorded) + MergedValues(cfg, from.cfg, old(from.counts[..n]))
    {
      hide Merged, Dropped, Recorded, Sum, Prefix, IsTallyOf, SlotValue, Config.Highest, Config.PairOf, Config.Limit;
      hide MergedValues, Repeat, Hist.Exact, Hist.Valid, Configured, Config.CountsLen;
      ghost var (cs, fs, total) := (counts[..], from.counts[..], from.totalCount);
      MergedNone(cfg, cs, from.cfg);
      assert fs[..0] == [] && recorded + [] == recorded;
      PrefixNone(fs);
      var lost := 0;
      n := 0;
      var it := new Iterator(from);
      var step := it.Next();
      while step.More?
        invariant it.h == from && fresh(it) && (step.OutOfBounds? || it.Valid())
        invariant from != this ==> from.counts[..] == fs && from.totalCount == total
        invariant n <= |fs| && counts[..] == Merged(cfg, cs, from.cfg, fs[..n])
        invariant lost == Dropped(cfg, from.cfg, fs[..n]) && totalCount == old(totalCount) + Prefix(fs, n) - lost
        invariant totalCount - Sum(counts[..]) == old(totalCount - Sum(counts[..]))
        invariant AllGoOn(from == this, fs, total, n)
        invariant step.More? ==> n < |fs| && it.seen == n + 1 && it.countAtIdx == fs[n]
                                 && it.countToIdx == Prefix(fs, n) + fs[n]
        invariant step.OutOfBounds? ==> n == |fs|
        invariant step.Done? <==> !GoesOn(from == this, fs, total, n)
        invariant NonNegative(fs) && old(Exact()) ==>
                    Exact() && recorded == old(recorded) + MergedValues(cfg, from.cfg, fs[..n])
        decreases |fs| - n, step.More?
      {
        MergedNext(cfg, cs, from.cfg, fs, n);
        MergedValuesNext(cfg, from.cfg, fs, n);
        PrefixNext(fs, n);
        var more := MergeSlot(it.valueFromIdx, it.countAtIdx);
        lost := lost + more;
        n := n + 1;
        if from == this {
          SelfSlot(cfg, cs, n);
        }
        step := it.Next();
      }
      dropped := if step.Done? then Some(lost) else None;
    }
  }

  // ---------------------------------------------------------------- corrections

  /** The counts after recording one value after another. */
  function AllRecorded(c: Config, counts: seq<int>, vs: seq<nat>): seq<int> {
    if vs == [] then counts else Recorded(c, AllRecorded(c, counts, vs[..|vs| - 1]), vs[|vs| - 1], 1)
  }

  lemma {:induction false} AllRecordedNext(c: Config, counts: seq<int>, vs: seq<nat>, v: nat)
    ensures AllRecorded(c, counts, vs + [v]) == Recorded(c, AllRecorded(c, counts, vs), v, 1)
  {
    assert (vs + [v])[..|vs|] == vs;
  }

  lemma {:induction false} FirstRecorded(c: Config, counts: seq<int>, v: int)
    requires c.bucketCount >= 1 && |counts| == c.CountsLen()
    ensures AllRecorded(c, counts, []) == counts
    ensures if 0 <= v < c.Limit() then AllRecorded(c, counts, [v]) == Recorded(c, counts, v, 1)
            else Recorded(c, counts, v, 1) == counts
  {
    c.FitsInRange(v);
  }

  lemma {:induction false} AllRecordedThen(c: Config, counts: seq<int>, vs: seq<nat>, ws: seq<nat>)
    ensures AllRecorded(c, AllRecorded(c, counts, vs), ws) == AllRecorded(c, counts, vs + ws)
  {
    hide Recorded;
    if ws == [] {
      assert vs + ws == vs;
    } else {
      var n := |ws| - 1;
      AllRecordedThen(c, counts, vs, ws[..n]);
      assert (vs + ws)[..|vs + ws| - 1] == vs + ws[..n];
    }
  }

  /** missing, missing - interval, ... as long as they are no less than the interval. */
  function MissingFrom(missing: nat, interval: int): seq<nat>
    requires interval > 0
  {
    if missing >= interval then [missing] + MissingFrom(missing - interval, interval) else []
  }

  lemma {:induction false} MissingNext(before: seq<nat>, missing: nat, interval: int)
    requires 0 < interval <= missing
    ensures before + MissingFrom(missing, interval) == before + [missing] + MissingFrom(missing - interval, interval)
  {
  }

  /** The values a stall of v has hidden. */
  function Missing(v: int, interval: int): seq<nat> {
    if interval <= 0 || v <= interval then [] else MissingFrom(v - interval, interval)
  }

  /** An expected interval apart, from the first down to the last that is no less than the interval. */
  ghost predicate Spaced(s: seq<nat>, first: nat, interval: int) {
    && (s == [] <==> first < interval)
    && (s != [] ==> s[0] == first && interval <= s[|s| - 1] < 2 * interval)
    && forall k :: 0 <= k < |s| - 1 ==> s[k + 1] == s[k] - interval
  }

  lemma {:induction false} MissingFromIs(missing: nat, interval: int)
    requires 0 < interval
    ensures Spaced(MissingFrom(missing, interval), missing, interval)
    decreases missing
  {
    if missing >= interval {
      var rest := MissingFrom(missing - interval, interval);
      MissingFromIs(missing - interval, interval);
      forall k | 0 <= k < |rest|
        ensures ([missing] + rest)[k + 1] == ([missing] + rest)[k] - interval
      {
        assert k > 0 ==> rest[k] == rest[k - 1] - interval;
      }
    }
  }

  /** The first value missed is an interval below v. */
  lemma {:induction false} MissingIs(v: nat, interval: int)
    ensures interval <= 0 || v < interval ==> Missing(v, interval) == []
    ensures 0 < interval <= v ==> Spaced(Missing(v, interval), v - interval, interval)
  {
    if v > interval > 0 {
      MissingFromIs(v - interval, interval);
    }
  }

  // ---------------------------------------------------------------- merging

  /** The counts after recording, for each slot of f, its count under its lowest value. */
  function Merged(c: Config, counts: seq<int>, f: Config, fs: seq<int>): seq<int>
    decreases |fs|
  {
    if fs == [] then counts
    else
      var n := |fs| - 1;
      Recorded(c, Merged(c, counts, f, fs[..n]), SlotValue(f, n), fs[n])
  }

  /** What does not fit. */
  function Dropped(c: Config, f: Config, fs: seq<int>): int
    requires c.bucketCount >= 1
    decreases |fs|
  {
    if fs == [] then 0
    else
      var n := |fs| - 1;
      Dropped(c, f, fs[..n]) + (if SlotValue(f, n) < c.Limit() then 0 else fs[n])
  }

  lemma {:induction false} MergedNext(c: Config, counts: seq<int>, f: Config, fs: seq<int>, n: nat)
    requires n < |fs| && c.bucketCount >= 1
    ensures Merged(c, counts, f, fs[..n + 1]) == Recorded(c, Merged(c, counts, f, fs[..n]), SlotValue(f, n), fs[n])
    ensures Dropped(c, f, fs[..n + 1]) == Dropped(c, f, fs[..n]) + (if SlotValue(f, n) < c.Limit() then 0 else fs[n])
  {
    assert fs[..n + 1][..n] == fs[..n];
  }

  lemma {:induction false} MergedNone(c: Config, counts: seq<int>, f: Config)
    requires c.bucketCount >= 1
    ensures Merged(c, counts, f, []) == counts && Dropped(c, f, []) == 0 && MergedValues(c, f, []) == []
  {
  }

  lemma {:induction false} RecordedNothing(c: Config, counts: seq<int>, v: nat)
    ensures Recorded(c, counts, v, 0) == counts
  {
  }

  /** What comes over: each slot's lowest value as many times as it counts, as far as it fits. */
  ghost function MergedValues(c: Config, f: Config, fs: seq<int>): seq<nat>
    requires c.bucketCount >= 1
  {
    if fs == [] then []
    else
      var n := |fs| - 1;
      var v := SlotValue(f, n);
      MergedValues(c, f, fs[..n]) + if v < c.Limit() then Repeat(v, Max(0, fs[n])) else []
  }

  lemma {:induction false} MergedValuesNext(c: Config, f: Config, fs: seq<int>, n: nat)
    requires n < |fs| && c.bucketCount >= 1
    ensures MergedValues(c, f, fs[..n + 1]) ==
            MergedValues(c, f, fs[..n])
            + if SlotValue(f, n) < c.Limit() then Repeat(SlotValue(f, n), Max(0, fs[n])) else []
  {
    assert fs[..n + 1][..n] == fs[..n];
  }

  lemma {:induction false} MergedValuesRest(c: Config, f: Config, fs: seq<int>, n: nat)
    requires n <= |fs| && c.bucketCount >= 1 && forall i :: n <= i < |fs| ==> fs[i] == 0
    ensures MergedValues(c, f, fs[..n]) == MergedValues(c, f, fs)
    decreases |fs| - n
  {
    hide MergedValues, SlotValue, Config.Limit;
    if n < |fs| {
      MergedValuesNext(c, f, fs, n);
      MergedValuesRest(c, f, fs, n + 1);
    } else {
      assert fs[..n] == fs;
    }
  }

  lemma {:induction false} RepeatRecorded(c: Config, counts: seq<int>, v: nat, n: nat)
    ensures AllRecorded(c, counts, Repeat(v, n)) == Recorded(c, counts, v, n)
  {
    hide Config.Index;
    if n > 0 {
      RepeatRecorded(c, counts, v, n - 1);
      assert Repeat(v, n) == Repeat(v, n - 1) + [v];
      AllRecordedNext(c, counts, Repeat(v, n - 1), v);
    }
  }

  lemma {:induction false} SlotIsRecording(c: Config, counts: seq<int>, v: nat, n: nat)
    requires c.bucketCount >= 1 && |counts| == c.CountsLen()
    ensures Recorded(c, counts, v, n) == AllRecorded(c, counts, if v < c.Limit() then Repeat(v, n) else [])
  {
    if v < c.Limit() {
      RepeatRecorded(c, counts, v, n);
    } else {
      c.FitsBelowLimit(v);
    }
  }

  /** Merging comes to the same counts as recording what comes over, value by value. */
  lemma {:induction false} MergeIsRecording(c: Config, counts: seq<int>, f: Config, fs: seq<int>)
    requires c.bucketCount >= 1 && |counts| == c.CountsLen() && NonNegative(fs)
    ensures Merged(c, counts, f, fs) == AllRecorded(c, counts, MergedValues(c, f, fs))
    decreases |fs|
  {
    hide SlotValue, Recorded, AllRecorded, Config.Limit, Config.CountsLen, Merged, MergedValues, Repeat;
    if fs == [] {
      MergedNone(c, counts, f);
      FirstRecorded(c, counts, 0);
    } else {
      var n := |fs| - 1;
      assert fs[..n + 1] == fs;
      MergedNext(c, counts, f, fs, n);
      MergedValuesNext(c, f, fs, n);
      MergeIsRecording(c, counts, f, fs[..n]);
      MergeConserves(c, counts, f, fs[..n]);
      SlotIsRecording(c, Merged(c, counts, f, fs[..n]), SlotValue(f, n), fs[n]);
      AllRecordedThen(c, counts, MergedValues(c, f, fs[..n]),
                      if SlotValue(f, n) < c.Limit() then Repeat(SlotValue(f, n), fs[n]) else []);
    }
  }

  /** Slots without counts change nothing. */
  lemma {:induction false} MergedRest(c: Config, counts: seq<int>, f: Config, fs: seq<int>, n: nat)
    requires n <= |fs| && c.bucketCount >= 1 && forall i :: n <= i < |fs| ==> fs[i] == 0
    ensures Merged(c, counts, f, fs[..n]) == Merged(c, counts, f, fs)
    ensures Dropped(c, f, fs[..n]) == Dropped(c, f, fs)
    decreases |fs| - n
  {
    hide Merged, Dropped, Recorded, SlotValue, Config.Limit, Config.CountsLen;
    if n < |fs| {
      RecordedNothing(c, Merged(c, counts, f, fs[..n]), SlotValue(f, n));
      MergedNext(c, counts, f, fs, n);
      MergedRest(c, counts, f, fs, n + 1);
    } else {
      assert fs[..n] == fs;
    }
  }

  lemma {:induction false} RecordedSum(c: Config, counts: seq<int>, v: nat, n: int)
    requires c.bucketCount >= 1 && |counts| == c.CountsLen()
    ensures |Recorded(c, counts, v, n)| == |counts|
    ensures Sum(Recorded(c, counts, v, n)) == Sum(counts) + (if v < c.Limit() then n else 0)
  {
    c.FitsBelowLimit(v);
    if v < c.Limit() {
      SumUpdate(counts, c.Index(v), n);
    }
  }

  /** Nothing is lost or invented: what was there, plus what was merged, minus what was dropped. */
  lemma {:induction false} MergeConserves(c: Config, counts: seq<int>, f: Config, fs: seq<int>)
    requires c.bucketCount >= 1 && |counts| == c.CountsLen()
    ensures |Merged(c, counts, f, fs)| == |counts|
    ensures Sum(Merged(c, counts, f, fs)) == Sum(counts) + Sum(fs) - Dropped(c, f, fs)
    decreases |fs|
  {
    if fs != [] {
      var n := |fs| - 1;
      MergeConserves(c, counts, f, fs[..n]);
      RecordedSum(c, Merged(c, counts, f, fs[..n]), SlotValue(f, n), fs[n]);
    }
  }

  /** Between histograms of one configuration nothing is dropped, and the counts add up slot by slot. */
  lemma {:induction false} MergeSameConfig(c: Config, counts: seq<int>, fs: seq<int>)
    requires c.bucketCount >= 1 && |counts| == c.CountsLen() && |fs| <= |counts|
    ensures Dropped(c, c, fs) == 0
    ensures |Merged(c, counts, c, fs)| == |counts|
    ensures forall i :: 0 <= i < |counts| ==>
              Merged(c, counts, c, fs)[i] == counts[i] + (if i < |fs| then fs[i] else 0)
    decreases |fs|
  {
    if fs != [] {
      var n := |fs| - 1;
      MergeSameConfig(c, counts, fs[..n]);
      c.ValueAtIndex(n);
      c.FitsBelowLimit(SlotValue(c, n));
    }
  }

  /** Of a histogram that is merged into itself nothing is dropped, and each slot is read before it is added to. */
  lemma {:induction false} SelfSlot(c: Config, cs: seq<int>, n: nat)
    requires c.bucketCount >= 1 && |cs| == c.CountsLen() && n <= |cs|
    ensures Dropped(c, c, cs[..n]) == 0 && |Merged(c, cs, c, cs[..n])| == |cs|
    ensures n < |cs| ==> Merged(c, cs, c, cs[..n])[n] == cs[n]
  {
    MergeSameConfig(c, cs, cs[..n]);
  }

  /** The scan of a source with these counts and total reads slot n: in a merge into itself the slots read so far
      have been added to its total. */
  ghost predicate GoesOn(self: bool, fs: seq<int>, total: int, n: nat)
    requires n <= |fs|
  {
    Prefix(fs, n) < if self then total + Prefix(fs, n) else total
  }

  ghost predicate AllGoOn(self: bool, fs: seq<int>, total: int, n: nat)
    requires n <= |fs|
  {
    forall m :: 0 <= m < n ==> GoesOn(self, fs, total, m)
  }

  /** How many slots a scan of another histogram reads. */
  ghost predicate Visits(fs: seq<int>, total: int, n: nat) {
    StopsAt(fs, total, n) || (RunsOff(fs, total) && n == |fs|)
  }

  lemma {:induction false} ScanEnds(fs: seq<int>, total: int, n: nat, broken: bool)
    requires n <= |fs| && AllGoOn(false, fs, total, n)
    requires (broken <==> GoesOn(false, fs, total, n)) && (broken ==> n == |fs|)
    ensures broken <==> RunsOff(fs, total)
    ensures forall m: nat :: Visits(fs, total, m) <==> m == n
    ensures !broken ==> StopsAt(fs, total, n) && (Prefix(fs, n) == total <==> !Overshoots(fs, total))
  {
    hide Prefix;
    forall m | 0 <= m < n
      ensures Prefix(fs, m) < total
    {
      assert GoesOn(false, fs, total, m);
    }
  }

  /** What is reported for a value: the end of its slot, close enough above it. */
  ghost predicate ReportsWell(c: Config, x: nat, r: int) {
    && r == c.Highest(x) && x <= r && c.sigfigs >= 1
    && (r - x < c.lowest || (r - x) * Pow10(c.sigfigs) < x)
  }

  /** r is what is to be reported for the exact order statistic of the given rank, if there is one of that rank:
      never below it, and above it by less than the lowest trackable value or less than one part in 10^sigfigs.
      A rank of 0 reports slot 0, recorded or not. */
  ghost predicate IsQuantile(c: Config, recorded: seq<nat>, rank: int, r: int) {
    && (recorded == [] ==> r == 0)
    && (recorded != [] && rank <= 0 ==> r == c.Highest(0))
    && forall x: nat :: IsOrderStatistic(recorded, rank, x) ==> ReportsWell(c, x, r)
  }

  /** r is reported for the value of that rank, which has been recorded. */
  ghost predicate Reports(c: Config, recorded: seq<nat>, rank: int, r: int) {
    exists x: nat :: x in recorded && IsOrderStatistic(recorded, rank, x) && ReportsWell(c, x, r)
  }

  /** Each rank from 1 to the number of recorded values has an order statistic among them. */
  lemma {:induction false} RecordedOrderStatistic(recorded: seq<nat>, rank: int) returns (x: nat)
    requires 1 <= rank <= |recorded|
    ensures x in recorded && IsOrderStatistic(recorded, rank, x)
  {
    var top := UpperBound(recorded);
    CountBelowExtremes(recorded, 0, top);
    var y := OrderStatisticExists(recorded, rank, 0, top);
    x := y;
  }

  lemma {:induction false} UpperBound(s: seq<nat>) returns (top: nat)
    ensures forall i :: 0 <= i < |s| ==> s[i] < top
  {
    top := 0;
    for i := 0 to |s|
      invariant forall j :: 0 <= j < i ==> s[j] < top
    {
      top := if s[i] < top then top else s[i] + 1;
    }
  }

  lemma {:induction false} QuantileIsReported(c: Config, recorded: seq<nat>, rank: int, r: int)
    requires IsQuantile(c, recorded, rank, r)
    ensures 1 <= rank <= |recorded| ==> Reports(c, recorded, rank, r)
  {
    if 1 <= rank <= |recorded| {
      var x := RecordedOrderStatistic(recorded, rank);
    }
  }

  /** The running count stays below the rank in the first n slots. */
  ghost predicate NeverReaches(counts: seq<int>, rank: int, n: nat)
    requires n <= |counts|
  {
    forall m :: 1 <= m <= n ==> Prefix(counts, m) < rank
  }

  /** The total has not been seen before slot n. */
  ghost predicate NotYet(counts: seq<int>, total: int, n: nat)
    requires n <= |counts|
  {
    forall m :: 0 <= m < n ==> Prefix(counts, m) < total
  }

  /** The scan for a rank goes past n slots. Then it runs off, or has seen the total and answers 0, or the running count
      reaches the rank with the next slot, of which it answers the end. */
  ghost predicate IsAnswer(c: Config, counts: seq<int>, total: int, rank: int, r: Option<int>, n: nat) {
    && n <= |counts| && NeverReaches(counts, rank, n) && NotYet(counts, total, n)
    && if r == None then n == |counts| && Prefix(counts, n) < total
       else if Prefix(counts, n) >= total then r == Some(0)
       else n < |counts| && Prefix(counts, n + 1) >= rank && r == Some(c.Highest(SlotValue(c, n)))
  }

  lemma {:induction false} AnswerIsUnique(c: Config, counts: seq<int>, total: int, rank: int, r: Option<int>, n: nat,
                                          r': Option<int>, n': nat)
    requires IsAnswer(c, counts, total, rank, r, n) && IsAnswer(c, counts, total, rank, r', n')
    ensures r == r'
  {
    hide Prefix, Config.Highest, SlotValue;
    assert n == n';
  }

  lemma {:induction false} NoAnswer(c: Config, counts: seq<int>, total: int, rank: int, r: Option<int>, n: nat)
    requires IsAnswer(c, counts, total, rank, r, n)
    ensures r == None <==> RunsOff(counts, total) && NeverReaches(counts, rank, |counts|)
  {
    hide Prefix, Config.Highest, SlotValue;
  }

  lemma {:induction false} TopIsLargest(c: Config, recorded: seq<nat>, r: int)
    requires recorded != [] && IsQuantile(c, recorded, |recorded|, r)
    ensures exists x: nat :: IsLargest(recorded, x) && r == c.Highest(x)
  {
    var x := RecordedOrderStatistic(recorded, |recorded|);
    TopRankIsLargest(recorded, x);
    assert ReportsWell(c, x, r);
  }

  lemma {:induction false} NotFound(c: Config, counts: seq<int>, total: int, recorded: seq<nat>, rank: int)
    requires IsTallyOf(c, counts, total, recorded) && (total == 0 || rank > total)
    ensures IsQuantile(c, recorded, rank, 0)
  {
    forall x: nat
      ensures !IsOrderStatistic(recorded, rank, x)
    {
      CountBelowMono(recorded, x, x + 1);
    }
  }

  /** When the counts are those of the recorded values the scan ends, and with the right answer. */
  lemma {:induction false} ExactAnswer(c: Config, counts: seq<int>, total: int, recorded: seq<nat>, rank: int,
                                       r: Option<int>, n: nat)
    requires Configured(c) && c.bucketCount >= 1 && IsTallyOf(c, counts, total, recorded) && total == Sum(counts)
    requires IsAnswer(c, counts, total, rank, r, n)
    ensures r.Some? && IsQuantile(c, recorded, rank, r.value)
    ensures 1 <= rank <= |recorded| ==> Reports(c, recorded, rank, r.value)
  {
    hide IsQuantile, Reports, IsTallyOf, Config.Highest, SlotValue, Prefix, Sum;
    SumIsSeen(counts);
    NoAnswer(c, counts, total, rank, r, n);
    PrefixNone(counts);
    TallySize(c, counts, total, recorded);
    if Prefix(counts, n) >= total {
      NotFound(c, counts, total, recorded, rank);
    } else {
      FoundRank(c, counts, total, recorded, rank, n, r.value);
    }
    QuantileIsReported(c, recorded, rank, r.value);
  }

  lemma {:induction false} TallySize(c: Config, counts: seq<int>, total: int, recorded: seq<nat>)
    requires IsTallyOf(c, counts, total, recorded)
    ensures total == |recorded|
  {
  }

  /** The scan has found the slot where the running count first reaches the rank. */
  lemma {:induction false} FoundRank(c: Config, counts: seq<int>, total: int, recorded: seq<nat>, rank: int,
                                     i: nat, r: int)
    requires Configured(c) && c.bucketCount >= 1 && IsTallyOf(c, counts, total, recorded) && total > 0
    requires i < |counts| && r == c.Highest(SlotValue(c, i))
    requires rank <= Prefix(counts, i + 1) && (i > 0 ==> Prefix(counts, i) < rank)
    ensures IsQuantile(c, recorded, rank, r)
  {
    TallyMeans(c, counts, total, recorded, i);
    if rank <= 0 {
      c.FirstSlot();
    }
    forall x: nat | IsOrderStatistic(recorded, rank, x)
      ensures ReportsWell(c, x, r)
    {
      RankSlot(c, counts, recorded, rank, x, i);
      SlotValueEquivalent(c, i, x);
      Resolution(c, x);
    }
  }

  lemma {:induction false} LargestSlot(c: Config, counts: seq<int>, total: int, recorded: seq<nat>, last: int, n: nat)
    requires c.bucketCount >= 1 && IsTallyOf(c, counts, total, recorded) && NonNegative(counts)
    requires Sum(counts) == total && StopsAt(counts, total, n) && IsLastUsed(counts, last, n)
    ensures last < 0 <==> recorded == []
    ensures forall x: nat :: last >= 0 && IsOrderStatistic(recorded, |recorded|, x) ==>
              c.Highest(EndOfSlot(c, last)) == c.Highest(x)
  {
    PrefixAtMostSum(counts, n);
    if last < 0 {
      Zeros(counts[..n]);
    } else {
      PrefixAtMostSum(counts, last + 1);
      PrefixNext(counts, last);
      SumIsSeen(counts);
      PrefixOfZeros(counts, last + 1, n);
      TallyMeans(c, counts, total, recorded, last);
      forall x: nat | IsOrderStatistic(recorded, |recorded|, x)
        ensures c.Highest(EndOfSlot(c, last)) == c.Highest(x)
      {
        RankSlot(c, counts, recorded, |recorded|, x, last);
        SlotValueEquivalent(c, last, x);
      }
    }
  }

  /** Nothing is in any slot: nothing has been recorded. */
  lemma {:induction false} NothingSeen(c: Config, counts: seq<int>, total: int, recorded: seq<nat>)
    requires IsTallyOf(c, counts, total, recorded) && Sum(counts) == total
    requires total <= 0 || forall i :: 0 <= i < |counts| ==> counts[i] == 0
    ensures total == 0 && recorded == []
  {
    if total > 0 {
      Zeros(counts);
    }
  }

  lemma {:induction false} SmallestSlot(c: Config, counts: seq<int>, total: int, recorded: seq<nat>, i: nat)
    requires c.bucketCount >= 1 && IsTallyOf(c, counts, total, recorded) && NonNegative(counts)
    requires IsFirstUsed(counts, i)
    ensures recorded != []
    ensures forall x: nat :: IsOrderStatistic(recorded, 1, x) ==> c.Lowest(EndOfSlot(c, i)) == c.Lowest(x)
  {
    Zeros(counts[..i]);
    PrefixNext(counts, i);
    TallyMeans(c, counts, total, recorded, i + 1);
    forall x: nat | IsOrderStatistic(recorded, 1, x)
      ensures c.Lowest(EndOfSlot(c, i)) == c.Lowest(x)
    {
      RankSlot(c, counts, recorded, 1, x, i);
      SlotValueEquivalent(c, i, x);
    }
  }

  /** `last` is the last slot before n with anything in it. */
  ghost predicate IsLastUsed(counts: seq<int>, last: int, n: nat)
    requires n <= |counts|
  {
    && -1 <= last < n && (last >= 0 ==> counts[last] != 0)
    && forall i :: last < i < n ==> counts[i] == 0
  }

  ghost predicate IsFirstUsed(counts: seq<int>, i: nat) {
    i < |counts| && counts[i] != 0 && forall j :: 0 <= j < i ==> counts[j] == 0
  }

  lemma {:induction false} LastUsedOnce(counts: seq<int>, total: int, last: int, n: nat, stopped: bool)
    requires n <= |counts| && IsLastUsed(counts, last, n)
    requires if stopped then StopsAt(counts, total, n) else RunsOff(counts, total)
    ensures stopped <==> !RunsOff(counts, total)
    ensures forall n': nat, last' :: StopsAt(counts, total, n') && IsLastUsed(counts, last', n') ==>
              stopped && last' == last
  {
    hide Prefix;
    forall n': nat, last' | StopsAt(counts, total, n') && IsLastUsed(counts, last', n')
      ensures stopped && last' == last
    {
      assert n' == n;
    }
  }

  /** What a step of the iterator comes to; OutOfBounds stands for the panic of its bounds check. */
  datatype Step = More | Done | OutOfBounds

  /** The code's iterator struct: a cursor over the slots of a histogram. */
  class Iterator {
    const h: Hist
    var bucketIdx: int
    var subBucketIdx: int
    var countAtIdx: int
    var countToIdx: int
    var valueFromIdx: nat
    var highestEquivalentValue: int
    ghost var seen: nat   // how many slots have been visited

    ghost predicate Valid()
      reads this
    {
      && h.Shaped() && seen <= h.counts.Length
      && (seen == 0 ==> bucketIdx == 0 && subBucketIdx == -1)
      && (seen > 0 ==> At(seen - 1))
    }

    /** The fields describe the i-th slot. */
    ghost predicate At(i: nat)
      reads this
    {
      && bucketIdx >= 0 && subBucketIdx >= 0 && (bucketIdx, subBucketIdx) == h.cfg.PairOf(i)
      && valueFromIdx == SlotValue(h.cfg, i) && highestEquivalentValue == h.cfg.Highest(valueFromIdx)
    }

    /** It is at slot i and has what that slot counts. */
    ghost predicate Reads(i: nat)
      reads this, h.counts
    {
      Valid() && seen == i + 1 && countAtIdx == h.counts[i]
    }

    constructor (h: Hist)
      requires h.Shaped()
      ensures Valid() && this.h == h && seen == 0 && countToIdx == 0
    {
      this.h := h;
      bucketIdx, subBucketIdx, countAtIdx, countToIdx, valueFromIdx, highestEquivalentValue := 0, -1, 0, 0, 0, 0;
      seen := 0;
    }

    /** Steps to the next bucket and sub-bucket, which is out of bounds exactly when every slot has been visited. */
    method Advance()
      requires Valid()
      modifies `bucketIdx, `subBucketIdx
      ensures bucketIdx >= 0 && subBucketIdx >= 0 && (bucketIdx, subBucketIdx) == h.cfg.PairOf(seen)
      ensures h.cfg.CountsIndex(bucketIdx, subBucketIdx) == seen
      ensures bucketIdx >= h.cfg.bucketCount <==> seen == h.counts.Length
    {
      h.cfg.NextPairNextIndex(seen, bucketIdx, subBucketIdx);
      subBucketIdx := subBucketIdx + 1;
      if subBucketIdx >= h.cfg.SubBucketCount() {
        subBucketIdx := h.cfg.SubBucketHalfCount();
        bucketIdx := bucketIdx + 1;
      }
    }

    /** Moves to the next slot, in order and without gaps, and stops once it has seen the whole total. The code's check
        that it has not run off the buckets fires exactly when there is no next slot and the total is not seen. */
    method Next() returns (step: Step)
      requires Valid()
      modifies this
      ensures step == if old(countToIdx) >= h.totalCount then Done
                      else if old(seen) == h.counts.Length then OutOfBounds else More
      ensures !step.OutOfBounds? ==> Valid()
      ensures step.More? ==> Reads(old(seen)) && countToIdx == old(countToIdx) + countAtIdx
      ensures !step.More? ==> seen == old(seen) && countToIdx == old(countToIdx)
    {
      hide Config.Highest, Config.PairOf;
      if countToIdx >= h.totalCount {
        return Done;
      }
      Advance();
      if bucketIdx >= h.cfg.bucketCount {
        return OutOfBounds;
      }
      countAtIdx := h.counts[h.cfg.CountsIndex(bucketIdx, subBucketIdx)];
      countToIdx := countToIdx + countAtIdx;
      valueFromIdx := h.cfg.ValueFromIndex(bucketIdx, subBucketIdx);
      highestEquivalentValue := h.cfg.Highest(valueFromIdx);
      seen := seen + 1;
      step := More;
    }
  }

  /** The rank a quantile stands for, rounded as the code does it, over exact reals. */
  function RankOf(q: real, total: int): int {
    var p := if q > 100.0 then 100.0 else q;
    Truncated(Share(p, total as real) + 0.5)
  }

  function Truncated(x: real): int {
    if x >= 0.0 then x.Floor else -(-x).Floor
  }

  /** q percent of t. */
  function Share(q: real, t: real): real {
    q / 100.0 * t
  }

  lemma {:induction false} ShareMono(a: real, b: real, t: real)
    requires a <= b && t >= 0.0
    ensures Share(a, t) <= Share(b, t)
  {
    assert (b / 100.0 - a / 100.0) * t >= 0.0;
  }

  lemma {:induction false} ShareMeans(q: real, t: real)
    ensures Share(q, t) == q * t / 100.0 && Share(0.0, t) == 0.0 && Share(100.0, t) == t
  {
  }

  /** The rank of a quantile is its share of the total, to the nearest: from none to all of it. */
  lemma {:induction false} RankIsShare(q: real, total: nat)
    requires 0.0 <= q <= 100.0
    ensures 0 <= RankOf(q, total) <= total
    ensures Share(q, total as real) == q * total as real / 100.0
    ensures RankOf(q, total) as real - 0.5 <= Share(q, total as real) < RankOf(q, total) as real + 0.5
  {
    ShareMeans(q, total as real);
    ShareMono(0.0, q, total as real);
    ShareMono(q, 100.0, total as real);
    hide Share;
    NearestBetween(Share(q, total as real), total);
  }

  lemma {:induction false} NearestBetween(y: real, total: nat)
    requires 0.0 <= y <= total as real
    ensures 0 <= (y + 0.5).Floor <= total
    ensures (y + 0.5).Floor as real - 0.5 <= y < (y + 0.5).Floor as real + 0.5
  {
  }

  /** A larger quantile never has a smaller rank, and from 100 on it is the whole total. */
  lemma {:induction false} RankMono(q: real, q': real, total: nat)
    requires q <= q'
    ensures RankOf(q, total) <= RankOf(q', total)
    ensures q >= 100.0 ==> RankOf(q, total) == total
  {
    var (p, p') := (if q > 100.0 then 100.0 else q, if q' > 100.0 then 100.0 else q');
    ShareMono(p, p', total as real);
    ShareMeans(p, total as real);
    hide Share;
    TruncatedMono(Share(p, total as real) + 0.5, Share(p', total as real) + 0.5);
    NearestBetween(total as real, total);
  }

  lemma {:induction false} TruncatedMono(x: real, y: real)
    requires x <= y
    ensures Truncated(x) <= Truncated(y)
  {
  }

  /** What a quantile says of the recorded values: with half a value's tolerance its share of them is at or below the
      report, and no more than its share lies below the report's slot. */
  ghost predicate CutsOff(c: Config, recorded: seq<nat>, q: real, r: int) {
    var share := Share(q, |recorded| as real);
    && CountBelow(recorded, r + 1) as real >= share - 0.5
    && (r >= 0 ==> CountBelow(recorded, c.Lowest(r)) as real <= share + 0.5)
  }

  lemma {:induction false} QuantileCutsOff(c: Config, recorded: seq<nat>, q: real, r: int)
    requires 0.0 <= q <= 100.0 && recorded != [] && IsQuantile(c, recorded, RankOf(q, |recorded|), r)
    ensures CutsOff(c, recorded, q, r)
  {
    hide Share, RankOf, Config.Lowest, Config.Highest, Config.Index, CountBelow;
    var rank := RankOf(q, |recorded|);
    RankIsShare(q, |recorded|);
    if rank > 0 {
      var x := RecordedOrderStatistic(recorded, rank);
      CountBelowMono(recorded, x + 1, r + 1);
      c.SameIndexIffEquivalent(x, x);
      c.SameIndexIffEquivalent(x, r);
      CountBelowMono(recorded, c.Lowest(r), x);
    } else {
      c.SameIndexIffEquivalent(0, 0);
      c.SameIndexIffEquivalent(0, r);
      NoneBelowZero(recorded, c.Lowest(r));
    }
  }

  lemma {:induction false} NoneBelowZero(s: seq<nat>, i: int)
    requires i <= 0
    ensures CountBelow(s, i) == 0
  {
    if s != [] {
      NoneBelowZero(s[1..], i);
    }
  }

  /** The counts after recording, whether or not the value fits. */
  function Recorded(c: Config, counts: seq<int>, v: int, n: int): seq<int> {
    var k := c.IndexOf(v);
    if 0 <= k < |counts| then counts[k := counts[k] + n] else counts
  }
}
