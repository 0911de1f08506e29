/** A ring of histograms of one configuration, of which the oldest is reset to become the current one. */
module Windowed {
  import opened Counts
  import opened HdrIndex
  import opened Histogram
  import opened RingIndex

  /** What slot k of `counts` holds, summed over the first n histograms. */
  ghost function WindowSum(h: seq<Hist>, n: nat, k: nat): int
    requires n <= |h| && forall i :: 0 <= i < n ==> k < h[i].counts.Length
    reads h, set x <- h :: x.counts
  {
    if n == 0 then 0 else WindowSum(h, n - 1, k) + h[n - 1].counts[k]
  }

  class WindowedHistogram {
    const h: seq<Hist>
    const m: Hist
    var idx: int
    var current: Hist
    ghost var closed: seq<seq<int>>   // what each window held when Rotate left it

    ghost predicate Valid()
      reads this, m, m.counts, h, set x <- h :: x.counts
    {
      && h != [] && 0 <= idx == |closed| && current == h[idx % |h|]
      && m.Valid() && m !in h
      && (forall i :: 0 <= i < |h| ==> h[i].Exact() && h[i].cfg == m.cfg && h[i].counts != m.counts)
      && (forall i, j :: 0 <= i < j < |h| ==> h[i] != h[j] && h[i].counts != h[j].counts)
      && (forall w :: 0 <= w < |closed| ==> |closed[w]| == m.counts.Length)
      && (forall j :: 0 <= j < |h| && j != idx % |h| ==>
            h[j].counts[..] == Held(|h|, Blank(m.counts.Length), closed)[j])
    }

    /** Every window there has been, the current one last. */
    ghost function Windows(): seq<seq<int>>
      reads this, current, current.counts
    {
      closed + [current.counts[..]]
    }

    /** The merged histogram holds, slot by slot, the sum over the first n. */
    ghost predicate Summed(n: nat)
      requires Valid() && n <= |h|
      reads this, m, m.counts, h, set x <- h :: x.counts
    {
      forall k :: 0 <= k < m.counts.Length ==> m.counts[k] == WindowSum(h, n, k)
    }

    constructor (h: seq<Hist>, m: Hist)
      requires h != [] && m.Valid() && m !in h
      requires forall i :: 0 <= i < |h| ==> h[i].Exact() && h[i].cfg == m.cfg && h[i].counts != m.counts
      requires forall i, j :: 0 <= i < j < |h| ==> h[i] != h[j] && h[i].counts != h[j].counts
      requires forall i :: 0 <= i < |h| ==> IsBlank(h[i].counts[..])
      ensures Valid() && idx == 0 && this.h == h && this.m == m && closed == [] && IsBlank(current.counts[..])
    {
      this.h, this.m, idx, current, closed := h, m, 0, h[0], [];
    }

    /** Each slot holds its sum over the last |h| windows; none of them changes, and nothing is dropped. */
    method Merge() returns (r: Hist)
      requires Valid()
      modifies m, m.counts
      ensures Valid() && r == m && Windows() == old(Windows())
      ensures forall w :: 0 <= w < |Windows()| ==> |Windows()[w]| == m.counts.Length
      ensures forall k :: 0 <= k < m.counts.Length ==> m.counts[k] == ColumnSum(Last(Windows(), |h|), k)
    {
      Clear();
      for i := 0 to |h|
        invariant Valid() && Summed(i)
      {
        AddWindow(i);
      }
      r := m;
      SlotsHoldLastWindows();
    }

    lemma {:induction false} SlotsAreHeld()
      requires Valid()
      ensures forall j :: 0 <= j < |h| ==> h[j].counts[..] == Held(|h|, Blank(m.counts.Length), Windows())[j]
    {
      hide Held;
      HeldNext(|h|, Blank(m.counts.Length), closed, current.counts[..]);
    }

    /** The slots hold the last windows, in some order. */
    lemma {:induction false} SlotsHoldLastWindows()
      requires Valid()
      ensures forall w :: 0 <= w < |Windows()| ==> |Windows()[w]| == m.counts.Length
      ensures forall k :: 0 <= k < m.counts.Length ==> WindowSum(h, |h|, k) == ColumnSum(Last(Windows(), |h|), k)
    {
      hide Held, Blank;
      var (n, len, ws) := (|h|, m.counts.Length, Windows());
      var held := Held(n, Blank(len), ws);
      SlotsAreHeld();
      HeldLength(n, len, ws);
      assert held[..n] == held;
      forall k | 0 <= k < len
        ensures WindowSum(h, n, k) == ColumnSum(Last(ws, n), k)
      {
        WindowSumIsColumn(h, held, n, k);
        SumOfHeld(n, len, ws, k);
      }
    }

    method Clear()
      requires Valid()
      modifies m, m.counts
      ensures Valid() && Summed(0)
    {
      m.Reset();
    }

    /** Adds the i-th histogram to the merged one. */
    method AddWindow(i: nat)
      requires Valid() && i < |h| && Summed(i)
      modifies m, m.counts
      ensures Valid() && Summed(i + 1)
    {
      hide Held, Visits, Overshoots, RunsOff, Prefix, Sum, Merged, Dropped, IsTallyOf, NonNegative, Last, Blank;
      ghost var (before, added) := (m.counts[..], h[i].counts[..]);
      TallyMeans(m.cfg, added, h[i].totalCount, h[i].recorded, 0);
      var dropped := m.Merge(h[i]);
      MergeSameConfig(m.cfg, before, added);
      forall k | 0 <= k < m.counts.Length
        ensures m.counts[k] == WindowSum(h, i + 1, k)
      {
        assert m.counts[..][k] == before[k] + added[k];
      }
    }

    /** What a caller does between rotations: a value goes into the current window. */
    method Record(v: nat) returns (ok: bool)
      requires Valid()
      modifies current, current.counts
      ensures Valid() && closed == old(closed) && (ok <==> v < current.cfg.Limit())
      ensures current.recorded == if ok then old(current.recorded) + [v] else old(current.recorded)
    {
      hide Held;
      ok := current.RecordValue(v);
    }

    /** The current window is closed, and a new one starts in the place of the oldest. */
    method Rotate()
      requires Valid()
      modifies this, h[(idx + 1) % |h|], h[(idx + 1) % |h|].counts
      ensures Valid() && closed == old(Windows())
      ensures current.recorded == [] && IsBlank(current.counts[..])
    {
      hide Held;
      ghost var (n, blank, c) := (|h|, Blank(m.counts.Length), current.counts[..]);
      HeldNext(n, blank, closed, c);
      closed := closed + [c];
      idx := idx + 1;
      current := h[idx % |h|];
      ResetCurrent();
    }

    method ResetCurrent()
      requires Valid()
      modifies current, current.counts
      ensures Valid() && closed == old(closed)
      ensures current.recorded == [] && IsBlank(current.counts[..])
    {
      hide Held;
      current.Reset();
    }
  }

  /** NewWindowed, with null standing for its panics: no windows, or a bad precision. */
  method NewWindowed(n: int, lowest: int, highest: int, sigfigs: int) returns (w: WindowedHistogram?)
    requires InRange(lowest, highest)
    ensures w == null <==> n < 1 || sigfigs < 1 || 5 < sigfigs
    ensures w != null ==> w.Valid() && |w.h| == n && w.closed == [] && w.m.cfg == ConfigFor(lowest, highest, sigfigs)
    ensures w != null ==> IsBlank(w.current.counts[..])
  {
    hide ConfigFor, IsTallyOf, TallyOf, Sum, Held;
    var m := New(lowest, highest, sigfigs);
    if m == null || n < 1 {
      return null;
    }
    var h: seq<Hist> := [];
    while |h| < n
      invariant |h| <= n && m.Valid() && fresh(m) && m !in h
      invariant forall i :: 0 <= i < |h| ==> h[i].Exact() && h[i].cfg == m.cfg && h[i].counts != m.counts
      invariant forall i, j :: 0 <= i < j < |h| ==> h[i] != h[j] && h[i].counts != h[j].counts
      invariant forall i :: 0 <= i < |h| ==> IsBlank(h[i].counts[..])
    {
      var next := New(lowest, highest, sigfigs);
      h := h + [next];
    }
    w := new WindowedHistogram(h, m);
  }

  // ---------------------------------------------------------------- which windows are held

  /** What a ring of n slots holds after windows that leave the given contents behind, one after another: each
      window overwrites the slot that Rotate picks for it. */
  ghost function Held<A>(n: nat, blank: A, windows: seq<A>): (s: seq<A>)
    requires n >= 1
    ensures |s| == n
    decreases |windows|
  {
    if windows == [] then seq(n, _ => blank)
    else
      var w := |windows| - 1;
      Held(n, blank, windows[..w])[w % n := windows[w]]
  }

  /** The ring holds exactly the last n windows, each in a slot of its own. */
  lemma {:induction false} LastWindowsAreHeld<A>(n: nat, blank: A, windows: seq<A>, w: nat)
    requires n >= 1 && w < |windows| <= w + n
    ensures Held(n, blank, windows)[w % n] == windows[w]
    ensures forall v :: 0 <= v < |windows| <= v + n && v != w ==> v % n != w % n
    decreases |windows|
  {
    var last := |windows| - 1;
    if w < last {
      LastWindowsAreHeld(n, blank, windows[..last], w);
      CloseIndicesDiffer(w, last, n);
    }
    forall v | 0 <= v < |windows| <= v + n && v != w
      ensures v % n != w % n
    {
      if v < w {
        CloseIndicesDiffer(v, w, n);
      } else {
        CloseIndicesDiffer(w, v, n);
      }
    }
  }

  // ---------------------------------------------------------------- sums over windows

  ghost function Blank(len: nat): seq<int> {
    seq(len, _ => 0)
  }

  ghost predicate IsBlank(counts: seq<int>) {
    forall k :: 0 <= k < |counts| ==> counts[k] == 0
  }

  ghost function Last<A>(s: seq<A>, n: nat): seq<A> {
    if |s| <= n then s else s[|s| - n..]
  }

  /** The sum of the k-th entries. */
  ghost function ColumnSum(ws: seq<seq<int>>, k: nat): int
    requires forall w :: 0 <= w < |ws| ==> k < |ws[w]|
  {
    if ws == [] then 0 else ColumnSum(ws[..|ws| - 1], k) + ws[|ws| - 1][k]
  }

  lemma {:induction false} WindowSumIsColumn(h: seq<Hist>, held: seq<seq<int>>, n: nat, k: nat)
    requires n <= |h| == |held| && forall j :: 0 <= j < |h| ==> h[j].counts[..] == held[j] && k < |held[j]|
    ensures WindowSum(h, n, k) == ColumnSum(held[..n], k)
  {
    if n > 0 {
      WindowSumIsColumn(h, held, n - 1, k);
      assert held[..n][..n - 1] == held[..n - 1];
      assert h[n - 1].counts[..][k] == held[n - 1][k];
    }
  }

  lemma {:induction false} ColumnHead(ws: seq<seq<int>>, k: nat)
    requires ws != [] && forall w :: 0 <= w < |ws| ==> k < |ws[w]|
    ensures ColumnSum(ws, k) == ws[0][k] + ColumnSum(ws[1..], k)
  {
    if |ws| > 1 {
      ColumnHead(ws[..|ws| - 1], k);
      assert ws[..|ws| - 1][1..] == ws[1..][..|ws| - 2];
    }
  }

  lemma {:induction false} ColumnUpdate(ws: seq<seq<int>>, i: nat, x: seq<int>, k: nat)
    requires i < |ws| && k < |x| && forall w :: 0 <= w < |ws| ==> k < |ws[w]|
    ensures ColumnSum(ws[i := x], k) == ColumnSum(ws, k) - ws[i][k] + x[k]
  {
    var last := |ws| - 1;
    if i < last {
      ColumnUpdate(ws[..last], i, x, k);
      assert ws[i := x][..last] == ws[..last][i := x];
    } else {
      assert ws[i := x][..last] == ws[..last];
    }
  }

  lemma {:induction false} BlankColumns(n: nat, len: nat, k: nat)
    requires k < len
    ensures ColumnSum(seq(n, _ => Blank(len)), k) == 0
  {
    if n > 0 {
      BlankColumns(n - 1, len, k);
      assert seq(n, _ => Blank(len))[..n - 1] == seq(n - 1, _ => Blank(len));
    }
  }

  lemma {:induction false} HeldLength(n: nat, len: nat, windows: seq<seq<int>>)
    requires n >= 1 && forall w :: 0 <= w < |windows| ==> |windows[w]| == len
    ensures forall j :: 0 <= j < n ==> |Held(n, Blank(len), windows)[j]| == len
    decreases |windows|
  {
    if windows != [] {
      HeldLength(n, len, windows[..|windows| - 1]);
    }
  }

  lemma {:induction false} HeldNext<A>(n: nat, blank: A, windows: seq<A>, x: A)
    requires n >= 1
    ensures Held(n, blank, windows + [x]) == Held(n, blank, windows)[|windows| % n := x]
  {
    assert (windows + [x])[..|windows|] == windows;
  }

  /** A slot that no window has come to is blank. */
  lemma {:induction false} HeldUntouched<A>(n: nat, blank: A, windows: seq<A>, j: nat)
    requires |windows| <= j < n
    ensures Held(n, blank, windows)[j] == blank
    decreases |windows|
  {
    if windows != [] {
      HeldUntouched(n, blank, windows[..|windows| - 1], j);
      ModUnique(|windows| - 1, n, 0, |windows| - 1);
    }
  }

  /** What the next window overwrites: the oldest of the last n, or a slot that is still blank. */
  lemma {:induction false} HeldOldest<A>(n: nat, blank: A, windows: seq<A>)
    requires n >= 1
    ensures Held(n, blank, windows)[|windows| % n] == if |windows| < n then blank else windows[|windows| - n]
  {
    var w := |windows|;
    if w < n {
      ModUnique(w, n, 0, w);
      HeldUntouched(n, blank, windows, w);
    } else {
      ModUnique(w, n, (w - n) / n + 1, (w - n) % n);
      LastWindowsAreHeld(n, blank, windows, w - n);
    }
  }

  /** One more window: it comes in and the oldest of the last n falls out. */
  lemma {:induction false} LastNext(n: nat, windows: seq<seq<int>>, x: seq<int>, k: nat)
    requires n >= 1 && k < |x| && forall w :: 0 <= w < |windows| ==> k < |windows[w]|
    ensures ColumnSum(Last(windows + [x], n), k) ==
            ColumnSum(Last(windows, n), k) + x[k] - if |windows| < n then 0 else windows[|windows| - n][k]
  {
    var (last, next) := (Last(windows, n), Last(windows + [x], n));
    if |windows| < n {
      assert next[..|next| - 1] == last;
    } else {
      ColumnHead(last, k);
      assert next[..|next| - 1] == last[1..];
    }
  }

  /** Summing over the slots is summing over the last n windows. */
  lemma {:induction false} SumOfHeld(n: nat, len: nat, windows: seq<seq<int>>, k: nat)
    requires n >= 1 && k < len && forall w :: 0 <= w < |windows| ==> |windows[w]| == len
    ensures forall j :: 0 <= j < n ==> |Held(n, Blank(len), windows)[j]| == len
    ensures ColumnSum(Held(n, Blank(len), windows), k) == ColumnSum(Last(windows, n), k)
    decreases |windows|
  {
    HeldLength(n, len, windows);
    if windows == [] {
      BlankColumns(n, len, k);
    } else {
      hide Held, ColumnSum;
      var (most, x) := (windows[..|windows| - 1], windows[|windows| - 1]);
      assert windows == most + [x];
      SumOfHeld(n, len, most, k);
      HeldOldest(n, Blank(len), most);
      HeldNext(n, Blank(len), most, x);
      ColumnUpdate(Held(n, Blank(len), most), |most| % n, x, k);
      LastNext(n, most, x, k);
    }
  }
}
