/** RateLimit: at most num items go out in any stretch of `window` time, whatever the clock does. The clock, the
    context and the timer are readings handed to the loop in the order it takes them; a run whose readings are used up
    is a run seen only so far. */
module RateLimit {

  /** Why the loop is where it is. */
  datatype Ending = Exhausted | ContextEnded | ConsumerStopped | StillRunning

  ghost predicate NonDecreasing(ts: seq<int>) {
    forall i, j :: 0 <= i < j < |ts| ==> ts[i] <= ts[j]
  }

  /** Between one send and the num-th after it, or a later one, more than the window passes. */
  ghost predicate Limited(ts: seq<int>, num: nat, window: int) {
    forall i, j :: 0 <= i && i + num <= j < |ts| ==> ts[j] - ts[i] > window
  }

  /** There is no room for a send at time `now`: it would come too soon after the num-th before it. */
  predicate Held(ts: seq<int>, num: nat, window: int, now: int) {
    0 < num <= |ts| && now - ts[|ts| - num] <= window
  }

  /** At the readings from a to b there was no room. */
  ghost predicate HeldThrough(clock: seq<int>, a: nat, b: int, ts: seq<int>, num: nat, window: int) {
    b <= |clock| && forall k :: a <= k < b ==> Held(ts, num, window, clock[k])
  }

  /** The first reading that the sends so far have left to the next one. */
  function NextReading(at: seq<nat>): nat {
    if at == [] then 0 else at[|at| - 1] + 1
  }

  /** Send i goes out at reading at[i], and no later than it has to: at the reading before that one there was room for
      the first time since the send before. */
  ghost predicate Prompt(clock: seq<int>, at: seq<nat>, ts: seq<int>, num: nat, window: int, i: nat)
    requires i < |at| == |ts|
  {
    && NextReading(at[..i]) < at[i] < |clock| && ts[i] == clock[at[i]]
    && HeldThrough(clock, NextReading(at[..i]), at[i] - 1, ts[..i], num, window)
    && !Held(ts[..i], num, window, clock[at[i] - 1])
  }

  ghost predicate AllPrompt(clock: seq<int>, at: seq<nat>, ts: seq<int>, num: nat, window: int) {
    |at| == |ts| && forall i :: 0 <= i < |at| ==> Prompt(clock, at, ts, num, window, i)
  }

  lemma {:induction false} NextPrompt(clock: seq<int>, at: seq<nat>, ts: seq<int>, num: nat, window: int, c: nat)
    requires AllPrompt(clock, at, ts, num, window) && NextReading(at) < c < |clock|
    requires HeldThrough(clock, NextReading(at), c - 1, ts, num, window) && !Held(ts, num, window, clock[c - 1])
    ensures AllPrompt(clock, at + [c], ts + [clock[c]], num, window)
  {
    hide Held;
    var (at', ts') := (at + [c], ts + [clock[c]]);
    forall i | 0 <= i < |at'|
      ensures Prompt(clock, at', ts', num, window, i)
    {
      assert at'[..i] == at[..i] && ts'[..i] == ts[..i];
      assert i < |at| ==> Prompt(clock, at, ts, num, window, i);
      assert at[..|at|] == at && ts[..|ts|] == ts;
    }
  }

  lemma {:induction false} FullWindowIsHeld(sent: seq<int>, ts: seq<int>, num: nat, window: int, now: int)
    requires num > 0 && WindowOf(sent, ts, window, now) && |sent| <= num && (sent != [] ==> now - sent[0] <= window)
    ensures Held(ts, num, window, now) <==> |sent| == num
  {
    if |sent| == num {
      assert sent[0] == ts[|ts| - num];
    }
  }

  /** Every answer from a to b was yes, except that the last one is no when `ended`. */
  predicate Yes(answers: seq<bool>, a: nat, b: nat, ended: bool) {
    a <= b <= |answers| && (ended ==> a < b) && forall i :: a <= i < b ==> (answers[i] <==> !(ended && i == b - 1))
  }

  /** The sends still in the window are the last ones, and the rest are too old at time `now` to matter. */
  ghost predicate WindowOf(sent: seq<int>, ts: seq<int>, window: int, now: int) {
    && |sent| <= |ts| && sent == ts[|ts| - |sent|..]
    && forall i :: 0 <= i < |ts| - |sent| ==> now - ts[i] > window
  }

  /** Another send when fewer than num are in the window keeps the limit. */
  lemma {:induction false} SendKeepsLimit(sent: seq<int>, ts: seq<int>, num: nat, window: int, now: int, t: int)
    requires num > 0 && |sent| < num && now <= t
    requires NonDecreasing(ts) && Limited(ts, num, window) && WindowOf(sent, ts, window, now)
    requires forall i :: 0 <= i < |ts| ==> ts[i] <= now
    ensures NonDecreasing(ts + [t]) && Limited(ts + [t], num, window) && WindowOf(sent + [t], ts + [t], window, now)
  {
    var ts' := ts + [t];
    forall i, j | 0 <= i && i + num <= j < |ts'|
      ensures ts'[j] - ts'[i] > window
    {
      assert ts'[i] == ts[i];
      assert j < |ts| ==> ts'[j] == ts[j];
    }
  }

  /** What is known between readings: `sent` is the window as of the latest one. */
  ghost predicate UpTo(clock: seq<int>, c: nat, sent: seq<int>, ts: seq<int>, num: nat, window: int) {
    && c <= |clock| && |sent| <= num
    && NonDecreasing(ts) && Limited(ts, num, window)
    && (forall i :: 0 <= i < |ts| ==> ts[i] in clock[..c])
    && (c == 0 ==> sent == ts == [])
    && (c > 0 ==> WindowOf(sent, ts, window, clock[c - 1]) && forall i :: 0 <= i < |ts| ==> ts[i] <= clock[c - 1])
  }

  lemma {:induction false} UpToMeans(clock: seq<int>, c: nat, sent: seq<int>, ts: seq<int>, num: nat, window: int)
    requires UpTo(clock, c, sent, ts, num, window)
    ensures NonDecreasing(ts) && Limited(ts, num, window) && forall i :: 0 <= i < |ts| ==> ts[i] in clock
  {
  }

  /** Reading the clock once more. */
  lemma {:induction false} Later(clock: seq<int>, c: nat, sent: seq<int>, ts: seq<int>, num: nat, window: int)
    requires NonDecreasing(clock) && UpTo(clock, c, sent, ts, num, window) && c < |clock|
    ensures UpTo(clock, c + 1, sent, ts, num, window)
  {
    assert clock[..c + 1] == clock[..c] + [clock[c]];
    if c > 0 {
      assert clock[c - 1] <= clock[c];
    }
  }

  /** The sends that have left the window are dropped from the front. */
  method Trim(sent: seq<int>, window: int, now: int, ghost ts: seq<int>) returns (rest: seq<int>)
    requires WindowOf(sent, ts, window, now)
    ensures WindowOf(rest, ts, window, now) && |rest| <= |sent|
    ensures rest != [] ==> now - rest[0] <= window
  {
    rest := sent;
    while |rest| > 0 && now - rest[0] > window
      invariant WindowOf(rest, ts, window, now) && |rest| <= |sent|
    {
      assert rest[0] == ts[|ts| - |rest|];
      rest := rest[1..];
    }
  }

  datatype Await = Room | Ended | NoReading

  /** Waits until fewer than num sends are in the window, or the context ends. At every reading but the last one with
      room there was none, and each took one answer of the timer. */
  method AwaitRoom(sent: seq<int>, num: nat, window: int, clock: seq<int>, c: nat, fired: seq<bool>, f: nat,
                   ghost ts: seq<int>)
    returns (rest: seq<int>, c': nat, f': nat, r: Await)
    requires num > 0 && NonDecreasing(clock) && f <= |fired| && UpTo(clock, c, sent, ts, num, window)
    ensures c <= c' <= |clock| && UpTo(clock, c', rest, ts, num, window)
    ensures HeldThrough(clock, c, if r == Room then c' - 1 else c', ts, num, window)
    ensures Yes(fired, f, f', r == Ended)
    ensures r == Room ==> |rest| < num && f' - f == c' - c - 1 >= 0 && !Held(ts, num, window, clock[c' - 1])
    ensures r == Ended ==> f' - f == c' - c > 0
    ensures r == NoReading ==>
              (c' == |clock| && f' - f == c' - c) || (f' == |fired| && f' - f == c' - c - 1 >= 0)
  {
    hide NonDecreasing, Limited, Held;
    rest, c', f' := sent, c, f;
    while true
      invariant c <= c' <= |clock| && UpTo(clock, c', rest, ts, num, window)
      invariant HeldThrough(clock, c, c', ts, num, window) && Yes(fired, f, f', false) && f' - f == c' - c
      decreases |clock| - c'
    {
      if c' == |clock| {
        r := NoReading;
        return;
      }
      var now := clock[c'];
      Later(clock, c', rest, ts, num, window);
      c' := c' + 1;
      rest := Trim(rest, window, now, ts);
      FullWindowIsHeld(rest, ts, num, window, now);
      if |rest| < num {
        r := Room;
        return;
      }
      if f' == |fired| {
        r := NoReading;
        return;
      }
      f' := f' + 1;
      if !fired[f' - 1] {
        r := Ended;
        return;
      }
    }
  }

  /** The send itself, at the next reading. */
  lemma {:induction false} Sent(clock: seq<int>, c: nat, sent: seq<int>, ts: seq<int>, num: nat, window: int)
    requires num > 0 && NonDecreasing(clock) && UpTo(clock, c, sent, ts, num, window) && 0 < c < |clock| && |sent| < num
    ensures UpTo(clock, c + 1, sent + [clock[c]], ts + [clock[c]], num, window)
  {
    Later(clock, c, sent, ts, num, window);
    SendKeepsLimit(sent, ts, num, window, clock[c], clock[c]);
    assert clock[..c + 1][c] == clock[c];
  }

  /** How far the readings were taken: c of the clock, l of the context, f of the timer. */
  datatype Taken = Taken(c: nat, l: nat, f: nat)

  /** Where the loop is when it returns, with the given number of items out. */
  ghost predicate Rests(why: Ending, outs: nat, ins: nat, at: seq<nat>, ts: seq<int>, num: nat, window: int,
                        clock: seq<int>, live: seq<bool>, fired: seq<bool>, t: Taken)
    requires t.l <= |live| && t.f <= |fired|
  {
    var from := NextReading(at);
    match why
    case ConsumerStopped => t.c == from && t.l == outs
    // the end of the input is noticed without a look at the clock
    case Exhausted => outs == ins && t.c == from && t.l == outs + 1
    // between items, or in the wait of the next one
    case ContextEnded =>
      && t.l == outs + 1
      && ((t.c == from && !live[t.l - 1])
          || (outs < ins && from < t.c && HeldThrough(clock, from, t.c, ts, num, window)
              && 0 < t.f && !fired[t.f - 1]))
    // some reading is missing: of the context; of the clock; or of the timer of an item that is held
    case StillRunning =>
      || (t.l == outs == |live| && t.c == from)
      || (t.l == outs + 1 && outs < ins && t.c == |clock| && HeldThrough(clock, from, t.c - 1, ts, num, window))
      || (t.l == outs + 1 && outs < ins && t.f == |fired| && from < t.c
          && HeldThrough(clock, from, t.c, ts, num, window))
  }

  /** The loop over the input. `live` are the answers of the context, `fired` says of each wait whether the timer or
      the end of the context woke it, and the consumer turns the item after `patience` others down. Every item goes out
      as soon as there is room, and the loop is left only for its own reasons. */
  method Run<T>(input: seq<T>, num: nat, window: int,
                clock: seq<int>, live: seq<bool>, fired: seq<bool>, patience: nat)
    returns (out: seq<T>, sends: seq<int>, why: Ending, t: Taken, ghost at: seq<nat>)
    requires num > 0 && NonDecreasing(clock)
    ensures out <= input && |sends| == |out| <= patience + 1
    ensures NonDecreasing(sends) && Limited(sends, num, window) && forall i :: 0 <= i < |sends| ==> sends[i] in clock
    ensures AllPrompt(clock, at, sends, num, window)
    ensures why == ConsumerStopped <==> |out| == patience + 1
    ensures t.c <= |clock| && t.f <= |fired| && t.l <= |live|
    ensures forall i :: 0 <= i < t.l ==> live[i] || (why == ContextEnded && i == t.l - 1)
    ensures forall i :: 0 <= i < t.f ==> fired[i] || (why == ContextEnded && i == t.f - 1)
    ensures t.f <= t.c - 2 * |out| <= t.f + 1
    ensures Rests(why, |out|, |input|, at, sends, num, window, clock, live, fired, t)
  {
    hide UpTo, AllPrompt, Held, NonDecreasing, Limited;
    var sent: seq<int> := [];
    var c: nat, l: nat, f: nat := 0, 0, 0;
    out, sends, at := [], [], [];
    NoneSent(clock, num, window);
    why := StillRunning;
    while l < |live|
      invariant l <= |live| && f <= |fired| && UpTo(clock, c, sent, sends, num, window)
      invariant out <= input && |sends| == |out| == l <= patience && why == StillRunning
      invariant AllPrompt(clock, at, sends, num, window) && c == NextReading(at) <= |clock| && c == f + 2 * |out|
      invariant Yes(live, 0, l, false) && Yes(fired, 0, f, false)
    {
      l := l + 1;
      if !live[l - 1] {
        why := ContextEnded;
        break;
      }
      if |out| == |input| {
        why := Exhausted;
        break;
      }
      var val := input[|out|];
      var r;
      sent, c, f, r := AwaitRoom(sent, num, window, clock, c, fired, f, sends);
      if r == Ended {
        why := ContextEnded;
        break;
      }
      if r == NoReading || c == |clock| {
        break;
      }
      Sent(clock, c, sent, sends, num, window);
      NextPrompt(clock, at, sends, num, window, c);
      sent, sends, at, c := sent + [clock[c]], sends + [clock[c]], at + [c], c + 1;
      out := out + [val];
      if |out| == patience + 1 {
        why := ConsumerStopped;
        break;
      }
    }
    UpToMeans(clock, c, sent, sends, num, window);
    t := Taken(c, l, f);
  }

  lemma {:induction false} NoneSent(clock: seq<int>, num: nat, window: int)
    ensures UpTo(clock, 0, [], [], num, window) && AllPrompt(clock, [], [], num, window)
  {
  }

  // ---------------------------------------------------------------- what the limit means

  predicate InStretch(ts: seq<int>, i: int, a: int, window: int) {
    0 <= i < |ts| && a <= ts[i] <= a + window
  }

  /** The sends that fall into the stretch from a to a + window, by index. */
  ghost function SendsIn(ts: seq<int>, a: int, window: int): set<int> {
    set i | 0 <= i < |ts| && InStretch(ts, i, a, window)
  }

  ghost function Range(lo: int, n: nat): (s: set<int>)
    ensures |s| == n && forall i :: i in s <==> lo <= i < lo + n
  {
    if n == 0 then {} else Range(lo, n - 1) + {lo + n - 1}
  }

  lemma {:induction false} SubsetSize<A>(s: set<A>, t: set<A>)
    requires s <= t
    ensures |s| <= |t|
  {
    assert t == s + (t - s);
  }

  /** No stretch of length `window`, wherever it starts, holds more than num sends. */
  lemma {:induction false} NoStretchHoldsMore(ts: seq<int>, num: nat, window: int, a: int)
    requires NonDecreasing(ts) && Limited(ts, num, window) && num > 0
    ensures |SendsIn(ts, a, window)| <= num
  {
    var s := SendsIn(ts, a, window);
    if s != {} {
      var lo := Least(ts, a, window);
      assert s <= Range(lo, num);
      SubsetSize(s, Range(lo, num));
    }
  }

  lemma {:induction false} Least(ts: seq<int>, a: int, window: int) returns (lo: nat)
    requires SendsIn(ts, a, window) != {}
    ensures lo in SendsIn(ts, a, window) && forall i :: i in SendsIn(ts, a, window) ==> lo <= i
  {
    var i :| i in SendsIn(ts, a, window);
    lo := 0;
    while lo !in SendsIn(ts, a, window)
      invariant lo <= i && forall j :: j in SendsIn(ts, a, window) ==> lo <= j
      decreases i - lo
    {
      lo := lo + 1;
    }
  }
}
