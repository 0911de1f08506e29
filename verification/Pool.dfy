/** Pool, poolRun and Sink: workers that share one input pull and one output, interleaved in any order. A step is a
    stretch of a worker that no other worker can see the middle of: the context check, the pull under the input lock,
    the call of op, the entry into the sink, and the return of the consumer's loop body. */
module Pool {
  import opened Sequences

  /** Where a worker stands; the number is the index of the input element it carries. */
  datatype Worker =
    | Checks            // about to look at the context
    | Pulls             // about to pull
    | Carries(i: nat)   // has pulled, op not called yet
    | Pushes(i: nat)    // op has returned, waiting for the sink
    | Yields(i: nat)    // inside the consumer's loop body, holding the sink
    | Stops(panicked: bool)   // has a reason to stop, and is about to cancel
    | Gone

  datatype Answer = Accepts | Refuses | Panics

  /** What happened to an element that no worker carries any more. */
  datatype Call = Call(i: nat, answer: Answer)

  /** `opped` lists the calls of op and `calls` the finished calls of the consumer. `done` is the sink's flag,
      `broken` says that the input itself has panicked, `failed` that a panic waits to be raised again. */
  datatype State = State(
    n: nat, pos: nat, cancelled: bool, done: bool, broken: bool, failed: bool,
    workers: seq<Worker>, opped: seq<nat>, calls: seq<Call>, lost: seq<nat>)

  datatype Event =
    | Cancel                          // the caller's context ends
    | Step(w: nat, answer: Answer)    // a worker moves; the answer is what the code it calls does

  function Start(num: int, n: nat): State {
    State(n, 0, false, false, false, false, seq(if num > 1 then num else 1, _ => Checks), [], [], [])
  }

  predicate SinkBusy(ws: seq<Worker>) {
    exists v :: 0 <= v < |ws| && ws[v].Yields?
  }

  /** A worker can move unless it is gone, or waits for the sink while another one is in it. */
  predicate Enabled(s: State, e: Event) {
    e.Step? ==> e.w < |s.workers| && !s.workers[e.w].Gone? && (s.workers[e.w].Pushes? ==> !SinkBusy(s.workers))
  }

  /** Cancels the others. A worker that panicked keeps the panic and is gone. */
  function Stop(s: State, w: nat, panicked: bool): State
    requires w < |s.workers|
  {
    s.(cancelled := true, failed := s.failed || panicked, workers := s.workers[w := if panicked then Gone else Checks])
  }

  function Check(s: State, w: nat): State
    requires w < |s.workers|
  {
    s.(workers := s.workers[w := if s.cancelled then Gone else Pulls])
  }

  function Pull(s: State, w: nat, a: Answer): State
    requires w < |s.workers|
  {
    if s.broken || s.pos == s.n then s.(workers := s.workers[w := Stops(false)])
    else if a == Panics then s.(broken := true, workers := s.workers[w := Stops(true)])
    else s.(pos := s.pos + 1, workers := s.workers[w := Carries(s.pos)])
  }

  function CallOp(s: State, w: nat, i: nat, a: Answer): State
    requires w < |s.workers|
  {
    var t := s.(opped := s.opped + [i]);
    if a == Panics then t.(lost := t.lost + [i], workers := s.workers[w := Stops(true)])
    else t.(workers := s.workers[w := Pushes(i)])
  }

  /** A closed sink answers false at once; an open one closes itself until the consumer has accepted. */
  function EnterSink(s: State, w: nat, i: nat): State
    requires w < |s.workers|
  {
    if s.done then s.(workers := s.workers[w := Stops(false)], lost := s.lost + [i])
    else s.(done := true, workers := s.workers[w := Yields(i)])
  }

  function LeaveSink(s: State, w: nat, i: nat, a: Answer): State
    requires w < |s.workers|
  {
    var t := s.(calls := s.calls + [Call(i, a)]);
    if a == Accepts then t.(done := false, workers := s.workers[w := Checks])
    else t.(workers := s.workers[w := Stops(a == Panics)])
  }

  function Apply(s: State, e: Event): State
    requires Enabled(s, e)
  {
    match e
    case Cancel => s.(cancelled := true)
    case Step(w, a) =>
      match s.workers[w]
      case Checks => Check(s, w)
      case Pulls => Pull(s, w, a)
      case Carries(i) => CallOp(s, w, i, a)
      case Pushes(i) => EnterSink(s, w, i)
      case Yields(i) => LeaveSink(s, w, i, a)
      case Stops(panicked) => Stop(s, w, panicked)
  }

  function Run(s: State, es: seq<Event>): State
    requires AllEnabled(s, es)
    decreases |es|
  {
    if es == [] then s else Run(Apply(s, es[0]), es[1..])
  }

  predicate AllEnabled(s: State, es: seq<Event>)
    decreases |es|
  {
    es != [] ==> Enabled(s, es[0]) && AllEnabled(Apply(s, es[0]), es[1..])
  }

  // ---------------------------------------------------------------- where an element is

  /** How many workers carry the i-th element to op, */
  function Carrying(ws: seq<Worker>, i: nat): nat {
    if ws == [] then 0 else (if ws[0] == Carries(i) then 1 else 0) + Carrying(ws[1..], i)
  }

  /** have its result, */
  function Holding(ws: seq<Worker>, i: nat): nat {
    if ws == [] then 0 else (if ws[0] == Pushes(i) || ws[0] == Yields(i) then 1 else 0) + Holding(ws[1..], i)
  }

  /** and how many times it went to the consumer. */
  function Called(calls: seq<Call>, i: nat): nat {
    if calls == [] then 0 else Called(calls[..|calls| - 1], i) + if calls[|calls| - 1].i == i then 1 else 0
  }

  lemma {:induction false} CalledMore(calls: seq<Call>, c: Call, i: nat)
    ensures Called(calls + [c], i) == Called(calls, i) + if c.i == i then 1 else 0
  {
    assert (calls + [c])[..|calls|] == calls;
  }

  lemma {:induction false} CarryingMoves(ws: seq<Worker>, w: nat, x: Worker, i: nat)
    requires w < |ws|
    ensures Carrying(ws[w := x], i) + (if ws[w] == Carries(i) then 1 else 0)
            == Carrying(ws, i) + if x == Carries(i) then 1 else 0
  {
    var r := ws[w := x];
    if w > 0 {
      CarryingMoves(ws[1..], w - 1, x, i);
      assert r[1..] == ws[1..][w - 1 := x] && r[0] == ws[0];
    } else {
      assert r[1..] == ws[1..] && r[0] == x;
    }
  }

  lemma {:induction false} HoldingMoves(ws: seq<Worker>, w: nat, x: Worker, i: nat)
    requires w < |ws|
    ensures Holding(ws[w := x], i) + (if ws[w] == Pushes(i) || ws[w] == Yields(i) then 1 else 0)
            == Holding(ws, i) + if x == Pushes(i) || x == Yields(i) then 1 else 0
  {
    var r := ws[w := x];
    if w > 0 {
      HoldingMoves(ws[1..], w - 1, x, i);
      assert r[1..] == ws[1..][w - 1 := x] && r[0] == ws[0];
    } else {
      assert r[1..] == ws[1..] && r[0] == x;
    }
  }

  lemma {:induction false} NobodyHolds(ws: seq<Worker>, i: nat)
    requires forall w :: 0 <= w < |ws| ==> ws[w].Checks? || ws[w].Pulls? || ws[w].Stops? || ws[w].Gone?
    ensures Carrying(ws, i) == Holding(ws, i) == 0
  {
    if ws != [] {
      NobodyHolds(ws[1..], i);
    }
  }

  // ---------------------------------------------------------------- invariants

  ghost predicate OneInside(ws: seq<Worker>) {
    forall v, w :: 0 <= v < w < |ws| ==> !(ws[v].Yields? && ws[w].Yields?)
  }

  /** The consumer is never called again after it has refused or panicked, nor while it is running. */
  ghost predicate CallsEndAtRefusal(s: State) {
    && OneInside(s.workers)
    && (forall k :: 0 <= k < |s.calls| - 1 ==> s.calls[k].answer == Accepts)
    && (SinkBusy(s.workers) ==> s.done && (s.calls == [] || s.calls[|s.calls| - 1].answer == Accepts))
    && (!SinkBusy(s.workers) ==> (s.done <==> s.calls != [] && s.calls[|s.calls| - 1].answer != Accepts))
  }

  /** The i-th element is on its way to op or was handed to it, once, if it has been pulled; and every call of op leads
      to the sink, to the consumer, or is lost, once. */
  ghost predicate Placed(s: State, i: nat) {
    && Count(s.opped, i) + Carrying(s.workers, i) == (if i < s.pos then 1 else 0)
    && Count(s.opped, i) == Holding(s.workers, i) + Called(s.calls, i) + Count(s.lost, i)
  }

  ghost predicate Conserved(s: State) {
    && s.pos <= s.n
    && forall i: nat :: Placed(s, i)
  }

  lemma {:induction false} StartIsGood(num: int, n: nat)
    ensures CallsEndAtRefusal(Start(num, n)) && Conserved(Start(num, n))
  {
    forall i: nat {
      NobodyHolds(Start(num, n).workers, i);
    }
  }

  /** How one worker's move changes whether somebody is in the sink. */
  lemma {:induction false} BusyAfter(ws: seq<Worker>, w: nat, x: Worker)
    requires w < |ws| && OneInside(ws) && (x.Yields? ==> !SinkBusy(ws))
    ensures OneInside(ws[w := x])
    ensures SinkBusy(ws[w := x]) <==> x.Yields? || (!ws[w].Yields? && SinkBusy(ws))
  {
    var r := ws[w := x];
    if x.Yields? {
      assert r[w].Yields?;
    } else if !ws[w].Yields? && SinkBusy(ws) {
      var v :| 0 <= v < |ws| && ws[v].Yields?;
      assert r[v].Yields?;
    }
  }

  lemma {:induction false} EnterKeepsCalls(s: State, w: nat, i: nat)
    requires CallsEndAtRefusal(s) && w < |s.workers| && s.workers[w] == Pushes(i) && !SinkBusy(s.workers)
    ensures CallsEndAtRefusal(EnterSink(s, w, i))
  {
    BusyAfter(s.workers, w, EnterSink(s, w, i).workers[w]);
  }

  lemma {:induction false} LeaveKeepsCalls(s: State, w: nat, i: nat, a: Answer)
    requires CallsEndAtRefusal(s) && w < |s.workers| && s.workers[w] == Yields(i)
    ensures CallsEndAtRefusal(LeaveSink(s, w, i, a))
  {
    assert SinkBusy(s.workers);
    BusyAfter(s.workers, w, LeaveSink(s, w, i, a).workers[w]);
  }

  /** A move outside the sink. */
  lemma {:induction false} OtherMoveKeepsCalls(s: State, t: State, w: nat, x: Worker)
    requires CallsEndAtRefusal(s) && w < |s.workers| && !s.workers[w].Yields? && !x.Yields?
    requires t.workers == s.workers[w := x] && t.done == s.done && t.calls == s.calls
    ensures CallsEndAtRefusal(t)
  {
    BusyAfter(s.workers, w, x);
  }

  lemma {:induction false} StepKeepsCalls(s: State, e: Event)
    requires Enabled(s, e) && CallsEndAtRefusal(s)
    ensures CallsEndAtRefusal(Apply(s, e))
  {
    if e.Step? {
      match s.workers[e.w]
      case Pushes(i) =>
        if s.done {
          OtherMoveKeepsCalls(s, Apply(s, e), e.w, Stops(false));
        } else {
          EnterKeepsCalls(s, e.w, i);
        }
      case Yields(i) =>
        LeaveKeepsCalls(s, e.w, i, e.answer);
      case Checks =>
        OtherMoveKeepsCalls(s, Check(s, e.w), e.w, Check(s, e.w).workers[e.w]);
      case Pulls =>
        OtherMoveKeepsCalls(s, Pull(s, e.w, e.answer), e.w, Pull(s, e.w, e.answer).workers[e.w]);
      case Carries(i) =>
        OtherMoveKeepsCalls(s, CallOp(s, e.w, i, e.answer), e.w, CallOp(s, e.w, i, e.answer).workers[e.w]);
      case Stops(panicked) =>
        OtherMoveKeepsCalls(s, Stop(s, e.w, panicked), e.w, Stop(s, e.w, panicked).workers[e.w]);
    }
  }

  lemma {:induction false} PullKeepsPlace(s: State, w: nat, a: Answer, i: nat)
    requires w < |s.workers| && s.workers[w] == Pulls && Placed(s, i)
    ensures Placed(Pull(s, w, a), i)
  {
    var x := Pull(s, w, a).workers[w];
    CarryingMoves(s.workers, w, x, i);
    HoldingMoves(s.workers, w, x, i);
  }

  lemma {:induction false} OpKeepsPlace(s: State, w: nat, j: nat, a: Answer, i: nat)
    requires w < |s.workers| && s.workers[w] == Carries(j) && Placed(s, i)
    ensures Placed(CallOp(s, w, j, a), i)
  {
    var x := CallOp(s, w, j, a).workers[w];
    CarryingMoves(s.workers, w, x, i);
    HoldingMoves(s.workers, w, x, i);
    CountMore(s.opped, j, i);
    CountMore(s.lost, j, i);
  }

  lemma {:induction false} EnterKeepsPlace(s: State, w: nat, j: nat, i: nat)
    requires w < |s.workers| && s.workers[w] == Pushes(j) && Placed(s, i)
    ensures Placed(EnterSink(s, w, j), i)
  {
    var x := EnterSink(s, w, j).workers[w];
    CarryingMoves(s.workers, w, x, i);
    HoldingMoves(s.workers, w, x, i);
    CountMore(s.lost, j, i);
  }

  lemma {:induction false} LeaveKeepsPlace(s: State, w: nat, j: nat, a: Answer, i: nat)
    requires w < |s.workers| && s.workers[w] == Yields(j) && Placed(s, i)
    ensures Placed(LeaveSink(s, w, j, a), i)
  {
    var x := LeaveSink(s, w, j, a).workers[w];
    CarryingMoves(s.workers, w, x, i);
    HoldingMoves(s.workers, w, x, i);
    CalledMore(s.calls, Call(j, a), i);
  }

  lemma {:induction false} CheckKeepsPlace(s: State, w: nat, i: nat)
    requires w < |s.workers| && s.workers[w] == Checks && Placed(s, i)
    ensures Placed(Check(s, w), i)
  {
    var x := Check(s, w).workers[w];
    CarryingMoves(s.workers, w, x, i);
    HoldingMoves(s.workers, w, x, i);
  }

  lemma {:induction false} StopKeepsPlace(s: State, w: nat, panicked: bool, i: nat)
    requires w < |s.workers| && s.workers[w] == Stops(panicked) && Placed(s, i)
    ensures Placed(Stop(s, w, panicked), i)
  {
    var x := Stop(s, w, panicked).workers[w];
    CarryingMoves(s.workers, w, x, i);
    HoldingMoves(s.workers, w, x, i);
  }

  lemma {:induction false} StepConserves(s: State, e: Event)
    requires Enabled(s, e) && Conserved(s)
    ensures Conserved(Apply(s, e))
  {
    hide Check, Pull, CallOp, EnterSink, LeaveSink, Stop, Placed;
    PullsInRange(s, e);
    forall i: nat
      ensures Placed(Apply(s, e), i)
    {
      assert Placed(s, i);
      match e
      case Cancel => CancelKeepsPlace(s, i);
      case Step(w, a) =>
        match s.workers[w]
        case Checks => CheckKeepsPlace(s, w, i);
        case Pulls => PullKeepsPlace(s, w, a, i);
        case Carries(j) => OpKeepsPlace(s, w, j, a, i);
        case Pushes(j) => EnterKeepsPlace(s, w, j, i);
        case Yields(j) => LeaveKeepsPlace(s, w, j, a, i);
        case Stops(panicked) => StopKeepsPlace(s, w, panicked, i);
    }
  }

  lemma {:induction false} PullsInRange(s: State, e: Event)
    requires Enabled(s, e) && s.pos <= s.n
    ensures Apply(s, e).pos <= Apply(s, e).n == s.n
  {
  }

  lemma {:induction false} CancelKeepsPlace(s: State, i: nat)
    requires Placed(s, i)
    ensures Placed(s.(cancelled := true), i)
  {
  }

  // ---------------------------------------------------------------- whole runs

  /** Over any interleaving: the consumer is called by one worker at a time and never again once it has refused or
      panicked, and no element is lost or handed on twice. */
  lemma {:induction false} RunIsGood(s: State, es: seq<Event>)
    requires AllEnabled(s, es) && CallsEndAtRefusal(s) && Conserved(s)
    ensures CallsEndAtRefusal(Run(s, es)) && Conserved(Run(s, es))
    decreases |es|
  {
    hide Apply, CallsEndAtRefusal, Conserved;
    if es != [] {
      StepKeepsCalls(s, es[0]);
      StepConserves(s, es[0]);
      RunIsGood(Apply(s, es[0]), es[1..]);
    }
  }

  ghost predicate AllGone(s: State) {
    forall w :: 0 <= w < |s.workers| ==> s.workers[w].Gone?
  }

  /** When the workers have stopped, every element that was pulled has gone to op exactly once, and from there to the
      consumer exactly once unless op panicked on it or the sink was closed. */
  lemma {:induction false} PulledElementsReachOp(num: int, n: nat, es: seq<Event>)
    requires AllEnabled(Start(num, n), es) && AllGone(Run(Start(num, n), es))
    ensures var s := Run(Start(num, n), es);
            && s.pos <= n
            && forall i: nat ::
                 && Count(s.opped, i) == (if i < s.pos then 1 else 0)
                 && Called(s.calls, i) + Count(s.lost, i) == (if i < s.pos then 1 else 0)
  {
    hide Apply, CallsEndAtRefusal;
    StartIsGood(num, n);
    RunIsGood(Start(num, n), es);
    SizeIsKept(Start(num, n), es);
    var s := Run(Start(num, n), es);
    forall i: nat
      ensures Count(s.opped, i) == (if i < s.pos then 1 else 0)
      ensures Called(s.calls, i) + Count(s.lost, i) == (if i < s.pos then 1 else 0)
    {
      assert Placed(s, i);
      NobodyHolds(s.workers, i);
    }
  }

  lemma {:induction false} StepSize(s: State, e: Event)
    requires Enabled(s, e)
    ensures Apply(s, e).n == s.n && |Apply(s, e).workers| == |s.workers|
  {
    hide SinkBusy;
  }

  lemma {:induction false} SizeIsKept(s: State, es: seq<Event>)
    requires AllEnabled(s, es)
    ensures Run(s, es).n == s.n && |Run(s, es).workers| == |s.workers|
    decreases |es|
  {
    hide Apply, Enabled;
    if es != [] {
      StepSize(s, es[0]);
      SizeIsKept(Apply(s, es[0]), es[1..]);
    }
  }

  /** Nobody cancels from outside, refuses or panics. */
  predicate Clean(es: seq<Event>) {
    forall e :: e in es ==> e.Step? && e.answer == Accepts
  }

  /** Then the only reason to stop is the end of the input. */
  ghost predicate OnlyExhausted(s: State) {
    && s.lost == [] && !s.failed && !s.broken && (s.done ==> SinkBusy(s.workers))
    && (s.cancelled ==> s.pos == s.n)
    && (forall w :: 0 <= w < |s.workers| ==> s.workers[w].Gone? ==> s.cancelled)
    && (forall w :: 0 <= w < |s.workers| ==> s.workers[w].Stops? ==> s.pos == s.n && !s.workers[w].panicked)
  }

  lemma {:induction false} CleanStep(s: State, e: Event)
    requires Enabled(s, e) && e.Step? && e.answer == Accepts && OnlyExhausted(s) && CallsEndAtRefusal(s)
    ensures OnlyExhausted(Apply(s, e))
  {
    var t := Apply(s, e);
    if s.workers[e.w].Yields? {
      assert SinkBusy(s.workers);
    } else {
      BusyAfter(s.workers, e.w, t.workers[e.w]);
    }
  }

  lemma {:induction false} CleanRun(s: State, es: seq<Event>)
    requires AllEnabled(s, es) && Clean(es) && OnlyExhausted(s) && CallsEndAtRefusal(s)
    ensures OnlyExhausted(Run(s, es))
    decreases |es|
  {
    hide Apply, CallsEndAtRefusal, OnlyExhausted;
    if es != [] {
      assert es[0] in es;
      CleanStep(s, es[0]);
      StepKeepsCalls(s, es[0]);
      CleanRun(Apply(s, es[0]), es[1..]);
    }
  }

  /** An undisturbed run hands the result of every input element to the consumer, exactly once. */
  lemma {:induction false} UndisturbedRunDeliversAll(num: int, n: nat, es: seq<Event>)
    requires AllEnabled(Start(num, n), es) && Clean(es) && AllGone(Run(Start(num, n), es))
    ensures var s := Run(Start(num, n), es);
            s.pos == n && !s.failed && forall i: nat :: Called(s.calls, i) == if i < n then 1 else 0
  {
    hide Apply, CallsEndAtRefusal;
    var s0 := Start(num, n);
    StartIsGood(num, n);
    CleanRun(s0, es);
    PulledElementsReachOp(num, n, es);
    SizeIsKept(s0, es);
    var s := Run(s0, es);
    assert s.workers[0].Gone?;
    assert forall i: nat :: Count(s.lost, i) == 0;
  }

  // ---------------------------------------------------------------- parallel, and stopping

  /** op runs outside the input lock: with enough input all the workers - as many as were asked for, and at least
      one - can be on their way to it at once. */
  lemma {:induction false} AllAtOnce(num: int, n: nat) returns (es: seq<Event>)
    requires n >= num && n >= 1
    ensures var s := Start(num, n);
            && AllEnabled(s, es) && |s.workers| == (if num > 1 then num else 1)
            && |Run(s, es).workers| == |s.workers|
            && forall w :: 0 <= w < |s.workers| ==> Run(s, es).workers[w] == Carries(w)
  {
    var s := Start(num, n);
    es := FromWorker(s, 0);
  }

  lemma {:induction false} FromWorker(s: State, k: nat) returns (es: seq<Event>)
    requires k == s.pos <= |s.workers| <= s.n && !s.cancelled && !s.broken
    requires forall w :: 0 <= w < |s.workers| ==> s.workers[w] == if w < k then Carries(w) else Checks
    ensures AllEnabled(s, es) && |Run(s, es).workers| == |s.workers|
    ensures forall w :: 0 <= w < |s.workers| ==> Run(s, es).workers[w] == Carries(w)
    decreases |s.workers| - k
  {
    if k == |s.workers| {
      es := [];
    } else {
      var t := Apply(s, Step(k, Accepts));
      var u := Apply(t, Step(k, Accepts));
      var rest := FromWorker(u, k + 1);
      es := [Step(k, Accepts), Step(k, Accepts)] + rest;
      assert es[1..] == [Step(k, Accepts)] + rest && es[1..][1..] == rest;
    }
  }

  function Pulling(ws: seq<Worker>): nat {
    if ws == [] then 0 else (if ws[0].Pulls? then 1 else 0) + Pulling(ws[1..])
  }

  lemma {:induction false} PullingMoves(ws: seq<Worker>, w: nat, x: Worker)
    requires w < |ws|
    ensures Pulling(ws[w := x]) + (if ws[w].Pulls? then 1 else 0) == Pulling(ws) + if x.Pulls? then 1 else 0
  {
    var r := ws[w := x];
    if w > 0 {
      PullingMoves(ws[1..], w - 1, x);
      assert r[1..] == ws[1..][w - 1 := x] && r[0] == ws[0];
    } else {
      assert r[1..] == ws[1..] && r[0] == x;
    }
  }

  /** Once cancelled, by whomever, the pool pulls no more than the elements whose pull was already under way. */
  lemma {:induction false} CancelStopsPulls(s: State, es: seq<Event>)
    requires AllEnabled(s, es) && s.cancelled
    ensures Run(s, es).cancelled && s.pos <= Run(s, es).pos <= s.pos + Pulling(s.workers)
    decreases |es|
  {
    if es != [] {
      CancelledStep(s, es[0]);
      hide Apply, Enabled, Pulling;
      CancelStopsPulls(Apply(s, es[0]), es[1..]);
    }
  }

  lemma {:induction false} CancelledStep(s: State, e: Event)
    requires Enabled(s, e) && s.cancelled
    ensures var t := Apply(s, e);
            t.cancelled && s.pos <= t.pos && t.pos + Pulling(t.workers) <= s.pos + Pulling(s.workers)
  {
    if e.Step? {
      PullingMoves(s.workers, e.w, Apply(s, e).workers[e.w]);
    }
  }

  /** The caller's cancellation is one of these. */
  lemma {:induction false} CancelCancels(s: State, es: seq<Event>)
    requires AllEnabled(s, [Cancel] + es)
    ensures Run(s, [Cancel] + es).cancelled && Run(s, [Cancel] + es).pos <= s.pos + Pulling(s.workers)
  {
    var t := Apply(s, Cancel);
    assert ([Cancel] + es)[1..] == es;
    CancelStopsPulls(t, es);
  }

  /** The step is one in which the input, op or the consumer panics. */
  predicate PanicsIn(s: State, e: Event)
    requires Enabled(s, e)
  {
    e.Step? && e.answer == Panics
    && match s.workers[e.w]
       case Pulls => !s.broken && s.pos < s.n
       case Carries(_) => true
       case Yields(_) => true
       case _ => false
  }

  predicate SomePanic(s: State, es: seq<Event>)
    requires AllEnabled(s, es)
    decreases |es|
  {
    es != [] && (PanicsIn(s, es[0]) || SomePanic(Apply(s, es[0]), es[1..]))
  }

  predicate Unwinding(ws: seq<Worker>) {
    exists w :: 0 <= w < |ws| && ws[w] == Stops(true)
  }

  lemma {:induction false} UnwindingMoves(ws: seq<Worker>, w: nat, x: Worker)
    requires w < |ws| && ws[w] != Stops(true)
    ensures Unwinding(ws[w := x]) <==> Unwinding(ws) || x == Stops(true)
  {
    var r := ws[w := x];
    if Unwinding(ws) {
      var v :| 0 <= v < |ws| && ws[v] == Stops(true);
      assert r[v] == Stops(true);
    }
    if x == Stops(true) {
      assert r[w] == Stops(true);
    }
    if Unwinding(r) {
      var v :| 0 <= v < |r| && r[v] == Stops(true);
      assert v != w ==> ws[v] == Stops(true);
    }
  }

  lemma {:induction false} PanicStep(s: State, e: Event)
    requires Enabled(s, e) && s.pos <= s.n
    ensures var t := Apply(s, e);
            t.failed || Unwinding(t.workers) <==> s.failed || Unwinding(s.workers) || PanicsIn(s, e)
  {
    if e.Step? {
      var t := Apply(s, e);
      if s.workers[e.w] == Stops(true) {
        assert Unwinding(s.workers);
      } else {
        UnwindingMoves(s.workers, e.w, t.workers[e.w]);
      }
    }
  }

  lemma {:induction false} PanicsAreKept(s: State, es: seq<Event>)
    requires AllEnabled(s, es) && s.pos <= s.n
    ensures var t := Run(s, es);
            t.failed || Unwinding(t.workers) <==> s.failed || Unwinding(s.workers) || SomePanic(s, es)
    decreases |es|
  {
    if es != [] {
      PanicStep(s, es[0]);
      PullsInRange(s, es[0]);
      hide Apply, Enabled, Unwinding, PanicsIn;
      PanicsAreKept(Apply(s, es[0]), es[1..]);
    }
  }

  /** When the workers have stopped there is a panic to raise again exactly when there was one, in the input, in op or
      in the loop body. */
  lemma {:induction false} PanicIsRaised(num: int, n: nat, es: seq<Event>)
    requires AllEnabled(Start(num, n), es) && AllGone(Run(Start(num, n), es))
    ensures Run(Start(num, n), es).failed <==> SomePanic(Start(num, n), es)
  {
    PanicsAreKept(Start(num, n), es);
  }

  /** The step is one in which a worker is told to stop: the input has ended, the sink is closed, the consumer refuses,
      or something panics. */
  predicate SaysNo(s: State, e: Event)
    requires Enabled(s, e)
  {
    e.Step?
    && match s.workers[e.w]
       case Pulls => s.broken || s.pos == s.n || e.answer == Panics
       case Carries(_) => e.answer == Panics
       case Pushes(_) => s.done
       case Yields(_) => e.answer != Accepts
       case _ => false
  }

  predicate SomeNo(s: State, es: seq<Event>)
    requires AllEnabled(s, es)
    decreases |es|
  {
    es != [] && (SaysNo(s, es[0]) || SomeNo(Apply(s, es[0]), es[1..]))
  }

  predicate Stopping(ws: seq<Worker>) {
    exists w :: 0 <= w < |ws| && ws[w].Stops?
  }

  lemma {:induction false} StoppingMoves(ws: seq<Worker>, w: nat, x: Worker)
    requires w < |ws| && !ws[w].Stops?
    ensures Stopping(ws[w := x]) <==> Stopping(ws) || x.Stops?
  {
    var r := ws[w := x];
    if Stopping(ws) {
      var v :| 0 <= v < |ws| && ws[v].Stops?;
      assert r[v].Stops?;
    }
    if x.Stops? {
      assert r[w].Stops?;
    }
    if Stopping(r) {
      var v :| 0 <= v < |r| && r[v].Stops?;
      assert v != w ==> ws[v].Stops?;
    }
  }

  lemma {:induction false} StopStep(s: State, e: Event)
    requires Enabled(s, e)
    ensures var t := Apply(s, e);
            t.cancelled || Stopping(t.workers) <==> s.cancelled || Stopping(s.workers) || e.Cancel? || SaysNo(s, e)
  {
    hide SinkBusy;
    if e.Step? {
      var t := Apply(s, e);
      if s.workers[e.w].Stops? {
        assert Stopping(s.workers);
      } else {
        StoppingMoves(s.workers, e.w, t.workers[e.w]);
      }
    }
  }

  lemma {:induction false} StopsAreKept(s: State, es: seq<Event>)
    requires AllEnabled(s, es)
    ensures var t := Run(s, es);
            t.cancelled || Stopping(t.workers) <==> s.cancelled || Stopping(s.workers) || Cancel in es || SomeNo(s, es)
    decreases |es|
  {
    if es != [] {
      StopStep(s, es[0]);
      hide Apply, Enabled, Stopping, SaysNo;
      StopsAreKept(Apply(s, es[0]), es[1..]);
      assert Cancel in es <==> es[0] == Cancel || Cancel in es[1..];
    }
  }

  /** At any moment the pool is cancelled, or about to be, exactly when the caller has cancelled it or some worker has
      been told to stop. */
  lemma {:induction false} CancelledIff(num: int, n: nat, es: seq<Event>)
    requires AllEnabled(Start(num, n), es)
    ensures var s := Run(Start(num, n), es);
            s.cancelled || Stopping(s.workers) <==> Cancel in es || SomeNo(Start(num, n), es)
  {
    StopsAreKept(Start(num, n), es);
  }

  /** A panic is kept, or about to be. */
  ghost predicate Raised(s: State) {
    s.failed || Unwinding(s.workers)
  }

  ghost predicate LastWas(s: State, a: Answer) {
    s.calls != [] && s.calls[|s.calls| - 1].answer == a
  }

  /** Why the pool may stop before the input has ended. */
  ghost predicate Reason(s: State, outside: bool) {
    outside || s.pos == s.n || Raised(s) || LastWas(s, Refuses)
  }

  ghost predicate StopsForReason(s: State, outside: bool) {
    && (s.broken || LastWas(s, Panics) ==> Raised(s))
    && (s.cancelled ==> Reason(s, outside))
    && forall w :: 0 <= w < |s.workers| && (s.workers[w].Stops? || s.workers[w].Gone?) ==> Reason(s, outside)
  }

  lemma {:induction false} ReasonStays(s: State, e: Event, outside: bool)
    requires Enabled(s, e) && s.pos <= s.n && CallsEndAtRefusal(s)
    ensures Reason(s, outside) ==> Reason(Apply(s, e), outside)
    ensures Raised(s) ==> Raised(Apply(s, e))
    ensures Apply(s, e).broken ==> s.broken || Raised(Apply(s, e))
    ensures LastWas(Apply(s, e), Panics) ==> LastWas(s, Panics) || Raised(Apply(s, e))
  {
    PanicStep(s, e);
    if e.Step? && s.workers[e.w].Yields? {
      assert SinkBusy(s.workers);
    }
    hide Unwinding;
  }

  lemma {:induction false} NewReason(s: State, e: Event, outside: bool)
    requires Enabled(s, e) && s.pos <= s.n && CallsEndAtRefusal(s) && StopsForReason(s, outside)
    ensures var t := Apply(s, e);
            && (t.cancelled && !s.cancelled ==> Reason(s, outside) || e.Cancel?)
            && (e.Step? && (t.workers[e.w].Stops? || t.workers[e.w].Gone?) ==> Reason(t, outside) || Reason(s, outside))
  {
    var t := Apply(s, e);
    if e.Step? && t.workers[e.w] == Stops(true) {
      assert Unwinding(t.workers);
    }
    hide Unwinding, OneInside;
  }

  lemma {:induction false} ReasonStep(s: State, e: Event, outside: bool)
    requires Enabled(s, e) && s.pos <= s.n && CallsEndAtRefusal(s) && StopsForReason(s, outside)
    ensures StopsForReason(Apply(s, e), outside || e.Cancel?)
  {
    ReasonStays(s, e, outside);
    NewReason(s, e, outside);
    OthersStay(s, e);
    MoreReason(Apply(s, e), outside, outside || e.Cancel?);
    hide Apply, Enabled, Reason, Raised, LastWas, CallsEndAtRefusal;
  }

  lemma {:induction false} OthersStay(s: State, e: Event)
    requires Enabled(s, e)
    ensures var t := Apply(s, e);
            |t.workers| == |s.workers|
            && forall v :: 0 <= v < |s.workers| && !(e.Step? && v == e.w) ==> t.workers[v] == s.workers[v]
  {
    hide SinkBusy;
  }

  lemma {:induction false} MoreReason(s: State, outside: bool, more: bool)
    requires outside ==> more
    ensures Reason(s, outside) ==> Reason(s, more)
    ensures more && !outside ==> Reason(s, more)
  {
  }

  lemma {:induction false} RunHasReason(s: State, es: seq<Event>, outside: bool)
    requires AllEnabled(s, es) && s.pos <= s.n && CallsEndAtRefusal(s) && StopsForReason(s, outside)
    ensures StopsForReason(Run(s, es), outside || Cancel in es)
    decreases |es|
  {
    hide Apply, Enabled, StopsForReason, CallsEndAtRefusal;
    if es != [] {
      ReasonStep(s, es[0], outside);
      StepKeepsCalls(s, es[0]);
      PullsInRange(s, es[0]);
      RunHasReason(Apply(s, es[0]), es[1..], outside || es[0].Cancel?);
      assert Cancel in es <==> es[0] == Cancel || Cancel in es[1..];
    }
  }

  /** A pool whose workers are gone with input left was cancelled by the caller, or something panicked, or the consumer
      refused. */
  lemma {:induction false} EarlyEndHasReason(num: int, n: nat, es: seq<Event>)
    requires AllEnabled(Start(num, n), es) && AllGone(Run(Start(num, n), es))
    ensures var s := Run(Start(num, n), es);
            s.pos < n ==> Cancel in es || SomePanic(Start(num, n), es) || LastWas(s, Refuses)
  {
    var s := Start(num, n);
    StartIsGood(num, n);
    PanicsAreKept(s, es);
    RunHasReason(s, es, false);
    SizeIsKept(s, es);
    assert Run(s, es).workers[0].Gone?;
    hide Apply, Enabled, SomePanic, CallsEndAtRefusal;
  }

  // ---------------------------------------------------------------- in terms of the values

  function IndicesOf(calls: seq<Call>): seq<nat> {
    if calls == [] then [] else IndicesOf(calls[..|calls| - 1]) + [calls[|calls| - 1].i]
  }

  lemma {:induction false} CalledIsCount(calls: seq<Call>, i: nat)
    ensures Called(calls, i) == Count(IndicesOf(calls), i)
  {
    if calls != [] {
      CalledIsCount(calls[..|calls| - 1], i);
      CountMore(IndicesOf(calls[..|calls| - 1]), calls[|calls| - 1].i, i);
    }
  }

  /** What the consumer of an undisturbed run was called with is op mapped over the input, in some order. */
  lemma {:induction false} ResultsAreTheMap<A, B>(op: A -> B, input: seq<A>, num: int, es: seq<Event>)
    requires AllEnabled(Start(num, |input|), es) && Clean(es) && AllGone(Run(Start(num, |input|), es))
    ensures var idx := IndicesOf(Run(Start(num, |input|), es).calls);
            Within(idx, |input|) && multiset(Map(op, Picked(input, idx))) == multiset(Map(op, input))
  {
    hide Apply, AllGone, AllEnabled, Count;
    var s := Run(Start(num, |input|), es);
    UndisturbedRunDeliversAll(num, |input|, es);
    forall i: nat
      ensures Count(IndicesOf(s.calls), i) == if i < |input| then 1 else 0
    {
      CalledIsCount(s.calls, i);
    }
    var (idx, results) := (IndicesOf(s.calls), Map(op, input));
    PermutationPicksAll(results, idx, |input|);
    assert results[..|input|] == results;
    assert Map(op, Picked(input, idx)) == Picked(results, idx);
  }
}
