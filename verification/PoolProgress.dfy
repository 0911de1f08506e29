/** Pool ends: a bound on the steps of its workers, and no state in which all of them wait. */
module PoolProgress {
  import opened Pool

  function Rank(w: Worker, cancelled: bool): nat {
    match w
    case Checks => if cancelled then 1 else 4
    case Pulls => 3
    case Carries(_) => 7
    case Pushes(_) => 6
    case Yields(_) => 5
    case Stops(_) => 2
    case Gone => 0
  }

  function Ranks(ws: seq<Worker>, cancelled: bool): nat {
    if ws == [] then 0 else Rank(ws[0], cancelled) + Ranks(ws[1..], cancelled)
  }

  /** A bound on the steps still to come. */
  function Fuel(s: State): int {
    10 * (s.n - s.pos) + Ranks(s.workers, s.cancelled)
  }

  lemma {:induction false} RanksMove(ws: seq<Worker>, w: nat, x: Worker, cancelled: bool)
    requires w < |ws|
    ensures Ranks(ws[w := x], cancelled) + Rank(ws[w], cancelled) == Ranks(ws, cancelled) + Rank(x, cancelled)
  {
    var r := ws[w := x];
    if w > 0 {
      RanksMove(ws[1..], w - 1, x, cancelled);
      assert r[1..] == ws[1..][w - 1 := x] && r[0] == ws[0];
    } else {
      assert r[1..] == ws[1..] && r[0] == x;
    }
  }

  lemma {:induction false} CancellingLowersRanks(ws: seq<Worker>)
    ensures Ranks(ws, true) <= Ranks(ws, false)
  {
    if ws != [] {
      CancellingLowersRanks(ws[1..]);
    }
  }

  lemma {:induction false} StepShape(s: State, e: Event)
    requires Enabled(s, e) && s.pos <= s.n && e.Step?
    ensures var t := Apply(s, e);
            && s.pos <= t.pos <= s.n && (s.cancelled ==> t.cancelled)
            && e.w < |t.workers| && t.workers == s.workers[e.w := t.workers[e.w]]
  {
    hide SinkBusy;
  }

  /** The worker that moves goes down in rank, or has pulled one more element. */
  lemma {:induction false} StepRank(s: State, e: Event)
    requires Enabled(s, e) && e.Step?
    ensures var t := Apply(s, e);
            |t.workers| == |s.workers|
            && Rank(t.workers[e.w], t.cancelled) < Rank(s.workers[e.w], t.cancelled) + 10 * (t.pos - s.pos)
  {
    hide SinkBusy;
  }

  /** Every step of a worker uses some of it up. */
  lemma {:induction false} StepBurnsFuel(s: State, e: Event)
    requires Enabled(s, e) && s.pos <= s.n
    ensures Fuel(Apply(s, e)) <= Fuel(s) - if e.Step? then 1 else 0
  {
    CancellingLowersRanks(s.workers);
    if e.Step? {
      hide Apply, Ranks, Rank, SinkBusy;
      var t := Apply(s, e);
      StepSize(s, e);
      StepShape(s, e);
      StepRank(s, e);
      RanksMove(s.workers, e.w, t.workers[e.w], t.cancelled);
    }
  }

  function Steps(es: seq<Event>): nat {
    if es == [] then 0 else (if es[0].Step? then 1 else 0) + Steps(es[1..])
  }

  lemma {:induction false} StepsWithinFuel(s: State, es: seq<Event>)
    requires AllEnabled(s, es) && s.pos <= s.n
    ensures Steps(es) <= Fuel(s) && Run(s, es).pos <= s.n
    decreases |es|
  {
    hide Apply, Fuel, Enabled;
    if es == [] {
      FuelIsPositive(s);
    } else {
      PullsInRange(s, es[0]);
      StepBurnsFuel(s, es[0]);
      StepsWithinFuel(Apply(s, es[0]), es[1..]);
    }
  }

  lemma {:induction false} FuelIsPositive(s: State)
    requires s.pos <= s.n
    ensures Fuel(s) >= 0
  {
  }

  lemma {:induction false} RanksOfStart(ws: seq<Worker>)
    requires forall w :: 0 <= w < |ws| ==> ws[w] == Checks
    ensures Ranks(ws, false) == 4 * |ws|
  {
    if ws != [] {
      RanksOfStart(ws[1..]);
    }
  }

  /** No interleaving takes more than 10 n + 4 num worker steps, and until all workers are gone some worker can take
      one: the pool always ends. */
  lemma {:induction false} PoolEnds(num: int, n: nat, es: seq<Event>)
    requires AllEnabled(Start(num, n), es)
    ensures Steps(es) <= 10 * n + 4 * if num > 1 then num else 1
    ensures var s := Run(Start(num, n), es);
            AllGone(s) || exists w: nat :: w < |s.workers| && !s.workers[w].Gone? && Enabled(s, Step(w, Accepts))
  {
    RanksOfStart(Start(num, n).workers);
    StepsWithinFuel(Start(num, n), es);
    SomebodyCanMove(Run(Start(num, n), es));
  }

  lemma {:induction false} SomebodyCanMove(s: State)
    ensures AllGone(s) || exists w: nat :: w < |s.workers| && !s.workers[w].Gone? && Enabled(s, Step(w, Accepts))
  {
    if !AllGone(s) {
      if SinkBusy(s.workers) {
        var v :| 0 <= v < |s.workers| && s.workers[v].Yields?;
        assert Enabled(s, Step(v, Accepts));
      } else {
        var w :| 0 <= w < |s.workers| && !s.workers[w].Gone?;
        assert Enabled(s, Step(w, Accepts));
      }
    }
  }
}
