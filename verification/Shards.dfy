/** Shard: any number of shards draw from one input through a shared, locked pull, which is started by the first use
    and let go when the last shard has finished or the context ends. */
module Shards {
  import opened Wrappers

  // ---------------------------------------------------------------- the parts

  /** The input behind its pull: `pos` elements have been pulled. */
  datatype Source = Source(n: nat, pos: nat, started: bool, stopped: bool, exhausted: bool)

  /** The shards that may still finish. `retired` are those taken off `remain`; `releases` counts the calls of release
      that have not run yet; `watching` says that the end of the context will make one. */
  datatype Ledger = Ledger(remain: int, retired: seq<bool>, releases: nat, watching: bool)

  /** The outer loop over the shards: between two of them, in its body, gone through them all, or broken off. */
  datatype Stage = Between | InBody | Complete | Broken

  /** `out` shards have been handed out. */
  datatype Outer = Outer(num: nat, out: nat, at: Stage)

  /** One iteration over one shard. */
  datatype Iteration = Iteration(shard: nat, at: Phase)

  datatype Phase = Pulls | Gives(i: nat) | Ended

  /** An element that the loop over a shard has dealt with. */
  datatype Gift = Gift(i: nat, shard: nat)

  datatype State = State(src: Source, ledger: Ledger, outer: Outer, cancelled: bool,
                         iterations: seq<Iteration>, gifts: seq<Gift>)

  datatype Event =
    | HandOut                       // the outer loop offers the next shard
    | BodyReturns(goOn: bool)       // the outer loop body returns
    | Iterate(shard: nat)           // somebody ranges over a shard, perhaps not for the first time
    | Pull(k: nat)                  // the k-th iteration pulls
    | Give(k: nat, goOn: bool)      // the loop over a shard has dealt with its element
    | Cancel
    | Release                       // a pending call of release runs

  function Start(num: int, n: nat): State {
    var m := if num > 1 then num else 1;
    State(Source(n, 0, false, false, false), Ledger(m, seq(m, _ => false), 0, true), Outer(m, 0, Between),
          false, [], [])
  }

  // ---------------------------------------------------------------- the steps

  /** next() of the pull, started when it is not yet. */
  function Next(src: Source): (Source, Option<nat>) {
    var t := src.(started := true);
    if src.stopped || src.exhausted then (t, None)
    else if src.pos >= src.n then (t.(exhausted := true), None)
    else (t.(pos := src.pos + 1), Some(src.pos))
  }

  /** done(m): the last one stops the watch and makes a call of release. */
  function Retire(l: Ledger, m: nat): Ledger {
    var left := l.remain - m;
    if left == 0 then l.(remain := left, watching := false, releases := l.releases + 1) else l.(remain := left)
  }

  /** finish: the first time only. */
  function Finish(l: Ledger, shard: nat): Ledger {
    if shard >= |l.retired| || l.retired[shard] then l else Retire(l.(retired := l.retired[shard := true]), 1)
  }

  /** The shards from the k-th on will never be handed out. */
  function Abandon(l: Ledger, k: nat): Ledger
    requires k <= |l.retired|
  {
    Retire(l.(retired := l.retired[..k] + seq(|l.retired| - k, _ => true)), |l.retired| - k)
  }

  predicate Enabled(s: State, e: Event) {
    match e
    case HandOut => s.outer.at == Between && s.outer.out < s.outer.num
    case BodyReturns(_) => s.outer.at == InBody
    case Iterate(shard) => shard < s.outer.out
    case Pull(k) => k < |s.iterations| && s.iterations[k].at.Pulls?
    case Give(k, _) => k < |s.iterations| && s.iterations[k].at.Gives?
    case Cancel => true
    case Release => s.ledger.releases > 0
  }

  function Move(its: seq<Iteration>, k: nat, at: Phase): seq<Iteration>
    requires k < |its|
  {
    its[k := Iteration(its[k].shard, at)]
  }

  function DoBody(s: State, goOn: bool): State
    requires s.outer.out <= |s.ledger.retired| && s.outer.out > 0
  {
    if goOn then s.(outer := s.outer.(at := if s.outer.out == s.outer.num then Complete else Between))
    else s.(outer := s.outer.(at := Broken),
            ledger := Abandon(Finish(s.ledger, s.outer.out - 1), s.outer.out))
  }

  function DoPull(s: State, k: nat): State
    requires k < |s.iterations|
  {
    if s.cancelled then
      s.(iterations := Move(s.iterations, k, Ended), ledger := Finish(s.ledger, s.iterations[k].shard))
    else
      var (src, r) := Next(s.src);
      if r.Some? then s.(src := src, iterations := Move(s.iterations, k, Gives(r.value)))
      else s.(src := src, iterations := Move(s.iterations, k, Ended),
              ledger := Finish(s.ledger, s.iterations[k].shard))
  }

  function DoGive(s: State, k: nat, goOn: bool): State
    requires k < |s.iterations| && s.iterations[k].at.Gives?
  {
    var it := s.iterations[k];
    var gifts := s.gifts + [Gift(it.at.i, it.shard)];
    if goOn then s.(gifts := gifts, iterations := Move(s.iterations, k, Pulls))
    else s.(gifts := gifts, iterations := Move(s.iterations, k, Ended), ledger := Finish(s.ledger, it.shard))
  }

  /** The end of the context: every pull answers no from now on, and the watch makes its call of release. */
  function DoCancel(s: State): State {
    if s.cancelled then s
    else
      var l := s.ledger;
      s.(cancelled := true, ledger := l.(watching := false, releases := l.releases + if l.watching then 1 else 0))
  }

  /** stop() is nothing before the pull has been started. */
  function DoRelease(s: State): State
    requires s.ledger.releases > 0
  {
    s.(ledger := s.ledger.(releases := s.ledger.releases - 1),
       src := s.src.(stopped := s.src.stopped || s.src.started))
  }

  ghost predicate Shape(s: State) {
    |s.ledger.retired| == s.outer.num && s.outer.out <= s.outer.num && (s.outer.at != Between ==> s.outer.out > 0)
  }

  function Apply(s: State, e: Event): State
    requires Shape(s) && Enabled(s, e)
  {
    match e
    case HandOut => s.(outer := s.outer.(out := s.outer.out + 1, at := InBody))
    case BodyReturns(goOn) => DoBody(s, goOn)
    case Iterate(shard) => s.(iterations := s.iterations + [Iteration(shard, Pulls)])
    case Pull(k) => DoPull(s, k)
    case Give(k, goOn) => DoGive(s, k, goOn)
    case Cancel => DoCancel(s)
    case Release => DoRelease(s)
  }

  lemma {:induction false} FinishKeepsSize(l: Ledger, shard: nat)
    ensures |Finish(l, shard).retired| == |l.retired|
  {
  }

  lemma {:induction false} StepKeepsShape(s: State, e: Event)
    requires Shape(s) && Enabled(s, e)
    ensures Shape(Apply(s, e))
  {
    hide Finish;
    match e
    case BodyReturns(goOn) => FinishKeepsSize(s.ledger, s.outer.out - 1);
    case Pull(k) => FinishKeepsSize(s.ledger, s.iterations[k].shard);
    case Give(k, goOn) => FinishKeepsSize(s.ledger, s.iterations[k].shard);
    case _ =>
  }

  predicate AllEnabled(s: State, es: seq<Event>)
    requires Shape(s)
    decreases |es|
  {
    es == [] || (Enabled(s, es[0]) && (StepKeepsShape(s, es[0]); AllEnabled(Apply(s, es[0]), es[1..])))
  }

  function Run(s: State, es: seq<Event>): State
    requires Shape(s) && AllEnabled(s, es)
    decreases |es|
  {
    if es == [] then s else (StepKeepsShape(s, es[0]); Run(Apply(s, es[0]), es[1..]))
  }

  // ---------------------------------------------------------------- where an element is

  function Giving(its: seq<Iteration>, i: nat): nat {
    if its == [] then 0 else (if its[0].at == Gives(i) then 1 else 0) + Giving(its[1..], i)
  }

  function Given(gifts: seq<Gift>, i: nat): nat {
    if gifts == [] then 0 else Given(gifts[..|gifts| - 1], i) + if gifts[|gifts| - 1].i == i then 1 else 0
  }

  lemma {:induction false} GivingMoves(its: seq<Iteration>, k: nat, at: Phase, i: nat)
    requires k < |its|
    ensures Giving(Move(its, k, at), i) + (if its[k].at == Gives(i) then 1 else 0)
            == Giving(its, i) + if at == Gives(i) then 1 else 0
  {
    var r := Move(its, k, at);
    if k > 0 {
      GivingMoves(its[1..], k - 1, at, i);
      assert r[1..] == Move(its[1..], k - 1, at) && r[0] == its[0];
    } else {
      assert r[1..] == its[1..] && r[0] == Iteration(its[0].shard, at);
    }
  }

  lemma {:induction false} GivingMore(its: seq<Iteration>, shard: nat, i: nat)
    ensures Giving(its + [Iteration(shard, Pulls)], i) == Giving(its, i)
  {
    if its != [] {
      GivingMore(its[1..], shard, i);
      assert (its + [Iteration(shard, Pulls)])[1..] == its[1..] + [Iteration(shard, Pulls)];
    } else {
      assert ([] + [Iteration(shard, Pulls)])[1..] == [];
    }
  }

  lemma {:induction false} GivenMore(gifts: seq<Gift>, g: Gift, i: nat)
    ensures Given(gifts + [g], i) == Given(gifts, i) + if g.i == i then 1 else 0
  {
    assert (gifts + [g])[..|gifts|] == gifts;
  }

  lemma {:induction false} NobodyGives(its: seq<Iteration>, i: nat)
    requires forall k :: 0 <= k < |its| ==> !its[k].at.Gives?
    ensures Giving(its, i) == 0
  {
    if its != [] {
      NobodyGives(its[1..], i);
    }
  }

  /** An element that has been pulled is in the hands of one iteration over one shard, or one has dealt with it. */
  ghost predicate Placed(s: State, i: nat) {
    Giving(s.iterations, i) + Given(s.gifts, i) == if i < s.src.pos then 1 else 0
  }

  lemma {:induction false} StepKeepsPlace(s: State, e: Event, i: nat)
    requires Shape(s) && Enabled(s, e) && Placed(s, i)
    ensures Placed(Apply(s, e), i)
  {
    hide Giving, Given, Finish, Retire, Abandon;
    match e
    case Iterate(shard) => GivingMore(s.iterations, shard, i);
    case Pull(k) =>
      GivingMoves(s.iterations, k, Ended, i);
      GivingMoves(s.iterations, k, Gives(s.src.pos), i);
    case Give(k, goOn) =>
      GivingMoves(s.iterations, k, if goOn then Pulls else Ended, i);
      GivenMore(s.gifts, Gift(s.iterations[k].at.i, s.iterations[k].shard), i);
    case _ =>
  }

  // ---------------------------------------------------------------- the countdown

  function Unretired(retired: seq<bool>): nat {
    if retired == [] then 0 else (if retired[0] then 0 else 1) + Unretired(retired[1..])
  }

  lemma {:induction false} UnretiredOne(retired: seq<bool>, k: nat)
    requires k < |retired|
    ensures Unretired(retired[k := true]) + (if retired[k] then 0 else 1) == Unretired(retired)
  {
    var r := retired[k := true];
    if k > 0 {
      UnretiredOne(retired[1..], k - 1);
      assert r[1..] == retired[1..][k - 1 := true];
    } else {
      assert r[1..] == retired[1..];
    }
  }

  lemma {:induction false} UnretiredAll(retired: seq<bool>, b: bool)
    requires forall k :: 0 <= k < |retired| ==> retired[k] == b
    ensures Unretired(retired) == if b then 0 else |retired|
  {
    if retired != [] {
      UnretiredAll(retired[1..], b);
    }
  }

  lemma {:induction false} UnretiredConcat(a: seq<bool>, b: seq<bool>)
    ensures Unretired(a + b) == Unretired(a) + Unretired(b)
  {
    if a == [] {
      assert a + b == b;
    } else {
      UnretiredConcat(a[1..], b);
      assert (a + b)[1..] == a[1..] + b;
    }
  }

  /** The countdown is the number of shards that have not been retired, and each is retired once. */
  ghost predicate Counted(l: Ledger) {
    l.remain == Unretired(l.retired)
  }

  lemma {:induction false} FinishCounts(l: Ledger, shard: nat)
    requires Counted(l)
    ensures Counted(Finish(l, shard))
    ensures forall k :: 0 <= k < |l.retired| ==> Finish(l, shard).retired[k] == (l.retired[k] || k == shard)
  {
    if shard < |l.retired| {
      UnretiredOne(l.retired, shard);
    }
  }

  lemma {:induction false} AbandonCounts(l: Ledger, k: nat)
    requires Counted(l) && k <= |l.retired| && forall j :: k <= j < |l.retired| ==> !l.retired[j]
    ensures Counted(Abandon(l, k)) && |Abandon(l, k).retired| == |l.retired|
    ensures forall j :: 0 <= j < |l.retired| ==> Abandon(l, k).retired[j] == (l.retired[j] || j >= k)
  {
    hide Unretired;
    assert l.retired == l.retired[..k] + l.retired[k..];
    UnretiredConcat(l.retired[..k], l.retired[k..]);
    UnretiredAll(l.retired[k..], false);
    var rest := seq(|l.retired| - k, _ => true);
    UnretiredConcat(l.retired[..k], rest);
    UnretiredAll(rest, true);
  }

  /** A shard that was not handed out is retired only by the end of the outer loop. */
  ghost predicate Handing(s: State) {
    && Counted(s.ledger) && s.outer.num > 0
    && (s.outer.at != Broken ==> forall k :: s.outer.out <= k < |s.ledger.retired| ==> !s.ledger.retired[k])
    && (s.outer.at == Broken ==>
          forall k :: 0 <= k < |s.ledger.retired| && s.outer.out - 1 <= k ==> s.ledger.retired[k])
    && (forall k :: 0 <= k < |s.iterations| ==> s.iterations[k].shard < s.outer.out)
  }

  lemma {:induction false} StepKeepsHanding(s: State, e: Event)
    requires Shape(s) && Enabled(s, e) && Handing(s)
    ensures Handing(Apply(s, e))
  {
    hide Counted, Finish, Abandon;
    match e
    case BodyReturns(goOn) =>
      FinishCounts(s.ledger, s.outer.out - 1);
      FinishKeepsSize(s.ledger, s.outer.out - 1);
      if !goOn {
        AbandonCounts(Finish(s.ledger, s.outer.out - 1), s.outer.out);
      }
    case Pull(k) =>
      FinishCounts(s.ledger, s.iterations[k].shard);
      FinishKeepsSize(s.ledger, s.iterations[k].shard);
    case Give(k, goOn) =>
      FinishCounts(s.ledger, s.iterations[k].shard);
      FinishKeepsSize(s.ledger, s.iterations[k].shard);
    case Cancel => SameCount(s.ledger, DoCancel(s).ledger);
    case Release => SameCount(s.ledger, DoRelease(s).ledger);
    case _ =>
  }

  lemma {:induction false} SameCount(l: Ledger, m: Ledger)
    requires Counted(l) && m.remain == l.remain && m.retired == l.retired
    ensures Counted(m)
  {
  }

  // ---------------------------------------------------------------- letting the pull go

  /** How the ledger says that the pull is, or will be, let go. */
  ghost predicate Watched(l: Ledger, cancelled: bool) {
    l.watching <==> l.remain > 0 && !cancelled
  }

  /** The shards whose finish has not been called by the outer loop. */
  ghost function Unbroken(o: Outer): int {
    if o.at == Broken then o.out - 1 else o.num
  }

  ghost predicate NoneRetiredBelow(retired: seq<bool>, n: int) {
    forall k :: 0 <= k < |retired| && k < n ==> !retired[k]
  }

  /** What a caller can see before it pulls from a shard: the outer loop broke off in its first body and has returned,
      no shard has been used, and the context is alive. */
  predicate TooLate(s: State) {
    && s.outer.at == Broken && s.outer.out == 1 && s.ledger.releases == 0
    && !s.src.started && !s.cancelled
  }

  /** What is known about letting go, when `late` says that a pull has come too late. */
  ghost predicate LettingGo(s: State, late: bool) {
    && Watched(s.ledger, s.cancelled) && (s.src.stopped ==> s.src.started)
    && (s.ledger.remain == 0 || s.cancelled ==> s.ledger.releases > 0 || !s.src.started || s.src.stopped || late)
    && (s.ledger.releases > 0 || s.src.stopped ==> s.ledger.remain == 0 || s.cancelled)
    && (late ==> s.src.started && !s.src.stopped && s.ledger.remain == 0 && s.ledger.releases == 0
                 && s.outer.at == Broken)
    && (!s.src.started && !s.cancelled ==> NoneRetiredBelow(s.ledger.retired, Unbroken(s.outer)))
    && (forall k :: 0 <= k < |s.iterations| ==> s.iterations[k].at.Gives? ==> s.src.started)
  }

  lemma {:induction false} AllRetired(l: Ledger, k: nat)
    requires Counted(l) && l.remain == 0 && k < |l.retired|
    ensures l.retired[k]
  {
    UnretiredOne(l.retired, k);
  }

  lemma {:induction false} RemainIsPositive(l: Ledger)
    requires Counted(l)
    ensures l.remain >= 0
  {
  }

  /** Finishing a shard: the last one makes a call of release. */
  lemma {:induction false} FinishLetsGo(l: Ledger, shard: nat, cancelled: bool)
    requires Counted(l) && Watched(l, cancelled) && shard < |l.retired|
    ensures var m := Finish(l, shard);
            && Watched(m, cancelled) && m.releases >= l.releases
            && (m.remain == 0 && l.remain != 0 ==> m.releases > 0)
            && (m.releases > l.releases ==> m.remain == 0)
            && (l.remain == 0 ==> m == l)
  {
    RemainIsPositive(l);
    FinishCounts(l, shard);
    RemainIsPositive(Finish(l, shard));
    if l.remain == 0 {
      AllRetired(l, shard);
    }
  }

  lemma {:induction false} BodyLetsGo(s: State, goOn: bool, late: bool)
    requires Shape(s) && Handing(s) && LettingGo(s, late) && s.outer.at == InBody
    ensures LettingGo(DoBody(s, goOn), late)
  {
    hide Unretired;
    if !goOn {
      var f := Finish(s.ledger, s.outer.out - 1);
      FinishLetsGo(s.ledger, s.outer.out - 1, s.cancelled);
      FinishCounts(s.ledger, s.outer.out - 1);
      FinishKeepsSize(s.ledger, s.outer.out - 1);
      AbandonCounts(f, s.outer.out);
      RemainIsPositive(f);
      RemainIsPositive(Abandon(f, s.outer.out));
      hide Counted, Finish;
    }
  }

  /** Before anything is pulled no shard is left exactly when the loop has broken off in its first body. */
  lemma {:induction false} NoneLeft(s: State)
    requires Shape(s) && Handing(s) && NoneRetiredBelow(s.ledger.retired, Unbroken(s.outer))
    ensures s.ledger.remain == 0 <==> s.outer.at == Broken && s.outer.out == 1
  {
    RemainIsPositive(s.ledger);
    if s.ledger.remain == 0 {
      AllRetired(s.ledger, 0);
    }
    if s.outer.at == Broken && s.outer.out == 1 {
      UnretiredAll(s.ledger.retired, true);
    }
  }

  lemma {:induction false} PullLetsGo(s: State, k: nat, late: bool)
    requires Shape(s) && Handing(s) && LettingGo(s, late) && Enabled(s, Pull(k))
    ensures LettingGo(DoPull(s, k), late || TooLate(s))
  {
    var shard := s.iterations[k].shard;
    FinishLetsGo(s.ledger, shard, s.cancelled);
    RemainIsPositive(s.ledger);
    if !s.src.started && !s.cancelled {
      NoneLeft(s);
    }
    hide Counted, Finish;
  }

  lemma {:induction false} GiveLetsGo(s: State, k: nat, goOn: bool, late: bool)
    requires Shape(s) && Handing(s) && LettingGo(s, late) && Enabled(s, Give(k, goOn))
    ensures LettingGo(DoGive(s, k, goOn), late)
  {
    FinishLetsGo(s.ledger, s.iterations[k].shard, s.cancelled);
    hide Counted, Finish, NoneRetiredBelow;
  }

  lemma {:induction false} StepLetsGo(s: State, e: Event, late: bool)
    requires Shape(s) && Enabled(s, e) && Handing(s) && LettingGo(s, late)
    ensures LettingGo(Apply(s, e), late || (e.Pull? && TooLate(s)))
  {
    match e
    case BodyReturns(goOn) => BodyLetsGo(s, goOn, late);
    case Pull(k) => PullLetsGo(s, k, late);
    case Give(k, goOn) => GiveLetsGo(s, k, goOn, late);
    case _ =>
      RemainIsPositive(s.ledger);
  }

  // ---------------------------------------------------------------- whole runs

  ghost predicate Good(s: State, late: bool) {
    Shape(s) && Handing(s) && LettingGo(s, late) && forall i: nat :: Placed(s, i)
  }

  lemma {:induction false} StartIsGood(num: int, n: nat)
    ensures Good(Start(num, n), false)
  {
    UnretiredAll(Start(num, n).ledger.retired, false);
  }

  /** Whether some pull of the run comes too late. */
  predicate PullsTooLate(s: State, es: seq<Event>)
    requires Shape(s) && AllEnabled(s, es)
    decreases |es|
  {
    && es != []
    && ((es[0].Pull? && TooLate(s)) || (StepKeepsShape(s, es[0]); PullsTooLate(Apply(s, es[0]), es[1..])))
  }

  lemma {:induction false} RunIsGood(s: State, es: seq<Event>, late: bool)
    requires Good(s, late) && AllEnabled(s, es)
    ensures Good(Run(s, es), late || PullsTooLate(s, es))
    decreases |es|
  {
    if es != [] {
      StepKeepsShape(s, es[0]);
      StepKeepsHanding(s, es[0]);
      StepLetsGo(s, es[0], late);
      forall i: nat {
        StepKeepsPlace(s, es[0], i);
      }
      hide Apply, Handing, LettingGo, Placed, Enabled;
      RunIsGood(Apply(s, es[0]), es[1..], late || (es[0].Pull? && TooLate(s)));
    }
  }

  /** Over any interleaving every element that has been pulled is with exactly one iteration over one shard, or exactly
      one such iteration has dealt with it; and the countdown is the number of shards that have not finished. */
  lemma {:induction false} EachElementToOneShard(num: int, n: nat, es: seq<Event>)
    requires AllEnabled(Start(num, n), es)
    ensures var s := Run(Start(num, n), es);
            && (forall i: nat :: Giving(s.iterations, i) + Given(s.gifts, i) == if i < s.src.pos then 1 else 0)
            && 0 <= s.ledger.remain == Unretired(s.ledger.retired)
  {
    StartIsGood(num, n);
    RunIsGood(Start(num, n), es, false);
    forall i: nat
      ensures var s := Run(Start(num, n), es);
              Giving(s.iterations, i) + Given(s.gifts, i) == if i < s.src.pos then 1 else 0
    {
      assert Placed(Run(Start(num, n), es), i);
    }
  }

  lemma {:induction false} StepKeepsNum(s: State, e: Event)
    requires Shape(s) && Enabled(s, e)
    ensures var t := Apply(s, e);
            && t.outer.num == s.outer.num && t.src.n == s.src.n
            && (t.outer.at == Complete && s.outer.at != Complete ==> t.outer.out == t.outer.num)
            && (s.outer.at == Complete ==> t.outer == s.outer)
  {
    hide Finish, Abandon;
  }

  /** As many shards as were asked for, and at least one: the outer loop that goes through hands out all of them, and no
      run hands out more. */
  lemma {:induction false} AllShardsAreHandedOut(num: int, n: nat, es: seq<Event>)
    requires AllEnabled(Start(num, n), es)
    ensures var s := Run(Start(num, n), es);
            && s.outer.out <= |s.ledger.retired| == (if num > 1 then num else 1)
            && (s.outer.at == Complete ==> s.outer.out == |s.ledger.retired|)
  {
    StartIsGood(num, n);
    NumIsKept(Start(num, n), es);
  }

  lemma {:induction false} NumIsKept(s: State, es: seq<Event>)
    requires Shape(s) && AllEnabled(s, es) && (s.outer.at == Complete ==> s.outer.out == s.outer.num)
    ensures var t := Run(s, es);
            Shape(t) && t.outer.num == s.outer.num && (t.outer.at == Complete ==> t.outer.out == t.outer.num)
    decreases |es|
  {
    if es != [] {
      StepKeepsShape(s, es[0]);
      StepKeepsNum(s, es[0]);
      hide Apply, Enabled;
      NumIsKept(Apply(s, es[0]), es[1..]);
    }
  }

  /** Some iteration over the shard has ended. */
  ghost predicate EndedOn(its: seq<Iteration>, shard: nat) {
    exists k :: 0 <= k < |its| && its[k].shard == shard && its[k].at.Ended?
  }

  lemma {:induction false} EndedOnMoves(its: seq<Iteration>, k: nat, at: Phase, shard: nat)
    requires k < |its| && !its[k].at.Ended?
    ensures EndedOn(Move(its, k, at), shard) <==> EndedOn(its, shard) || (at.Ended? && its[k].shard == shard)
  {
    var r := Move(its, k, at);
    if EndedOn(its, shard) {
      var j :| 0 <= j < |its| && its[j].shard == shard && its[j].at.Ended?;
      assert r[j] == its[j];
    }
    if at.Ended? && its[k].shard == shard {
      assert r[k].at.Ended?;
    }
    if EndedOn(r, shard) {
      var j :| 0 <= j < |r| && r[j].shard == shard && r[j].at.Ended?;
      assert j != k ==> its[j] == r[j];
    }
  }

  lemma {:induction false} EndedOnMore(its: seq<Iteration>, it: Iteration, shard: nat)
    requires !it.at.Ended?
    ensures EndedOn(its + [it], shard) <==> EndedOn(its, shard)
  {
    var r := its + [it];
    if EndedOn(its, shard) {
      var j :| 0 <= j < |its| && its[j].shard == shard && its[j].at.Ended?;
      assert r[j] == its[j];
    }
  }

  /** A shard is taken off the countdown by the end of an iteration over it, however that came, or by the outer loop's
      breaking off on it or before it; and by nothing else. */
  ghost predicate TakenOff(s: State, shard: nat)
    requires shard < |s.ledger.retired|
  {
    s.ledger.retired[shard] <==> EndedOn(s.iterations, shard) || (s.outer.at == Broken && s.outer.out - 1 <= shard)
  }

  lemma {:induction false} StepTakesOff(s: State, e: Event, shard: nat)
    requires Shape(s) && Enabled(s, e) && Handing(s) && shard < |s.ledger.retired| && TakenOff(s, shard)
    ensures |Apply(s, e).ledger.retired| == |s.ledger.retired| && TakenOff(Apply(s, e), shard)
  {
    hide Finish, Abandon, Counted, EndedOn, Next;
    match e
    case BodyReturns(goOn) =>
      FinishCounts(s.ledger, s.outer.out - 1);
      FinishKeepsSize(s.ledger, s.outer.out - 1);
      if !goOn {
        AbandonCounts(Finish(s.ledger, s.outer.out - 1), s.outer.out);
      }
    case Iterate(k) => EndedOnMore(s.iterations, Iteration(k, Pulls), shard);
    case Pull(k) =>
      FinishCounts(s.ledger, s.iterations[k].shard);
      FinishKeepsSize(s.ledger, s.iterations[k].shard);
      EndedOnMoves(s.iterations, k, DoPull(s, k).iterations[k].at, shard);
      assert DoPull(s, k).iterations == Move(s.iterations, k, DoPull(s, k).iterations[k].at);
    case Give(k, goOn) =>
      FinishCounts(s.ledger, s.iterations[k].shard);
      FinishKeepsSize(s.ledger, s.iterations[k].shard);
      EndedOnMoves(s.iterations, k, Ended, shard);
      EndedOnMoves(s.iterations, k, Pulls, shard);
    case _ =>
  }

  lemma {:induction false} RunTakesOff(s: State, es: seq<Event>, shard: nat)
    requires Shape(s) && AllEnabled(s, es) && Handing(s) && shard < |s.ledger.retired| && TakenOff(s, shard)
    ensures |Run(s, es).ledger.retired| == |s.ledger.retired| && TakenOff(Run(s, es), shard)
    decreases |es|
  {
    if es != [] {
      StepKeepsShape(s, es[0]);
      StepKeepsHanding(s, es[0]);
      StepTakesOff(s, es[0], shard);
      hide Apply, Enabled, Handing, TakenOff;
      RunTakesOff(Apply(s, es[0]), es[1..], shard);
    }
  }

  /** In any run the shards taken off the countdown are exactly those. */
  lemma {:induction false} FinishedIff(num: int, n: nat, es: seq<Event>, shard: nat)
    requires AllEnabled(Start(num, n), es) && shard < if num > 1 then num else 1
    ensures var s := Run(Start(num, n), es);
            shard < |s.ledger.retired| && TakenOff(s, shard)
  {
    StartIsGood(num, n);
    RunTakesOff(Start(num, n), es, shard);
  }

  /** Once the pull has been stopped it yields nothing more. */
  lemma {:induction false} StoppedYieldsNothing(s: State, es: seq<Event>)
    requires Shape(s) && AllEnabled(s, es) && (s.src.stopped || s.src.exhausted)
    ensures Run(s, es).src.pos == s.src.pos
    decreases |es|
  {
    if es != [] {
      StepKeepsShape(s, es[0]);
      StoppedStep(s, es[0]);
      hide Apply, Enabled;
      StoppedYieldsNothing(Apply(s, es[0]), es[1..]);
    }
  }

  lemma {:induction false} StoppedStep(s: State, e: Event)
    requires Shape(s) && Enabled(s, e) && (s.src.stopped || s.src.exhausted)
    ensures Apply(s, e).src.pos == s.src.pos && (Apply(s, e).src.stopped || Apply(s, e).src.exhausted)
  {
    hide Finish, Abandon;
  }

  /** The input holds nothing: its pull was never started, was stopped, or has come to the end. */
  predicate LetGo(src: Source) {
    !src.started || src.stopped || src.exhausted
  }

  /** The occasions on which the input is to be let go, when no call of release is still to run. */
  predicate Due(s: State) {
    (s.ledger.remain == 0 || s.cancelled || s.src.exhausted) && s.ledger.releases == 0
  }

  /** When it is due the input has been let go, unless a kept shard was first pulled after the outer loop had broken off
      in its first body and returned, and has not been pulled to the end of the input since. */
  lemma {:induction false} PullIsLetGo(num: int, n: nat, es: seq<Event>)
    requires AllEnabled(Start(num, n), es)
    ensures var s := Run(Start(num, n), es);
            Due(s) ==> (LetGo(s.src) <==> !PullsTooLate(Start(num, n), es) || s.src.exhausted)
  {
    StartIsGood(num, n);
    RunIsGood(Start(num, n), es, false);
  }

  /** Such a run: one pull that comes too late keeps any input but the empty one, which it brings to its end. */
  lemma {:induction false} LatePullIsNotLetGo(n: nat)
    ensures var es := [HandOut, BodyReturns(false), Release, Release, Iterate(0), Pull(0)];
            && AllEnabled(Start(1, n), es) && (n > 0 ==> PullsTooLate(Start(1, n), es))
            && var s := Run(Start(1, n), es);
            Due(s) && s.ledger.remain == 0 && (LetGo(s.src) <==> n == 0)
  {
    hide Run, AllEnabled, PullsTooLate;
    var es := [HandOut, BodyReturns(false), Release, Release, Iterate(0), Pull(0)];
    LatePullRuns(n);
    PullIsLetGo(1, n, es);
  }

  lemma {:induction false} LatePullRuns(n: nat)
    ensures var es := [HandOut, BodyReturns(false), Release, Release, Iterate(0), Pull(0)];
            && AllEnabled(Start(1, n), es)
            && var s := Run(Start(1, n), es);
            && s.ledger.remain == 0 && s.ledger.releases == 0
            && s.src.started && !s.src.stopped && (s.src.exhausted <==> n == 0)
  {
    var es := [HandOut, BodyReturns(false), Release, Release, Iterate(0), Pull(0)];
    assert es[1..] == [BodyReturns(false), Release, Release, Iterate(0), Pull(0)];
    assert es[1..][1..] == [Release, Release, Iterate(0), Pull(0)];
    assert es[1..][1..][1..] == [Release, Iterate(0), Pull(0)];
    assert es[1..][1..][1..][1..] == [Iterate(0), Pull(0)];
    assert es[1..][1..][1..][1..][1..] == [Pull(0)];
  }

  /** Every shard that was handed out has finished: its loop has ended, or the outer loop broke off on it. */
  predicate AllFinished(s: State) {
    forall k :: 0 <= k < s.outer.out && k < |s.ledger.retired| ==> s.ledger.retired[k]
  }

  lemma {:induction false} NoneUnfinished(s: State)
    requires Shape(s) && Handing(s) && s.outer.at == Broken
    ensures s.ledger.remain == 0 <==> AllFinished(s)
  {
    if s.ledger.remain == 0 {
      forall k | 0 <= k < s.outer.out
        ensures s.ledger.retired[k]
      {
        AllRetired(s.ledger, k);
      }
    }
    if AllFinished(s) {
      UnretiredAll(s.ledger.retired, true);
    }
  }

  /** The outer loop stopping early is not an occasion by itself: a shard that was handed out before may go on. The
      input is let go exactly when all of them have finished or the context has ended, and no pull came too late. */
  lemma {:induction false} EarlyStop(num: int, n: nat, es: seq<Event>)
    requires AllEnabled(Start(num, n), es)
    ensures var s := Run(Start(num, n), es);
            s.outer.at == Broken && s.ledger.releases == 0 && s.src.started && !s.src.exhausted ==>
              (LetGo(s.src) <==> (AllFinished(s) || s.cancelled) && !PullsTooLate(Start(num, n), es))
  {
    var s := Run(Start(num, n), es);
    StartIsGood(num, n);
    RunIsGood(Start(num, n), es, false);
    if s.outer.at == Broken {
      NoneUnfinished(s);
    }
  }

  /** Such a run: the outer loop stops at its second shard while the first is in use. */
  lemma {:induction false} EarlyStopHoldsOn(n: nat)
    requires n > 0
    ensures var es := [HandOut, BodyReturns(true), Iterate(0), Pull(0), HandOut, BodyReturns(false)];
            && AllEnabled(Start(2, n), es)
            && var s := Run(Start(2, n), es);
            s.outer.at == Broken && s.ledger.releases == 0 && !LetGo(s.src)
  {
    var es := [HandOut, BodyReturns(true), Iterate(0), Pull(0), HandOut, BodyReturns(false)];
    assert es[1..] == [BodyReturns(true), Iterate(0), Pull(0), HandOut, BodyReturns(false)];
    assert es[1..][1..] == [Iterate(0), Pull(0), HandOut, BodyReturns(false)];
    assert es[1..][1..][1..] == [Pull(0), HandOut, BodyReturns(false)];
    assert es[1..][1..][1..][1..] == [HandOut, BodyReturns(false)];
    assert es[1..][1..][1..][1..][1..] == [BodyReturns(false)];
  }

  // ---------------------------------------------------------------- after the context, and without it

  /** Once the context has ended no shard gets another element. */
  lemma {:induction false} CancelStopsShards(s: State, es: seq<Event>)
    requires Shape(s) && AllEnabled(s, es) && s.cancelled
    ensures Run(s, es).cancelled && Run(s, es).src.pos == s.src.pos
    decreases |es|
  {
    if es != [] {
      StepKeepsShape(s, es[0]);
      StepAfterCancel(s, es[0]);
      hide Apply, Enabled;
      CancelStopsShards(Apply(s, es[0]), es[1..]);
    }
  }

  /** So none does after the caller's cancellation. */
  lemma {:induction false} CancelIsFinal(s: State, es: seq<Event>)
    requires Shape(s) && Shape(Apply(s, Cancel)) && AllEnabled(Apply(s, Cancel), es)
    ensures Run(Apply(s, Cancel), es).cancelled && Run(Apply(s, Cancel), es).src.pos == s.src.pos
  {
    CancelStopsShards(Apply(s, Cancel), es);
  }

  lemma {:induction false} StepAfterCancel(s: State, e: Event)
    requires Shape(s) && Enabled(s, e) && s.cancelled
    ensures Apply(s, e).cancelled && Apply(s, e).src.pos == s.src.pos
  {
  }

  /** The context does not end and no loop breaks off. */
  predicate Undisturbed(es: seq<Event>) {
    forall e :: e in es ==> Goes(e)
  }

  predicate Goes(e: Event) {
    match e
    case Cancel => false
    case BodyReturns(goOn) => goOn
    case Give(_, goOn) => goOn
    case _ => true
  }

  /** Then an iteration over a shard ends only with the input. */
  ghost predicate EndsWithInput(s: State) {
    && !s.cancelled && s.src.pos <= s.src.n && (s.src.exhausted ==> s.src.pos == s.src.n)
    && (!s.src.exhausted ==> !s.src.stopped && s.ledger.releases == 0
                             && forall k :: 0 <= k < |s.iterations| ==> !s.iterations[k].at.Ended?)
  }

  lemma {:induction false} UndisturbedStep(s: State, e: Event)
    requires Shape(s) && Enabled(s, e) && Goes(e) && EndsWithInput(s)
    ensures EndsWithInput(Apply(s, e)) && Apply(s, e).src.n == s.src.n
  {
    hide Finish;
  }

  lemma {:induction false} UndisturbedRun(s: State, es: seq<Event>)
    requires Shape(s) && AllEnabled(s, es) && Undisturbed(es) && EndsWithInput(s)
    ensures EndsWithInput(Run(s, es)) && Run(s, es).src.n == s.src.n
    decreases |es|
  {
    if es != [] {
      assert es[0] in es;
      StepKeepsShape(s, es[0]);
      UndisturbedStep(s, es[0]);
      hide Apply, Enabled, EndsWithInput;
      UndisturbedRun(Apply(s, es[0]), es[1..]);
    }
  }

  /** When the iterations of an undisturbed run have ended, and there was one, each input element has been dealt with
      by exactly one of them. */
  lemma {:induction false} UndisturbedShardsTakeAll(num: int, n: nat, es: seq<Event>)
    requires AllEnabled(Start(num, n), es) && Undisturbed(es)
    requires var s := Run(Start(num, n), es);
             s.iterations != [] && forall k :: 0 <= k < |s.iterations| ==> s.iterations[k].at.Ended?
    ensures var s := Run(Start(num, n), es);
            forall i: nat :: Given(s.gifts, i) == if i < n then 1 else 0
  {
    hide Run, AllEnabled;
    EachElementToOneShard(num, n, es);
    UndisturbedRun(Start(num, n), es);
    var s := Run(Start(num, n), es);
    assert s.iterations[0].at.Ended?;
    forall i: nat
      ensures Given(s.gifts, i) == if i < n then 1 else 0
    {
      NobodyGives(s.iterations, i);
    }
  }
}
