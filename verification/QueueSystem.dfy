/** The queue under any number of threads. A state is the monitor, the calls in progress and what has been
    observed so far; an event is one stretch of code that runs with the lock held, or a context ending.
    Every interleaving of the real threads is a sequence of events. */
module QueueSystem {
  import opened Limits
  import opened QueueModel

  datatype Event<T> =
    | Push(item: T)
    | Pop
    | Close
    | NewIter(id: IterId)
    | TryIter(id: IterId)
    | Enter(tid: Tid, call: Call<T>, cancelled: bool)   // a call takes the lock for the first time
    | Resume(tid: Tid)                                  // a woken call has the lock again
    | EndContext(tid: Tid)                              // a call's context ends: its broadcast is now pending
    | Broadcast(tid: Tid)                               // that broadcast gets the lock
    | Stray(onUpdates: bool)                            // a broadcast that outlived the call it was for

  datatype System<T> = System(
    m: Monitor<T>,
    calls: map<Tid, Call<T>>,
    ended: set<Tid>,                      // calls whose context has ended
    pending: set<Tid>,                    // and whose broadcast has not run yet
    accepted: seq<T>,                     // every item a push reported as accepted
    delivered: seq<T>,                    // every item a pop handed out
    cursors: map<IterId, int>,
    yielded: map<IterId, seq<(nat, T)>>,  // what each iterator produced, with its index among the accepted
    shutDown: bool)                       // some Shutdown has returned nil
  {
    predicate Asleep(tid: Tid) {
      tid in calls && calls[tid].SleepsIn(m, tid)
    }

    function CursorOf(call: Call<T>): int {
      if call.IterWait? && call.id in cursors then cursors[call.id] else -1
    }

    predicate Enabled(e: Event<T>) {
      match e
      case Push(_) => true
      case Pop => true
      case Close => true
      case NewIter(id) => id !in cursors
      case TryIter(id) => id in cursors
      case Enter(tid, call, _) => tid !in calls && (call.IterWait? ==> call.id in cursors)
      case Resume(tid) => tid in calls && !Asleep(tid)
      case EndContext(tid) => tid in calls && tid !in ended
      case Broadcast(tid) => tid in pending
      case Stray(_) => true
    }
  }

  function Start<T>(tracker: Tracker): System<T> {
    System(Monitor([], 0, tracker, 0, false, {}, {}), map[], {}, {}, [], [], map[], map[], false)
  }

  // ---------------------------------------------------------------- the step function

  /** Writes down what a pull produced. */
  function Log<T>(s: System<T>, id: IterId, o: Outcome<T>): System<T>
    requires id in s.yielded
  {
    if o.Yielded? then
      s.(cursors := s.cursors[id := o.index], yielded := s.yielded[id := s.yielded[id] + [(o.index, o.item)]])
    else s
  }

  /** The call goes to sleep, or returns and its outcome is written down. */
  function Settle<T(==)>(s: System<T>, tid: Tid, call: Call<T>, r: (Monitor<T>, Outcome<T>)): System<T>
    requires call.IterWait? ==> call.id in s.yielded
  {
    var (n, o) := r;
    if o.Blocked? then s.(m := n, calls := s.calls[tid := call]) else
    var t := s.(m := n, calls := s.calls - {tid}, ended := s.ended - {tid}, pending := s.pending - {tid},
                accepted := s.accepted + Pushed(call, o), delivered := s.delivered + Popped(call, o),
                shutDown := s.shutDown || (call == DrainWait(true) && o.Done?));
    if call.IterWait? then Log(t, call.id, o) else t
  }

  function Count<T>(s: System<T>, n: Monitor<T>, added: seq<T>, removed: seq<T>): System<T> {
    s.(m := n, accepted := s.accepted + added, delivered := s.delivered + removed)
  }

  /** A broadcast on one condition, which settles the given pending ones. */
  function Wake<T>(s: System<T>, onUpdates: bool, done: set<Tid>): System<T> {
    var m := s.m;
    System(m.(nempty := if onUpdates then m.nempty else {}, nupdates := if onUpdates then {} else m.nupdates),
           s.calls, s.ended, s.pending - done, s.accepted, s.delivered, s.cursors, s.yielded, s.shutDown)
  }

  function Apply<T(==)>(s: System<T>, e: Event<T>): System<T>
    requires Consistent(s) && s.Enabled(e)
  {
    match e
    case Push(item) =>
      var (n, o) := DoAdd(s.m, item);
      Count(s, n, if o.Done? then [item] else [], [])
    case Pop =>
      var (n, o) := TryPop(s.m);
      Count(s, n, [], if o.Item? then [o.item] else [])
    case Close => Count(s, DoClose(s.m), [], [])
    case NewIter(id) => s.(cursors := s.cursors[id := -1], yielded := s.yielded[id := []])
    case TryIter(id) => Log(s, id, TryNext(s.m, s.cursors[id]))
    case Enter(tid, call, cancelled) =>
      Settle(s, tid, call, Section(s.m, tid, call, true, cancelled, s.CursorOf(call)))
    case Resume(tid) =>
      var call := s.calls[tid];
      assert call.DrainWait? ==> tid in DrainTids(s.calls);
      Settle(s, tid, call, Section(s.m, tid, call, false, tid in s.ended, s.CursorOf(call)))
    case EndContext(tid) => s.(ended := s.ended + {tid}, pending := s.pending + {tid})
    case Broadcast(tid) => Wake(s, s.calls[tid].OnUpdates(), {tid})
    case Stray(onUpdates) => Wake(s, onUpdates, {})
  }

  // ---------------------------------------------------------------- the invariant

  function DrainTids<T>(calls: map<Tid, Call<T>>): set<Tid> {
    set t | t in calls && calls[t].DrainWait?
  }

  /** Sleepers are calls in progress on their own condition, and iterators in use exist. */
  ghost predicate Places<T>(s: System<T>) {
    && s.pending <= s.ended <= s.calls.Keys
    && (forall t :: t in s.m.nempty ==> t in s.calls && !s.calls[t].OnUpdates())
    && (forall t :: t in s.m.nupdates ==> t in s.calls && s.calls[t].OnUpdates())
    && s.cursors.Keys == s.yielded.Keys
    && (forall t :: t in s.calls && s.calls[t].IterWait? ==> s.calls[t].id in s.cursors)
  }

  /** The counts agree with what they count. */
  ghost predicate Consistent<T>(s: System<T>) {
    s.m.Valid() && s.m.drainers == |DrainTids(s.calls)| && Places(s)
  }

  /** Whoever sleeps has nothing to do: what it waits for has not come, and if its context has ended then a
      broadcast is still on its way. */
  ghost predicate NoLostWakeup<T>(s: System<T>) {
    forall t :: s.Asleep(t) ==> !s.calls[t].Ready(s.m, s.CursorOf(s.calls[t])) && (t in s.ended ==> t in s.pending)
  }

  /** Items come out in the order they went in, each once. */
  ghost predicate Conserved<T>(s: System<T>) {
    s.accepted == s.delivered + s.m.live && s.m.base == |s.delivered|
  }

  /** Every push accepted before Shutdown returned has been delivered, and none is accepted after. */
  ghost predicate ShutDownIsFinal<T>(s: System<T>) {
    s.shutDown ==> s.m.closed && s.m.live == []
  }

  ghost predicate Increasing<T>(ys: seq<(nat, T)>) {
    forall i, j :: 0 <= i < j < |ys| ==> ys[i].0 < ys[j].0
  }

  ghost predicate Saw<T>(ys: seq<(nat, T)>, index: nat) {
    exists i :: 0 <= i < |ys| && ys[i].0 == index
  }

  /** One iterator: indices only grow, each item is the one accepted at its index, the cursor is the last of
      them, and whatever is still linked at or before the cursor has been produced. */
  ghost predicate Faithful<T>(accepted: seq<T>, base: nat, cursor: int, ys: seq<(nat, T)>) {
    && Increasing(ys)
    && (forall i :: 0 <= i < |ys| ==> ys[i].0 < |accepted| && ys[i].1 == accepted[ys[i].0])
    && cursor == (if ys == [] then -1 else ys[|ys| - 1].0)
    && (forall j: nat :: base <= j <= cursor ==> Saw(ys, j))
  }

  ghost predicate CursorsFaithful<T>(s: System<T>) {
    forall id :: id in s.cursors && id in s.yielded ==>
      Faithful(s.accepted, s.m.base, s.cursors[id], s.yielded[id])
  }

  ghost predicate Inv<T>(s: System<T>) {
    Consistent(s) && NoLostWakeup(s) && Conserved(s) && ShutDownIsFinal(s) && CursorsFaithful(s)
  }

  // ---------------------------------------------------------------- every event keeps it

  /** A call that can start or go on: not one that sleeps. */
  ghost predicate Runnable<T>(s: System<T>, tid: Tid, call: Call<T>, entering: bool) {
    && tid !in s.m.nempty && tid !in s.m.nupdates
    && (if entering then tid !in s.calls else tid in s.calls && s.calls[tid] == call)
    && (call.IterWait? ==> call.id in s.cursors && call.id in s.yielded)
    && (call.DrainWait? && !entering ==> s.m.drainers > 0)
  }

  ghost predicate Fits<T>(s: System<T>, tid: Tid, call: Call<T>, entering: bool, ended: bool,
                          r: (Monitor<T>, Outcome<T>)) {
    && Runnable(s, tid, call, entering) && (!entering ==> (ended <==> tid in s.ended))
    && GoodStretch(s.m, tid, call, entering, ended, s.CursorOf(call), r.0, r.1)
  }

  lemma DrainTidsAdd<T>(calls: map<Tid, Call<T>>, tid: Tid, call: Call<T>)
    requires tid !in calls || calls[tid] == call
    ensures DrainTids(calls[tid := call]) == DrainTids(calls) + (if call.DrainWait? then {tid} else {})
    ensures DrainTids(calls - {tid}) == DrainTids(calls) - {tid}
  {
  }

  lemma DrainTidsSize<T>(calls: map<Tid, Call<T>>, tid: Tid, call: Call<T>)
    requires tid !in calls || calls[tid] == call
    ensures |DrainTids(calls[tid := call])| == |DrainTids(calls)| + (if tid !in calls then call.Weight() else 0)
    ensures |DrainTids(calls - {tid})| == |DrainTids(calls)| - (if tid in calls then call.Weight() else 0)
  {
    DrainTidsAdd(calls, tid, call);
    assert tid in DrainTids(calls) <==> tid in calls && call.DrainWait?;
  }

  lemma SettleDrainers<T>(s: System<T>, tid: Tid, call: Call<T>, entering: bool, ended: bool,
                          r: (Monitor<T>, Outcome<T>))
    requires Consistent(s) && Fits(s, tid, call, entering, ended, r)
    ensures var t := Settle(s, tid, call, r); t.m.Valid() && t.m.drainers == |DrainTids(t.calls)|
  {
    hide DrainTids;
    DrainTidsSize(s.calls, tid, call);
  }

  lemma SettlePlaces<T>(s: System<T>, tid: Tid, call: Call<T>, entering: bool, ended: bool,
                        r: (Monitor<T>, Outcome<T>))
    requires Places(s) && Fits(s, tid, call, entering, ended, r)
    ensures Places(Settle(s, tid, call, r))
  {
    var t := Settle(s, tid, call, r);
    forall u
      ensures u in t.m.nempty ==> u in t.calls && !t.calls[u].OnUpdates()
      ensures u in t.m.nupdates ==> u in t.calls && t.calls[u].OnUpdates()
      ensures u in t.calls && t.calls[u].IterWait? ==> t.calls[u].id in t.cursors
    {
      if u != tid {
        assert u in t.calls <==> u in s.calls;
        assert u in s.calls ==> t.calls[u] == s.calls[u];
      }
    }
  }

  /** A call that settles leaves every other call as it was. */
  lemma SettleOthers<T>(s: System<T>, tid: Tid, call: Call<T>, entering: bool, ended: bool,
                        r: (Monitor<T>, Outcome<T>), u: Tid)
    requires Fits(s, tid, call, entering, ended, r) && u != tid
    ensures var t := Settle(s, tid, call, r);
            && (u in t.calls <==> u in s.calls) && (u in t.calls ==> t.calls[u] == s.calls[u])
            && (u in t.ended <==> u in s.ended) && (u in t.pending <==> u in s.pending)
  {
  }

  /** A pull moves only its own iterator, and no other thread can be asleep on that one. */
  lemma SettleCursor<T>(s: System<T>, tid: Tid, call: Call<T>, entering: bool, ended: bool,
                        r: (Monitor<T>, Outcome<T>), other: Call<T>)
    requires Fits(s, tid, call, entering, ended, r) && !other.Ready(s.m, s.CursorOf(other))
    ensures Settle(s, tid, call, r).CursorOf(other) == s.CursorOf(other)
  {
  }

  lemma SettleNoLostWakeup<T>(s: System<T>, tid: Tid, call: Call<T>, entering: bool, ended: bool,
                              r: (Monitor<T>, Outcome<T>))
    requires s.m.Valid() && NoLostWakeup(s) && Places(s) && Fits(s, tid, call, entering, ended, r)
    ensures NoLostWakeup(Settle(s, tid, call, r))
  {
    var t := Settle(s, tid, call, r);
    forall u | t.Asleep(u)
      ensures !t.calls[u].Ready(t.m, t.CursorOf(t.calls[u])) && (u in t.ended ==> u in t.pending)
    {
      if u == tid {
        SettleSelf(s, tid, call, entering, ended, r);
      } else {
        SettleOthers(s, tid, call, entering, ended, r, u);
        assert s.Asleep(u) by {
          assert LetsSleep(s.m, r.0, {tid});
        }
        SettleCursor(s, tid, call, entering, ended, r, s.calls[u]);
        SleepersStayUnready(s.m, r.0, {tid}, u, s.calls[u], s.CursorOf(s.calls[u]));
      }
    }
  }

  lemma SettleSelf<T>(s: System<T>, tid: Tid, call: Call<T>, entering: bool, ended: bool,
                      r: (Monitor<T>, Outcome<T>))
    requires Places(s) && Fits(s, tid, call, entering, ended, r)
    ensures var t := Settle(s, tid, call, r);
            t.Asleep(tid) ==> !call.Ready(t.m, t.CursorOf(call)) && t.calls[tid] == call && tid !in t.ended
  {
  }

  lemma SettleConserved<T>(s: System<T>, tid: Tid, call: Call<T>, entering: bool, ended: bool,
                           r: (Monitor<T>, Outcome<T>))
    requires Conserved(s) && ShutDownIsFinal(s) && Fits(s, tid, call, entering, ended, r)
    ensures Conserved(Settle(s, tid, call, r)) && ShutDownIsFinal(Settle(s, tid, call, r))
  {
    var (added, removed) := (Pushed(call, r.1), Popped(call, r.1));
    var t := Settle(s, tid, call, r);
    assert t.accepted == s.accepted + added && t.delivered == s.delivered + removed;
    assert s.delivered + (removed + r.0.live) == s.delivered + (s.m.live + added);
    assert (s.delivered + removed) + r.0.live == s.delivered + (removed + r.0.live);
    assert (s.delivered + s.m.live) + added == s.delivered + (s.m.live + added);
  }

  // ---------------------------------------------------------------- iterators

  /** Pushes and pops elsewhere do not disturb what an iterator has produced. */
  lemma FaithfulAfterMoves<T>(accepted: seq<T>, base: nat, cursor: int, ys: seq<(nat, T)>, more: seq<T>, base': nat)
    requires Faithful(accepted, base, cursor, ys) && base <= base'
    ensures Faithful(accepted + more, base', cursor, ys)
  {
  }

  /** One pull: the item after the cursor among those still linked, whether or not the cursor's own item is. */
  lemma FaithfulAfterPull<T>(m: Monitor<T>, delivered: seq<T>, cursor: int, ys: seq<(nat, T)>)
    requires m.base == |delivered| && m.HasNext(cursor)
    requires Faithful(delivered + m.live, m.base, cursor, ys)
    ensures var o := Step(m, cursor);
            o.Yielded? && Faithful(delivered + m.live, m.base, o.index, ys + [(o.index, o.item)])
  {
    var o := Step(m, cursor);
    var zs := ys + [(o.index, o.item)];
    assert zs[|ys|].0 == o.index;
    forall j: nat | m.base <= j <= o.index
      ensures Saw(zs, j)
    {
      if j != o.index {
        assert Saw(ys, j);
        var i :| 0 <= i < |ys| && ys[i].0 == j;
        assert zs[i].0 == j;
      }
    }
  }

  lemma LogFaithful<T>(s: System<T>, id: IterId)
    requires Conserved(s) && CursorsFaithful(s) && id in s.cursors && id in s.yielded
    ensures CursorsFaithful(Log(s, id, Step(s.m, s.cursors[id])))
  {
    if s.m.HasNext(s.cursors[id]) {
      FaithfulAfterPull(s.m, s.delivered, s.cursors[id], s.yielded[id]);
    }
  }

  lemma MovesFaithful<T>(s: System<T>, t: System<T>, more: seq<T>)
    requires CursorsFaithful(s) && t.cursors == s.cursors && t.yielded == s.yielded
    requires t.accepted == s.accepted + more && s.m.base <= t.m.base
    ensures CursorsFaithful(t)
  {
    forall id | id in t.cursors && id in t.yielded
      ensures Faithful(t.accepted, t.m.base, t.cursors[id], t.yielded[id])
    {
      FaithfulAfterMoves(s.accepted, s.m.base, s.cursors[id], s.yielded[id], more, t.m.base);
    }
  }

  lemma SettleFaithful<T>(s: System<T>, tid: Tid, call: Call<T>, entering: bool, ended: bool,
                          r: (Monitor<T>, Outcome<T>))
    requires Conserved(s) && ShutDownIsFinal(s) && CursorsFaithful(s) && Fits(s, tid, call, entering, ended, r)
    ensures CursorsFaithful(Settle(s, tid, call, r))
  {
    var t := Settle(s, tid, call, r);
    if call.IterWait? && r.1.Yielded? {
      LogFaithful(s, call.id);
      var u := Log(s, call.id, r.1);
      assert t.accepted == u.accepted + [];
      MovesFaithful(u, t, []);
    } else {
      assert t.accepted == s.accepted + Pushed(call, r.1);
      MovesFaithful(s, t, Pushed(call, r.1));
    }
  }

  lemma SettleKeepsInv<T>(s: System<T>, tid: Tid, call: Call<T>, entering: bool, ended: bool)
    requires Inv(s) && Runnable(s, tid, call, entering) && (!entering ==> (ended <==> tid in s.ended))
    ensures Inv(Settle(s, tid, call, Section(s.m, tid, call, entering, ended, s.CursorOf(call))))
  {
    var r := Section(s.m, tid, call, entering, ended, s.CursorOf(call));
    SectionIsGood(s.m, tid, call, entering, ended, s.CursorOf(call));
    SettleDrainers(s, tid, call, entering, ended, r);
    SettlePlaces(s, tid, call, entering, ended, r);
    SettleNoLostWakeup(s, tid, call, entering, ended, r);
    SettleConserved(s, tid, call, entering, ended, r);
    SettleFaithful(s, tid, call, entering, ended, r);
  }

  lemma CountKeepsInv<T>(s: System<T>, n: Monitor<T>, added: seq<T>, removed: seq<T>)
    requires Inv(s) && n.Valid() && LetsSleep(s.m, n, {}) && Moves(s.m, n, added, removed)
    requires n.drainers == s.m.drainers && (s.m.closed ==> n.closed && added == [])
    ensures Inv(Count(s, n, added, removed))
  {
    var t := Count(s, n, added, removed);
    forall u | t.Asleep(u)
      ensures !t.calls[u].Ready(n, t.CursorOf(t.calls[u])) && (u in t.ended ==> u in t.pending)
    {
      assert s.Asleep(u);
    }
    assert (s.delivered + removed) + n.live == s.delivered + (removed + n.live);
    assert (s.delivered + s.m.live) + added == s.delivered + (s.m.live + added);
    MovesFaithful(s, t, added);
  }

  /** Threads that sleep in t slept in s, on the same wait and with the same broadcasts to come. */
  lemma FewerSleepers<T>(s: System<T>, t: System<T>)
    requires NoLostWakeup(s)
    requires forall u :: t.Asleep(u) ==>
               && s.Asleep(u) && t.calls[u] == s.calls[u]
               && (u in t.ended && u !in t.pending ==> u in s.ended && u !in s.pending)
               && (t.calls[u].Ready(t.m, t.CursorOf(t.calls[u])) ==> s.calls[u].Ready(s.m, s.CursorOf(s.calls[u])))
    ensures NoLostWakeup(t)
  {
  }

  lemma NewIterFaithful<T>(s: System<T>, t: System<T>, id: IterId)
    requires CursorsFaithful(s) && s.cursors.Keys == s.yielded.Keys && t.accepted == s.accepted && t.m == s.m
    requires t.cursors == s.cursors[id := -1] && t.yielded == s.yielded[id := []]
    ensures CursorsFaithful(t)
  {
    forall i | i in t.cursors && i in t.yielded
      ensures Faithful(t.accepted, t.m.base, t.cursors[i], t.yielded[i])
    {
      assert i != id ==> i in s.cursors && i in s.yielded;
    }
  }

  lemma NewIterKeepsInv<T>(s: System<T>, id: IterId)
    requires Inv(s) && id !in s.cursors
    ensures Inv(s.(cursors := s.cursors[id := -1], yielded := s.yielded[id := []]))
  {
    var t := s.(cursors := s.cursors[id := -1], yielded := s.yielded[id := []]);
    NewIterFaithful(s, t, id);
    forall u | t.Asleep(u)
      ensures s.Asleep(u) && t.CursorOf(t.calls[u]) == s.CursorOf(s.calls[u])
    {
      assert t.calls[u].IterWait? ==> t.calls[u].id in s.cursors;
    }
    FewerSleepers(s, t);
  }

  lemma TryIterKeepsInv<T>(s: System<T>, id: IterId)
    requires Inv(s) && id in s.cursors
    ensures Inv(Log(s, id, TryNext(s.m, s.cursors[id])))
  {
    LogFaithful(s, id);
    var t := Log(s, id, TryNext(s.m, s.cursors[id]));
    forall u | t.Asleep(u)
      ensures s.Asleep(u) && t.CursorOf(t.calls[u]) == s.CursorOf(s.calls[u])
    {
      assert s.Asleep(u);
    }
    FewerSleepers(s, t);
  }

  /** A broadcast may run at any moment. */
  lemma WakeKeepsInv<T>(s: System<T>, onUpdates: bool, done: set<Tid>)
    requires Inv(s) && forall u :: u in done ==> u in s.calls && s.calls[u].OnUpdates() == onUpdates
    ensures Inv(Wake(s, onUpdates, done))
  {
    var t := Wake(s, onUpdates, done);
    assert Places(t);
    FewerSleepers(s, t);
  }

  /** A context may end at any moment. */
  lemma EndContextKeepsInv<T>(s: System<T>, tid: Tid)
    requires Inv(s) && tid in s.calls
    ensures Inv(s.(ended := s.ended + {tid}, pending := s.pending + {tid}))
  {
    FewerSleepers(s, s.(ended := s.ended + {tid}, pending := s.pending + {tid}));
  }

  lemma StepKeepsInv<T>(s: System<T>, e: Event<T>)
    requires Inv(s) && s.Enabled(e)
    ensures Inv(Apply(s, e))
  {
    match e {
      case Push(item) =>
        PushStretch(s.m, item);
        var (n, o) := DoAdd(s.m, item);
        CountKeepsInv(s, n, if o.Done? then [item] else [], []);
      case Pop =>
        var (n, o) := TryPop(s.m);
        PopStretch(s.m);
        CountKeepsInv(s, n, [], if o.Item? then [o.item] else []);
      case Close =>
        CloseStretch(s.m);
        CountKeepsInv(s, DoClose(s.m), [], []);
      case Enter(tid, call, cancelled) =>
        SettleKeepsInv(s, tid, call, true, cancelled);
      case Resume(tid) =>
        assert s.calls[tid].DrainWait? ==> tid in DrainTids(s.calls);
        SettleKeepsInv(s, tid, s.calls[tid], false, tid in s.ended);
      case NewIter(id) => NewIterKeepsInv(s, id);
      case TryIter(id) => TryIterKeepsInv(s, id);
      case EndContext(tid) => EndContextKeepsInv(s, tid);
      case Broadcast(tid) => WakeKeepsInv(s, s.calls[tid].OnUpdates(), {tid});
      case Stray(onUpdates) => WakeKeepsInv(s, onUpdates, {});
    }
  }

  // ---------------------------------------------------------------- every run

  /** Any interleaving: events that cannot happen where they stand are passed over. */
  ghost function Run<T>(s: System<T>, es: seq<Event<T>>): System<T>
    requires Inv(s)
    decreases |es|
  {
    if es == [] then s
    else if s.Enabled(es[0]) then StepKeepsInv(s, es[0]); Run(Apply(s, es[0]), es[1..])
    else Run(s, es[1..])
  }

  /** The state of a new queue built on `tracker` after the events `es`. */
  ghost function After<T>(tracker: Tracker, es: seq<Event<T>>): System<T>
    requires tracker.Valid() && tracker.length == 0
  {
    Run(Start(tracker), es)
  }

  /** Every run keeps the invariant. */
  lemma {:induction false} RunKeepsInv<T>(s: System<T>, es: seq<Event<T>>)
    requires Inv(s)
    ensures Inv(Run(s, es))
    decreases |es|
  {
    if es != [] {
      if s.Enabled(es[0]) {
        StepKeepsInv(s, es[0]);
        RunKeepsInv(Apply(s, es[0]), es[1..]);
      } else {
        RunKeepsInv(s, es[1..]);
      }
    }
  }

  /** No wake-up is lost: at any point of any run a sleeping thread has nothing to do yet, or its context has
      ended and the broadcast that will wake it is on its way. */
  lemma NoLostWakeups<T>(tracker: Tracker, es: seq<Event<T>>, s: System<T>, tid: Tid)
    requires tracker.Valid() && tracker.length == 0 && s == After(tracker, es)
    requires s.Asleep(tid)
    ensures !s.calls[tid].Ready(s.m, s.CursorOf(s.calls[tid]))
    ensures tid in s.ended ==> tid in s.pending
  {
    RunKeepsInv(Start(tracker), es);
  }

  /** An awake call returns if its context has ended, or if what it waits for is there. */
  lemma {:induction false} AwakeReturns<T>(s: System<T>, tid: Tid)
    requires Inv(s) && s.Enabled(Resume(tid))
    ensures tid in Apply(s, Resume(tid)).calls <==>
            !s.calls[tid].Ready(s.m, s.CursorOf(s.calls[tid])) && tid !in s.ended
  {
    InvMeans(s, tid);
  }

  /** Once what a call waits for is there, or its context has ended and the broadcast has run, the call is awake,
      and its next stretch returns. A call goes back to sleep exactly when neither is so. */
  lemma ReadyCallsReturn<T>(tracker: Tracker, es: seq<Event<T>>, s: System<T>, tid: Tid)
    requires tracker.Valid() && tracker.length == 0 && s == After(tracker, es) && tid in s.calls
    ensures Inv(s)
    ensures var ready := s.calls[tid].Ready(s.m, s.CursorOf(s.calls[tid]));
            && (ready || (tid in s.ended && tid !in s.pending) ==> s.Enabled(Resume(tid)))
            && (s.Enabled(Resume(tid)) ==>
                  (tid in Apply(s, Resume(tid)).calls <==> !ready && tid !in s.ended))
  {
    RunKeepsInv(Start(tracker), es);
    if s.Enabled(Resume(tid)) {
      AwakeReturns(s, tid);
    }
  }

  function CallOf<T>(s: System<T>, e: Event<T>): Call<T>
    requires (e.Enter? || e.Resume?) && s.Enabled(e)
  {
    if e.Enter? then e.call else s.calls[e.tid]
  }

  predicate HasEnded<T>(s: System<T>, e: Event<T>)
    requires e.Enter? || e.Resume?
  {
    if e.Enter? then e.cancelled else e.tid in s.ended
  }

  /** What is written down when a call with nothing in its way does what it is for: a pop delivers the oldest item, a
      push with room is accepted, an iterator with an item ahead yields it, a Shutdown of an empty queue returns. With
      the queue closed or the context ended nothing goes in and nothing comes out. */
  ghost predicate DoesItsWork<T>(s: System<T>, call: Call<T>, ended: bool, t: System<T>) {
    var (m, open) := (s.m, !s.m.closed && !ended);
    && t.accepted == s.accepted + (if call.PushWait? && m.drainers == 0 && open && m.tracker.length < m.tracker.Cap()
                                   then [call.item] else [])
    && t.delivered == s.delivered + (if call.PopWait? && open && m.live != [] then [m.live[0]] else [])
    && (call == DrainWait(true) && open && m.live == [] ==> t.shutDown)
    && (call.IterWait? && (m.closed || !ended) && m.HasNext(s.CursorOf(call)) ==>
          t.cursors == s.cursors[call.id := m.NextIndex(s.CursorOf(call))])
  }

  lemma {:induction false} SettleDoes<T>(s: System<T>, tid: Tid, call: Call<T>, entering: bool, ended: bool,
                                         r: (Monitor<T>, Outcome<T>))
    requires call.IterWait? ==> call.id in s.yielded
    requires Answers(s.m, call, entering, ended, s.CursorOf(call), r.0, r.1)
    ensures DoesItsWork(s, call, ended, Settle(s, tid, call, r))
  {
  }

  lemma {:induction false} CallDoesItsWork<T>(s: System<T>, e: Event<T>)
    requires Inv(s) && (e.Enter? || e.Resume?) && s.Enabled(e)
    ensures DoesItsWork(s, CallOf(s, e), HasEnded(s, e), Apply(s, e))
  {
    InvMeans(s, e.tid);
    hide Inv, Consistent, DrainTids, Section, Settle, DoesItsWork, Answers;
    var (call, ended) := (CallOf(s, e), HasEnded(s, e));
    SectionAnswers(s.m, e.tid, call, e.Enter?, ended, s.CursorOf(call));
    SettleDoes(s, e.tid, call, e.Enter?, ended, Section(s.m, e.tid, call, e.Enter?, ended, s.CursorOf(call)));
  }

  /** In any reachable state a call that goes on does its work, if nothing stands in its way. */
  lemma CallsDoTheirWork<T>(tracker: Tracker, es: seq<Event<T>>, s: System<T>, e: Event<T>)
    requires tracker.Valid() && tracker.length == 0 && s == After(tracker, es)
    requires (e.Enter? || e.Resume?) && s.Enabled(e)
    ensures Inv(s) && DoesItsWork(s, CallOf(s, e), HasEnded(s, e), Apply(s, e))
  {
    StartInv<T>(tracker);
    hide Inv, Apply, DoesItsWork;
    RunKeepsInv(Start(tracker), es);
    CallDoesItsWork(s, e);
  }

  lemma {:induction false} StartInv<T>(tracker: Tracker)
    requires tracker.Valid() && tracker.length == 0
    ensures Inv(Start<T>(tracker))
    ensures var m := Start<T>(tracker).m;
            m.live == [] && m.tracker == tracker && m.drainers == 0 && !m.closed
  {
  }

  lemma {:induction false} InvMeans<T>(s: System<T>, tid: Tid)
    requires Inv(s)
    ensures Consistent(s) && s.m.Valid()
    ensures tid in s.calls && s.calls[tid].DrainWait? ==> s.m.drainers > 0
    ensures forall t :: t in s.calls && s.calls[t].IterWait? ==> s.calls[t].id in s.cursors
    ensures s.cursors.Keys == s.yielded.Keys
  {
    assert tid in s.calls && s.calls[tid].DrainWait? ==> tid in DrainTids(s.calls);
  }

  /** And so do the calls that never wait. */
  lemma DirectCallsDoTheirWork<T>(tracker: Tracker, es: seq<Event<T>>, s: System<T>, item: T)
    requires tracker.Valid() && tracker.length == 0 && s == After(tracker, es)
    ensures Inv(s) && s.Enabled(Push(item)) && s.Enabled(Pop)
    ensures Apply(s, Push(item)).accepted ==
            s.accepted + if s.m.drainers == 0 && !s.m.closed && s.m.tracker.Add().Added? then [item] else []
    ensures Apply(s, Pop).delivered == s.delivered + if !s.m.closed && s.m.live != [] then [s.m.live[0]] else []
  {
    RunKeepsInv(Start(tracker), es);
    PushAnswers(s.m, item);
    PopAnswers(s.m);
  }

  // ---------------------------------------------------------------- what can always still happen

  /** A run can be cut anywhere. */
  lemma {:induction false} RunConcat<T>(s: System<T>, es: seq<Event<T>>, fs: seq<Event<T>>)
    requires Inv(s)
    ensures Inv(Run(s, es)) && Run(s, es + fs) == Run(Run(s, es), fs)
    decreases |es|
  {
    InvMeans(s, 0);
    hide Inv, Consistent, Apply;
    if es == [] {
      assert es + fs == fs;
    } else {
      assert (es + fs)[1..] == es[1..] + fs;
      if s.Enabled(es[0]) {
        StepKeepsInv(s, es[0]);
        RunConcat(Apply(s, es[0]), es[1..], fs);
      } else {
        RunConcat(s, es[1..], fs);
      }
    }
  }

  /** The state behind an event, if it can happen. */
  ghost function Try<T>(s: System<T>, e: Event<T>): System<T>
    requires Inv(s)
  {
    if s.Enabled(e) then Apply(s, e) else s
  }

  /** The event happens, or nothing does. */
  lemma {:induction false} RunOne<T>(s: System<T>, e: Event<T>, rest: seq<Event<T>>)
    requires Inv(s)
    ensures Inv(Try(s, e)) && Run(s, [e] + rest) == Run(Try(s, e), rest)
  {
    hide Inv, Apply;
    InvMeans(s, 0);
    assert ([e] + rest)[1..] == rest;
    if s.Enabled(e) {
      StepKeepsInv(s, e);
    }
  }

  lemma {:induction false} BroadcastComes<T>(s: System<T>, tid: Tid)
    requires Inv(s)
    ensures tid in Try(s, EndContext(tid)).calls ==> tid in Try(s, EndContext(tid)).ended
    ensures Try(s, Broadcast(tid)).ended == s.ended && tid !in Try(s, Broadcast(tid)).pending
    ensures Try(s, Broadcast(tid)).calls == s.calls
  {
    hide DrainTids;
  }

  lemma {:induction false} CancelledReturns<T>(s: System<T>, tid: Tid)
    requires Inv(s) && (tid in s.calls ==> tid in s.ended && tid !in s.pending)
    ensures tid !in Try(s, Resume(tid)).calls
  {
    if tid in s.calls {
      assert s.Enabled(Resume(tid));
      AwakeReturns(s, tid);
    }
  }

  /** Ending its context brings any call in progress back: the broadcast wakes it and its next stretch returns. */
  lemma {:induction false} CancellationBringsBack<T>(s: System<T>, tid: Tid)
    requires Inv(s)
    ensures tid !in Run(s, [EndContext(tid), Broadcast(tid), Resume(tid)]).calls
  {
    hide Inv, Try;
    var rest := [Broadcast(tid), Resume(tid)];
    assert [EndContext(tid)] + rest == [EndContext(tid), Broadcast(tid), Resume(tid)];
    RunOne(s, EndContext(tid), rest);
    var a := Try(s, EndContext(tid));
    assert [Broadcast(tid)] + [Resume(tid)] == rest;
    RunOne(a, Broadcast(tid), [Resume(tid)]);
    var b := Try(a, Broadcast(tid));
    assert [Event<T>.Resume(tid)] + [] == [Resume(tid)];
    RunOne(b, Resume(tid), []);
    BroadcastComes(s, tid);
    BroadcastComes(a, tid);
    CancelledReturns(b, tid);
  }

  /** In any reachable state a thread that is not in a call can make any call it likes, and it can be brought back
      from wherever the run has taken it by then. */
  lemma CallsComeAndGo<T>(tracker: Tracker, es: seq<Event<T>>, s: System<T>, tid: Tid, call: Call<T>, cancelled: bool,
                          more: seq<Event<T>>)
    requires tracker.Valid() && tracker.length == 0 && s == After(tracker, es)
    requires tid !in s.calls && (call.IterWait? ==> call.id in s.cursors)
    ensures Inv(s) && s.Enabled(Enter(tid, call, cancelled))
    ensures tid !in Run(s, [Enter(tid, call, cancelled)] + more +
                           [EndContext(tid), Broadcast(tid), Resume(tid)]).calls
  {
    hide Inv, Apply;
    StartInv<T>(tracker);
    RunKeepsInv(Start(tracker), es);
    var start := [Enter(tid, call, cancelled)] + more;
    RunConcat(s, start, [EndContext(tid), Broadcast(tid), Resume(tid)]);
    CancellationBringsBack(Run(s, start), tid);
  }

  /** An open queue can be popped empty: everything accepted is then delivered, and no call is disturbed. */
  lemma {:induction false} PopsEmpty<T>(s: System<T>)
    requires Inv(s) && !s.m.closed
    ensures var t := Run(s, seq(|s.m.live|, _ => Pop));
            && Inv(t) && t.m.live == [] && !t.m.closed && t.calls == s.calls
            && t.accepted == s.accepted == t.delivered
    decreases |s.m.live|
  {
    var es: seq<Event<T>> := seq(|s.m.live|, _ => Pop);
    if es == [] {
      assert s.delivered + s.m.live == s.delivered;
    } else {
      var rest: seq<Event<T>> := seq(|s.m.live| - 1, _ => Pop);
      assert es == [Pop] + rest;
      RunOne(s, Pop, rest);
      PopsEmpty(Apply(s, Pop));
    }
  }

  /** A Drain or Shutdown of an open queue can always complete: once what is linked has been popped it is awake, and
      its next stretch returns nil, which closes the queue if it is a Shutdown. */
  lemma DrainCanComplete<T>(tracker: Tracker, es: seq<Event<T>>, s: System<T>, drainer: Tid)
    requires tracker.Valid() && tracker.length == 0 && s == After(tracker, es)
    requires drainer in s.calls && s.calls[drainer].DrainWait? && !s.m.closed
    ensures Inv(s)
    ensures var t := Run(s, seq(|s.m.live|, _ => Pop) + [Resume(drainer)]);
            && drainer !in t.calls && t.delivered == t.accepted == s.accepted
            && (s.calls[drainer].shutdown ==> t.shutDown && t.m.closed)
  {
    hide Apply;
    RunKeepsInv(Start(tracker), es);
    var pops: seq<Event<T>> := seq(|s.m.live|, _ => Pop);
    RunConcat(s, pops, [Resume(drainer)]);
    PopsEmpty(s);
    var t := Run(s, pops);
    assert [Event<T>.Resume(drainer)] + [] == [Resume(drainer)];
    RunOne(t, Resume(drainer), []);
    DrainReturns(t, drainer);
  }

  lemma {:induction false} DrainReturns<T>(s: System<T>, drainer: Tid)
    requires Inv(s) && drainer in s.calls && s.calls[drainer].DrainWait? && s.m.live == []
    ensures s.Enabled(Resume(drainer))
    ensures var t := Apply(s, Resume(drainer));
            && drainer !in t.calls && t.delivered == s.delivered && t.accepted == s.accepted
            && (s.calls[drainer].shutdown ==> t.shutDown && t.m.closed)
  {
    InvMeans(s, drainer);
  }

  /** At any point of any run the items accepted are the items delivered followed by the linked ones. */
  lemma AcceptedIsDeliveredThenLive<T>(tracker: Tracker, es: seq<Event<T>>, s: System<T>)
    requires tracker.Valid() && tracker.length == 0 && s == After(tracker, es)
    ensures s.accepted == s.delivered + s.m.live
    ensures s.m.tracker.Valid() && s.m.tracker.length == |s.m.live|
  {
    RunKeepsInv(Start(tracker), es);
  }

  /** While a Drain or Shutdown is in progress nothing is accepted, whatever happens. */
  lemma DrainersRefusePushes<T>(tracker: Tracker, es: seq<Event<T>>, s: System<T>, drainer: Tid, e: Event<T>)
    requires tracker.Valid() && tracker.length == 0 && s == After(tracker, es) && s.Enabled(e)
    requires drainer in s.calls && s.calls[drainer].DrainWait?
    ensures Inv(s) && Apply(s, e).accepted == s.accepted
  {
    hide Inv, Apply;
    RunKeepsInv(Start(tracker), es);
    DrainingRefuses(s, drainer, e);
  }

  lemma {:induction false} DrainingRefuses<T>(s: System<T>, drainer: Tid, e: Event<T>)
    requires Inv(s) && s.Enabled(e) && drainer in s.calls && s.calls[drainer].DrainWait?
    ensures Apply(s, e).accepted == s.accepted
  {
    assert drainer in DrainTids(s.calls);
  }

  lemma ClosedStep<T>(s: System<T>, e: Event<T>)
    requires Inv(s) && s.Enabled(e) && s.m.closed
    ensures SameItems(s, Apply(s, e))
  {
    match e {
      case Enter(tid, call, cancelled) =>
        SectionIsGood(s.m, tid, call, true, cancelled, s.CursorOf(call));
        ClosedSettle(s, tid, call, true, cancelled, Section(s.m, tid, call, true, cancelled, s.CursorOf(call)));
      case Resume(tid) =>
        var call := s.calls[tid];
        assert call.DrainWait? ==> tid in DrainTids(s.calls);
        SectionIsGood(s.m, tid, call, false, tid in s.ended, s.CursorOf(call));
        ClosedSettle(s, tid, call, false, tid in s.ended,
                     Section(s.m, tid, call, false, tid in s.ended, s.CursorOf(call)));
      case _ =>
    }
  }

  /** A closed queue, with the same items in it and behind it. */
  ghost predicate SameItems<T>(s: System<T>, t: System<T>) {
    t.m.closed && t.accepted == s.accepted && t.delivered == s.delivered && t.m.live == s.m.live
  }

  lemma ClosedSettle<T>(s: System<T>, tid: Tid, call: Call<T>, entering: bool, ended: bool,
                        r: (Monitor<T>, Outcome<T>))
    requires Fits(s, tid, call, entering, ended, r) && s.m.closed
    ensures SameItems(s, Settle(s, tid, call, r))
  {
    var t := Settle(s, tid, call, r);
    assert Pushed(call, r.1) == [] && Popped(call, r.1) == [];
    assert r.0.live == [] + r.0.live == s.m.live + [] == s.m.live;
  }

  /** A closed queue stays closed: nothing goes in or comes out any more. */
  lemma {:induction false} ClosedForever<T>(s: System<T>, es: seq<Event<T>>)
    requires Inv(s) && s.m.closed
    ensures SameItems(s, Run(s, es))
    decreases |es|
  {
    if es != [] {
      if s.Enabled(es[0]) {
        ClosedStep(s, es[0]);
        StepKeepsInv(s, es[0]);
        ClosedForever(Apply(s, es[0]), es[1..]);
      } else {
        ClosedForever(s, es[1..]);
      }
    }
  }

  /** Once some Shutdown has returned nil, the queue is closed and empty, every item ever accepted has been
      delivered exactly once and in order, and that remains so however the run goes on. */
  lemma ShutdownDeliversEverything<T>(tracker: Tracker, es: seq<Event<T>>, s: System<T>, more: seq<Event<T>>)
    requires tracker.Valid() && tracker.length == 0 && s == After(tracker, es) && s.shutDown
    ensures s.m.closed && s.m.live == [] && s.accepted == s.delivered
    ensures Inv(s) && Run(s, more).accepted == s.accepted == Run(s, more).delivered
  {
    RunKeepsInv(Start(tracker), es);
    ClosedForever(s, more);
  }

  /** WaitPush never fails for lack of room and never spends credit. */
  lemma WaitPushIsFree<T>(tracker: Tracker, es: seq<Event<T>>, s: System<T>, tid: Tid, ended: bool, item: T)
    requires tracker.Valid() && tracker.length == 0 && s == After(tracker, es)
    ensures var (n, o) := WaitPush(s.m, tid, ended, item);
            && !(o.Failed? && o.err.OverLimit?)
            && (o.Done? ==> n.tracker == s.m.tracker.(length := s.m.tracker.length + 1))
  {
    RunKeepsInv(Start(tracker), es);
  }

  /** Any iterator, in any run: indices strictly grow, each item is the one accepted at its index, and an item
      at or before the cursor that is still in the queue has been produced - none was skipped. */
  lemma IteratorsSkipNothing<T>(tracker: Tracker, es: seq<Event<T>>, s: System<T>, id: IterId)
    requires tracker.Valid() && tracker.length == 0 && s == After(tracker, es) && id in s.cursors
    ensures id in s.yielded && Increasing(s.yielded[id])
    ensures forall i :: 0 <= i < |s.yielded[id]| ==>
              s.yielded[id][i].0 < |s.accepted| && s.yielded[id][i].1 == s.accepted[s.yielded[id][i].0]
    ensures forall j: nat :: |s.delivered| <= j <= s.cursors[id] ==> Saw(s.yielded[id], j)
  {
    RunKeepsInv(Start(tracker), es);
  }
}
