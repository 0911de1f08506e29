/** The deque under any number of threads, in the same way as QueueSystem: a state is the monitor, the calls in
    progress and what has been observed; an event is one stretch of code under the lock, or a context ending. */
module DequeSystem {
  import opened Limits
  import opened DequeModel

  /** An iterator: where it started, where it stands, and what it has produced. */
  datatype Iter<T> = Iter(from: Side, place: Place, ys: seq<Cell<T>>)

  datatype Event<T(==)> =
    | Push(item: T, side: Side)
    | ForcePush(item: T, side: Side)
    | Pop(side: Side)
    | Close
    | NewIter(id: IterId, from: Side)
    | TryIter(id: IterId)
    | Enter(tid: Tid, call: Call<T>, cancelled: bool)   // a call takes the lock for the first time
    | Resume(tid: Tid)                                  // a woken call has the lock again
    | EndContext(tid: Tid)                              // a call's context ends: its broadcast is now pending
    | Broadcast(tid: Tid)                               // that broadcast gets the lock
    | Stray(call: Call<T>)                              // a broadcast that outlived a call like this one

  datatype System<T(==)> = System(
    m: Monitor<T>,
    calls: map<Tid, Call<T>>,
    ended: set<Tid>,              // calls whose context has ended
    pending: set<Tid>,            // and whose broadcast has not run yet
    all: seq<Cell<T>>,            // every element ever accepted, in list order
    out: seq<Cell<T>>,            // every element popped or evicted, in the order that happened
    iters: map<IterId, Iter<T>>,
    shutDown: bool)               // some Shutdown has returned nil
  {
    predicate Asleep(tid: Tid) {
      tid in calls && tid in calls[tid].Sleepers(m)
    }

    function PlaceOf(call: Call<T>): Place {
      if call.IterWait? && call.id in iters then iters[call.id].place else Root
    }

    predicate Knows(call: Call<T>) {
      call.IterWait? ==> call.id in iters && iters[call.id].from == call.from
    }

    predicate Enabled(e: Event<T>) {
      match e
      case NewIter(id, _) => id !in iters
      case TryIter(id) => id in iters
      case Enter(tid, call, _) => tid !in calls && Knows(call)
      case Resume(tid) => tid in calls && !Asleep(tid)
      case EndContext(tid) => tid in calls && tid !in ended
      case Broadcast(tid) => tid in pending
      case _ => true
    }
  }

  function Start<T>(tracker: Tracker): System<T> {
    System(Monitor([], 0, 0, tracker, 0, false, {}, {}, {}), map[], {}, {}, [], [], map[], false)
  }

  // ---------------------------------------------------------------- the step function

  /** Books what a stretch did to the elements. */
  function Book<T>(s: System<T>, n: Monitor<T>, mv: Move<T>): System<T> {
    match mv
    case Stay => s.(m := n)
    case PushAt(Front, item) => s.(m := n, all := [Cell(n.lo, item)] + s.all)
    case PushAt(Back, item) => s.(m := n, all := s.all + [Cell(n.hi, item)])
    case PopAt(_, cell) => s.(m := n, out := s.out + [cell])
  }

  /** Writes down what a pull produced. */
  function Log<T>(iters: map<IterId, Iter<T>>, id: IterId, o: Outcome<T>): map<IterId, Iter<T>>
    requires id in iters
  {
    if o.Yielded? then
      iters[id := iters[id].(place := At(o.cell.seqno), ys := iters[id].ys + [o.cell])]
    else iters
  }

  /** The call goes to sleep, or returns and its outcome is written down. */
  function Settle<T>(s: System<T>, tid: Tid, call: Call<T>, r: (Monitor<T>, Outcome<T>)): System<T>
    requires s.Knows(call)
  {
    var (n, o) := r;
    if o.Blocked? then s.(m := n, calls := s.calls[tid := call]) else
    Book(s, n, MoveOf(call, o)).(
      calls := s.calls - {tid}, ended := s.ended - {tid}, pending := s.pending - {tid},
      iters := if call.IterWait? then Log(s.iters, call.id, o) else s.iters,
      shutDown := s.shutDown || (call == DrainWait(true) && o.Done?))
  }

  /** A broadcast on the condition `call` waits on, which settles the given pending ones. */
  function Wake<T>(s: System<T>, call: Call<T>, done: set<Tid>): System<T> {
    var m := s.m;
    s.(m := m.(nfront := if call.WaitsFor(Front) then {} else m.nfront,
               nback := if call.WaitsFor(Back) then {} else m.nback,
               updates := if call.PushWait? || call.DrainWait? then {} else m.updates),
       pending := s.pending - done)
  }

  function DoPush<T>(s: System<T>, item: T, side: Side): System<T> {
    var (n, o) := DoAdd(s.m, item, side);
    Book(s, n, if o.Done? then PushAt(side, item) else Stay)
  }

  function BookPop<T>(s: System<T>, side: Side, r: (Monitor<T>, Outcome<T>)): System<T> {
    Book(s, r.0, if r.1.Item? then PopAt(side, r.1.cell) else Stay)
  }

  function Apply<T>(s: System<T>, e: Event<T>): System<T>
    requires Consistent(s) && s.Enabled(e)
  {
    match e
    case Push(item, side) => DoPush(s, item, side)
    case ForcePush(item, side) => DoPush(BookPop(s, Opposite(side), Evict(s.m, side)), item, side)
    case Pop(side) => BookPop(s, side, DoPop(s.m, side))
    case Close => s.(m := DoClose(s.m))
    case NewIter(id, from) => s.(iters := s.iters[id := Iter(from, Root, [])])
    case TryIter(id) => s.(iters := Log(s.iters, id, Step(s.m, s.iters[id].place, s.iters[id].from)))
    case Enter(tid, call, cancelled) =>
      Settle(s, tid, call, Section(s.m, tid, call, true, cancelled, s.PlaceOf(call)))
    case Resume(tid) =>
      var call := s.calls[tid];
      assert call.DrainWait? ==> tid in DrainTids(s.calls);
      Settle(s, tid, call, Section(s.m, tid, call, false, tid in s.ended, s.PlaceOf(call)))
    case EndContext(tid) => s.(ended := s.ended + {tid}, pending := s.pending + {tid})
    case Broadcast(tid) => Wake(s, s.calls[tid], {tid})
    case Stray(call) => Wake(s, call, {})
  }

  // ---------------------------------------------------------------- the invariant

  function DrainTids<T(==)>(calls: map<Tid, Call<T>>): set<Tid> {
    set t | t in calls && calls[t].DrainWait?
  }

  /** Sleepers are calls in progress on their own condition, and iterators in use exist. */
  ghost predicate Places<T>(s: System<T>) {
    && s.pending <= s.ended <= s.calls.Keys
    && (forall t :: t in s.m.nfront ==> t in s.calls && s.calls[t].WaitsFor(Front))
    && (forall t :: t in s.m.nback ==> t in s.calls && s.calls[t].WaitsFor(Back))
    && (forall t :: t in s.m.updates ==> t in s.calls && (s.calls[t].PushWait? || s.calls[t].DrainWait?))
    && (forall t :: t in s.calls ==> s.Knows(s.calls[t]))
  }

  /** The counts agree with what they count. */
  ghost predicate Consistent<T>(s: System<T>) {
    s.m.Valid() && s.m.drainers == |DrainTids(s.calls)| && Places(s)
  }

  /** Whoever sleeps has nothing to do: what it waits for has not come, and if its context has ended then a
      broadcast is still on its way. */
  ghost predicate NoLostWakeup<T>(s: System<T>) {
    forall t :: s.Asleep(t) ==> !s.calls[t].Ready(s.m, s.PlaceOf(s.calls[t])) && (t in s.ended ==> t in s.pending)
  }

  /** Every accepted element is linked or has left exactly once, never both; list order is number order. */
  ghost predicate Ledger<T>(m: Monitor<T>, all: seq<Cell<T>>, out: seq<Cell<T>>) {
    && Sorted(all) && Within(all, m.lo, m.hi)
    && (forall i, j :: 0 <= i < j < |out| ==> out[i].seqno != out[j].seqno)
    && (forall c :: c in m.live ==> c in all && c !in out)
    && (forall c :: c in out ==> c in all)
    && (forall c :: c in all ==> c in m.live || c in out)
  }

  ghost predicate ShutDownIsFinal<T>(s: System<T>) {
    s.shutDown ==> s.m.closed && s.m.live == []
  }

  /** Numbers only move away from the starting end. */
  ghost predicate Monotone<T>(from: Side, ys: seq<Cell<T>>) {
    forall i, j :: 0 <= i < j < |ys| ==> Beyond(At(ys[i].seqno), from, ys[j].seqno)
  }

  /** Between its first element and its place, an iterator has produced everything that is still linked. */
  ghost predicate Faithful<T>(live: seq<Cell<T>>, all: seq<Cell<T>>, it: Iter<T>) {
    && Monotone(it.from, it.ys)
    && it.place == (if it.ys == [] then Root else At(it.ys[|it.ys| - 1].seqno))
    && (forall i :: 0 <= i < |it.ys| ==> it.ys[i] in all)
    && (forall c :: c in live && Passed(it, c.seqno) ==> c in it.ys)
  }

  ghost predicate Passed<T>(it: Iter<T>, seqno: int) {
    it.ys != [] && !Beyond(it.place, it.from, seqno)
    && (seqno == it.ys[0].seqno || Beyond(At(it.ys[0].seqno), it.from, seqno))
  }

  ghost predicate ItersFaithful<T>(s: System<T>) {
    forall id :: id in s.iters ==> Faithful(s.m.live, s.all, s.iters[id])
  }

  ghost predicate Inv<T>(s: System<T>) {
    Consistent(s) && NoLostWakeup(s) && Ledger(s.m, s.all, s.out) && ShutDownIsFinal(s) && ItersFaithful(s)
  }

  // ---------------------------------------------------------------- elements and iterators

  lemma LedgerPush<T>(m: Monitor<T>, n: Monitor<T>, all: seq<Cell<T>>, out: seq<Cell<T>>, side: Side, item: T)
    requires m.Valid() && Ledger(m, all, out) && Moves(m, n, PushAt(side, item))
    ensures Ledger(n, if side == Front then [Cell(n.lo, item)] + all else all + [Cell(n.hi, item)], out)
  {
  }

  lemma SameNumber<T>(all: seq<Cell<T>>, c: Cell<T>, d: Cell<T>)
    requires Sorted(all) && c in all && d in all && c.seqno == d.seqno
    ensures c == d
  {
  }

  lemma LedgerPop<T>(m: Monitor<T>, n: Monitor<T>, all: seq<Cell<T>>, out: seq<Cell<T>>, side: Side, cell: Cell<T>)
    requires m.Valid() && Ledger(m, all, out) && Moves(m, n, PopAt(side, cell))
    ensures Ledger(n, all, out + [cell])
  {
    assert cell in m.live;
    forall c | c in out
      ensures c.seqno != cell.seqno
    {
      if c.seqno == cell.seqno {
        SameNumber(all, c, cell);
      }
    }
    forall c | c in n.live
      ensures c in m.live && c != cell
    {
      var i :| 0 <= i < |n.live| && n.live[i] == c;
      assert c == m.live[if side == Front then i + 1 else i];
      assert cell == m.live[if side == Front then 0 else |n.live|];
    }
    assert forall c :: c in m.live ==> c in n.live || c == cell;
  }

  lemma FaithfulPush<T>(m: Monitor<T>, n: Monitor<T>, all: seq<Cell<T>>, it: Iter<T>, side: Side, item: T)
    requires Within(all, m.lo, m.hi) && Faithful(m.live, all, it) && Moves(m, n, PushAt(side, item))
    ensures Faithful(n.live, if side == Front then [Cell(n.lo, item)] + all else all + [Cell(n.hi, item)], it)
  {
  }

  lemma FaithfulPull<T>(m: Monitor<T>, all: seq<Cell<T>>, it: Iter<T>)
    requires m.Valid() && (forall c :: c in m.live ==> c in all) && Faithful(m.live, all, it)
    ensures var o := Step(m, it.place, it.from);
            o.Yielded? ==> Faithful(m.live, all, it.(place := At(o.cell.seqno), ys := it.ys + [o.cell]))
  {
  }

  ghost function Numbers<T>(live: seq<Cell<T>>): set<int> {
    set c <- live :: c.seqno
  }

  /** Where in the list the element an iterator moves to is: beyond the iterator's own. */
  lemma StepIndex<T>(m: Monitor<T>, all: seq<Cell<T>>, i: nat, from: Side) returns (j: nat)
    requires m.Valid() && Sorted(all) && (forall c :: c in m.live ==> c in all) && i < |all|
    requires Step(m, At(all[i].seqno), from).Yielded?
    ensures j < |all| && all[j] == Step(m, At(all[i].seqno), from).cell && all[j].seqno in Numbers(m.live)
    ensures if from == Front then i < j else j < i
  {
    var o := Step(m, At(all[i].seqno), from);
    StepIsNearest(m, At(all[i].seqno), from);
    j :| 0 <= j < |all| && all[j] == o.cell;
  }

  /** An element whose number is a linked one is linked itself. */
  lemma LiveAt<T>(m: Monitor<T>, all: seq<Cell<T>>, out: seq<Cell<T>>, k: nat) returns (l: nat)
    requires Ledger(m, all, out) && k < |all| && all[k].seqno in Numbers(m.live)
    ensures l < |m.live| && m.live[l] == all[k]
  {
    var c :| c in m.live && c.seqno == all[k].seqno;
    SameNumber(all, c, all[k]);
    l :| 0 <= l < |m.live| && m.live[l] == c;
  }

  /** Where the walk over tombstones from the i-th element ever linked ends. */
  function WalkFrom<T>(all: seq<Cell<T>>, live: set<int>, i: nat, from: Side): int
    requires i < |all|
  {
    TombstoneWalk(all, live, if from == Front then i + 1 else i - 1, from)
  }

  /** It does not go past the element that a pull yields, */
  lemma WalkStopsInTime<T>(m: Monitor<T>, all: seq<Cell<T>>, out: seq<Cell<T>>, i: nat, from: Side) returns (j: nat)
    requires m.Valid() && Ledger(m, all, out) && i < |all| && Step(m, At(all[i].seqno), from).Yielded?
    ensures j < |all| && all[j] == Step(m, At(all[i].seqno), from).cell
    ensures var k := WalkFrom(all, Numbers(m.live), i, from); if from == Front then i < k <= j else j <= k < i
  {
    hide Step, Numbers;
    j := StepIndex(m, all, i, from);
  }

  /** and it does not stop before it. */
  lemma WalkStopsBeyond<T>(m: Monitor<T>, all: seq<Cell<T>>, out: seq<Cell<T>>, i: nat, from: Side)
    requires m.Valid() && Ledger(m, all, out) && i < |all|
    requires 0 <= WalkFrom(all, Numbers(m.live), i, from) < |all|
    ensures var k := WalkFrom(all, Numbers(m.live), i, from);
            var o := Step(m, At(all[i].seqno), from);
            && all[k].seqno in Numbers(m.live)
            && o.Yielded? && (o.cell == all[k] || Beyond(At(o.cell.seqno), from, all[k].seqno))
  {
    var k := WalkFrom(all, Numbers(m.live), i, from);
    var l := LiveAt(m, all, out, k);
    StepIsNearest(m, At(all[i].seqno), from);
    assert Beyond(At(all[i].seqno), from, m.live[l].seqno);
  }

  /** A pull lands where the walk over tombstones would: an iterator whose element has been removed goes on as if
      the element were still in the ring. */
  lemma PullWalksTombstones<T>(m: Monitor<T>, all: seq<Cell<T>>, out: seq<Cell<T>>, i: nat, from: Side)
    requires m.Valid() && Ledger(m, all, out) && i < |all|
    ensures var k := WalkFrom(all, Numbers(m.live), i, from);
            Step(m, At(all[i].seqno), from) == if 0 <= k < |all| then Yielded(all[k]) else Nothing
  {
    hide Step, Numbers, WalkFrom;
    var k := WalkFrom(all, Numbers(m.live), i, from);
    StepShape(m, At(all[i].seqno), from);
    if 0 <= k < |all| {
      WalkStopsBeyond(m, all, out, i, from);
      var j := WalkStopsInTime(m, all, out, i, from);
      assert !Beyond(At(all[j].seqno), from, all[k].seqno);
    } else if Step(m, At(all[i].seqno), from).Yielded? {
      var j := WalkStopsInTime(m, all, out, i, from);
    }
  }

  lemma StepShape<T>(m: Monitor<T>, place: Place, from: Side)
    ensures var o := Step(m, place, from); o == Nothing || o == Yielded(o.cell)
  {
  }

  // ---------------------------------------------------------------- settling a stretch keeps the invariant

  /** A call that can start or go on: not one that sleeps. */
  ghost predicate Runnable<T>(s: System<T>, tid: Tid, call: Call<T>, entering: bool) {
    && tid !in AllAsleep(s.m) && s.Knows(call)
    && (if entering then tid !in s.calls else tid in s.calls && s.calls[tid] == call)
    && (call.DrainWait? && !entering ==> s.m.drainers > 0)
  }

  ghost predicate Fits<T>(s: System<T>, tid: Tid, call: Call<T>, entering: bool, ended: bool,
                          r: (Monitor<T>, Outcome<T>)) {
    && Runnable(s, tid, call, entering) && (!entering ==> (ended <==> tid in s.ended))
    && GoodStretch(s.m, tid, call, entering, ended, s.PlaceOf(call), r.0, r.1)
  }

  lemma DrainTidsAdd<T>(calls: map<Tid, Call<T>>, tid: Tid, call: Call<T>)
    requires tid !in calls || calls[tid] == call
    ensures DrainTids(calls[tid := call]) == DrainTids(calls) + (if call.DrainWait? then {tid} else {})
    ensures DrainTids(calls - {tid}) == DrainTids(calls) - {tid}
  {
  }

  lemma DrainTidsSize<T>(calls: map<Tid, Call<T>>, tid: Tid, call: Call<T>)
    requires tid !in calls || calls[tid] == call
    ensures |DrainTids(calls[tid := call])| == |DrainTids(calls)| + (if tid !in calls then call.Weight() else 0)
    ensures |DrainTids(calls - {tid})| == |DrainTids(calls)| - (if tid in calls then call.Weight() else 0)
  {
    DrainTidsAdd(calls, tid, call);
    assert tid in DrainTids(calls) <==> tid in calls && call.DrainWait?;
  }

  lemma SettleDrainers<T>(s: System<T>, tid: Tid, call: Call<T>, entering: bool, ended: bool,
                          r: (Monitor<T>, Outcome<T>))
    requires s.m.drainers == |DrainTids(s.calls)| && Fits(s, tid, call, entering, ended, r)
    ensures var t := Settle(s, tid, call, r); t.m.Valid() && t.m.drainers == |DrainTids(t.calls)|
  {
    hide DrainTids;
    DrainTidsSize(s.calls, tid, call);
  }

  /** A call that settles leaves every other call as it was, and no iterator disappears. */
  lemma SettleOthers<T>(s: System<T>, tid: Tid, call: Call<T>, entering: bool, ended: bool,
                        r: (Monitor<T>, Outcome<T>), u: Tid)
    requires Fits(s, tid, call, entering, ended, r) && u != tid
    ensures var t := Settle(s, tid, call, r);
            && (u in t.calls <==> u in s.calls) && (u in t.calls ==> t.calls[u] == s.calls[u])
            && (u in t.ended <==> u in s.ended) && (u in t.pending <==> u in s.pending)
            && (u in s.calls && s.Knows(s.calls[u]) ==> t.Knows(s.calls[u]))
  {
  }

  /** What settling means for the thread itself. */
  lemma SettleSelf<T>(s: System<T>, tid: Tid, call: Call<T>, entering: bool, ended: bool,
                      r: (Monitor<T>, Outcome<T>))
    requires s.ended <= s.calls.Keys && Fits(s, tid, call, entering, ended, r)
    ensures var t := Settle(s, tid, call, r);
            && (tid in t.calls <==> r.1.Blocked?) && t.m == r.0
            && (tid in t.calls ==> t.calls[tid] == call && t.Knows(call))
            && tid !in t.ended
            && (tid in t.calls ==> !call.Ready(t.m, t.PlaceOf(call)))
  {
  }

  lemma SettlePlaces<T>(s: System<T>, tid: Tid, call: Call<T>, entering: bool, ended: bool,
                        r: (Monitor<T>, Outcome<T>))
    requires Places(s) && Fits(s, tid, call, entering, ended, r)
    ensures Places(Settle(s, tid, call, r))
  {
    var t := Settle(s, tid, call, r);
    SettleSelf(s, tid, call, entering, ended, r);
    forall u
      ensures u in t.m.nfront ==> u in t.calls && t.calls[u].WaitsFor(Front)
      ensures u in t.m.nback ==> u in t.calls && t.calls[u].WaitsFor(Back)
      ensures u in t.m.updates ==> u in t.calls && (t.calls[u].PushWait? || t.calls[u].DrainWait?)
      ensures u in t.calls ==> t.Knows(t.calls[u])
    {
      if u != tid {
        SettleOthers(s, tid, call, entering, ended, r, u);
      }
    }
  }

  /** A pull moves only its own iterator, and no other thread can be asleep on that one. */
  lemma SettlePlace<T>(s: System<T>, tid: Tid, call: Call<T>, entering: bool, ended: bool,
                       r: (Monitor<T>, Outcome<T>), other: Call<T>)
    requires Fits(s, tid, call, entering, ended, r) && s.Knows(other) && !other.Ready(s.m, s.PlaceOf(other))
    ensures Settle(s, tid, call, r).PlaceOf(other) == s.PlaceOf(other)
  {
  }

  lemma SettleNoLostWakeup<T>(s: System<T>, tid: Tid, call: Call<T>, entering: bool, ended: bool,
                              r: (Monitor<T>, Outcome<T>))
    requires NoLostWakeup(s) && Places(s) && Fits(s, tid, call, entering, ended, r)
    ensures NoLostWakeup(Settle(s, tid, call, r))
  {
    var t := Settle(s, tid, call, r);
    SettleSelf(s, tid, call, entering, ended, r);
    forall u | t.Asleep(u)
      ensures !t.calls[u].Ready(t.m, t.PlaceOf(t.calls[u])) && (u in t.ended ==> u in t.pending)
    {
      if u != tid {
        SettleOthers(s, tid, call, entering, ended, r, u);
        assert s.Asleep(u) by {
          assert LetsSleep(s.m, r.0, {tid});
        }
        SettlePlace(s, tid, call, entering, ended, r, s.calls[u]);
        SleepersStayUnready(s.m, r.0, {tid}, u, s.calls[u], s.PlaceOf(s.calls[u]));
      }
    }
  }

  // ---------------------------------------------------------------- booking a move

  lemma BookElements<T>(s: System<T>, n: Monitor<T>, mv: Move<T>)
    requires s.m.Valid() && Ledger(s.m, s.all, s.out) && ItersFaithful(s) && Moves(s.m, n, mv)
    ensures var t := Book(s, n, mv);
            t.m == n && Ledger(n, t.all, t.out) && ItersFaithful(t) && t.iters == s.iters
  {
    var t := Book(s, n, mv);
    match mv {
      case PushAt(side, item) =>
        LedgerPush(s.m, n, s.all, s.out, side, item);
        forall id | id in s.iters
          ensures Faithful(n.live, t.all, s.iters[id])
        {
          FaithfulPush(s.m, n, s.all, s.iters[id], side, item);
        }
      case PopAt(side, cell) =>
        LedgerPop(s.m, n, s.all, s.out, side, cell);
        assert forall c :: c in n.live ==> c in s.m.live;
      case Stay =>
    }
  }

  lemma LogFaithful<T>(s: System<T>, id: IterId)
    requires s.m.Valid() && Ledger(s.m, s.all, s.out) && ItersFaithful(s) && id in s.iters
    ensures ItersFaithful(s.(iters := Log(s.iters, id, Step(s.m, s.iters[id].place, s.iters[id].from))))
  {
    FaithfulPull(s.m, s.all, s.iters[id]);
  }

  lemma SettleElements<T>(s: System<T>, tid: Tid, call: Call<T>, entering: bool, ended: bool,
                          r: (Monitor<T>, Outcome<T>))
    requires s.m.Valid() && Ledger(s.m, s.all, s.out) && ItersFaithful(s) && ShutDownIsFinal(s)
    requires Fits(s, tid, call, entering, ended, r)
    ensures var t := Settle(s, tid, call, r);
            Ledger(t.m, t.all, t.out) && ItersFaithful(t) && ShutDownIsFinal(t)
  {
    BookElements(s, r.0, MoveOf(call, r.1));
    if call.IterWait? {
      LogFaithful(s, call.id);
    }
  }

  lemma SettleKeepsInv<T>(s: System<T>, tid: Tid, call: Call<T>, entering: bool, ended: bool)
    requires Inv(s) && Runnable(s, tid, call, entering) && (!entering ==> (ended <==> tid in s.ended))
    ensures Inv(Settle(s, tid, call, Section(s.m, tid, call, entering, ended, s.PlaceOf(call))))
  {
    var r := Section(s.m, tid, call, entering, ended, s.PlaceOf(call));
    SectionIsGood(s.m, tid, call, entering, ended, s.PlaceOf(call));
    SettleDrainers(s, tid, call, entering, ended, r);
    SettlePlaces(s, tid, call, entering, ended, r);
    SettleNoLostWakeup(s, tid, call, entering, ended, r);
    SettleElements(s, tid, call, entering, ended, r);
  }

  // ---------------------------------------------------------------- the other events

  /** Threads that sleep in t slept in s, on the same wait and with the same broadcasts to come. */
  lemma FewerSleepers<T>(s: System<T>, t: System<T>)
    requires NoLostWakeup(s)
    requires forall u :: t.Asleep(u) ==>
               && s.Asleep(u) && t.calls[u] == s.calls[u]
               && (u in t.ended && u !in t.pending ==> u in s.ended && u !in s.pending)
               && (t.calls[u].Ready(t.m, t.PlaceOf(t.calls[u])) ==> s.calls[u].Ready(s.m, s.PlaceOf(s.calls[u])))
    ensures NoLostWakeup(t)
  {
  }

  lemma BookKeepsInv<T>(s: System<T>, n: Monitor<T>, mv: Move<T>)
    requires Inv(s) && n.Valid() && LetsSleep(s.m, n, {}) && Moves(s.m, n, mv)
    requires n.drainers == s.m.drainers && (s.m.closed ==> n.closed && mv == Stay)
    ensures Inv(Book(s, n, mv))
  {
    var t := Book(s, n, mv);
    BookElements(s, n, mv);
    BookPlaces(s, n, mv);
    BookSleepers(s, n, mv);
  }

  lemma BookPlaces<T>(s: System<T>, n: Monitor<T>, mv: Move<T>)
    requires Places(s) && LetsSleep(s.m, n, {})
    ensures Places(Book(s, n, mv))
  {
    var t := Book(s, n, mv);
    assert t.m == n && t.calls == s.calls && t.iters == s.iters && t.ended == s.ended && t.pending == s.pending;
    assert forall u :: u in s.calls ==> t.Knows(s.calls[u]) == s.Knows(s.calls[u]);
  }

  lemma BookSleepers<T>(s: System<T>, n: Monitor<T>, mv: Move<T>)
    requires NoLostWakeup(s) && LetsSleep(s.m, n, {})
    ensures NoLostWakeup(Book(s, n, mv))
  {
    var t := Book(s, n, mv);
    assert t.m == n && t.calls == s.calls && t.iters == s.iters && t.ended == s.ended && t.pending == s.pending;
    forall u | t.Asleep(u)
      ensures !t.calls[u].Ready(n, t.PlaceOf(t.calls[u])) && (u in t.ended ==> u in t.pending)
    {
      assert u in s.calls[u].Sleepers(s.m);
      assert s.Asleep(u);
      SleepersStayUnready(s.m, n, {}, u, s.calls[u], s.PlaceOf(s.calls[u]));
    }
  }

  lemma PushKeepsInv<T>(s: System<T>, item: T, side: Side)
    requires Inv(s)
    ensures Inv(DoPush(s, item, side))
  {
    AddStretch(s.m, item, side);
    var (n, o) := DoAdd(s.m, item, side);
    BookKeepsInv(s, n, if o.Done? then PushAt(side, item) else Stay);
  }

  lemma PopKeepsInv<T>(s: System<T>, side: Side)
    requires Inv(s)
    ensures Inv(BookPop(s, side, DoPop(s.m, side)))
  {
    PopStretch(s.m, side);
    var (n, o) := DoPop(s.m, side);
    BookKeepsInv(s, n, if o.Item? then PopAt(side, o.cell) else Stay);
  }

  lemma NewIterKeepsInv<T>(s: System<T>, id: IterId, from: Side)
    requires Inv(s) && id !in s.iters
    ensures Inv(s.(iters := s.iters[id := Iter(from, Root, [])]))
  {
    var t := s.(iters := s.iters[id := Iter(from, Root, [])]);
    forall u | u in t.calls
      ensures t.Knows(t.calls[u]) && t.PlaceOf(t.calls[u]) == s.PlaceOf(s.calls[u])
    {
      assert s.Knows(s.calls[u]);
    }
    FewerSleepers(s, t);
  }

  lemma TryIterKeepsInv<T>(s: System<T>, id: IterId)
    requires Inv(s) && id in s.iters
    ensures Inv(s.(iters := Log(s.iters, id, Step(s.m, s.iters[id].place, s.iters[id].from))))
  {
    var t := s.(iters := Log(s.iters, id, Step(s.m, s.iters[id].place, s.iters[id].from)));
    LogFaithful(s, id);
    forall u | u in t.calls
      ensures t.Knows(t.calls[u])
    {
      assert s.Knows(s.calls[u]);
    }
    FewerSleepers(s, t);
  }

  /** A broadcast may run at any moment. */
  lemma WakeKeepsInv<T>(s: System<T>, call: Call<T>, done: set<Tid>)
    requires Inv(s) && forall u :: u in done ==> u in s.calls && s.calls[u] == call
    ensures Inv(Wake(s, call, done))
  {
    var t := Wake(s, call, done);
    assert Places(t);
    assert NoLostWakeup(t) by {
      FewerSleepers(s, t);
    }
  }

  /** A context may end at any moment. */
  lemma EndContextKeepsInv<T>(s: System<T>, tid: Tid)
    requires Inv(s) && tid in s.calls
    ensures Inv(s.(ended := s.ended + {tid}, pending := s.pending + {tid}))
  {
    FewerSleepers(s, s.(ended := s.ended + {tid}, pending := s.pending + {tid}));
  }

  lemma StepKeepsInv<T>(s: System<T>, e: Event<T>)
    requires Inv(s) && s.Enabled(e)
    ensures Inv(Apply(s, e))
  {
    match e {
      case Push(item, side) => PushKeepsInv(s, item, side);
      case ForcePush(item, side) =>
        var r := Evict(s.m, side);
        if r.1.Item? {
          PopKeepsInv(s, Opposite(side));
        }
        PushKeepsInv(BookPop(s, Opposite(side), r), item, side);
      case Pop(side) => PopKeepsInv(s, side);
      case Close =>
        CloseStretch(s.m);
        BookKeepsInv(s, DoClose(s.m), Stay);
      case NewIter(id, from) => NewIterKeepsInv(s, id, from);
      case TryIter(id) => TryIterKeepsInv(s, id);
      case Enter(tid, call, cancelled) => SettleKeepsInv(s, tid, call, true, cancelled);
      case Resume(tid) =>
        assert s.calls[tid].DrainWait? ==> tid in DrainTids(s.calls);
        SettleKeepsInv(s, tid, s.calls[tid], false, tid in s.ended);
      case EndContext(tid) => EndContextKeepsInv(s, tid);
      case Broadcast(tid) => WakeKeepsInv(s, s.calls[tid], {tid});
      case Stray(call) => WakeKeepsInv(s, call, {});
    }
  }

  // ---------------------------------------------------------------- every run

  /** Any interleaving: events that cannot happen where they stand are passed over. */
  ghost function Run<T>(s: System<T>, es: seq<Event<T>>): System<T>
    requires Inv(s)
    decreases |es|
  {
    if es == [] then s
    else if s.Enabled(es[0]) then StepKeepsInv(s, es[0]); Run(Apply(s, es[0]), es[1..])
    else Run(s, es[1..])
  }

  /** The state of a new deque built on `tracker` after the events `es`. */
  ghost function After<T>(tracker: Tracker, es: seq<Event<T>>): System<T>
    requires tracker.Valid() && tracker.length == 0
  {
    Run(Start(tracker), es)
  }

  /** Every run keeps the invariant. */
  lemma {:induction false} RunKeepsInv<T>(s: System<T>, es: seq<Event<T>>)
    requires Inv(s)
    ensures Inv(Run(s, es))
    decreases |es|
  {
    if es != [] {
      if s.Enabled(es[0]) {
        StepKeepsInv(s, es[0]);
        RunKeepsInv(Apply(s, es[0]), es[1..]);
      } else {
        RunKeepsInv(s, es[1..]);
      }
    }
  }

  /** No wake-up is lost: at any point of any run a sleeping thread has nothing to do yet, or its context has
      ended and the broadcast that will wake it is on its way. */
  lemma NoLostWakeups<T>(tracker: Tracker, es: seq<Event<T>>, s: System<T>, tid: Tid)
    requires tracker.Valid() && tracker.length == 0 && s == After(tracker, es)
    requires s.Asleep(tid)
    ensures !s.calls[tid].Ready(s.m, s.PlaceOf(s.calls[tid]))
    ensures tid in s.ended ==> tid in s.pending
  {
    RunKeepsInv(Start(tracker), es);
  }

  /** An awake call returns if its context has ended, or if what it waits for is there. */
  lemma {:induction false} AwakeReturns<T>(s: System<T>, tid: Tid)
    requires Inv(s) && s.Enabled(Resume(tid))
    ensures tid in Apply(s, Resume(tid)).calls <==>
            !s.calls[tid].Ready(s.m, s.PlaceOf(s.calls[tid])) && tid !in s.ended
  {
    InvMeans(s, tid);
  }

  /** Once what a call waits for is there, or its context has ended and the broadcast has run, the call is awake,
      and its next stretch returns. A call goes back to sleep exactly when neither is so. */
  lemma ReadyCallsReturn<T>(tracker: Tracker, es: seq<Event<T>>, s: System<T>, tid: Tid)
    requires tracker.Valid() && tracker.length == 0 && s == After(tracker, es) && tid in s.calls
    ensures Inv(s)
    ensures var ready := s.calls[tid].Ready(s.m, s.PlaceOf(s.calls[tid]));
            && (ready || (tid in s.ended && tid !in s.pending) ==> s.Enabled(Resume(tid)))
            && (s.Enabled(Resume(tid)) ==>
                  (tid in Apply(s, Resume(tid)).calls <==> !ready && tid !in s.ended))
  {
    RunKeepsInv(Start(tracker), es);
    if s.Enabled(Resume(tid)) {
      AwakeReturns(s, tid);
    }
  }

  function CallOf<T>(s: System<T>, e: Event<T>): Call<T>
    requires (e.Enter? || e.Resume?) && s.Enabled(e)
  {
    if e.Enter? then e.call else s.calls[e.tid]
  }

  predicate HasEnded<T>(s: System<T>, e: Event<T>)
    requires e.Enter? || e.Resume?
  {
    if e.Enter? then e.cancelled else e.tid in s.ended
  }

  /** What is written down when a call with nothing in its way does what it is for: a pop takes the element at its end,
      a push with room adds one at its own, an iterator with an element ahead yields it, a Shutdown of an empty deque
      returns. With the deque closed or the context ended nothing goes in and nothing comes out. */
  ghost predicate DoesItsWork<T>(s: System<T>, call: Call<T>, ended: bool, t: System<T>) {
    var (m, open) := (s.m, !s.m.closed && !ended);
    var pushes := call.PushWait? && m.drainers == 0 && open && m.tracker.length < m.tracker.Cap();
    && |t.all| == |s.all| + (if pushes then 1 else 0)
    && (pushes ==> t.m.live != [] && First(t.m.live, call.side).item == call.item)
    && t.out == s.out + (if call.PopWait? && open && m.live != [] then [First(m.live, call.side)] else [])
    && (call == DrainWait(true) && open && m.live == [] ==> t.shutDown)
    && (call.IterWait? && call.id in s.iters && (m.closed || !ended) ==>
          var next := Step(m, s.PlaceOf(call), call.from);
          next.Yielded? ==> call.id in t.iters && t.iters[call.id].ys == s.iters[call.id].ys + [next.cell])
  }

  lemma {:induction false} SettleDoes<T>(s: System<T>, tid: Tid, call: Call<T>, entering: bool, ended: bool,
                                         r: (Monitor<T>, Outcome<T>))
    requires s.Knows(call) && Answers(s.m, call, entering, ended, s.PlaceOf(call), r.0, r.1)
    requires Moves(s.m, r.0, MoveOf(call, r.1))
    ensures DoesItsWork(s, call, ended, Settle(s, tid, call, r))
  {
  }

  lemma {:induction false} CallDoesItsWork<T>(s: System<T>, e: Event<T>)
    requires Inv(s) && (e.Enter? || e.Resume?) && s.Enabled(e)
    ensures DoesItsWork(s, CallOf(s, e), HasEnded(s, e), Apply(s, e))
  {
    InvMeans(s, e.tid);
    hide Inv, Consistent, DrainTids, Section, Settle, DoesItsWork, Answers, Moves;
    var (call, ended) := (CallOf(s, e), HasEnded(s, e));
    SectionAnswers(s.m, e.tid, call, e.Enter?, ended, s.PlaceOf(call));
    SettleDoes(s, e.tid, call, e.Enter?, ended, Section(s.m, e.tid, call, e.Enter?, ended, s.PlaceOf(call)));
  }

  /** In any reachable state a call that goes on does its work, if nothing stands in its way. */
  lemma CallsDoTheirWork<T>(tracker: Tracker, es: seq<Event<T>>, s: System<T>, e: Event<T>)
    requires tracker.Valid() && tracker.length == 0 && s == After(tracker, es)
    requires (e.Enter? || e.Resume?) && s.Enabled(e)
    ensures Inv(s) && DoesItsWork(s, CallOf(s, e), HasEnded(s, e), Apply(s, e))
  {
    StartInv<T>(tracker);
    hide Inv, Apply, DoesItsWork;
    RunKeepsInv(Start(tracker), es);
    CallDoesItsWork(s, e);
  }

  lemma {:induction false} StartInv<T>(tracker: Tracker)
    requires tracker.Valid() && tracker.length == 0
    ensures Inv(Start<T>(tracker))
    ensures var m := Start<T>(tracker).m;
            m.live == [] && m.tracker == tracker && m.drainers == 0 && !m.closed
  {
  }

  lemma {:induction false} InvMeans<T>(s: System<T>, tid: Tid)
    requires Inv(s)
    ensures Consistent(s) && s.m.Valid()
    ensures tid in s.calls && s.calls[tid].DrainWait? ==> s.m.drainers > 0
    ensures forall t :: t in s.calls ==> s.Knows(s.calls[t])
  {
    assert tid in s.calls && s.calls[tid].DrainWait? ==> tid in DrainTids(s.calls);
  }

  lemma {:induction false} PushDoes<T>(s: System<T>, item: T, side: Side)
    requires s.m.Valid()
    ensures |DoPush(s, item, side).all| == |s.all| + if DoAdd(s.m, item, side).1.Done? then 1 else 0
  {
    PushAnswers(s.m, item, side);
  }

  lemma {:induction false} PopDoes<T>(s: System<T>, side: Side)
    requires s.m.Valid()
    ensures var t := BookPop(s, side, DoPop(s.m, side));
            t.all == s.all && t.out == s.out + if !s.m.closed && s.m.live != [] then [First(s.m.live, side)] else []
  {
    PopAnswers(s.m, side);
  }

  lemma {:induction false} ForcePushDoes<T>(s: System<T>, item: T, side: Side)
    requires s.m.Valid() && s.m.drainers == 0 && !s.m.closed
    ensures var t := BookPop(s, Opposite(side), Evict(s.m, side));
            t.all == s.all && t.m == Evict(s.m, side).0 && DoPush(t, item, side).all != s.all
  {
    hide DoAdd;
    var t := BookPop(s, Opposite(side), Evict(s.m, side));
    ForcePushAlwaysSucceeds(s.m, item, side);
    EvictMakesRoom(s.m, side);
    PushDoes(t, item, side);
  }

  /** And so do the calls that never wait. A forced push on an open deque is always accepted. */
  lemma DirectCallsDoTheirWork<T>(tracker: Tracker, es: seq<Event<T>>, s: System<T>, item: T, side: Side)
    requires tracker.Valid() && tracker.length == 0 && s == After(tracker, es)
    ensures Inv(s) && s.Enabled(Push(item, side)) && s.Enabled(Pop(side)) && s.Enabled(ForcePush(item, side))
    ensures |Apply(s, Push(item, side)).all| ==
            |s.all| + if s.m.drainers == 0 && !s.m.closed && s.m.tracker.Add().Added? then 1 else 0
    ensures Apply(s, Pop(side)).out == s.out + if !s.m.closed && s.m.live != [] then [First(s.m.live, side)] else []
    ensures s.m.drainers == 0 && !s.m.closed ==> Apply(s, ForcePush(item, side)).all != s.all
  {
    StartInv<T>(tracker);
    hide Inv, Consistent, DoAdd, DoPop, Evict, Book, BookPop, DoPush;
    RunKeepsInv(Start(tracker), es);
    InvMeans(s, 0);
    PushAnswers(s.m, item, side);
    PushDoes(s, item, side);
    PopDoes(s, side);
    if s.m.drainers == 0 && !s.m.closed {
      ForcePushDoes(s, item, side);
    }
  }

  // ---------------------------------------------------------------- what can always still happen

  /** A run can be cut anywhere. */
  lemma {:induction false} RunConcat<T>(s: System<T>, es: seq<Event<T>>, fs: seq<Event<T>>)
    requires Inv(s)
    ensures Inv(Run(s, es)) && Run(s, es + fs) == Run(Run(s, es), fs)
    decreases |es|
  {
    InvMeans(s, 0);
    hide Inv, Consistent, Apply;
    if es == [] {
      assert es + fs == fs;
    } else {
      assert (es + fs)[1..] == es[1..] + fs;
      if s.Enabled(es[0]) {
        StepKeepsInv(s, es[0]);
        RunConcat(Apply(s, es[0]), es[1..], fs);
      } else {
        RunConcat(s, es[1..], fs);
      }
    }
  }

  /** The state behind an event, if it can happen. */
  ghost function Try<T>(s: System<T>, e: Event<T>): System<T>
    requires Inv(s)
  {
    if s.Enabled(e) then Apply(s, e) else s
  }

  /** The event happens, or nothing does. */
  lemma {:induction false} RunOne<T>(s: System<T>, e: Event<T>, rest: seq<Event<T>>)
    requires Inv(s)
    ensures Inv(Try(s, e)) && Run(s, [e] + rest) == Run(Try(s, e), rest)
  {
    hide Inv, Apply;
    InvMeans(s, 0);
    assert ([e] + rest)[1..] == rest;
    if s.Enabled(e) {
      StepKeepsInv(s, e);
    }
  }

  lemma {:induction false} BroadcastComes<T>(s: System<T>, tid: Tid)
    requires Inv(s)
    ensures tid in Try(s, EndContext(tid)).calls ==> tid in Try(s, EndContext(tid)).ended
    ensures Try(s, Broadcast(tid)).ended == s.ended && tid !in Try(s, Broadcast(tid)).pending
    ensures Try(s, Broadcast(tid)).calls == s.calls
  {
    hide DrainTids;
  }

  lemma {:induction false} CancelledReturns<T>(s: System<T>, tid: Tid)
    requires Inv(s) && (tid in s.calls ==> tid in s.ended && tid !in s.pending)
    ensures tid !in Try(s, Resume(tid)).calls
  {
    if tid in s.calls {
      assert s.Enabled(Resume(tid));
      AwakeReturns(s, tid);
    }
  }

  /** Ending its context brings any call in progress back: the broadcast wakes it and its next stretch returns. */
  lemma {:induction false} CancellationBringsBack<T>(s: System<T>, tid: Tid)
    requires Inv(s)
    ensures tid !in Run(s, [EndContext(tid), Broadcast(tid), Resume(tid)]).calls
  {
    hide Inv, Try;
    var rest := [Broadcast(tid), Resume(tid)];
    assert [EndContext(tid)] + rest == [EndContext(tid), Broadcast(tid), Resume(tid)];
    RunOne(s, EndContext(tid), rest);
    var a := Try(s, EndContext(tid));
    assert [Broadcast(tid)] + [Resume(tid)] == rest;
    RunOne(a, Broadcast(tid), [Resume(tid)]);
    var b := Try(a, Broadcast(tid));
    assert [Event<T>.Resume(tid)] + [] == [Resume(tid)];
    RunOne(b, Resume(tid), []);
    BroadcastComes(s, tid);
    BroadcastComes(a, tid);
    CancelledReturns(b, tid);
  }

  /** In any reachable state a thread that is not in a call can make any call it likes, and it can be brought back
      from wherever the run has taken it by then. */
  lemma CallsComeAndGo<T>(tracker: Tracker, es: seq<Event<T>>, s: System<T>, tid: Tid, call: Call<T>, cancelled: bool,
                          more: seq<Event<T>>)
    requires tracker.Valid() && tracker.length == 0 && s == After(tracker, es)
    requires tid !in s.calls && s.Knows(call)
    ensures Inv(s) && s.Enabled(Enter(tid, call, cancelled))
    ensures tid !in Run(s, [Enter(tid, call, cancelled)] + more +
                           [EndContext(tid), Broadcast(tid), Resume(tid)]).calls
  {
    hide Inv, Apply;
    StartInv<T>(tracker);
    RunKeepsInv(Start(tracker), es);
    var start := [Enter(tid, call, cancelled)] + more;
    RunConcat(s, start, [EndContext(tid), Broadcast(tid), Resume(tid)]);
    CancellationBringsBack(Run(s, start), tid);
  }

  /** An open deque can be popped empty from either end: everything accepted has then left, and no call is disturbed. */
  lemma {:induction false} PopsEmpty<T>(s: System<T>, side: Side)
    requires Inv(s) && !s.m.closed
    ensures var t := Run(s, seq(|s.m.live|, _ => Pop(side)));
            && Inv(t) && t.m.live == [] && !t.m.closed && t.calls == s.calls
            && t.all == s.all && |t.out| == |s.out| + |s.m.live|
    decreases |s.m.live|
  {
    var es: seq<Event<T>> := seq(|s.m.live|, _ => Pop(side));
    if es == [] {
    } else {
      var rest: seq<Event<T>> := seq(|s.m.live| - 1, _ => Pop(side));
      assert es == [Pop(side)] + rest;
      RunOne(s, Pop(side), rest);
      PopsEmpty(Apply(s, Pop(side)), side);
    }
  }

  /** A Drain or Shutdown of an open deque can always complete: once what is linked has been popped it is awake, and
      its next stretch returns nil, which closes the deque if it is a Shutdown. */
  lemma DrainCanComplete<T>(tracker: Tracker, es: seq<Event<T>>, s: System<T>, drainer: Tid, side: Side)
    requires tracker.Valid() && tracker.length == 0 && s == After(tracker, es)
    requires drainer in s.calls && s.calls[drainer].DrainWait? && !s.m.closed
    ensures Inv(s)
    ensures var t := Run(s, seq(|s.m.live|, _ => Pop(side)) + [Resume(drainer)]);
            && drainer !in t.calls && t.all == s.all && (forall c :: c in t.all ==> c in t.out)
            && (s.calls[drainer].shutdown ==> t.shutDown && t.m.closed)
  {
    hide Apply;
    RunKeepsInv(Start(tracker), es);
    var pops: seq<Event<T>> := seq(|s.m.live|, _ => Pop(side));
    RunConcat(s, pops, [Resume(drainer)]);
    PopsEmpty(s, side);
    var t := Run(s, pops);
    assert [Event<T>.Resume(drainer)] + [] == [Resume(drainer)];
    RunOne(t, Resume(drainer), []);
    DrainReturns(t, drainer);
  }

  lemma {:induction false} DrainReturns<T>(s: System<T>, drainer: Tid)
    requires Inv(s) && drainer in s.calls && s.calls[drainer].DrainWait? && s.m.live == []
    ensures s.Enabled(Resume(drainer))
    ensures var t := Apply(s, Resume(drainer));
            && drainer !in t.calls && t.out == s.out && t.all == s.all
            && (s.calls[drainer].shutdown ==> t.shutDown && t.m.closed)
  {
    InvMeans(s, drainer);
  }

  /** At any point of any run each accepted element is linked or has left, exactly once and never both, and the
      linked ones are in number order between `lo` and `hi`. */
  lemma LinkedOrGoneOnce<T>(tracker: Tracker, es: seq<Event<T>>, s: System<T>)
    requires tracker.Valid() && tracker.length == 0 && s == After(tracker, es)
    ensures forall c :: c in s.all <==> c in s.m.live || c in s.out
    ensures forall c :: !(c in s.m.live && c in s.out)
    ensures forall i, j :: 0 <= i < j < |s.out| ==> s.out[i] != s.out[j]
    ensures Sorted(s.m.live) && Within(s.m.live, s.m.lo, s.m.hi) && s.m.tracker.length == |s.m.live|
  {
    RunKeepsInv(Start(tracker), es);
  }

  lemma SettleClosed<T>(s: System<T>, tid: Tid, call: Call<T>, entering: bool, ended: bool,
                        r: (Monitor<T>, Outcome<T>))
    requires Fits(s, tid, call, entering, ended, r)
    ensures var t := Settle(s, tid, call, r);
            && (s.m.closed ==> SameElements(s, t))
            && (s.m.drainers > 0 ==> t.all == s.all)
  {
  }

  /** A closed deque, with the same elements in it and behind it. */
  ghost predicate SameElements<T>(s: System<T>, t: System<T>) {
    t.m.closed && t.all == s.all && t.out == s.out && t.m.live == s.m.live
  }

  lemma ClosedOrDrainingStep<T>(s: System<T>, e: Event<T>)
    requires Inv(s) && s.Enabled(e)
    ensures s.m.closed ==> SameElements(s, Apply(s, e))
    ensures s.m.drainers > 0 ==> Apply(s, e).all == s.all
  {
    match e {
      case Enter(tid, call, cancelled) =>
        SectionIsGood(s.m, tid, call, true, cancelled, s.PlaceOf(call));
        SettleClosed(s, tid, call, true, cancelled, Section(s.m, tid, call, true, cancelled, s.PlaceOf(call)));
      case Resume(tid) =>
        var call := s.calls[tid];
        assert call.DrainWait? ==> tid in DrainTids(s.calls);
        SectionIsGood(s.m, tid, call, false, tid in s.ended, s.PlaceOf(call));
        SettleClosed(s, tid, call, false, tid in s.ended,
                     Section(s.m, tid, call, false, tid in s.ended, s.PlaceOf(call)));
      case _ =>
    }
  }

  /** While a Drain or Shutdown is in progress nothing is accepted, whatever happens. */
  lemma DrainersRefusePushes<T>(tracker: Tracker, es: seq<Event<T>>, s: System<T>, drainer: Tid, e: Event<T>)
    requires tracker.Valid() && tracker.length == 0 && s == After(tracker, es) && s.Enabled(e)
    requires drainer in s.calls && s.calls[drainer].DrainWait?
    ensures Inv(s) && Apply(s, e).all == s.all
  {
    RunKeepsInv(Start(tracker), es);
    assert drainer in DrainTids(s.calls);
    ClosedOrDrainingStep(s, e);
  }

  /** A closed deque stays closed: nothing goes in or comes out any more. */
  lemma {:induction false} ClosedForever<T>(s: System<T>, es: seq<Event<T>>)
    requires Inv(s) && s.m.closed
    ensures SameElements(s, Run(s, es))
    decreases |es|
  {
    if es != [] {
      if s.Enabled(es[0]) {
        ClosedOrDrainingStep(s, es[0]);
        StepKeepsInv(s, es[0]);
        ClosedForever(Apply(s, es[0]), es[1..]);
      } else {
        ClosedForever(s, es[1..]);
      }
    }
  }

  /** Once some Shutdown has returned nil, the deque is closed and empty, every element ever accepted has left
      exactly once, and that remains so however the run goes on. */
  lemma ShutdownDeliversEverything<T>(tracker: Tracker, es: seq<Event<T>>, s: System<T>, more: seq<Event<T>>)
    requires tracker.Valid() && tracker.length == 0 && s == After(tracker, es) && s.shutDown
    ensures s.m.closed && s.m.live == [] && (forall c :: c in s.all <==> c in s.out)
    ensures Inv(s) && Run(s, more).all == s.all && Run(s, more).out == s.out
  {
    RunKeepsInv(Start(tracker), es);
    ClosedForever(s, more);
  }

  /** Any iterator, in any run: numbers only move away from its starting end, so no element comes twice; each
      element is an accepted one; and of what it has passed nothing that is still linked was left out. */
  lemma IteratorsSkipNothing<T>(tracker: Tracker, es: seq<Event<T>>, s: System<T>, id: IterId)
    requires tracker.Valid() && tracker.length == 0 && s == After(tracker, es) && id in s.iters
    ensures var it := s.iters[id];
            && Monotone(it.from, it.ys)
            && (forall c :: c in it.ys ==> c in s.all)
            && (forall c :: c in s.m.live && Passed(it, c.seqno) ==> c in it.ys)
  {
    RunKeepsInv(Start(tracker), es);
  }
}
