/** The queue as its mutex shows it: one value per moment when no thread holds the lock, and one function per
    stretch of code that runs with the lock held. A stretch ends when the call returns or goes to sleep. */
module QueueModel {
  import opened Limits
  import opened Wrappers

  type Tid = nat

  datatype Error = Closed | Draining | OverLimit(why: LimitError) | ContextEnded

  datatype Outcome<+T> =
    | Blocked                           // asleep on a condition variable
    | Done                              // returned a nil error
    | Failed(err: Error)                // returned an error
    | Item(item: T)                     // returned a removed item
    | Nothing                           // returned false
    | Yielded(index: nat, item: T)      // an iterator moved to the index-th accepted item

  /** `live` are the linked items, oldest first, and `base` counts the items removed before them, so live[i] is
      the (base + i)-th item ever accepted. `nempty` and `nupdates` are the threads asleep on each condition. */
  datatype Monitor<T> = Monitor(
    live: seq<T>, base: nat, tracker: Tracker, drainers: nat, closed: bool, nempty: set<Tid>, nupdates: set<Tid>)
  {
    predicate Valid() {
      tracker.Valid() && tracker.length == |live|
    }

    function Accepted(): nat {
      base + |live|
    }

    /** The index an iterator moves to from the item with index `cursor` (-1 before the first). */
    function NextIndex(cursor: int): nat {
      if cursor + 1 < base then base else if cursor < 0 then 0 else cursor + 1
    }

    /** The index-th accepted item is still in the queue. */
    predicate Links(index: nat) {
      base <= index < Accepted()
    }

    predicate HasNext(cursor: int) {
      NextIndex(cursor) < Accepted()
    }
  }

  function DoAdd<T>(m: Monitor<T>, item: T): (Monitor<T>, Outcome<T>) {
    if m.drainers > 0 then (m, Failed(Draining))
    else if m.closed then (m, Failed(Closed))
    else
      var r := m.tracker.Add();
      if r.Refused? then (m, Failed(OverLimit(r.why)))
      else (m.(live := m.live + [item], tracker := r.next, nempty := {}, nupdates := {}), Done)
  }

  function PopFront<T>(m: Monitor<T>): Monitor<T>
    requires m.Valid() && m.live != []
  {
    m.(live := m.live[1..], base := m.base + 1, tracker := m.tracker.Remove(), nupdates := {},
       nempty := if |m.live| == 1 then {} else m.nempty)
  }

  /** Pop's own Signal calls never find a sleeper: removing the item has just woken that condition. */
  function TryPop<T>(m: Monitor<T>): (Monitor<T>, Outcome<T>)
    requires m.Valid()
  {
    if m.closed || m.live == [] then (m, Nothing) else (PopFront(m), Item(m.live[0]))
  }

  function DoClose<T>(m: Monitor<T>): Monitor<T> {
    m.(closed := true, nempty := {}, nupdates := {})
  }

  function WaitPush<T>(m: Monitor<T>, tid: Tid, ended: bool, item: T): (Monitor<T>, Outcome<T>) {
    if m.drainers > 0 then (m, Failed(Draining))
    else if m.closed then (m, Failed(Closed))
    else if ended then (m, Failed(ContextEnded))
    else if m.tracker.Cap() > m.tracker.length then DoAdd(m, item)
    else (m.(nupdates := m.nupdates + {tid}), Blocked)
  }

  function WaitPop<T>(m: Monitor<T>, tid: Tid, ended: bool): (Monitor<T>, Outcome<T>)
    requires m.Valid()
  {
    if m.closed then (m, Failed(Closed))
    else if ended then (m, Failed(ContextEnded))
    else if m.live != [] then (PopFront(m), Item(m.live[0]))
    else (m.(nempty := m.nempty + {tid}), Blocked)
  }

  /** The wait loop of Drain and Shutdown, for a call already counted in `drainers`. */
  function DrainLoop<T>(m: Monitor<T>, tid: Tid, ended: bool, shutdown: bool): (Monitor<T>, Outcome<T>)
    requires m.drainers > 0
  {
    var left := m.(drainers := m.drainers - 1);
    if |m.live| > 0 then
      if m.closed then (left, Failed(Closed))
      else if ended then (left, Failed(ContextEnded))
      else (m.(nempty := m.nempty + {tid}), Blocked)
    else if shutdown then (DoClose(left), Done)
    else (left, Done)
  }

  function DrainEnter<T>(m: Monitor<T>, tid: Tid, ended: bool, shutdown: bool): (Monitor<T>, Outcome<T>) {
    if m.closed then (m, Failed(Closed))
    else if ended then (m, Failed(ContextEnded))
    else DrainLoop(m.(drainers := m.drainers + 1, nupdates := {}), tid, ended, shutdown)
  }

  function Step<T>(m: Monitor<T>, cursor: int): Outcome<T> {
    if m.HasNext(cursor) then Yielded(m.NextIndex(cursor), m.live[m.NextIndex(cursor) - m.base]) else Nothing
  }

  /** One pull of the waiting iterator. */
  function WaitNext<T>(m: Monitor<T>, tid: Tid, ended: bool, cursor: int): (Monitor<T>, Outcome<T>) {
    if m.closed then (m, Step(m, cursor))
    else if ended then (m, Nothing)
    else if m.HasNext(cursor) then (m, Step(m, cursor))
    else (m.(nupdates := m.nupdates + {tid}), Blocked)
  }

  /** One pull of the iterator that never waits. */
  function TryNext<T>(m: Monitor<T>, cursor: int): Outcome<T> {
    if m.closed then Nothing else Step(m, cursor)
  }

  /** A step goes to the oldest item that is still linked beyond the cursor, whether or not the cursor's own item is,
      and yields nothing exactly when there is none. The iterator that never waits does the same on an open queue. */
  lemma StepIsNext<T>(m: Monitor<T>, cursor: int)
    requires m.Valid() && cursor >= -1
    ensures var o := Step(m, cursor);
            && (o.Yielded? <==> exists i: nat :: cursor < i && m.Links(i))
            && (o.Yielded? ==> cursor < o.index && m.Links(o.index) && o.item == m.live[o.index - m.base])
            && (o.Yielded? ==> forall i: nat :: cursor < i && m.Links(i) ==> o.index <= i)
            && (o.Yielded? || o == Nothing)
    ensures TryNext(m, cursor) == if m.closed then Nothing else Step(m, cursor)
  {
    assert m.HasNext(cursor) ==> m.Links(m.NextIndex(cursor));
  }

  // ---------------------------------------------------------------- blocking calls

  type IterId = nat

  /** A blocking call in progress. Shutdown is Drain with a close at the end. */
  datatype Call<T> = PushWait(item: T) | PopWait | DrainWait(shutdown: bool) | IterWait(id: IterId)
  {
    /** Which condition the call sleeps on. */
    predicate OnUpdates() {
      PushWait? || IterWait?
    }

    /** What the call is waiting for; `cursor` is where its iterator stands, if it is one. */
    predicate Ready(m: Monitor<T>, cursor: int) {
      m.closed ||
      match this
      case PushWait(_) => m.drainers > 0 || m.tracker.length < m.tracker.Cap()
      case PopWait => m.live != []
      case DrainWait(_) => m.live == []
      case IterWait(_) => m.HasNext(cursor)
    }

    predicate SleepsIn(m: Monitor<T>, tid: Tid) {
      tid in (if OnUpdates() then m.nupdates else m.nempty)
    }

    /** How many drainers the call stands for between stretches. */
    function Weight(): nat {
      if DrainWait? then 1 else 0
    }
  }

  /** One stretch of the call: its first when `entering`, otherwise the one after a wake-up. */
  function Section<T>(m: Monitor<T>, tid: Tid, call: Call<T>, entering: bool, ended: bool, cursor: int)
    : (Monitor<T>, Outcome<T>)
    requires m.Valid() && (call.DrainWait? && !entering ==> m.drainers > 0)
  {
    match call
    case PushWait(item) => WaitPush(m, tid, ended, item)
    case PopWait => WaitPop(m, tid, ended)
    case DrainWait(sh) => if entering then DrainEnter(m, tid, ended, sh) else DrainLoop(m, tid, ended, sh)
    case IterWait(_) => WaitNext(m, tid, ended, cursor)
  }

  function Pushed<T>(call: Call<T>, o: Outcome<T>): seq<T> {
    if call.PushWait? && o.Done? then [call.item] else []
  }

  function Popped<T>(call: Call<T>, o: Outcome<T>): seq<T> {
    if call.PopWait? && o.Item? then [o.item] else []
  }

  // ---------------------------------------------------------------- what one stretch does to the others

  /** Threads other than `self` that are asleep after m became n were asleep before, and nothing they wait for
      came about in between. */
  ghost predicate LetsSleep<T>(m: Monitor<T>, n: Monitor<T>, self: set<Tid>) {
    && (forall u :: u in n.nempty && u !in self ==>
          u in m.nempty && (n.closed ==> m.closed) && (n.live == [] <==> m.live == []))
    && (forall u :: u in n.nupdates && u !in self ==>
          && u in m.nupdates && (n.closed ==> m.closed) && (n.drainers > 0 ==> m.drainers > 0)
          && n.live == m.live && n.base == m.base && n.tracker == m.tracker)
  }

  /** What became of the items. */
  ghost predicate Moves<T>(m: Monitor<T>, n: Monitor<T>, added: seq<T>, removed: seq<T>) {
    removed + n.live == m.live + added && n.base == m.base + |removed|
  }

  /** A stretch of `call` either goes to sleep, changing nothing but its own place and the drain count, with
      nothing to wait for having come; or it returns. */
  ghost predicate GoodStretch<T>(m: Monitor<T>, tid: Tid, call: Call<T>, entering: bool, ended: bool, cursor: int,
                                 n: Monitor<T>, o: Outcome<T>) {
    var before := if entering then 0 else call.Weight();
    && n.Valid() && n.drainers == m.drainers - before + (if o.Blocked? then call.Weight() else 0)
    && Moves(m, n, Pushed(call, o), Popped(call, o))
    && (n.closed <==> m.closed || (call == DrainWait(true) && o.Done?))
    && (Pushed(call, o) != [] ==> !m.closed && m.drainers == 0)
    && (Popped(call, o) != [] ==> !m.closed)
    && (call.DrainWait? && o.Done? ==> n.live == [])
    && (call.IterWait? && o.Yielded? ==> o == Step(m, cursor))
    && (o.Blocked? ==> !ended && !call.Ready(n, cursor) && call.SleepsIn(n, tid))
    && (tid in n.nempty || tid in n.nupdates ==> o.Blocked?)
    && (tid in n.nempty ==> !call.OnUpdates()) && (tid in n.nupdates ==> call.OnUpdates())
    && LetsSleep(m, n, {tid})
  }

  /** What LetsSleep is for. */
  lemma SleepersStayUnready<T>(m: Monitor<T>, n: Monitor<T>, self: set<Tid>, other: Tid, call: Call<T>, cursor: int)
    requires LetsSleep(m, n, self) && other !in self && call.SleepsIn(n, other)
    requires m.tracker.length == |m.live| && !call.Ready(m, cursor)
    ensures call.SleepsIn(m, other) && !call.Ready(n, cursor)
  {
  }

  lemma DrainIsGood<T>(m: Monitor<T>, tid: Tid, sh: bool, entering: bool, ended: bool)
    requires m.Valid() && tid !in m.nempty && tid !in m.nupdates && (!entering ==> m.drainers > 0)
    ensures var r := Section(m, tid, DrainWait(sh), entering, ended, -1);
            GoodStretch(m, tid, DrainWait(sh), entering, ended, -1, r.0, r.1)
  {
  }

  lemma PushIsGood<T>(m: Monitor<T>, tid: Tid, call: Call<T>, entering: bool, ended: bool)
    requires m.Valid() && tid !in m.nempty && tid !in m.nupdates && call.PushWait?
    ensures var r := WaitPush(m, tid, ended, call.item);
            GoodStretch(m, tid, call, entering, ended, -1, r.0, r.1)
  {
  }

  lemma PopIsGood<T>(m: Monitor<T>, tid: Tid, call: Call<T>, entering: bool, ended: bool)
    requires m.Valid() && tid !in m.nempty && tid !in m.nupdates && call.PopWait?
    ensures var r := WaitPop(m, tid, ended);
            GoodStretch(m, tid, call, entering, ended, -1, r.0, r.1)
  {
  }

  lemma SectionIsGood<T>(m: Monitor<T>, tid: Tid, call: Call<T>, entering: bool, ended: bool, cursor: int)
    requires m.Valid() && tid !in m.nempty && tid !in m.nupdates
    requires call.DrainWait? && !entering ==> m.drainers > 0
    ensures var r := Section(m, tid, call, entering, ended, cursor);
            GoodStretch(m, tid, call, entering, ended, cursor, r.0, r.1)
  {
    match call {
      case DrainWait(sh) => DrainIsGood(m, tid, sh, entering, ended);
      case PushWait(_) => PushIsGood(m, tid, call, entering, ended);
      case PopWait => PopIsGood(m, tid, call, entering, ended);
      case IterWait(_) =>
    }
  }

  lemma PushStretch<T>(m: Monitor<T>, item: T)
    requires m.Valid()
    ensures var (n, o) := DoAdd(m, item);
            && n.Valid() && LetsSleep(m, n, {}) && n.drainers == m.drainers && n.closed == m.closed
            && Moves(m, n, if o.Done? then [item] else [], [])
            && (o.Done? ==> !m.closed && m.drainers == 0)
  {
  }

  lemma PopStretch<T>(m: Monitor<T>)
    requires m.Valid()
    ensures var (n, o) := TryPop(m);
            && n.Valid() && LetsSleep(m, n, {}) && n.drainers == m.drainers && n.closed == m.closed
            && Moves(m, n, [], if o.Item? then [o.item] else [])
            && (o.Item? ==> !m.closed)
  {
  }

  lemma CloseStretch<T>(m: Monitor<T>)
    requires m.Valid()
    ensures var n := DoClose(m);
            n.Valid() && LetsSleep(m, n, {}) && n.drainers == m.drainers && n.closed && Moves(m, n, [], [])
  {
  }

  // ---------------------------------------------------------------- what a call answers

  /** The tracker counts what moved, and counts nothing else. */
  ghost predicate Follows<T>(m: Monitor<T>, n: Monitor<T>, added: seq<T>, removed: seq<T>) {
    && (added != [] ==> m.tracker.Add() == Added(n.tracker))
    && (removed != [] ==> m.tracker.Valid() && n.tracker == m.tracker.Remove())
    && (added == removed == [] ==> n.tracker == m.tracker)
  }

  /** What a stretch answers: what stands in the way of the call, in the order of the checks, or else what the call is
      for. A Drain that is already waiting has its answer as soon as the queue is empty, and an iterator goes on over
      what a closed queue still holds. */
  ghost predicate Answers<T>(m: Monitor<T>, call: Call<T>, entering: bool, ended: bool, cursor: int,
                             n: Monitor<T>, o: Outcome<T>) {
    var stops := if m.closed then Some(Closed) else if ended then Some(ContextEnded) else None;
    match call
    case PushWait(item) =>
      if m.drainers > 0 then o == Failed(Draining)
      else if stops.Some? then o == Failed(stops.value)
      else if m.tracker.length < m.tracker.Cap() then o == Done && n.live == m.live + [item]
      else o == Blocked
    case PopWait =>
      if stops.Some? then o == Failed(stops.value)
      else if m.live != [] then o == Item(m.live[0]) && n.live == m.live[1..]
      else o == Blocked
    case DrainWait(shutdown) =>
      if stops.Some? && (entering || m.live != []) then o == Failed(stops.value)
      else if m.live == [] then o == Done && (shutdown ==> n.closed)
      else o == Blocked
    case IterWait(_) =>
      if m.closed then o == Step(m, cursor)
      else if ended then o == Nothing
      else if m.HasNext(cursor) then o.Yielded? && o == Step(m, cursor)
      else o == Blocked
  }

  /** Every call of every kind says what it must. */
  lemma SectionAnswers<T>(m: Monitor<T>, tid: Tid, call: Call<T>, entering: bool, ended: bool, cursor: int)
    requires m.Valid() && (call.DrainWait? && !entering ==> m.drainers > 0)
    ensures var (n, o) := Section(m, tid, call, entering, ended, cursor);
            && Answers(m, call, entering, ended, cursor, n, o)
            && Moves(m, n, Pushed(call, o), Popped(call, o)) && Follows(m, n, Pushed(call, o), Popped(call, o))
  {
  }

  /** A push that does not wait is refused exactly for a drain, for being closed, or by the tracker, in that order. */
  lemma PushAnswers<T>(m: Monitor<T>, item: T)
    requires m.Valid()
    ensures var (n, o) := DoAdd(m, item);
            && (o == Failed(Draining) <==> m.drainers > 0)
            && (o == Failed(Closed) <==> m.drainers == 0 && m.closed)
            && (o.Done? <==> m.drainers == 0 && !m.closed && m.tracker.Add().Added?)
            && (o.Done? ==> n.live == m.live + [item] && m.tracker.Add() == Added(n.tracker))
            && (!o.Done? ==> n == m)
            && (m.drainers == 0 && !m.closed && !o.Done? ==>
                  m.tracker.Add().Refused? && o == Failed(OverLimit(m.tracker.Add().why)))
  {
  }

  /** A pop that does not wait takes the oldest item exactly when the queue is open and not empty. */
  lemma PopAnswers<T>(m: Monitor<T>)
    requires m.Valid()
    ensures var (n, o) := TryPop(m);
            if m.closed || m.live == [] then o == Nothing && n == m
            else o == Item(m.live[0]) && n.live == m.live[1..] && n.tracker == m.tracker.Remove()
  {
  }
}
