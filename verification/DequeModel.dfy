/** The deque as its mutex shows it, in the same style as QueueModel: one value per moment when nobody holds the
    lock, one function per stretch of code under the lock. */
module DequeModel {
  import opened Limits
  import opened Wrappers

  type Tid = nat
  type IterId = nat

  datatype Side = Front | Back

  /** A linked element with its sequence number. */
  datatype Cell<+T> = Cell(seqno: int, item: T)

  /** Where an iterator stands: before its first pull, or at an element, linked or removed. */
  datatype Place = Root | At(seqno: int)

  datatype Error = Closed | Draining | OverLimit(why: LimitError) | ContextEnded

  datatype Outcome<+T> =
    | Blocked
    | Done
    | Failed(err: Error)
    | Item(cell: Cell<T>)       // a removed element
    | Nothing
    | Yielded(cell: Cell<T>)    // the element an iterator moved to

  /** `live` is front to back; `lo` and `hi` are the numbers last given out at either end; the last three are
      the threads asleep on each condition. */
  datatype Monitor<T> = Monitor(
    live: seq<Cell<T>>, lo: int, hi: int, tracker: Tracker, drainers: nat, closed: bool,
    nfront: set<Tid>, nback: set<Tid>, updates: set<Tid>)
  {
    /** The tracker counts the linked elements. */
    predicate Counted() {
      tracker.Valid() && tracker.length == |live|
    }

    predicate Valid() {
      Counted() && lo <= hi && Sorted(live) && Within(live, lo, hi)
    }

    function Notify(): Monitor<T> {
      this.(nfront := {}, nback := {}, updates := {})
    }
  }

  /** Sequence numbers strictly increase from front to back. */
  predicate Sorted<T>(live: seq<Cell<T>>) {
    forall i, j :: 0 <= i < j < |live| ==> live[i].seqno < live[j].seqno
  }

  predicate Within<T>(live: seq<Cell<T>>, lo: int, hi: int) {
    forall i :: 0 <= i < |live| ==> lo <= live[i].seqno <= hi
  }

  // ---------------------------------------------------------------- pushing and popping

  function DoAdd<T>(m: Monitor<T>, item: T, side: Side): (Monitor<T>, Outcome<T>) {
    if m.drainers > 0 then (m, Failed(Draining))
    else if m.closed then (m, Failed(Closed))
    else
      var r := m.tracker.Add();
      if r.Refused? then (m.(updates := {}), Failed(OverLimit(r.why)))
      else
        var n := m.Notify().(tracker := r.next);
        if side == Back then (n.(hi := m.hi + 1, live := m.live + [Cell(m.hi + 1, item)]), Done)
        else (n.(lo := m.lo - 1, live := [Cell(m.lo - 1, item)] + m.live), Done)
  }

  function DoPop<T>(m: Monitor<T>, side: Side): (Monitor<T>, Outcome<T>)
    requires m.Counted()
  {
    if m.closed || m.live == [] then (m, Nothing) else
    var n := m.Notify().(tracker := m.tracker.Remove());
    if side == Front then (n.(live := m.live[1..]), Item(m.live[0]))
    else (n.(live := m.live[..|m.live| - 1]), Item(m.live[|m.live| - 1]))
  }

  function Opposite(side: Side): Side {
    if side == Front then Back else Front
  }

  /** The eviction of a forced push: nothing happens unless the deque is open and exactly full. */
  function Evict<T>(m: Monitor<T>, side: Side): (r: (Monitor<T>, Outcome<T>))
    requires m.Counted()
    ensures r.0.Counted()
  {
    if m.drainers > 0 || m.closed || m.tracker.Cap() != m.tracker.length then (m, Nothing)
    else DoPop(m, Opposite(side))
  }

  function ForcePush<T>(m: Monitor<T>, item: T, side: Side): (Monitor<T>, Outcome<T>)
    requires m.Counted()
  {
    DoAdd(Evict(m, side).0, item, side)
  }

  function DoClose<T>(m: Monitor<T>): Monitor<T> {
    m.Notify().(closed := true)
  }

  // ---------------------------------------------------------------- iterating

  /** Whether an element lies ahead of a place, for an iterator that started at the end `from`. */
  predicate Beyond(place: Place, from: Side, seqno: int) {
    place.At? ==> if from == Front then place.seqno < seqno else seqno < place.seqno
  }

  /** The index of the first linked element beyond the place, scanning away from `from`; the index one past the
      other end if there is none. */
  function Neighbor<T>(live: seq<Cell<T>>, place: Place, from: Side): (k: int)
    ensures -1 <= k <= |live|
    ensures from == Front ==> 0 <= k && forall i :: 0 <= i < k ==> !Beyond(place, from, live[i].seqno)
    ensures from == Back ==> k < |live| && forall i :: k < i < |live| ==> !Beyond(place, from, live[i].seqno)
    ensures 0 <= k < |live| ==> Beyond(place, from, live[k].seqno)
  {
    if from == Front then ScanUp(live, place, 0) else ScanDown(live, place, |live| - 1)
  }

  function ScanUp<T>(live: seq<Cell<T>>, place: Place, i: nat): (k: nat)
    requires i <= |live|
    ensures i <= k <= |live| && (k < |live| ==> Beyond(place, Front, live[k].seqno))
    ensures forall j :: i <= j < k ==> !Beyond(place, Front, live[j].seqno)
    decreases |live| - i
  {
    if i == |live| || Beyond(place, Front, live[i].seqno) then i else ScanUp(live, place, i + 1)
  }

  function ScanDown<T>(live: seq<Cell<T>>, place: Place, i: int): (k: int)
    requires -1 <= i < |live|
    ensures -1 <= k <= i && (0 <= k ==> Beyond(place, Back, live[k].seqno))
    ensures forall j :: k < j <= i ==> !Beyond(place, Back, live[j].seqno)
    decreases i
  {
    if i == -1 || Beyond(place, Back, live[i].seqno) then i else ScanDown(live, place, i - 1)
  }

  function Step<T>(m: Monitor<T>, place: Place, from: Side): Outcome<T> {
    var k := Neighbor(m.live, place, from);
    if 0 <= k < |m.live| then Yielded(m.live[k]) else Nothing
  }

  // ---------------------------------------------------------------- waiting

  function WaitPush<T>(m: Monitor<T>, tid: Tid, ended: bool, item: T, side: Side): (Monitor<T>, Outcome<T>) {
    if m.drainers > 0 then (m, Failed(Draining))
    else if m.closed then (m, Failed(Closed))
    else if ended then (m, Failed(ContextEnded))
    else if m.tracker.Cap() > m.tracker.length then DoAdd(m, item, side)
    else (m.(updates := m.updates + {tid}), Blocked)
  }

  function SleepOn<T>(m: Monitor<T>, tid: Tid, side: Side): Monitor<T> {
    if side == Front then m.(nfront := m.nfront + {tid}) else m.(nback := m.nback + {tid})
  }

  function WaitPop<T>(m: Monitor<T>, tid: Tid, ended: bool, side: Side): (Monitor<T>, Outcome<T>)
    requires m.Counted()
  {
    if m.closed then (m, Failed(Closed))
    else if ended then (m, Failed(ContextEnded))
    else if m.live != [] then DoPop(m, side)
    else (SleepOn(m, tid, side), Blocked)
  }

  function WaitNext<T>(m: Monitor<T>, tid: Tid, ended: bool, place: Place, from: Side): (Monitor<T>, Outcome<T>) {
    if m.closed then (m, Step(m, place, from))
    else if ended then (m, Nothing)
    else if Step(m, place, from).Yielded? then (m, Step(m, place, from))
    else (SleepOn(m, tid, from), Blocked)
  }

  /** The wait loop of Drain and Shutdown, for a call already counted in `drainers`. */
  function DrainLoop<T>(m: Monitor<T>, tid: Tid, ended: bool, shutdown: bool): (Monitor<T>, Outcome<T>)
    requires m.drainers > 0
  {
    var left := m.(drainers := m.drainers - 1);
    if m.tracker.length > 0 then
      if m.closed then (left, Failed(Closed))
      else if ended then (left, Failed(ContextEnded))
      else (m.(updates := m.updates + {tid}), Blocked)
    else if shutdown then (DoClose(left), Done)
    else (left, Done)
  }

  function DrainEnter<T>(m: Monitor<T>, tid: Tid, ended: bool, shutdown: bool): (Monitor<T>, Outcome<T>) {
    if m.closed then (m, Failed(Closed))
    else if ended then (m, Failed(ContextEnded))
    else DrainLoop(m.(drainers := m.drainers + 1, updates := {}), tid, ended, shutdown)
  }

  // ---------------------------------------------------------------- what these mean

  /** A step yields the nearest linked element beyond the place, whether or not the element at the place is still
      linked itself, and yields nothing exactly when nothing linked lies beyond. */
  lemma StepIsNearest<T>(m: Monitor<T>, place: Place, from: Side)
    requires m.Valid()
    ensures var o := Step(m, place, from);
            && (o.Yielded? <==> exists i :: 0 <= i < |m.live| && Beyond(place, from, m.live[i].seqno))
            && (o.Yielded? ==>
                  && o.cell in m.live && Beyond(place, from, o.cell.seqno)
                  && forall i :: 0 <= i < |m.live| && Beyond(place, from, m.live[i].seqno) ==>
                       m.live[i] == o.cell || Beyond(At(o.cell.seqno), from, m.live[i].seqno))
  {
  }

  /** Whatever step a place that is a linked element takes, it is to the element linked next to it. */
  lemma LinkedNeighborIsAdjacent<T>(live: seq<Cell<T>>, i: nat, from: Side)
    requires Sorted(live) && i < |live|
    ensures Neighbor(live, At(live[i].seqno), from) == if from == Front then i + 1 else i - 1
  {
    assert from == Front && i + 1 < |live| ==> Beyond(At(live[i].seqno), from, live[i + 1].seqno);
    assert from == Back && 0 < i ==> Beyond(At(live[i].seqno), from, live[i - 1].seqno);
  }

  lemma AddKeepsValid<T>(m: Monitor<T>, item: T, side: Side)
    requires m.Valid()
    ensures DoAdd(m, item, side).0.Valid()
  {
  }

  lemma PopKeepsValid<T>(m: Monitor<T>, side: Side)
    requires m.Valid()
    ensures DoPop(m, side).0.Valid()
  {
  }

  lemma EvictMakesRoom<T>(m: Monitor<T>, side: Side)
    requires m.Valid() && !m.closed && m.drainers == 0
    ensures var full := m.tracker.Cap() == m.tracker.length;
            var n := Evict(m, side).0;
            && (full ==> |m.live| > 0)
            && n.live == (if !full then m.live else if side == Front then m.live[..|m.live| - 1] else m.live[1..])
            && n.Valid() && n.tracker.Add().Added? && n.lo == m.lo && n.hi == m.hi && !n.closed && n.drainers == 0
  {
  }

  /** On an open deque a forced push always succeeds. It evicts one element, from the other end, exactly when the
      deque is full, and keeps the rest in order. */
  lemma ForcePushAlwaysSucceeds<T>(m: Monitor<T>, item: T, side: Side)
    requires m.Valid() && !m.closed && m.drainers == 0
    ensures var full := m.tracker.Cap() == m.tracker.length;
            var kept := if !full then m.live else if side == Front then m.live[..|m.live| - 1] else m.live[1..];
            var (n, o) := ForcePush(m, item, side);
            && (full ==> |m.live| > 0) && o == Done
            && n.live == (if side == Front then [Cell(m.lo - 1, item)] + kept else kept + [Cell(m.hi + 1, item)])
  {
    EvictMakesRoom(m, side);
  }

  /** An accepted push changes its own end and no other: a pop there gives the item back and restores the list, and a
      pop at the other end takes what it would have taken before, and leaves what the push would then have made. */
  lemma PushAndPopAtTheEnds<T>(m: Monitor<T>, item: T, side: Side)
    requires m.Valid() && DoAdd(m, item, side).1 == Done
    ensures var n := DoAdd(m, item, side).0;
            && n.Valid()
            && DoPop(n, side).1.Item? && DoPop(n, side).1.cell.item == item && DoPop(n, side).0.live == m.live
            && (m.live != [] ==>
                  && DoPop(n, Opposite(side)).1 == DoPop(m, Opposite(side)).1
                  && DoPop(n, Opposite(side)).0.live
                     == (if side == Back then m.live[1..] + [n.live[|n.live| - 1]]
                         else [n.live[0]] + m.live[..|m.live| - 1]))
  {
    hide DoAdd;
    AcceptedAdd(m, item, side);
  }

  lemma AcceptedAdd<T>(m: Monitor<T>, item: T, side: Side)
    requires m.Valid() && DoAdd(m, item, side).1 == Done
    ensures var n := DoAdd(m, item, side).0;
            && n.Valid() && !n.closed && !m.closed
            && n.live == if side == Back then m.live + [Cell(m.hi + 1, item)] else [Cell(m.lo - 1, item)] + m.live
  {
  }

  /** The walk a removed element would take if it had stayed in the ring as a tombstone: along every element ever
      linked, in order, to the nearest one that is still linked. */
  function TombstoneWalk<T>(all: seq<Cell<T>>, live: set<int>, i: int, from: Side): (k: int)
    requires -1 <= i <= |all|
    ensures -1 <= k <= |all| && (0 <= k < |all| ==> all[k].seqno in live)
    ensures if from == Front then i <= k else k <= i
    ensures forall j :: i <= j < k || k < j <= i ==> 0 <= j < |all| ==> all[j].seqno !in live
    decreases if from == Front then |all| - i else i + 1
  {
    if i == -1 || i == |all| || all[i].seqno in live then i
    else TombstoneWalk(all, live, if from == Front then i + 1 else i - 1, from)
  }

  // ---------------------------------------------------------------- blocking calls

  /** A blocking call in progress. Shutdown is Drain with a close at the end. */
  datatype Call<T(==)> = PushWait(item: T, side: Side) | PopWait(side: Side) | DrainWait(shutdown: bool)
                   | IterWait(id: IterId, from: Side)
  {
    /** The threads asleep on the condition this call waits on. */
    function Sleepers(m: Monitor<T>): set<Tid> {
      match this
      case PushWait(_, _) => m.updates
      case DrainWait(_) => m.updates
      case PopWait(side) => if side == Front then m.nfront else m.nback
      case IterWait(_, from) => if from == Front then m.nfront else m.nback
    }

    predicate WaitsFor(side: Side) {
      this == PopWait(side) || (IterWait? && from == side)
    }

    /** What the call is waiting for; `place` is where its iterator stands, if it is one. */
    predicate Ready(m: Monitor<T>, place: Place) {
      m.closed ||
      match this
      case PushWait(_, _) => m.drainers > 0 || m.tracker.length < m.tracker.Cap()
      case PopWait(_) => m.live != []
      case DrainWait(_) => m.live == []
      case IterWait(_, from) => Step(m, place, from).Yielded?
    }

    /** How many drainers the call stands for between stretches. */
    function Weight(): nat {
      if DrainWait? then 1 else 0
    }
  }

  function AllAsleep<T>(m: Monitor<T>): set<Tid> {
    m.nfront + m.nback + m.updates
  }

  /** One stretch of the call: its first when `entering`, otherwise the one after a wake-up. */
  function Section<T>(m: Monitor<T>, tid: Tid, call: Call<T>, entering: bool, ended: bool, place: Place)
    : (Monitor<T>, Outcome<T>)
    requires m.Counted() && (call.DrainWait? && !entering ==> m.drainers > 0)
  {
    match call
    case PushWait(item, side) => WaitPush(m, tid, ended, item, side)
    case PopWait(side) => WaitPop(m, tid, ended, side)
    case DrainWait(sh) => if entering then DrainEnter(m, tid, ended, sh) else DrainLoop(m, tid, ended, sh)
    case IterWait(_, from) => WaitNext(m, tid, ended, place, from)
  }

  // ---------------------------------------------------------------- what one stretch does

  /** What happened to the linked elements in a stretch. */
  datatype Move<T> = Stay | PushAt(side: Side, item: T) | PopAt(side: Side, cell: Cell<T>)

  function MoveOf<T>(call: Call<T>, o: Outcome<T>): Move<T> {
    match call
    case PushWait(item, side) => if o.Done? then PushAt(side, item) else Stay
    case PopWait(side) => if o.Item? then PopAt(side, o.cell) else Stay
    case _ => Stay
  }

  ghost predicate Moves<T>(m: Monitor<T>, n: Monitor<T>, mv: Move<T>) {
    match mv
    case Stay => n.live == m.live && n.lo == m.lo && n.hi == m.hi && n.tracker == m.tracker
    case PushAt(Front, item) => n.lo == m.lo - 1 && n.hi == m.hi && n.live == [Cell(n.lo, item)] + m.live
    case PushAt(Back, item) => n.lo == m.lo && n.hi == m.hi + 1 && n.live == m.live + [Cell(n.hi, item)]
    case PopAt(Front, cell) => n.lo == m.lo && n.hi == m.hi && m.live == [cell] + n.live
    case PopAt(Back, cell) => n.lo == m.lo && n.hi == m.hi && m.live == n.live + [cell]
  }

  /** Threads other than `self` that are asleep after m became n were asleep before, and nothing they wait for
      came about in between: any change to the elements wakes everybody. */
  ghost predicate LetsSleep<T>(m: Monitor<T>, n: Monitor<T>, self: set<Tid>) {
    && (forall u :: u in n.nfront && u !in self ==> u in m.nfront && Quiet(m, n))
    && (forall u :: u in n.nback && u !in self ==> u in m.nback && Quiet(m, n))
    && (forall u :: u in n.updates && u !in self ==>
          u in m.updates && Quiet(m, n) && (n.drainers > 0 ==> m.drainers > 0))
  }

  ghost predicate Quiet<T>(m: Monitor<T>, n: Monitor<T>) {
    n.live == m.live && n.tracker == m.tracker && (n.closed ==> m.closed)
  }

  /** A stretch of `call` either goes to sleep, with nothing to wait for having come, or returns. */
  ghost predicate GoodStretch<T>(m: Monitor<T>, tid: Tid, call: Call<T>, entering: bool, ended: bool, place: Place,
                                 n: Monitor<T>, o: Outcome<T>) {
    var before := if entering then 0 else call.Weight();
    && n.Valid() && n.drainers == m.drainers - before + (if o.Blocked? then call.Weight() else 0)
    && Moves(m, n, MoveOf(call, o))
    && (n.closed <==> m.closed || (call == DrainWait(true) && o.Done?))
    && (MoveOf(call, o).PushAt? ==> !m.closed && m.drainers == 0)
    && (MoveOf(call, o).PopAt? ==> !m.closed)
    && (call.DrainWait? && o.Done? ==> n.live == [])
    && (call.IterWait? && o.Yielded? ==> o == Step(m, place, call.from))
    && (o.Blocked? ==> !ended && !call.Ready(n, place) && tid in call.Sleepers(n))
    && (tid in AllAsleep(n) ==> o.Blocked?)
    && (tid in n.nfront ==> call.WaitsFor(Front)) && (tid in n.nback ==> call.WaitsFor(Back))
    && (tid in n.updates ==> call.PushWait? || call.DrainWait?)
    && LetsSleep(m, n, {tid})
  }

  lemma AddStretch<T>(m: Monitor<T>, item: T, side: Side)
    requires m.Valid()
    ensures var (n, o) := DoAdd(m, item, side);
            && n.Valid() && LetsSleep(m, n, {}) && n.drainers == m.drainers && n.closed == m.closed
            && Moves(m, n, if o.Done? then PushAt(side, item) else Stay)
            && (o.Done? ==> !m.closed && m.drainers == 0 && AllAsleep(n) == {})
  {
    AddKeepsValid(m, item, side);
  }

  lemma PopStretch<T>(m: Monitor<T>, side: Side)
    requires m.Valid()
    ensures var (n, o) := DoPop(m, side);
            && n.Valid() && LetsSleep(m, n, {}) && n.drainers == m.drainers && n.closed == m.closed
            && Moves(m, n, if o.Item? then PopAt(side, o.cell) else Stay)
            && (o.Item? ==> !m.closed && AllAsleep(n) == {})
  {
    PopKeepsValid(m, side);
  }

  lemma CloseStretch<T>(m: Monitor<T>)
    requires m.Valid()
    ensures var n := DoClose(m);
            n.Valid() && LetsSleep(m, n, {}) && n.drainers == m.drainers && n.closed && Moves(m, n, Stay)
  {
  }

  lemma PushIsGood<T>(m: Monitor<T>, tid: Tid, call: Call<T>, entering: bool, ended: bool, place: Place)
    requires m.Valid() && tid !in AllAsleep(m) && call.PushWait?
    ensures var r := WaitPush(m, tid, ended, call.item, call.side);
            GoodStretch(m, tid, call, entering, ended, place, r.0, r.1)
  {
    AddStretch(m, call.item, call.side);
  }

  lemma PopIsGood<T>(m: Monitor<T>, tid: Tid, call: Call<T>, entering: bool, ended: bool, place: Place)
    requires m.Valid() && tid !in AllAsleep(m) && call.PopWait?
    ensures var r := WaitPop(m, tid, ended, call.side);
            GoodStretch(m, tid, call, entering, ended, place, r.0, r.1)
  {
    PopStretch(m, call.side);
  }

  lemma DrainIsGood<T>(m: Monitor<T>, tid: Tid, call: Call<T>, entering: bool, ended: bool, place: Place)
    requires m.Valid() && tid !in AllAsleep(m) && call.DrainWait? && (!entering ==> m.drainers > 0)
    ensures var r := Section(m, tid, call, entering, ended, place);
            GoodStretch(m, tid, call, entering, ended, place, r.0, r.1)
  {
  }

  lemma IterIsGood<T>(m: Monitor<T>, tid: Tid, call: Call<T>, entering: bool, ended: bool, place: Place)
    requires m.Valid() && tid !in AllAsleep(m) && call.IterWait?
    ensures var r := WaitNext(m, tid, ended, place, call.from);
            GoodStretch(m, tid, call, entering, ended, place, r.0, r.1)
  {
  }

  lemma SectionIsGood<T>(m: Monitor<T>, tid: Tid, call: Call<T>, entering: bool, ended: bool, place: Place)
    requires m.Valid() && tid !in AllAsleep(m)
    requires call.DrainWait? && !entering ==> m.drainers > 0
    ensures var r := Section(m, tid, call, entering, ended, place);
            GoodStretch(m, tid, call, entering, ended, place, r.0, r.1)
  {
    match call {
      case PushWait(_, _) => PushIsGood(m, tid, call, entering, ended, place);
      case PopWait(_) => PopIsGood(m, tid, call, entering, ended, place);
      case DrainWait(_) => DrainIsGood(m, tid, call, entering, ended, place);
      case IterWait(_, _) => IterIsGood(m, tid, call, entering, ended, place);
    }
  }

  /** What LetsSleep is for. */
  lemma SleepersStayUnready<T>(m: Monitor<T>, n: Monitor<T>, self: set<Tid>, other: Tid, call: Call<T>, place: Place)
    requires LetsSleep(m, n, self) && other !in self && other in call.Sleepers(n) && !call.Ready(m, place)
    ensures other in call.Sleepers(m) && !call.Ready(n, place)
  {
  }

  // ---------------------------------------------------------------- what a call answers

  /** The tracker counts what moved, and counts nothing else. */
  ghost predicate Follows<T>(m: Monitor<T>, n: Monitor<T>, mv: Move<T>) {
    match mv
    case Stay => n.tracker == m.tracker
    case PushAt(_, _) => m.tracker.Add() == Added(n.tracker)
    case PopAt(_, _) => m.tracker.Valid() && n.tracker == m.tracker.Remove()
  }

  function First<T>(live: seq<Cell<T>>, side: Side): Cell<T>
    requires live != []
  {
    if side == Front then live[0] else live[|live| - 1]
  }

  /** What a stretch answers: what stands in the way of the call, in the order of the checks, or else what the call is
      for. A Drain that is already waiting has its answer as soon as the deque is empty, and an iterator goes on over
      what a closed deque still holds. What the elements become is said by Moves. */
  ghost predicate Answers<T>(m: Monitor<T>, call: Call<T>, entering: bool, ended: bool, place: Place,
                             n: Monitor<T>, o: Outcome<T>) {
    var stops := if m.closed then Some(Closed) else if ended then Some(ContextEnded) else None;
    match call
    case PushWait(_, _) =>
      if m.drainers > 0 then o == Failed(Draining)
      else if stops.Some? then o == Failed(stops.value)
      else if m.tracker.length < m.tracker.Cap() then o == Done
      else o == Blocked
    case PopWait(side) =>
      if stops.Some? then o == Failed(stops.value)
      else if m.live != [] then o == Item(First(m.live, side))
      else o == Blocked
    case DrainWait(shutdown) =>
      if stops.Some? && (entering || m.live != []) then o == Failed(stops.value)
      else if m.live == [] then o == Done && (shutdown ==> n.closed)
      else o == Blocked
    case IterWait(_, from) =>
      if m.closed then o == Step(m, place, from)
      else if ended then o == Nothing
      else if Step(m, place, from).Yielded? then o == Step(m, place, from)
      else o == Blocked
  }

  ghost predicate SaysWhatItMust<T>(m: Monitor<T>, call: Call<T>, entering: bool, ended: bool, place: Place,
                                    n: Monitor<T>, o: Outcome<T>) {
    Answers(m, call, entering, ended, place, n, o) && Moves(m, n, MoveOf(call, o)) && Follows(m, n, MoveOf(call, o))
  }

  lemma PushWaitAnswers<T>(m: Monitor<T>, tid: Tid, call: Call<T>, entering: bool, ended: bool, place: Place)
    requires m.Valid() && call.PushWait?
    ensures var r := WaitPush(m, tid, ended, call.item, call.side);
            SaysWhatItMust(m, call, entering, ended, place, r.0, r.1)
  {
  }

  lemma PopWaitAnswers<T>(m: Monitor<T>, tid: Tid, call: Call<T>, entering: bool, ended: bool, place: Place)
    requires m.Valid() && call.PopWait?
    ensures var r := WaitPop(m, tid, ended, call.side);
            SaysWhatItMust(m, call, entering, ended, place, r.0, r.1)
  {
    PopAnswers(m, call.side);
    hide DoPop;
  }

  lemma DrainWaitAnswers<T>(m: Monitor<T>, tid: Tid, call: Call<T>, entering: bool, ended: bool, place: Place)
    requires m.Valid() && call.DrainWait? && (!entering ==> m.drainers > 0)
    ensures var r := Section(m, tid, call, entering, ended, place);
            SaysWhatItMust(m, call, entering, ended, place, r.0, r.1)
  {
  }

  lemma IterWaitAnswers<T>(m: Monitor<T>, tid: Tid, call: Call<T>, entering: bool, ended: bool, place: Place)
    requires m.Valid() && call.IterWait?
    ensures var r := WaitNext(m, tid, ended, place, call.from);
            SaysWhatItMust(m, call, entering, ended, place, r.0, r.1)
  {
  }

  /** Every call of every kind says what it must. */
  lemma SectionAnswers<T>(m: Monitor<T>, tid: Tid, call: Call<T>, entering: bool, ended: bool, place: Place)
    requires m.Valid() && (call.DrainWait? && !entering ==> m.drainers > 0)
    ensures var (n, o) := Section(m, tid, call, entering, ended, place);
            && Answers(m, call, entering, ended, place, n, o)
            && Moves(m, n, MoveOf(call, o)) && Follows(m, n, MoveOf(call, o))
  {
    match call {
      case PushWait(_, _) => PushWaitAnswers(m, tid, call, entering, ended, place);
      case PopWait(_) => PopWaitAnswers(m, tid, call, entering, ended, place);
      case DrainWait(_) => DrainWaitAnswers(m, tid, call, entering, ended, place);
      case IterWait(_, _) => IterWaitAnswers(m, tid, call, entering, ended, place);
    }
  }

  /** A push that does not wait is refused exactly for a drain, for being closed, or by the tracker, in that order. */
  lemma PushAnswers<T>(m: Monitor<T>, item: T, side: Side)
    requires m.Valid()
    ensures var (n, o) := DoAdd(m, item, side);
            && (o == Failed(Draining) <==> m.drainers > 0)
            && (o == Failed(Closed) <==> m.drainers == 0 && m.closed)
            && (o.Done? <==> m.drainers == 0 && !m.closed && m.tracker.Add().Added?)
            && (o.Done? ==> Moves(m, n, PushAt(side, item)) && Follows(m, n, PushAt(side, item)))
            && (!o.Done? ==> Moves(m, n, Stay) && n.closed == m.closed && n.drainers == m.drainers)
            && (m.drainers == 0 && !m.closed && !o.Done? ==>
                  m.tracker.Add().Refused? && o == Failed(OverLimit(m.tracker.Add().why)))
  {
  }

  /** A pop that does not wait takes the element at its end exactly when the deque is open and not empty. */
  lemma PopAnswers<T>(m: Monitor<T>, side: Side)
    requires m.Valid()
    ensures var (n, o) := DoPop(m, side);
            if m.closed || m.live == [] then o == Nothing && n == m
            else
              var mv := PopAt(side, First(m.live, side));
              o == Item(mv.cell) && Moves(m, n, mv) && Follows(m, n, mv)
  {
  }
}
