/** The queue object: a singly linked list behind a sentinel. Every method is a stretch of code that runs with the
    lock held, and is proved to do to the linked list what the function of the same name does to the monitor. */
module LinkedQueue {
  import opened Limits
  import opened Wrappers
  import opened QueueModel

  class Entry<T> {
    var item: Option<T>   // None is the zero value
    var link: Entry?<T>
    var popped: bool

    constructor (item: Option<T>)
      ensures this.item == item && link == null && !popped
    {
      this.item, link, popped := item, null, false;
    }
  }

  class Queue<T> {
    const tracker: LimitTracker
    const front: Entry<T>
    var back: Entry<T>
    var drainers: nat
    var closed: bool
    var nempty: set<Tid>
    var nupdates: set<Tid>

    ghost var entries: seq<Entry<T>>  // every entry ever accepted, oldest first
    ghost var base: nat               // how many of them have been removed
    ghost var history: seq<T>         // the items they carried

    ghost predicate Linked()
      reads `entries, `history, `base, `back, front, entries
    {
      && |entries| == |history| && base <= |entries|
      && front !in entries
      && (forall i, j :: 0 <= i < j < |entries| ==> entries[i] != entries[j])
      && !front.popped
      && front.link == (if base < |entries| then entries[base] else null)
      && back == (if base < |entries| then entries[|entries| - 1] else front)
      && (base < |entries| ==> entries[|entries| - 1].link == null)
      && (forall i {:trigger entries[i].popped} :: 0 <= i < |entries| ==> (entries[i].popped <==> i < base))
      && (forall i {:trigger entries[i].item} :: base <= i < |entries| ==> entries[i].item == Some(history[i]))
      && (forall i {:trigger entries[i].link} :: base <= i < |entries| - 1 ==> entries[i].link == entries[i + 1])
    }

    ghost predicate Valid()
      reads this, tracker, front, entries
    {
      Linked() && Abs().Valid()
    }

    ghost function Abs(): Monitor<T>
      reads this, tracker
      requires base <= |history|
    {
      Monitor(history[base..], base, tracker.Abs(), drainers, closed, nempty, nupdates)
    }

    /** A cursor is the sentinel or an entry, linked or not, and stands for that entry's index. */
    ghost predicate IsCursor(cursor: Entry<T>, at: int)
      reads this
    {
      if at == -1 then cursor == front else 0 <= at < |entries| && cursor == entries[at]
    }

    constructor (tracker: LimitTracker)
      requires tracker.Abs().Valid() && tracker.length == 0
      ensures Valid() && this.tracker == tracker
      ensures fresh(front) && entries == []
      ensures Abs() == Monitor([], 0, tracker.Abs(), 0, false, {}, {})
    {
      var sentinel := new Entry<T>(None);
      this.tracker, front, back := tracker, sentinel, sentinel;
      drainers, closed, nempty, nupdates := 0, false, {}, {};
      entries, base, history := [], 0, [];
    }

    method DoAdd(item: T) returns (r: Outcome<T>)
      requires Valid()
      modifies this, tracker, front, entries
      ensures Valid() && old(entries) <= entries && fresh(entries[|old(entries)|..])
      ensures (Abs(), r) == QueueModel.DoAdd(old(Abs()), item)
    {
      if drainers > 0 {
        return Failed(Draining);
      }
      if closed {
        return Failed(Closed);
      }
      var t := tracker.Add();
      if t.Refused? {
        return Failed(OverLimit(t.why));
      }
      Link(item);
      assert history[base..] == old(history[base..]) + [item];
      nempty := {};
      nupdates := {};
      r := Done;
    }

    /** Hangs a new entry on the back of the list. */
    method Link(item: T)
      requires Linked()
      modifies this`back, this`entries, this`history, front, entries
      ensures Linked() && history == old(history) + [item]
      ensures |entries| == |old(entries)| + 1 && old(entries) <= entries && fresh(entries[|old(entries)|])
    {
      var e := new Entry<T>(Some(item));
      back.link := e;
      back := e;
      entries, history := entries + [e], history + [item];
    }

    method PopFront() returns (item: T)
      requires Valid() && Abs().live != []
      modifies this, tracker, front, entries
      ensures Valid() && entries == old(entries)
      ensures item == old(Abs().live[0]) && Abs() == QueueModel.PopFront(old(Abs()))
    {
      item := Unlink();
      assert history[base..] == old(history[base..])[1..];
      tracker.Remove();
      nupdates := {};
      if tracker.length == 0 {
        nempty := {};
      }
    }

    /** Takes the oldest entry off the list and clears it, leaving only the mark that it is gone. */
    method Unlink() returns (item: T)
      requires Linked() && base < |entries|
      modifies this`back, this`base, front, entries
      ensures Linked() && base == old(base) + 1 && item == history[old(base)]
    {
      var e := front.link;
      assert e == entries[base] && e.link == (if base + 1 < |entries| then entries[base + 1] else null);
      front.link := e.link;
      if e == back {
        back := front;
      }
      item := e.item.value;
      e.item, e.link, e.popped := None, null, true;
      base := base + 1;
    }

    method Pop() returns (r: Outcome<T>)
      requires Valid()
      modifies this, tracker, front, entries
      ensures Valid() && entries == old(entries)
      ensures (Abs(), r) == TryPop(old(Abs()))
    {
      if closed {
        return Nothing;
      }
      if tracker.length == 0 {
        return Nothing;
      } else if tracker.length == 1 {
        var out := PopFront();
        r := Item(out);
        if drainers > 0 {
          nempty := {};
        } else {
          nempty := Signal(nempty);
        }
      } else {
        var out := PopFront();
        r := Item(out);
        if drainers > 0 {
          nupdates := {};
        } else {
          nupdates := Signal(nupdates);
        }
      }
    }

    method Close()
      requires Valid()
      modifies this
      ensures Valid() && entries == old(entries)
      ensures Abs() == DoClose(old(Abs()))
    {
      closed := true;
      nupdates := {};
      nempty := {};
    }

    method WaitPush(tid: Tid, ended: bool, item: T) returns (r: Outcome<T>)
      requires Valid()
      modifies this, tracker, front, entries
      ensures Valid() && old(entries) <= entries && fresh(entries[|old(entries)|..])
      ensures (Abs(), r) == QueueModel.WaitPush(old(Abs()), tid, ended, item)
    {
      if drainers > 0 {
        return Failed(Draining);
      }
      if closed {
        return Failed(Closed);
      }
      if ended {
        return Failed(ContextEnded);
      }
      if tracker.Abs().Cap() > tracker.length {
        r := DoAdd(item);
        return;
      }
      nupdates := nupdates + {tid};
      r := Blocked;
    }

    method WaitPop(tid: Tid, ended: bool) returns (r: Outcome<T>)
      requires Valid()
      modifies this, tracker, front, entries
      ensures Valid() && entries == old(entries)
      ensures (Abs(), r) == QueueModel.WaitPop(old(Abs()), tid, ended)
    {
      if closed {
        return Failed(Closed);
      }
      if ended {
        return Failed(ContextEnded);
      }
      if tracker.length > 0 {
        var out := PopFront();
        return Item(out);
      }
      nempty := nempty + {tid};
      r := Blocked;
    }

    method DrainLoop(tid: Tid, ended: bool, shutdown: bool) returns (r: Outcome<T>)
      requires Valid() && drainers > 0
      modifies this
      ensures Valid() && entries == old(entries)
      ensures (Abs(), r) == QueueModel.DrainLoop(old(Abs()), tid, ended, shutdown)
    {
      if tracker.length > 0 {
        if closed {
          drainers := drainers - 1;
          return Failed(Closed);
        }
        if ended {
          drainers := drainers - 1;
          return Failed(ContextEnded);
        }
        nempty := nempty + {tid};
        return Blocked;
      }
      drainers := drainers - 1;
      if shutdown {
        Close();
      }
      r := Done;
    }

    method DrainEnter(tid: Tid, ended: bool, shutdown: bool) returns (r: Outcome<T>)
      requires Valid()
      modifies this
      ensures Valid() && entries == old(entries)
      ensures (Abs(), r) == QueueModel.DrainEnter(old(Abs()), tid, ended, shutdown)
    {
      if closed {
        return Failed(Closed);
      }
      if ended {
        return Failed(ContextEnded);
      }
      drainers := drainers + 1;
      nupdates := {};
      r := DrainLoop(tid, ended, shutdown);
    }

    /** The entry after a cursor. A removed entry holds no link, but nothing before the oldest linked entry is
        left, so that entry is the one that follows. */
    method After(cursor: Entry<T>, ghost at: int) returns (next: Entry?<T>)
      requires Valid() && IsCursor(cursor, at)
      ensures next == null <==> !Abs().HasNext(at)
      ensures next != null ==> IsCursor(next, Abs().NextIndex(at)) && !next.popped
    {
      if cursor.popped {
        return front.link;
      }
      next := cursor.link;
    }

    /** One pull of the waiting iterator, which holds `cursor` between pulls. */
    method WaitNext(tid: Tid, ended: bool, cursor: Entry<T>, ghost at: int) returns (r: Outcome<T>, next: Entry<T>)
      requires Valid() && IsCursor(cursor, at)
      modifies this
      ensures Valid() && entries == old(entries)
      ensures var (m, o) := QueueModel.WaitNext(old(Abs()), tid, ended, at);
              && Abs() == m && r == Shown(o)
              && IsCursor(next, if o.Yielded? then o.index else at)
    {
      next := cursor;
      if closed {
        var e := After(cursor, at);
        if e != null {
          return Item(e.item.value), e;
        }
        return Nothing, cursor;
      }
      if ended {
        return Nothing, cursor;
      }
      var e := After(cursor, at);
      if e != null {
        return Item(e.item.value), e;
      }
      nupdates := nupdates + {tid};
      r := Blocked;
    }

    /** One pull of the iterator that never waits. */
    method TryNext(cursor: Entry<T>, ghost at: int) returns (r: Outcome<T>, next: Entry<T>)
      requires Valid() && IsCursor(cursor, at)
      ensures var o := QueueModel.TryNext(Abs(), at);
              r == Shown(o) && IsCursor(next, if o.Yielded? then o.index else at)
    {
      if closed {
        return Nothing, cursor;
      }
      var e := After(cursor, at);
      if e == null {
        return Nothing, cursor;
      }
      return Item(e.item.value), e;
    }
  }

  /** What the caller of an iterator sees of a pull. */
  function Shown<T>(o: Outcome<T>): Outcome<T> {
    if o.Yielded? then Item(o.item) else o
  }

  /** Wakes one sleeper, if there is one. */
  method Signal(sleepers: set<Tid>) returns (rest: set<Tid>)
    ensures sleepers == {} ==> rest == {}
    ensures sleepers != {} ==> exists t :: t in sleepers && rest == sleepers - {t}
  {
    rest := sleepers;
    if sleepers != {} {
      var t :| t in sleepers;
      rest := sleepers - {t};
    }
  }
}
