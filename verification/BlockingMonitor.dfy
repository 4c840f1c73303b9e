/** The code of src/common/BlockingQueue.h between taking the mutex and returning or waiting. Each passage is
    proved to keep order, capacity and the meaning of closing, to wait and refuse exactly when it should, to
    notify enough threads, and to be the passage of the step relation that the theorems about runs speak of. */
module BlockingMonitor {
  import opened Options
  import opened BlockingQueue
  import opened BlockingQueueProofs

  /** A notification that is enough: whoever sleeps, if nobody was owed a wake-up before the passage of a thread
      of kind `k`, nobody is after it, when the thread goes on as one of kind `k'`. */
  ghost predicate Serves(cap: nat, len: nat, closed: bool, k: Kind, n: Notify, len': nat, closed': bool, k': Kind)
  {
    forall y, y1 :: Counts(y, k) && Owed(cap, len, closed, y) && Wakes(n, y, y1) ==>
      Owed(cap, len', closed', Add(Add(y1, k, -1), k', 1))
  }

  /** What a thread that came as `p` is after its passage. */
  function After<T>(p: Pc<T>, waits: bool): Kind
    requires Runnable(p)
  {
    KindOf(if waits then Asleep(p) else Idle)
  }

  lemma PassageServes<T>(cap: nat, queue: seq<T>, closed: bool, p: Pc<T>)
    requires Runnable(p)
    ensures var e := Passage(cap, queue, closed, p);
            Serves(cap, |queue|, closed, KindOf(p), e.notify, |e.queue|, e.closed, After(p, e.sleeps))
  {
    var e := Passage(cap, queue, closed, p);
    forall y, y1 | Counts(y, KindOf(p)) && Owed(cap, |queue|, closed, y) && Wakes(e.notify, y, y1)
      ensures Owed(cap, |e.queue|, e.closed, Add(Add(y1, KindOf(p), -1), After(p, e.sleeps), 1))
    {
      PassageOwes(cap, queue, closed, p, y, y1);
    }
  }

  /** Everything ever accepted has been taken. */
  ghost predicate Drained<T>(log: seq<Event<T>>)
  {
    Closed in log && Accepted(log) == Taken(log)
  }

  /** What is kept of a log when only order matters. */
  ghost predicate InOrder<T>(queue: seq<T>, closed: bool, log: seq<Event<T>>)
  {
    Accepted(log) == Taken(log) + queue && (closed <==> Closed in log)
  }

  lemma EmptyMeansTaken<T>(queue: seq<T>, closed: bool, log: seq<Event<T>>)
    requires InOrder(queue, closed, log)
    ensures Accepted(log) == Taken(log) <==> queue == []
  {
    assert |Taken(log) + queue| == |Taken(log)| + |queue|;
    assert queue == [] ==> Taken(log) + queue == Taken(log);
  }

  lemma PushMeans<T>(cap: nat, queue: seq<T>, closed: bool, log: seq<Event<T>>, v: T)
    requires InOrder(queue, closed, log)
    ensures var e := Passage(cap, queue, closed, PushStart(v));
            && Accepted(log + e.events) == Accepted(log) + (if Pushed(v) in e.events then [v] else [])
            && Taken(log + e.events) == Taken(log)
  {
    LogParts(log, PushRefused);
    LogParts(log, Pushed(v));
    assert log + [] == log;
  }

  lemma PopMeans<T>(queue: seq<T>, closed: bool, log: seq<Event<T>>)
    requires InOrder(queue, closed, log)
    ensures var e := PopEffect(queue, closed);
            && Accepted(log + e.events) == Accepted(log)
            && Taken(log + e.events) == Taken(log) + (if queue == [] then [] else [queue[0]])
            && Taken(log + e.events) <= Accepted(log)
            && (!e.sleeps && queue == [] ==> Drained(log + e.events))
  {
    LogParts(log, PopRefused);
    EmptyMeansTaken(queue, closed, log);
    if queue == [] {
      assert log + [] == log;
      assert closed ==> Closed in log + [PopRefused];
    } else {
      LogParts(log, Popped(queue[0]));
      assert queue == [queue[0]] + queue[1..];
      assert Accepted(log) == (Taken(log) + [queue[0]]) + queue[1..];
    }
  }

  lemma CloseMeans<T>(queue: seq<T>, closed: bool, log: seq<Event<T>>, wait: bool)
    requires InOrder(queue, closed, log)
    ensures var log' := log + CloseEffect(queue, wait).events;
            Accepted(log') == Accepted(log) && Taken(log') == Taken(log) && Closed in log'
  {
    LogParts(log, Closed);
    LogParts(log + [Closed], CloseReturned(wait));
    AppendTwo(log, Closed, CloseReturned(wait));
    assert CloseEffect(queue, wait).events[0] == Closed;
  }

  lemma RecheckMeans<T>(queue: seq<T>, log: seq<Event<T>>)
    requires InOrder(queue, true, log)
    ensures var log' := log + RecheckEffect(queue, true).events;
            Accepted(log') == Accepted(log) && Taken(log') == Taken(log) && Closed in log'
  {
    LogParts(log, CloseReturned(true));
    assert log + [] == log;
  }

  /** `log` remembers everything that was accepted, taken, refused or announced. */
  class Monitor<T> {
    const maxSize: nat
    var queue: seq<T>
    var closed: bool
    ghost var log: seq<Event<T>>

    ghost predicate Valid()
      reads this
    {
      Orderly(maxSize, queue, closed, log)
    }

    constructor (maxSize: nat := 1)
      ensures Valid() && this.maxSize == maxSize && !closed && log == []
    {
      this.maxSize, queue, closed, log := maxSize, [], false, [];
    }

    /** The passage is the one the step relation takes. */
    twostate predicate IsPassage(p: Pc<T>, waits: bool, notify: Notify)
      requires Runnable(p)
      reads this
    {
      var e := Passage(maxSize, old(queue), old(closed), p);
      queue == e.queue && closed == e.closed && waits == e.sleeps && notify == e.notify && log == old(log) + e.events
    }

    /** Enough threads were notified by a caller that came as `p`. */
    twostate predicate Notifies(p: Pc<T>, waits: bool, notify: Notify)
      requires Runnable(p)
      reads this
    {
      Serves(maxSize, |old(queue)|, old(closed), KindOf(p), notify, |queue|, closed, After(p, waits))
    }

    /** `push`, by a new caller or one that was woken: waits exactly when the queue is full and open, and
        refuses exactly after a close. */
    method Push(v: T) returns (waits: bool, ok: bool, notify: Notify)
      requires Valid()
      modifies this
      ensures Valid() && closed == old(closed)
      ensures waits <==> !old(closed) && |old(queue)| == maxSize
      ensures !waits ==> (ok <==> Closed !in old(log))
      ensures Accepted(log) == Accepted(old(log)) + (if !waits && ok then [v] else [])
      ensures Taken(log) == Taken(old(log))
      ensures notify == if !waits && ok then OneForData else Nobody
      ensures Notifies(PushStart(v), waits, notify) && Notifies(PushAwake(v), waits, notify)
      ensures IsPassage(PushStart(v), waits, notify)
    {
      waits, ok, notify := false, false, Nobody;
      if !closed && |queue| >= maxSize {
        waits := true;
      } else if closed {
        log := log + [PushRefused];
      } else {
        queue := queue + [v];
        ok, notify := true, OneForData;
        log := log + [Pushed(v)];
      }
      assert IsPassage(PushStart(v), waits, notify);
      assert Notifies(PushStart(v), waits, notify) && Notifies(PushAwake(v), waits, notify) by {
        PassageServes<T>(maxSize, old(queue), old(closed), PushStart(v));
        PassageServes<T>(maxSize, old(queue), old(closed), PushAwake(v));
      }
      assert Valid() by { PassageOrderly(maxSize, old(queue), old(closed), old(log), PushStart(v)); }
      PushMeans(maxSize, old(queue), old(closed), old(log), v);
    }

    /** `pop`, by a new caller or one that was woken: waits exactly when the queue is empty and open, gives out
        the oldest item not yet taken, and returns false only when nothing is left and nothing will come. */
    method Pop() returns (waits: bool, item: Option<T>, notify: Notify)
      requires Valid()
      modifies this
      ensures Valid() && closed == old(closed)
      ensures waits <==> old(queue) == [] && !old(closed)
      ensures item.None? <==> old(queue) == []
      ensures Taken(log) == Taken(old(log)) + (if item.Some? then [item.value] else [])
      ensures Accepted(log) == Accepted(old(log)) && Taken(log) <= Accepted(log)
      ensures !waits && item.None? ==> Drained(log)
      ensures notify == if item.None? then Nobody else if Drained(log) then AllForSpace else OneForSpace
      ensures Notifies(PopStart, waits, notify) && Notifies(PopAwake, waits, notify)
      ensures IsPassage(PopStart, waits, notify)
    {
      waits, item, notify := false, None, Nobody;
      if |queue| == 0 {
        if closed {
          log := log + [PopRefused];
        } else {
          waits := true;
        }
      } else {
        item := Some(queue[0]);
        queue := queue[1..];
        notify := if closed && |queue| == 0 then AllForSpace else OneForSpace;
        log := log + [Popped(item.value)];
      }
      assert IsPassage(PopStart, waits, notify);
      assert Notifies(PopStart, waits, notify) && Notifies(PopAwake, waits, notify) by {
        PassageServes<T>(maxSize, old(queue), old(closed), PopStart);
        PassageServes<T>(maxSize, old(queue), old(closed), PopAwake);
      }
      assert Valid() by { PassageOrderly(maxSize, old(queue), old(closed), old(log), PopStart); }
      PopMeans(old(queue), old(closed), old(log));
    }

    /** `close`: nothing is accepted from here on. With `wait` it returns at once exactly when everything
        accepted has been taken. */
    method Close(wait: bool) returns (waits: bool, notify: Notify)
      requires Valid()
      modifies this
      ensures Valid() && closed
      ensures waits <==> wait && Accepted(log) != Taken(log)
      ensures Accepted(log) == Accepted(old(log)) && Taken(log) == Taken(old(log)) && Closed in log
      ensures notify == Everybody
      ensures Notifies(CloseStart(wait), waits, notify)
      ensures IsPassage(CloseStart(wait), waits, notify)
    {
      closed := true;
      notify := Everybody;
      waits := wait && |queue| != 0;
      log := log + if waits then [Closed] else [Closed, CloseReturned(wait)];
      assert IsPassage(CloseStart(wait), waits, notify);
      assert Notifies(CloseStart(wait), waits, notify) by {
        PassageServes<T>(maxSize, old(queue), old(closed), CloseStart(wait));
      }
      assert Valid() by { PassageOrderly(maxSize, queue, old(closed), old(log), CloseStart(wait)); }
      EmptyMeansTaken(queue, old(closed), old(log));
      CloseMeans(queue, old(closed), old(log), wait);
    }

    /** The loop of `close(true)` after a wake-up: it returns exactly when everything accepted has been taken. */
    method Recheck() returns (waits: bool)
      requires Valid() && closed
      modifies this`log
      ensures Valid()
      ensures waits <==> Accepted(log) != Taken(log)
      ensures Accepted(log) == Accepted(old(log)) && Taken(log) == Taken(old(log))
      ensures !waits ==> Drained(log)
      ensures Notifies(CloseAwake, waits, Nobody)
      ensures IsPassage(CloseAwake, waits, Nobody)
    {
      waits := |queue| != 0;
      log := log + if waits then [] else [CloseReturned(true)];
      assert IsPassage(CloseAwake, waits, Nobody);
      assert Notifies(CloseAwake, waits, Nobody) by {
        PassageServes<T>(maxSize, old(queue), old(closed), CloseAwake);
      }
      assert Valid() by { PassageOrderly(maxSize, queue, closed, old(log), CloseAwake); }
      EmptyMeansTaken(queue, closed, old(log));
      RecheckMeans(queue, old(log));
    }
  }
}
