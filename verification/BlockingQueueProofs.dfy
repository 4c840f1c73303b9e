/** What every run of the bounded queue keeps: no wake-up is lost, items leave in the order they came, and
    closing means what its callers rely on. */
module BlockingQueueProofs {
  import opened Options
  import opened BlockingQueue

  // ---------- Counting sleepers and woken threads ----------

  datatype Kind = PopperAsleep | PopperAwake | PusherAsleep | PusherAwake | CloserAsleep | CloserAwake | Other

  function KindOf<T>(p: Pc<T>): Kind
  {
    match p
    case PopAsleep => PopperAsleep
    case PopAwake => PopperAwake
    case PushAsleep(_) => PusherAsleep
    case PushAwake(_) => PusherAwake
    case CloseAsleep => CloserAsleep
    case CloseAwake => CloserAwake
    case _ => Other
  }

  ghost function Members<T>(pc: map<nat, Pc<T>>, k: Kind): set<nat>
  {
    set t | t in pc && KindOf(pc[t]) == k
  }

  ghost function Count<T>(pc: map<nat, Pc<T>>, k: Kind): nat
  {
    |Members(pc, k)|
  }

  /** How many threads sleep, and how many were woken and have not run since. */
  datatype Tally = Tally(popAsleep: int, popAwake: int, pushAsleep: int, pushAwake: int,
                         closeAsleep: int, closeAwake: int)

  function Add(y: Tally, k: Kind, n: int): Tally
  {
    match k
    case PopperAsleep => y.(popAsleep := y.popAsleep + n)
    case PopperAwake => y.(popAwake := y.popAwake + n)
    case PusherAsleep => y.(pushAsleep := y.pushAsleep + n)
    case PusherAwake => y.(pushAwake := y.pushAwake + n)
    case CloserAsleep => y.(closeAsleep := y.closeAsleep + n)
    case CloserAwake => y.(closeAwake := y.closeAwake + n)
    case Other => y
  }

  ghost function TallyOf<T>(pc: map<nat, Pc<T>>): Tally
  {
    Tally(Count(pc, PopperAsleep), Count(pc, PopperAwake), Count(pc, PusherAsleep), Count(pc, PusherAwake),
          Count(pc, CloserAsleep), Count(pc, CloserAwake))
  }

  function One(b: bool): int
  {
    if b then 1 else 0
  }

  lemma CardinalityWithout(s: set<nat>, t: nat)
    ensures |s - {t}| == |s| - One(t in s)
  {
    if t !in s { assert s - {t} == s; }
  }

  lemma CountUpdate<T>(pc: map<nat, Pc<T>>, t: nat, p: Pc<T>, k: Kind)
    requires t in pc
    ensures Count(pc[t := p], k) == Count(pc, k) - One(KindOf(pc[t]) == k) + One(KindOf(p) == k)
  {
    var before, after := Members(pc, k), Members(pc[t := p], k);
    CardinalityWithout(before, t);
    CardinalityWithout(after, t);
    assert before - {t} == after - {t};
  }

  /** The tally after one thread moves. */
  lemma Moves<T>(pc: map<nat, Pc<T>>, t: nat, p: Pc<T>)
    requires t in pc
    ensures TallyOf(pc[t := p]) == Add(Add(TallyOf(pc), KindOf(pc[t]), -1), KindOf(p), 1)
  {
    CountUpdate(pc, t, p, PopperAsleep);
    CountUpdate(pc, t, p, PopperAwake);
    CountUpdate(pc, t, p, PusherAsleep);
    CountUpdate(pc, t, p, PusherAwake);
    CountUpdate(pc, t, p, CloserAsleep);
    CountUpdate(pc, t, p, CloserAwake);
  }

  lemma CountZero<T>(pc: map<nat, Pc<T>>, k: Kind)
    requires forall t :: t in pc ==> KindOf(pc[t]) != k
    ensures Count(pc, k) == 0
  {
    assert Members(pc, k) == {};
  }

  // ---------- No lost wake-ups ----------

  /** Sleepers are owed nothing that the threads already woken will not see to. */
  predicate Owed(cap: nat, len: nat, closed: bool, y: Tally)
  {
    && (y.popAsleep > 0 ==> !closed && len <= y.popAwake)
    && (y.pushAsleep > 0 ==> !closed && cap - len <= y.pushAwake)
    && (y.closeAsleep > 0 ==> closed && len > 0)
    && (y.closeAwake > 0 ==> closed)
  }

  ghost predicate NoLostWakeup<T>(s: State<T>)
  {
    Owed(s.cap, |s.queue|, s.closed, TallyOf(s.pc))
  }

  /** The tally is one of threads: nothing in it is negative, and a thread of kind `k` is counted. */
  predicate Counts(y: Tally, k: Kind)
  {
    && y.popAsleep >= 0 && y.popAwake >= 0 && y.pushAsleep >= 0 && y.pushAwake >= 0
    && y.closeAsleep >= 0 && y.closeAwake >= 0
    && (k.PopperAsleep? ==> y.popAsleep > 0)
    && (k.PopperAwake? ==> y.popAwake > 0)
    && (k.PusherAsleep? ==> y.pushAsleep > 0)
    && (k.PusherAwake? ==> y.pushAwake > 0)
    && (k.CloserAsleep? ==> y.closeAsleep > 0)
    && (k.CloserAwake? ==> y.closeAwake > 0)
  }

  lemma ThreadCounts<T>(pc: map<nat, Pc<T>>, t: nat)
    requires t in pc
    ensures Counts(TallyOf(pc), KindOf(pc[t]))
  {
    assert t in Members(pc, KindOf(pc[t]));
  }

  /** What a notification does to the tally. */
  predicate Wakes(n: Notify, y: Tally, y': Tally)
  {
    match n
    case Nobody => y' == y
    case OneForData =>
      if y.popAsleep == 0 then y' == y
      else y' == y.(popAsleep := y.popAsleep - 1, popAwake := y.popAwake + 1)
    case OneForSpace =>
      || (y.pushAsleep == 0 && y.closeAsleep == 0 && y' == y)
      || (y.pushAsleep > 0 && y' == y.(pushAsleep := y.pushAsleep - 1, pushAwake := y.pushAwake + 1))
      || (y.closeAsleep > 0 && y' == y.(closeAsleep := y.closeAsleep - 1, closeAwake := y.closeAwake + 1))
    case AllForSpace => y'.pushAsleep == 0 && y'.closeAsleep == 0 && y'.popAsleep == y.popAsleep
    case Everybody => y'.pushAsleep == 0 && y'.closeAsleep == 0 && y'.popAsleep == 0
  }

  lemma WakesPicked<T>(pc: map<nat, Pc<T>>, u: nat, n: Notify)
    requires u in pc
    requires (n.OneForData? && ForData(pc[u])) || (n.OneForSpace? && ForSpace(pc[u]))
    ensures Wakes(n, TallyOf(pc), TallyOf(pc[u := Woken(pc[u])]))
  {
    var y, y' := TallyOf(pc), TallyOf(pc[u := Woken(pc[u])]);
    Moves(pc, u, Woken(pc[u]));
    ThreadCounts(pc, u);
    WakesMoved(pc[u], n, y, y');
  }

  lemma WakesMoved<T>(p: Pc<T>, n: Notify, y: Tally, y': Tally)
    requires (n.OneForData? && ForData(p)) || (n.OneForSpace? && ForSpace(p))
    requires Counts(y, KindOf(p)) && y' == Add(Add(y, KindOf(p), -1), KindOf(Woken(p)), 1)
    ensures Wakes(n, y, y')
  {
  }

  lemma WakesNobodyLeft<T>(pc: map<nat, Pc<T>>, n: Notify)
    requires n.OneForData? || n.OneForSpace?
    requires PickOk(pc, n, None)
    ensures Wakes(n, TallyOf(pc), TallyOf(pc))
  {
    if n.OneForData? {
      CountZero(pc, PopperAsleep);
    } else {
      CountZero(pc, PusherAsleep);
      CountZero(pc, CloserAsleep);
    }
  }

  lemma WakesAll<T>(pc: map<nat, Pc<T>>, n: Notify)
    requires n.AllForSpace? || n.Everybody?
    ensures Wakes(n, TallyOf(pc), TallyOf(Notified(pc, n, None)))
  {
    var pc' := Notified(pc, n, None);
    CountZero(pc', PusherAsleep);
    CountZero(pc', CloserAsleep);
    if n.Everybody? {
      CountZero(pc', PopperAsleep);
    } else {
      assert Members(pc', PopperAsleep) == Members(pc, PopperAsleep);
    }
  }

  lemma NotifiedWakes<T>(pc: map<nat, Pc<T>>, n: Notify, pick: Option<nat>)
    requires PickOk(pc, n, pick)
    ensures Wakes(n, TallyOf(pc), TallyOf(Notified(pc, n, pick)))
  {
    match n
    case Nobody =>
    case AllForSpace => WakesAll(pc, n);
    case Everybody => WakesAll(pc, n);
    case _ => if pick.Some? { WakesPicked(pc, pick.value, n); } else { WakesNobodyLeft(pc, n); }
  }

  /** A passage through the monitor leaves nobody owed, whatever the tally of the other threads. */
  lemma PassageOwes<T>(cap: nat, queue: seq<T>, closed: bool, p: Pc<T>, y: Tally, y1: Tally)
    requires Runnable(p) && Counts(y, KindOf(p)) && Owed(cap, |queue|, closed, y)
    requires Wakes(Passage(cap, queue, closed, p).notify, y, y1)
    ensures var e := Passage(cap, queue, closed, p);
            var p' := if e.sleeps then Asleep(p) else Idle;
            Owed(cap, |e.queue|, e.closed, Add(Add(y1, KindOf(p), -1), KindOf(p'), 1))
  {
  }

  lemma WokenOwes<T>(cap: nat, len: nat, closed: bool, p: Pc<T>, y: Tally)
    requires Owed(cap, len, closed, y) && Counts(y, KindOf(p))
    ensures Owed(cap, len, closed, Add(Add(y, KindOf(p), -1), KindOf(Woken(p)), 1))
  {
  }

  lemma StepKeepsWakeups<T>(s: State<T>, a: Step<T>)
    requires NoLostWakeup(s) && Enabled(s, a)
    ensures NoLostWakeup(Next(s, a))
  {
    var y := TallyOf(s.pc);
    match a
    case Call(t, entry) =>
      Moves(s.pc, t, entry);
    case Spurious(t) =>
      Moves(s.pc, t, Woken(s.pc[t]));
      ThreadCounts(s.pc, t);
      WokenOwes(s.cap, |s.queue|, s.closed, s.pc[t], y);
    case Pass(t, pick) =>
      var e := Passage(s.cap, s.queue, s.closed, s.pc[t]);
      var pc' := Notified(s.pc, e.notify, pick);
      NotifiedWakes(s.pc, e.notify, pick);
      ThreadCounts(s.pc, t);
      PassageOwes(s.cap, s.queue, s.closed, s.pc[t], y, TallyOf(pc'));
      WokenRunnable(s.pc, e.notify, pick, t);
      Moves(pc', t, if e.sleeps then Asleep(s.pc[t]) else Idle);
  }

  lemma InitWakeups<T>(s: State<T>)
    requires Init(s)
    ensures NoLostWakeup(s)
  {
    CountZero(s.pc, PopperAsleep);
    CountZero(s.pc, PusherAsleep);
    CountZero(s.pc, CloserAsleep);
    CountZero(s.pc, CloserAwake);
  }

  // ---------- Order, capacity and closing ----------

  function Accepted<T>(log: seq<Event<T>>): seq<T>
  {
    if log == [] then []
    else
      var ev := log[|log| - 1];
      Accepted(log[..|log| - 1]) + if ev.Pushed? then [ev.item] else []
  }

  function Taken<T>(log: seq<Event<T>>): seq<T>
  {
    if log == [] then []
    else
      var ev := log[|log| - 1];
      Taken(log[..|log| - 1]) + if ev.Popped? then [ev.item] else []
  }

  /** A caller was told that nothing more will come: `pop` returned false or `close(true)` returned. */
  predicate Ends<T>(ev: Event<T>)
  {
    ev.PopRefused? || ev == CloseReturned(true)
  }

  /** At `i` a close had happened, and everything ever accepted had been taken. */
  ghost predicate DrainedAt<T>(log: seq<Event<T>>, i: nat)
    requires i <= |log|
  {
    Closed in log[..i] && Accepted(log[..i]) == Taken(log[..i])
  }

  /** No push is accepted after a close, pushes are refused only after one, and once a caller was told that
      nothing more will come, everything accepted has been taken and nothing moves any more. */
  ghost predicate ClosingMeans<T>(log: seq<Event<T>>)
  {
    && (forall i, j :: 0 <= i < j < |log| && log[i].Closed? ==> !log[j].Pushed?)
    && (forall j :: 0 <= j < |log| && log[j].PushRefused? ==> Closed in log[..j])
    && (forall i {:trigger DrainedAt(log, i)} :: 0 <= i < |log| && Ends(log[i]) ==> DrainedAt(log, i))
    && (forall i, j :: 0 <= i < j < |log| && Ends(log[i]) ==> !log[j].Pushed? && !log[j].Popped?)
  }

  ghost predicate Orderly<T>(cap: nat, queue: seq<T>, closed: bool, log: seq<Event<T>>)
  {
    && |queue| <= cap
    && Accepted(log) == Taken(log) + queue
    && (closed <==> Closed in log)
    && ((exists i :: 0 <= i < |log| && Ends(log[i])) ==> closed && queue == [])
    && ClosingMeans(log)
  }

  /** When an event may be logged, and what it does to the queue. */
  ghost predicate Fits<T>(cap: nat, queue: seq<T>, closed: bool, ev: Event<T>, queue': seq<T>, closed': bool)
  {
    match ev
    case Pushed(v) => !closed && |queue| < cap && queue' == queue + [v] && closed' == closed
    case Popped(v) => queue == [v] + queue' && closed' == closed
    case PushRefused => closed && queue' == queue && closed' == closed
    case PopRefused => closed && queue == [] && queue' == queue && closed' == closed
    case Closed => queue' == queue && closed'
    case CloseReturned(w) => closed && (w ==> queue == []) && queue' == queue && closed' == closed
  }

  lemma OrderAppends<T>(queue: seq<T>, log: seq<Event<T>>, ev: Event<T>, queue': seq<T>, cap: nat,
                        closed: bool, closed': bool)
    requires Accepted(log) == Taken(log) + queue && Fits(cap, queue, closed, ev, queue', closed')
    ensures Accepted(log + [ev]) == Taken(log + [ev]) + queue'
  {
    assert (log + [ev])[..|log|] == log;
  }

  lemma LogParts<T>(log: seq<Event<T>>, ev: Event<T>)
    ensures Accepted(log + [ev]) == Accepted(log) + if ev.Pushed? then [ev.item] else []
    ensures Taken(log + [ev]) == Taken(log) + if ev.Popped? then [ev.item] else []
  {
    assert (log + [ev])[..|log|] == log;
  }

  lemma DrainedStays<T>(log: seq<Event<T>>, ev: Event<T>, i: nat)
    requires i <= |log|
    ensures DrainedAt(log + [ev], i) <==> DrainedAt(log, i)
  {
    assert (log + [ev])[..i] == log[..i];
  }

  lemma ClosingAppends<T>(cap: nat, queue: seq<T>, closed: bool, log: seq<Event<T>>, ev: Event<T>,
                          queue': seq<T>, closed': bool)
    requires Orderly(cap, queue, closed, log) && Fits(cap, queue, closed, ev, queue', closed')
    ensures ClosingMeans(log + [ev])
  {
    var log', n := log + [ev], |log|;
    assert log'[..n] == log;
    forall i | 0 <= i < |log'| && Ends(log'[i])
      ensures DrainedAt(log', i)
    {
      if i < n {
        assert log'[i] == log[i];
        DrainedStays(log, ev, i);
      }
    }
    forall j | 0 <= j < |log'| && log'[j].PushRefused?
      ensures Closed in log'[..j]
    {
      if j < n {
        assert log'[j] == log[j] && log'[..j] == log[..j];
      }
    }
  }

  lemma LogAppends<T>(cap: nat, queue: seq<T>, closed: bool, log: seq<Event<T>>, ev: Event<T>,
                      queue': seq<T>, closed': bool)
    requires Orderly(cap, queue, closed, log) && Fits(cap, queue, closed, ev, queue', closed')
    ensures Orderly(cap, queue', closed', log + [ev])
  {
    var log' := log + [ev];
    OrderAppends(queue, log, ev, queue', cap, closed, closed');
    ClosingAppends(cap, queue, closed, log, ev, queue', closed');
    if i :| 0 <= i < |log'| && Ends(log'[i]) {
      if i < |log| { assert log'[i] == log[i]; }
    }
  }

  lemma CloseOrderly<T>(cap: nat, queue: seq<T>, closed: bool, log: seq<Event<T>>, wait: bool)
    requires Orderly(cap, queue, closed, log)
    ensures Orderly(cap, queue, true, log + CloseEffect(queue, wait).events)
  {
    LogAppends(cap, queue, closed, log, Closed, queue, true);
    if !(wait && queue != []) {
      LogAppends(cap, queue, true, log + [Closed], CloseReturned(wait), queue, true);
      AppendTwo(log, Closed, CloseReturned(wait));
    }
  }

  lemma AppendTwo<T>(log: seq<T>, a: T, b: T)
    ensures log + [a] + [b] == log + [a, b]
  {
  }

  lemma OneEventOrderly<T>(cap: nat, queue: seq<T>, closed: bool, log: seq<Event<T>>, e: Effect<T>)
    requires Orderly(cap, queue, closed, log)
    requires if e.events == [] then e.queue == queue && e.closed == closed
             else |e.events| == 1 && Fits(cap, queue, closed, e.events[0], e.queue, e.closed)
    ensures Orderly(cap, e.queue, e.closed, log + e.events)
  {
    if e.events == [] {
      assert log + e.events == log;
    } else {
      LogAppends(cap, queue, closed, log, e.events[0], e.queue, e.closed);
      assert e.events == [e.events[0]];
    }
  }

  lemma PassageFits<T>(cap: nat, queue: seq<T>, closed: bool, p: Pc<T>)
    requires Runnable(p) && !p.CloseStart? && (p.CloseAwake? ==> closed)
    ensures var e := Passage(cap, queue, closed, p);
            if e.events == [] then e.queue == queue && e.closed == closed
            else |e.events| == 1 && Fits(cap, queue, closed, e.events[0], e.queue, e.closed)
  {
  }

  lemma PassageOrderly<T>(cap: nat, queue: seq<T>, closed: bool, log: seq<Event<T>>, p: Pc<T>)
    requires Orderly(cap, queue, closed, log) && Runnable(p) && (p.CloseAwake? ==> closed)
    ensures var e := Passage(cap, queue, closed, p);
            Orderly(cap, e.queue, e.closed, log + e.events)
  {
    var e := Passage(cap, queue, closed, p);
    if p.CloseStart? {
      assert e == CloseEffect(queue, p.wait) && e.queue == queue && e.closed;
      CloseOrderly(cap, queue, closed, log, p.wait);
    } else {
      PassageFits(cap, queue, closed, p);
      OneEventOrderly(cap, queue, closed, log, e);
    }
  }

  // ---------- Runs ----------

  ghost predicate Invariant<T>(s: State<T>)
  {
    NoLostWakeup(s) && Orderly(s.cap, s.queue, s.closed, s.log)
  }

  lemma StepKeepsInvariant<T>(s: State<T>, a: Step<T>)
    requires Invariant(s) && Enabled(s, a)
    ensures Invariant(Next(s, a))
  {
    StepKeepsWakeups(s, a);
    if a.Pass? {
      ThreadCounts(s.pc, a.t);
      PassageOrderly(s.cap, s.queue, s.closed, s.log, s.pc[a.t]);
    }
  }

  /** The invariant holds in every state of every run, with any threads and any scheduling. */
  lemma {:induction false} RunKeepsInvariant<T>(states: seq<State<T>>, steps: seq<Step<T>>, i: nat)
    requires Run(states, steps) && i < |states|
    ensures Invariant(states[i])
  {
    if i == 0 {
      InitWakeups(states[0]);
    } else {
      RunKeepsInvariant(states, steps, i - 1);
      StepKeepsInvariant(states[i - 1], steps[i - 1]);
    }
  }

  ghost predicate SomeIn<T>(s: State<T>, k: Kind)
  {
    exists t :: t in s.pc && KindOf(s.pc[t]) == k
  }

  lemma SomeCounts<T>(s: State<T>, k: Kind)
    ensures SomeIn(s, k) <==> Count(s.pc, k) > 0
  {
    if t :| t in s.pc && KindOf(s.pc[t]) == k {
      assert t in Members(s.pc, k);
    }
    if Count(s.pc, k) > 0 {
      var t :| t in Members(s.pc, k);
    }
  }

  /** No wake-up is lost: while a popper sleeps there are at least as many woken poppers as items, while a
      pusher sleeps at least as many woken pushers as free slots, and after a close only callers of
      `close(true)` sleep, and only while items remain. */
  lemma SleepersAreServed<T>(states: seq<State<T>>, steps: seq<Step<T>>, i: nat)
    requires Run(states, steps) && i < |states|
    ensures var s := states[i];
            && (SomeIn(s, PopperAsleep) ==> !s.closed && |s.queue| <= |Members(s.pc, PopperAwake)|)
            && (SomeIn(s, PusherAsleep) ==> !s.closed && s.cap - |s.queue| <= |Members(s.pc, PusherAwake)|)
            && (SomeIn(s, CloserAsleep) ==> s.closed && s.queue != [])
  {
    RunKeepsInvariant(states, steps, i);
    SomeCounts(states[i], PopperAsleep);
    SomeCounts(states[i], PusherAsleep);
    SomeCounts(states[i], CloserAsleep);
  }

  /** When no thread can run, whoever sleeps has nothing to do: poppers face an empty open queue, pushers a
      full open one, and with room for at least one item the two never sleep together. */
  lemma StuckMeansNothingToDo<T>(states: seq<State<T>>, steps: seq<Step<T>>, i: nat)
    requires Run(states, steps) && i < |states|
    requires forall t :: t in states[i].pc ==> !Runnable(states[i].pc[t])
    ensures var s := states[i];
            && (SomeIn(s, PopperAsleep) ==> !s.closed && s.queue == [])
            && (SomeIn(s, PusherAsleep) ==> !s.closed && |s.queue| == s.cap)
            && (SomeIn(s, PopperAsleep) && SomeIn(s, PusherAsleep) ==> s.cap == 0)
            && (s.closed && s.queue == [] ==> forall t :: t in s.pc ==> s.pc[t].Idle?)
  {
    var s := states[i];
    SleepersAreServed(states, steps, i);
    RunKeepsInvariant(states, steps, i);
    CountZero(s.pc, PopperAwake);
    CountZero(s.pc, PusherAwake);
    forall t | t in s.pc && s.closed && s.queue == []
      ensures s.pc[t].Idle?
    {
      var k := KindOf(s.pc[t]);
      assert SomeIn(s, k);
    }
  }

  /** Items leave in the order they were accepted, the capacity is kept, and closing means what it promises. */
  lemma RunsAreOrderly<T>(states: seq<State<T>>, steps: seq<Step<T>>, i: nat)
    requires Run(states, steps) && i < |states|
    ensures var s := states[i];
            && Accepted(s.log) == Taken(s.log) + s.queue
            && |s.queue| <= s.cap
            && (s.closed <==> Closed in s.log)
            && ClosingMeans(s.log)
  {
    RunKeepsInvariant(states, steps, i);
  }

  /** The log only grows, so what was said of it once stays said. */
  lemma {:induction false} LogGrows<T>(states: seq<State<T>>, steps: seq<Step<T>>, i: nat, j: nat)
    requires Run(states, steps) && i <= j < |states|
    ensures states[i].log <= states[j].log
  {
    if i < j {
      LogGrows(states, steps, i, j - 1);
      assert states[j] == Next(states[j - 1], steps[j - 1]);
    }
  }

  /** Once `pop` has returned false or `close(true)` has returned, the items taken are, at every later point
      of the run, exactly the items ever accepted. */
  lemma EndIsFinal<T>(states: seq<State<T>>, steps: seq<Step<T>>, i: nat, j: nat, e: nat)
    requires Run(states, steps) && i <= j < |states|
    requires e < |states[i].log| && Ends(states[i].log[e])
    ensures Taken(states[j].log) == Accepted(states[j].log) == Accepted(states[i].log)
  {
    LogGrows(states, steps, i, j);
    RunKeepsInvariant(states, steps, i);
    RunKeepsInvariant(states, steps, j);
    assert Ends(states[j].log[e]);
    NothingMoves(states[j].log, e, |states[i].log|);
    assert states[j].log[..|states[i].log|] == states[i].log;
    assert Taken(states[j].log) + [] == Taken(states[j].log);
  }

  lemma {:induction false} NothingMoves<T>(log: seq<Event<T>>, e: nat, n: nat)
    requires ClosingMeans(log) && e < n <= |log| && Ends(log[e])
    ensures Accepted(log) == Accepted(log[..n])
    decreases |log|
  {
    if n == |log| {
      assert log[..n] == log;
    } else {
      var shorter := log[..|log| - 1];
      PrefixCloses(log, |log| - 1);
      NothingMoves(shorter, e, n);
      assert shorter[..n] == log[..n];
      LastNotPushed(log);
    }
  }

  lemma LastNotPushed<T>(log: seq<Event<T>>)
    requires log != [] && !log[|log| - 1].Pushed?
    ensures Accepted(log) == Accepted(log[..|log| - 1])
  {
    var shorter := log[..|log| - 1];
    assert Accepted(shorter) + [] == Accepted(shorter);
  }

  lemma PrefixCloses<T>(log: seq<Event<T>>, m: nat)
    requires ClosingMeans(log) && m <= |log|
    ensures ClosingMeans(log[..m])
  {
    var log' := log[..m];
    forall i | 0 <= i < |log'| && Ends(log'[i])
      ensures DrainedAt(log', i)
    {
      assert log'[..i] == log[..i];
      assert DrainedAt(log, i);
    }
    forall j | 0 <= j < |log'| && log'[j].PushRefused?
      ensures Closed in log'[..j]
    {
      assert log'[..j] == log[..j];
    }
  }
}
