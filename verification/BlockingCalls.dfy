/** What becomes of every call on the queue: it stays the call it is, with the item it carries, until it returns,
    and it returns once. */
module BlockingCalls {
  import opened Options
  import opened BlockingQueue

  /** The call a thread is in. */
  datatype Call<T> = Nothing | Pushing(v: T) | Popping | Closing(wait: bool)

  function CallOf<T>(p: Pc<T>): Call<T>
  {
    match p
    case Idle => Nothing
    case PushStart(v) => Pushing(v)
    case PushAsleep(v) => Pushing(v)
    case PushAwake(v) => Pushing(v)
    case PopStart => Popping
    case PopAsleep => Popping
    case PopAwake => Popping
    case CloseStart(wait) => Closing(wait)
    case CloseAsleep => Closing(true)
    case CloseAwake => Closing(true)
  }

  /** The event is a return of the call. */
  ghost predicate IsReturnOf<T>(ev: Event<T>, c: Call<T>)
  {
    match c
    case Nothing => false
    case Pushing(v) => ev == Pushed(v) || ev == PushRefused
    case Popping => ev.Popped? || ev == PopRefused
    case Closing(wait) => ev == CloseReturned(wait)
  }

  predicate IsReturn<T>(ev: Event<T>)
  {
    !ev.Closed?
  }

  function Returns<T>(log: seq<Event<T>>): nat
  {
    if log == [] then 0 else Returns(log[..|log| - 1]) + if IsReturn(log[|log| - 1]) then 1 else 0
  }

  lemma {:induction false} ReturnsAppend<T>(log: seq<Event<T>>, more: seq<Event<T>>)
    ensures Returns(log + more) == Returns(log) + Returns(more)
    decreases more
  {
    if more == [] {
      assert log + more == log;
    } else {
      ReturnsAppend(log, more[..|more| - 1]);
      assert (log + more)[..|log + more| - 1] == log + more[..|more| - 1];
    }
  }

  /** The thread waits on the condition its call is about: poppers for data, the others for space. */
  predicate WaitsRightly<T>(p: Pc<T>)
  {
    match CallOf(p)
    case Nothing => false
    case Popping => ForData(p) && !Runnable(p)
    case _ => ForSpace(p) && !Runnable(p)
  }

  /** A passage either leaves the call and the log as they are, but for a close being announced, and the thread
      waiting; or it returns, once, from the call it was in. */
  lemma PassageReturns<T>(cap: nat, queue: seq<T>, closed: bool, p: Pc<T>)
    requires Runnable(p)
    ensures var e := Passage(cap, queue, closed, p);
            && (e.sleeps ==> CallOf(Asleep(p)) == CallOf(p) && WaitsRightly(Asleep(p)) && Returns(e.events) == 0)
            && (!e.sleeps ==>
                  e.events != [] && IsReturnOf(e.events[|e.events| - 1], CallOf(p)) && Returns(e.events) == 1)
  {
    var e := Passage(cap, queue, closed, p);
    assert Returns<T>([]) == 0;
    if p.CloseStart? && !e.sleeps {
      assert e.events[..1] == [Closed] && [Closed][..0] == e.events[..0];
    }
    if |e.events| == 1 { assert e.events[..0] == []; }
  }

  lemma WakingKeepsCall<T>(pc: map<nat, Pc<T>>, n: Notify, pick: Option<nat>, t: nat)
    requires PickOk(pc, n, pick) && t in pc
    ensures CallOf(Notified(pc, n, pick)[t]) == CallOf(pc[t])
  {
  }

  /** What one step does to the call of one thread: it begins, goes on, or returns with its own event. */
  ghost predicate CallStep<T>(s: State<T>, a: Step<T>, s': State<T>, t: nat)
    requires t in s.pc && t in s'.pc
  {
    match CallOf(s.pc[t])
    case Nothing => s'.pc[t] == s.pc[t] || (a.Call? && a.t == t && s'.pc[t] == a.entry && s'.log == s.log)
    case c => CallOf(s'.pc[t]) == c || ReturnStep(s, a, s', t, c)
  }

  /** Thread `t` passes the monitor, logs a return of `c` and is free again. */
  ghost predicate ReturnStep<T>(s: State<T>, a: Step<T>, s': State<T>, t: nat, c: Call<T>)
  {
    && a.Pass? && a.t == t && t in s'.pc && s'.pc[t] == Idle
    && s.log < s'.log && IsReturnOf(s'.log[|s'.log| - 1], c)
  }

  lemma StepKeepsCall<T>(s: State<T>, a: Step<T>, t: nat)
    requires Enabled(s, a) && t in s.pc
    ensures t in Next(s, a).pc && CallStep(s, a, Next(s, a), t)
  {
    if a.Pass? {
      var e := Passage(s.cap, s.queue, s.closed, s.pc[a.t]);
      PassageReturns(s.cap, s.queue, s.closed, s.pc[a.t]);
      WakingKeepsCall(s.pc, e.notify, a.pick, t);
      WokenRunnable(s.pc, e.notify, a.pick, a.t);
      if !e.sleeps { assert (s.log + e.events)[|s.log + e.events| - 1] == e.events[|e.events| - 1]; }
    }
  }

  // ---------- Runs ----------

  ghost predicate InCall<T>(s: State<T>, t: nat, c: Call<T>)
  {
    t in s.pc && CallOf(s.pc[t]) == c
  }

  /** In every run a thread inside a call, `push` with its item included, is inside it still, or was until the step
      at which it returned from it. */
  lemma {:induction false} CallsAreKept<T>(states: seq<State<T>>, steps: seq<Step<T>>, i: nat, j: nat, t: nat,
                                           c: Call<T>)
      returns (k: nat)
    requires Run(states, steps) && i <= j < |states| && InCall(states[i], t, c) && c != Nothing
    ensures i <= k <= j && forall n :: i <= n <= k ==> InCall(states[n], t, c)
    ensures k < j ==> ReturnStep(states[k], steps[k], states[k + 1], t, c)
  {
    if i == j {
      k := j;
    } else {
      k := CallsAreKept(states, steps, i, j - 1, t, c);
      if k == j - 1 {
        StepKeepsCall(states[k], steps[k], t);
        if InCall(states[j], t, c) { k := j; }
      }
    }
  }

  ghost function Busy<T>(pc: map<nat, Pc<T>>): set<nat>
  {
    set t | t in pc && CallOf(pc[t]) != Nothing
  }

  function Begun<T>(steps: seq<Step<T>>): nat
  {
    if steps == [] then 0 else Begun(steps[..|steps| - 1]) + if steps[|steps| - 1].Call? then 1 else 0
  }

  /** Calls begun are calls returned and calls under way. */
  ghost predicate Accounted<T>(s: State<T>, begun: nat)
  {
    begun == Returns(s.log) + |Busy(s.pc)|
  }

  lemma WithoutOne(s: set<nat>, t: nat)
    ensures |s - {t}| + (if t in s then 1 else 0) == |s|
  {
    if t !in s { assert s - {t} == s; }
  }

  lemma BusyUpdate<T>(pc: map<nat, Pc<T>>, t: nat, p: Pc<T>)
    requires t in pc
    ensures |Busy(pc[t := p])| + (if CallOf(pc[t]) == Nothing then 0 else 1)
         == |Busy(pc)| + if CallOf(p) == Nothing then 0 else 1
  {
    var before, after := Busy(pc), Busy(pc[t := p]);
    assert before - {t} == after - {t};
    WithoutOne(before, t);
    WithoutOne(after, t);
  }

  lemma WakingKeepsBusy<T>(pc: map<nat, Pc<T>>, n: Notify, pick: Option<nat>)
    requires PickOk(pc, n, pick)
    ensures Busy(Notified(pc, n, pick)) == Busy(pc)
  {
    forall t | t in pc
      ensures CallOf(Notified(pc, n, pick)[t]) == CallOf(pc[t])
    {
      WakingKeepsCall(pc, n, pick, t);
    }
  }

  lemma PassAccounted<T>(s: State<T>, t: nat, pick: Option<nat>, begun: nat)
    requires Accounted(s, begun) && Enabled(s, Pass(t, pick))
    ensures Accounted(Next(s, Pass(t, pick)), begun)
  {
    var e := Passage(s.cap, s.queue, s.closed, s.pc[t]);
    var pc' := Notified(s.pc, e.notify, pick);
    ReturnsAppend(s.log, e.events);
    PassageReturns(s.cap, s.queue, s.closed, s.pc[t]);
    WakingKeepsBusy(s.pc, e.notify, pick);
    WokenRunnable(s.pc, e.notify, pick, t);
    BusyUpdate(pc', t, if e.sleeps then Asleep(pc'[t]) else Idle);
  }

  lemma StepAccounted<T>(s: State<T>, a: Step<T>, begun: nat)
    requires Accounted(s, begun) && Enabled(s, a)
    ensures Accounted(Next(s, a), begun + if a.Call? then 1 else 0)
  {
    match a
    case Call(t, entry) => BusyUpdate(s.pc, t, entry);
    case Spurious(t) => BusyUpdate(s.pc, t, Woken(s.pc[t]));
    case Pass(t, pick) => PassAccounted(s, t, pick, begun);
  }

  /** In every run, as many calls have begun as have returned or are under way. */
  lemma {:induction false} CallsAccounted<T>(states: seq<State<T>>, steps: seq<Step<T>>, i: nat)
    requires Run(states, steps) && i < |states|
    ensures Accounted(states[i], Begun(steps[..i]))
  {
    if i == 0 {
      assert Busy(states[0].pc) == {};
    } else {
      CallsAccounted(states, steps, i - 1);
      StepAccounted(states[i - 1], steps[i - 1], Begun(steps[..i - 1]));
      assert steps[..i][..i - 1] == steps[..i - 1];
    }
  }

  /** The step relation leaves nothing out: a free thread may call anything, one at the mutex may pass, whoever
      sleeps, and one that sleeps may wake for no reason. */
  lemma NothingIsBarred<T>(s: State<T>, t: nat, entry: Pc<T>) returns (pick: Option<nat>)
    requires t in s.pc && (entry.PushStart? || entry.PopStart? || entry.CloseStart?)
    ensures s.pc[t].Idle? ==> Enabled(s, Call(t, entry))
    ensures s.pc[t].PushAsleep? || s.pc[t].PopAsleep? || s.pc[t].CloseAsleep? ==> Enabled(s, Spurious(t))
    ensures Runnable(s.pc[t]) ==> Enabled(s, Pass(t, pick))
    ensures s.pc[t].Idle? || Runnable(s.pc[t]) || s.pc[t].PushAsleep? || s.pc[t].PopAsleep? || s.pc[t].CloseAsleep?
  {
    pick := None;
    if Runnable(s.pc[t]) {
      var n := Passage(s.cap, s.queue, s.closed, s.pc[t]).notify;
      if n.OneForData? {
        if u :| u in s.pc && ForData(s.pc[u]) { pick := Some(u); }
      } else if n.OneForSpace? {
        if u :| u in s.pc && ForSpace(s.pc[u]) { pick := Some(u); }
      }
    }
  }
}
