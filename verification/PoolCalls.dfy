/** What becomes of every call of `poolChanged`: each one begins an update, is refused, or is turned away, and the
    calls are the notifications and the reruns that a refusal asked for. */
module PoolCalls {
  import opened PoolUpdate

  // ---------- When an update is followed by another ----------

  /** A call was refused since an update last began or ended. */
  predicate RefusedSince(log: seq<Event>)
  {
    log != [] &&
    match log[|log| - 1]
    case Refusal => true
    case Began => false
    case Ended => false
    case _ => RefusedSince(log[..|log| - 1])
  }

  /** Neither a begin nor an end follows position `k`. */
  ghost predicate QuietAfter(log: seq<Event>, k: nat)
  {
    forall j :: k < j < |log| ==> log[j] != Began && log[j] != Ended
  }

  /** The scan says exactly that some refusal has no begin and no end after it. */
  lemma {:induction false} RefusedSinceExact(log: seq<Event>)
    ensures RefusedSince(log) <==> exists k :: 0 <= k < |log| && log[k] == Refusal && QuietAfter(log, k)
  {
    if log != [] {
      var n := |log| - 1;
      var shorter := log[..n];
      RefusedSinceExact(shorter);
      if log[n] == Refusal {
        assert QuietAfter(log, n);
      } else if log[n] != Began && log[n] != Ended {
        if k :| 0 <= k < |shorter| && shorter[k] == Refusal && QuietAfter(shorter, k) {
          assert log[k] == Refusal && QuietAfter(log, k);
        }
        if k :| 0 <= k < |log| && log[k] == Refusal && QuietAfter(log, k) {
          assert shorter[k] == Refusal && QuietAfter(shorter, k);
        }
      }
    }
  }

  lemma RefusedAppend(log: seq<Event>, e: Event)
    ensures RefusedSince(log + [e]) <==> e == Refusal || (e != Began && e != Ended && RefusedSince(log))
  {
    assert (log + [e])[..|log|] == log;
  }

  /** The guard asks for another update exactly when a call was refused during this one. */
  ghost predicate Required(s: State)
  {
    s.guard == UPDATE_REQUIRED <==> RefusedSince(s.log)
  }

  lemma LoadRequired(s: State, t: nat)
    requires Required(s) && Enabled(s, Load(t))
    ensures Required(Next(s, Load(t)))
  {
    var s' := Next(s, Load(t));
    if s'.log != s.log {
      var e := s'.log[|s.log|];
      assert s'.log == s.log + [e];
      RefusedAppend(s.log, e);
    }
  }

  lemma SwapRequired(s: State, t: nat, ok: bool)
    requires Exclusive(s) && Required(s) && Enabled(s, Swap(t, ok))
    ensures Required(Next(s, Swap(t, ok)))
  {
    var s' := Next(s, Swap(t, ok));
    if s'.log != s.log {
      var e := s'.log[|s.log|];
      assert s'.log == s.log + [e];
      RefusedAppend(s.log, e);
    }
  }

  lemma StepRequired(s: State, a: Step)
    requires Exclusive(s) && Required(s) && Enabled(s, a)
    ensures Required(Next(s, a))
  {
    match a
    case Load(t) => LoadRequired(s, t);
    case Swap(t, ok) => SwapRequired(s, t, ok);
    case Request(t, u) => RefusedAppend(s.log, Requested);
    case _ => assert Next(s, a).log == s.log && Next(s, a).guard == s.guard;
  }

  lemma {:induction false} RunRequired(states: seq<State>, steps: seq<Step>, i: nat)
    requires Run(states, steps) && i < |states|
    ensures Required(states[i])
  {
    if i > 0 {
      RunRequired(states, steps, i - 1);
      RunKeepsInvariant(states, steps, i - 1);
      StepRequired(states[i - 1], steps[i - 1]);
    }
  }

  /** The step at `i` is a successful `endUpdate` by thread `t`. */
  ghost predicate EndsAt(states: seq<State>, steps: seq<Step>, i: nat, t: nat)
  {
    i < |steps| < |states| && steps[i] == Swap(t, true) && t in states[i].pc && states[i].pc[t].EndTry?
  }

  /** In every run, an update that ends is followed by another call exactly when some call was refused while it
      was in progress; otherwise its thread is done. */
  lemma RerunExact(states: seq<State>, steps: seq<Step>, i: nat, t: nat)
    requires Run(states, steps) && EndsAt(states, steps, i, t)
    ensures states[i + 1].pc[t] == if RefusedSince(states[i].log) then GateSync(true) else Finished
    ensures states[i + 1].log == states[i].log + [Ended]
  {
    RunRequired(states, steps, i);
    assert Enabled(states[i], steps[i]) && states[i + 1] == Next(states[i], steps[i]);
  }

  // ---------- Every call has one outcome ----------

  /** A call of `poolChanged` that has not been decided yet. */
  predicate Trying(p: Pc)
  {
    p.GateSync? || p.GateObservers? || p.BeginLoad? || p.BeginTry?
  }

  ghost function Undecided(pc: map<nat, Pc>): set<nat>
  {
    set t | t in pc && Trying(pc[t])
  }

  function One(b: bool): nat
  {
    if b then 1 else 0
  }

  lemma WithoutOne(s: set<nat>, t: nat)
    ensures |s - {t}| + One(t in s) == |s|
  {
    if t !in s { assert s - {t} == s; }
  }

  lemma UndecidedUpdate(pc: map<nat, Pc>, t: nat, p: Pc)
    ensures |Undecided(pc[t := p])| + One(t in pc && Trying(pc[t])) == |Undecided(pc)| + One(Trying(p))
  {
    var before, after := Undecided(pc), Undecided(pc[t := p]);
    assert before - {t} == after - {t};
    WithoutOne(before, t);
    WithoutOne(after, t);
  }

  /** How many calls have been decided: begun, refused, or turned away. */
  function Outcomes(log: seq<Event>): nat
  {
    Count(log, Began) + Count(log, Refusal) + Count(log, Dropped(false)) + Count(log, Dropped(true))
  }

  /** How many updates ended after a refusal: the reruns. */
  function Reruns(log: seq<Event>): nat
  {
    if log == [] then 0
    else
      var shorter := log[..|log| - 1];
      Reruns(shorter) + One(log[|log| - 1] == Ended && RefusedSince(shorter))
  }

  function Notifications(steps: seq<Step>): nat
  {
    if steps == [] then 0 else Notifications(steps[..|steps| - 1]) + One(steps[|steps| - 1].Notify?)
  }

  lemma LogAppend(log: seq<Event>, e: Event)
    ensures Outcomes(log + [e]) == Outcomes(log) + One(e == Began || e == Refusal || e.Dropped?)
    ensures Reruns(log + [e]) == Reruns(log) + One(e == Ended && RefusedSince(log))
  {
    CountAppend(log, e, Began);
    CountAppend(log, e, Refusal);
    CountAppend(log, e, Dropped(false));
    CountAppend(log, e, Dropped(true));
    assert (log + [e])[..|log|] == log;
  }

  /** Calls made are calls decided and calls under way. */
  ghost predicate Accounted(s: State, notifications: nat)
  {
    notifications + Reruns(s.log) == Outcomes(s.log) + |Undecided(s.pc)|
  }

  /** A step of thread `t` to `p` that logs nothing and keeps the thread deciding or not. */
  lemma SilentStep(s: State, s': State, t: nat, p: Pc, n: nat)
    requires Accounted(s, n) && s'.pc == s.pc[t := p] && s'.log == s.log
    requires Trying(p) == (t in s.pc && Trying(s.pc[t]))
    ensures Accounted(s', n)
  {
    UndecidedUpdate(s.pc, t, p);
  }

  /** A step of thread `t` to `p` that logs `e`, one outcome for one call. */
  lemma LoggedStep(s: State, s': State, t: nat, p: Pc, e: Event, n: nat)
    requires Accounted(s, n) && t in s.pc && s'.pc == s.pc[t := p] && s'.log == s.log + [e]
    requires One(Trying(s.pc[t])) + One(e == Ended && RefusedSince(s.log))
          == One(Trying(p)) + One(e == Began || e == Refusal || e.Dropped?)
    ensures Accounted(s', n)
  {
    UndecidedUpdate(s.pc, t, p);
    LogAppend(s.log, e);
  }

  lemma MovedAccounted(s: State, s': State, t: nat, n: nat)
    requires Accounted(s, n) && t in s.pc && t in s'.pc && s'.pc == s.pc[t := s'.pc[t]]
    requires if s'.log == s.log then Trying(s'.pc[t]) == Trying(s.pc[t])
             else |s'.log| == |s.log| + 1 && s'.log[..|s.log|] == s.log
                  && var e := s'.log[|s.log|];
                     One(Trying(s.pc[t])) + One(e == Ended && RefusedSince(s.log))
                     == One(Trying(s'.pc[t])) + One(e == Began || e == Refusal || e.Dropped?)
    ensures Accounted(s', n)
  {
    if s'.log == s.log {
      SilentStep(s, s', t, s'.pc[t], n);
    } else {
      assert s'.log == s.log + [s'.log[|s.log|]];
      LoggedStep(s, s', t, s'.pc[t], s'.log[|s.log|], n);
    }
  }

  lemma RequestAccounted(s: State, t: nat, u: nat, n: nat)
    requires Accounted(s, n) && Enabled(s, Request(t, u))
    ensures Accounted(Next(s, Request(t, u)), n)
  {
    UndecidedUpdate(s.pc, t, Handed);
    UndecidedUpdate(s.pc[t := Handed], u, Next(s, Request(t, u)).pc[u]);
    LogAppend(s.log, Requested);
  }

  lemma NotifyAccounted(s: State, t: nat, n: nat)
    requires Accounted(s, n) && Enabled(s, Notify(t))
    ensures Accounted(Next(s, Notify(t)), n + 1)
  {
    UndecidedUpdate(s.pc, t, GateSync(false));
  }

  lemma LoadAccounted(s: State, t: nat, n: nat)
    requires Accounted(s, n) && Enabled(s, Load(t))
    ensures Accounted(Next(s, Load(t)), n)
  {
    MovedAccounted(s, Next(s, Load(t)), t, n);
  }

  lemma SwapAccounted(s: State, t: nat, ok: bool, n: nat)
    requires Exclusive(s) && Required(s) && Accounted(s, n) && Enabled(s, Swap(t, ok))
    ensures Accounted(Next(s, Swap(t, ok)), n)
  {
    MovedAccounted(s, Next(s, Swap(t, ok)), t, n);
  }

  lemma LocalAccounted(s: State, a: Step, n: nat)
    requires Accounted(s, n) && Enabled(s, a) && Local(a)
    ensures Accounted(Next(s, a), n)
  {
    SilentStep(s, Next(s, a), a.t, Next(s, a).pc[a.t], n);
  }

  lemma StepAccounted(s: State, a: Step, n: nat)
    requires Exclusive(s) && Required(s) && Accounted(s, n) && Enabled(s, a)
    ensures Accounted(Next(s, a), n + One(a.Notify?))
  {
    match a
    case Notify(t) => NotifyAccounted(s, t, n);
    case SetSynchronized(_) =>
    case SetObservers(_) =>
    case Request(t, u) => RequestAccounted(s, t, u, n);
    case Load(t) => LoadAccounted(s, t, n);
    case Swap(t, ok) => SwapAccounted(s, t, ok, n);
    case _ => LocalAccounted(s, a, n);
  }

  /** In every run: notifications and reruns are, one for one, updates begun, calls refused, calls turned away and
      calls not decided yet. */
  lemma {:induction false} CallsAccounted(states: seq<State>, steps: seq<Step>, i: nat)
    requires Run(states, steps) && i < |states|
    ensures Accounted(states[i], Notifications(steps[..i]))
  {
    if i == 0 {
      assert Undecided(states[0].pc) == {};
    } else {
      CallsAccounted(states, steps, i - 1);
      RunKeepsInvariant(states, steps, i - 1);
      RunRequired(states, steps, i - 1);
      StepAccounted(states[i - 1], steps[i - 1], Notifications(steps[..i - 1]));
      assert steps[..i][..i - 1] == steps[..i - 1];
    }
  }

  lemma {:induction false} RerunsBound(log: seq<Event>)
    ensures Reruns(log) + One(RefusedSince(log)) <= Count(log, Refusal)
  {
    if log != [] { RerunsBound(log[..|log| - 1]); }
  }

  /** Updates never outnumber notifications: a rerun only makes good a refused call. */
  lemma UpdatesBounded(states: seq<State>, steps: seq<Step>, i: nat)
    requires Run(states, steps) && i < |states|
    ensures Count(states[i].log, Began) + |Undecided(states[i].pc)| <= Notifications(steps[..i])
  {
    CallsAccounted(states, steps, i);
    RerunsBound(states[i].log);
  }

  // ---------- Nobody is stuck ----------

  /** Every thread that is not done has a step of its own, whatever the others do. */
  lemma ThreadsCanMove(s: State, t: nat) returns (a: Step)
    requires t in s.pc && s.pc[t] != Finished
    ensures a.Load? || a.Swap? || a.Return? || a.Fail? || a.Disarm? || a.Exit? || a.Start?
    ensures a.t == t && Enabled(s, a)
    ensures Next(s, a).pc[t] != s.pc[t] || s.pc[t].BeginTry? || s.pc[t].EndTry?
  {
    match s.pc[t]
    case BeginTry(seen) => a := Swap(t, seen == s.guard);
    case EndTry(seen) => a := Swap(t, seen == s.guard);
    case Refused => a := Return(t);
    case Body(_) => a := Fail(t);
    case Handed => a := Disarm(t);
    case Leaving(_) => a := Exit(t);
    case Pending(_) => a := Start(t);
    case _ => a := Load(t);
  }

  /** The step relation leaves nothing out: the node may announce a change on any new thread, the gates may change at
      any time, a weak compare-and-swap may fail at any time and succeeds only on the value it saw, and both
      scopes before the last may issue the next request. */
  lemma NothingIsBarred(s: State, t: nat, u: nat, on: bool, n: nat)
    ensures t !in s.pc ==> Enabled(s, Notify(t))
    ensures Enabled(s, SetSynchronized(on)) && Next(s, SetSynchronized(on)) == s.(synchronized := on)
    ensures Enabled(s, SetObservers(n)) && Next(s, SetObservers(n)) == s.(observers := n)
    ensures t in s.pc && (s.pc[t].BeginTry? || s.pc[t].EndTry?) ==>
              Enabled(s, Swap(t, false)) && (Enabled(s, Swap(t, true)) <==> s.guard == s.pc[t].seen)
    ensures t in s.pc && u !in s.pc && (s.pc[t] == Body(Notification) || s.pc[t] == Body(FirstCallback)) ==>
              Enabled(s, Request(t, u))
  {
  }

  // ---------- A whole update ----------

  /** One thread after another carries the update: where the first three are. */
  function Three(guard: Guard, p: Pc, q: Pc, r: Pc, log: seq<Event>): State
  {
    State(guard, true, 1, map[0 := p, 1 := q, 2 := r], log)
  }

  lemma UpdateBegins() returns (ss: seq<State>, steps: seq<Step>)
    ensures Run(ss, steps) && GatesWithin(ss, {true}, {1})
    ensures ss[|ss| - 1] == State(UPDATING, true, 1, map[0 := Body(Notification)], [Began])
  {
    var f, c := {true}, {1};
    var s := State(NONE, true, 1, map[], []);
    ss, steps := [s], [];
    ss, steps := Extend(ss, steps, Notify(0), s.(pc := map[0 := GateSync(false)]), f, c);
    ss, steps := Extend(ss, steps, Load(0), s.(pc := map[0 := GateObservers(false)]), f, c);
    ss, steps := Extend(ss, steps, Load(0), s.(pc := map[0 := BeginLoad]), f, c);
    ss, steps := Extend(ss, steps, Load(0), s.(pc := map[0 := BeginTry(NONE)]), f, c);
    s := State(UPDATING, true, 1, map[0 := Body(Notification)], [Began]);
    ss, steps := Extend(ss, steps, Swap(0, true), s, f, c);
  }

  lemma FirstRequest() returns (ss: seq<State>, steps: seq<Step>)
    ensures Run(ss, steps) && GatesWithin(ss, {true}, {1})
    ensures ss[|ss| - 1] == State(UPDATING, true, 1, map[0 := Finished, 1 := Body(FirstCallback)], [Began, Requested])
  {
    var f, c, p, log := {true}, {1}, Pending(FirstCallback), [Began, Requested];
    ss, steps := UpdateBegins();
    ss, steps := Extend(ss, steps, Request(0, 1), State(UPDATING, true, 1, map[0 := Handed, 1 := p], log), f, c);
    ss, steps := Extend(ss, steps, Disarm(0), State(UPDATING, true, 1, map[0 := Leaving(false), 1 := p], log), f, c);
    ss, steps := Extend(ss, steps, Exit(0), State(UPDATING, true, 1, map[0 := Finished, 1 := p], log), f, c);
    p := Body(FirstCallback);
    ss, steps := Extend(ss, steps, Start(1), State(UPDATING, true, 1, map[0 := Finished, 1 := p], log), f, c);
  }

  lemma SecondHanded() returns (ss: seq<State>, steps: seq<Step>)
    ensures Run(ss, steps) && GatesWithin(ss, {true}, {1})
    ensures ss[|ss| - 1]
         == Three(UPDATING, Finished, Leaving(false), Pending(SecondCallback), [Began, Requested, Requested])
  {
    var f, c, r, log := {true}, {1}, Pending(SecondCallback), [Began, Requested, Requested];
    ss, steps := FirstRequest();
    ss, steps := Extend(ss, steps, Request(1, 2), Three(UPDATING, Finished, Handed, r, log), f, c);
    ss, steps := Extend(ss, steps, Disarm(1), Three(UPDATING, Finished, Leaving(false), r, log), f, c);
  }

  lemma SecondRequest() returns (ss: seq<State>, steps: seq<Step>)
    ensures Run(ss, steps) && GatesWithin(ss, {true}, {1})
    ensures ss[|ss| - 1] == Three(UPDATING, Finished, Finished, Body(SecondCallback), [Began, Requested, Requested])
  {
    var f, c, log := {true}, {1}, [Began, Requested, Requested];
    ss, steps := SecondHanded();
    ss, steps := Extend(ss, steps, Exit(1), Three(UPDATING, Finished, Finished, Pending(SecondCallback), log), f, c);
    ss, steps := Extend(ss, steps, Start(2), Three(UPDATING, Finished, Finished, Body(SecondCallback), log), f, c);
  }

  /** An update that nothing disturbs: it begins, issues both requests, ends, and is not followed by another. */
  lemma WholeUpdate() returns (ss: seq<State>, steps: seq<Step>)
    ensures Run(ss, steps) && Quiescent(ss[|ss| - 1]) && ss[|ss| - 1].guard == NONE
    ensures ss[|ss| - 1].log == [Began, Requested, Requested, Ended]
  {
    var f, c, log := {true}, {1}, [Began, Requested, Requested];
    ss, steps := SecondRequest();
    ss, steps := Extend(ss, steps, Fail(2), Three(UPDATING, Finished, Finished, Leaving(true), log), f, c);
    ss, steps := Extend(ss, steps, Exit(2), Three(UPDATING, Finished, Finished, EndLoad, log), f, c);
    ss, steps := Extend(ss, steps, Load(2), Three(UPDATING, Finished, Finished, EndTry(UPDATING), log), f, c);
    ss, steps := Extend(ss, steps, Swap(2, true), Three(NONE, Finished, Finished, Finished, log + [Ended]), f, c);
  }
}
