/** Pool updates of src/blockchain_explorer/BlockchainExplorer.cpp: the lock-free `PoolUpdateGuard`, the scope
    guards, and the hand-off of one update from `poolChanged` through two asynchronous callbacks. Every load
    and every compare-and-swap is one step; weak compare-and-swap may fail at any time. */
module PoolUpdate {

  datatype Guard = NONE | UPDATING | UPDATE_REQUIRED

  /** Which scope owns an armed `ScopeExitHandler`. */
  datatype Stage = Notification | FirstCallback | SecondCallback

  /** What a thread does next. `rerun` marks a `poolChanged` called by `poolUpdateEndHandler`. */
  datatype Pc =
    | GateSync(rerun: bool)          // load `synchronized`
    | GateObservers(rerun: bool)     // load `observersCounter`
    | BeginLoad                      // `beginUpdate`: load the state
    | BeginTry(seen: Guard)          // `beginUpdate`: compare-and-swap from `seen`
    | Refused                        // `beginUpdate` returned false
    | Body(stage: Stage)             // inside a scope whose handler is armed
    | Handed                         // the next request is issued; the handler is still armed
    | Leaving(armed: bool)           // leaving the scope: the handler's destructor
    | Pending(stage: Stage)          // the callback is due and has not started
    | EndLoad                        // `endUpdate`: load the state
    | EndTry(seen: Guard)            // `endUpdate`: compare-and-swap from `seen`
    | Finished

  /** `Refusal` is logged at the access that decides it; `Dropped` when a call is turned away at the gates. */
  datatype Event = Began | Refusal | Requested | Ended | Dropped(rerun: bool)

  datatype State = State(guard: Guard, synchronized: bool, observers: nat, pc: map<nat, Pc>, log: seq<Event>)

  datatype Step =
    | Notify(t: nat)                 // the node announces a pool change on a new thread
    | SetSynchronized(on: bool)
    | SetObservers(n: nat)
    | Load(t: nat)                   // a gate or guard load
    | Swap(t: nat, ok: bool)         // a compare-and-swap that succeeds or fails
    | Return(t: nat)                 // leave after a refusal
    | Fail(t: nat)                   // error code, exception, or the plain end of the second callback
    | Request(t: nat, u: nat)        // issue the next request; `u` is the thread of its callback
    | Disarm(t: nat)                 // `poolUpdateEndGuard.reset()`
    | Exit(t: nat)                   // run the scope guard's destructor
    | Start(t: nat)                  // the callback starts

  ghost predicate Enabled(s: State, a: Step)
  {
    match a
    case Notify(t) => t !in s.pc
    case SetSynchronized(_) => true
    case SetObservers(_) => true
    case Load(t) =>
      t in s.pc && (s.pc[t].GateSync? || s.pc[t].GateObservers? || s.pc[t].BeginLoad? || s.pc[t].EndLoad?)
    case Swap(t, ok) =>
      t in s.pc && (s.pc[t].BeginTry? || s.pc[t].EndTry?) && (ok ==> s.guard == s.pc[t].seen)
    case Return(t) => t in s.pc && s.pc[t].Refused?
    case Fail(t) => t in s.pc && s.pc[t].Body?
    case Request(t, u) => t in s.pc && s.pc[t].Body? && !s.pc[t].stage.SecondCallback? && u !in s.pc
    case Disarm(t) => t in s.pc && s.pc[t].Handed?
    case Exit(t) => t in s.pc && s.pc[t].Leaving?
    case Start(t) => t in s.pc && s.pc[t].Pending?
  }

  ghost function Goto(s: State, t: nat, p: Pc): State
  {
    s.(pc := s.pc[t := p])
  }

  ghost function Log(s: State, e: Event): State
  {
    s.(log := s.log + [e])
  }

  /** `beginUpdate` after it has read the guard. */
  ghost function Decide(s: State, t: nat): State
  {
    if s.guard == UPDATE_REQUIRED then Log(Goto(s, t, Refused), Refusal) else Goto(s, t, BeginTry(s.guard))
  }

  ghost function Next(s: State, a: Step): State
    requires Enabled(s, a)
  {
    match a
    case Notify(t) => Goto(s, t, GateSync(false))
    case SetSynchronized(on) => s.(synchronized := on)
    case SetObservers(n) => s.(observers := n)
    case Load(t) => (
      match s.pc[t]
      case GateSync(rerun) =>
        if s.synchronized then Goto(s, t, GateObservers(rerun)) else Log(Goto(s, t, Finished), Dropped(rerun))
      case GateObservers(rerun) =>
        if s.observers == 0 then Log(Goto(s, t, Finished), Dropped(rerun)) else Goto(s, t, BeginLoad)
      case BeginLoad => Decide(s, t)
      case EndLoad => Goto(s, t, EndTry(s.guard)))
    case Swap(t, ok) => (
      match s.pc[t]
      case BeginTry(seen) =>
        if !ok then Decide(s, t)
        else if seen == NONE then Log(Goto(s, t, Body(Notification)), Began).(guard := UPDATING)
        else Log(Goto(s, t, Refused), Refusal).(guard := UPDATE_REQUIRED)
      case EndTry(seen) =>
        if !ok then Goto(s, t, EndTry(s.guard))
        else Log(Goto(s, t, if seen == UPDATE_REQUIRED then GateSync(true) else Finished), Ended).(guard := NONE))
    case Return(t) => Goto(s, t, Finished)
    case Fail(t) => Goto(s, t, Leaving(true))
    case Request(t, u) =>
      var next := if s.pc[t].stage == Notification then FirstCallback else SecondCallback;
      Log(Goto(Goto(s, t, Handed), u, Pending(next)), Requested)
    case Disarm(t) => Goto(s, t, Leaving(false))
    case Exit(t) => Goto(s, t, if s.pc[t].armed then EndLoad else Finished)
    case Start(t) => Goto(s, t, Body(s.pc[t].stage))
  }

  ghost predicate Init(s: State)
  {
    s.guard == NONE && s.pc == map[] && s.log == []
  }

  ghost predicate Run(states: seq<State>, steps: seq<Step>)
  {
    && |states| == |steps| + 1
    && Init(states[0])
    && forall i :: 0 <= i < |steps| ==> Enabled(states[i], steps[i]) && states[i + 1] == Next(states[i], steps[i])
  }

  // ---------- One update at a time ----------

  /** The thread that will, whatever happens, run `endUpdate` for the update in progress. */
  predicate Owner(p: Pc)
  {
    p.Body? || p.Pending? || p == Leaving(true) || p.EndLoad? || p.EndTry?
  }

  ghost predicate Exclusive(s: State)
  {
    && (s.guard == NONE ==> forall t :: t in s.pc ==> !Owner(s.pc[t]))
    && (s.guard != NONE ==> exists t :: t in s.pc && Owner(s.pc[t]))
    && (forall t, u :: t in s.pc && u in s.pc && Owner(s.pc[t]) && Owner(s.pc[u]) ==> t == u)
    && (forall t :: t in s.pc && s.pc[t].EndTry? ==> s.pc[t].seen != NONE)
    && (forall t :: t in s.pc && s.pc[t].BeginTry? ==> s.pc[t].seen != UPDATE_REQUIRED)
  }

  function Count(log: seq<Event>, e: Event): nat
  {
    if log == [] then 0 else Count(log[..|log| - 1], e) + if log[|log| - 1] == e then 1 else 0
  }

  /** Every successful `beginUpdate` but the one in progress has been matched by exactly one `endUpdate`. */
  ghost predicate Balanced(s: State)
  {
    Count(s.log, Began) == Count(s.log, Ended) + if s.guard == NONE then 0 else 1
  }

  lemma CountAppend(log: seq<Event>, e: Event, f: Event)
    ensures Count(log + [e], f) == Count(log, f) + if e == f then 1 else 0
  {
    assert (log + [e])[..|log|] == log;
  }

  /** A step after which the owner, if any, is still the only one. */
  lemma OwnerMoves(s: State, s': State, t: nat)
    requires Exclusive(s) && t in s.pc
    requires s'.pc.Keys == s.pc.Keys && (forall u :: u in s.pc && u != t ==> s'.pc[u] == s.pc[u])
    requires Owner(s'.pc[t]) == Owner(s.pc[t]) && s'.guard == s.guard
    requires s'.pc[t].EndTry? ==> s'.pc[t].seen != NONE
    requires s'.pc[t].BeginTry? ==> s'.pc[t].seen != UPDATE_REQUIRED
    ensures Exclusive(s')
  {
    if s.guard != NONE {
      var o :| o in s.pc && Owner(s.pc[o]);
      assert o in s'.pc && Owner(s'.pc[o]);
    }
  }

  lemma GuardMoves(s: State, t: nat)
    requires Exclusive(s) && Enabled(s, Swap(t, true))
    ensures Exclusive(Next(s, Swap(t, true)))
  {
    var s' := Next(s, Swap(t, true));
    if s.pc[t] == BeginTry(NONE) {
      assert Owner(s'.pc[t]);
    } else if s.pc[t].BeginTry? {
      var o :| o in s.pc && Owner(s.pc[o]);
      assert Owner(s'.pc[o]);
    }
  }

  lemma RequestHands(s: State, t: nat, u: nat)
    requires Exclusive(s) && Enabled(s, Request(t, u))
    ensures Exclusive(Next(s, Request(t, u)))
  {
    assert Owner(s.pc[t]);
    var s' := Next(s, Request(t, u));
    assert Owner(s'.pc[u]);
  }

  lemma NotifyKeeps(s: State, t: nat)
    requires Exclusive(s) && Enabled(s, Notify(t))
    ensures Exclusive(Next(s, Notify(t)))
  {
    if s.guard != NONE {
      var o :| o in s.pc && Owner(s.pc[o]);
      assert Owner(Next(s, Notify(t)).pc[o]);
    }
  }

  /** Steps that touch one thread and leave the guard alone. */
  predicate Local(a: Step)
  {
    a.Return? || a.Fail? || a.Disarm? || a.Exit? || a.Start?
  }

  lemma LocalExclusive(s: State, a: Step)
    requires Exclusive(s) && Enabled(s, a) && Local(a)
    ensures Exclusive(Next(s, a))
  {
    OwnerMoves(s, Next(s, a), a.t);
  }

  lemma LoadExclusive(s: State, t: nat)
    requires Exclusive(s) && Enabled(s, Load(t))
    ensures Exclusive(Next(s, Load(t)))
  {
    assert s.pc[t].EndLoad? ==> Owner(s.pc[t]);
    OwnerMoves(s, Next(s, Load(t)), t);
  }

  lemma FailedSwapExclusive(s: State, t: nat)
    requires Exclusive(s) && Enabled(s, Swap(t, false))
    ensures Exclusive(Next(s, Swap(t, false)))
  {
    assert s.pc[t].EndTry? ==> Owner(s.pc[t]);
    OwnerMoves(s, Next(s, Swap(t, false)), t);
  }

  lemma StepExclusive(s: State, a: Step)
    requires Exclusive(s) && Enabled(s, a)
    ensures Exclusive(Next(s, a))
  {
    match a
    case Notify(t) => NotifyKeeps(s, t);
    case SetSynchronized(_) =>
    case SetObservers(_) =>
    case Swap(t, ok) => if ok { GuardMoves(s, t); } else { FailedSwapExclusive(s, t); }
    case Request(t, u) => RequestHands(s, t, u);
    case Load(t) => LoadExclusive(s, t);
    case _ => LocalExclusive(s, a);
  }

  /** Appending an event moves the balance with the guard. */
  lemma LogBalanced(s: State, s': State, e: Event)
    requires Balanced(s) && s'.log == s.log + [e]
    requires match e
             case Began => s.guard == NONE && s'.guard != NONE
             case Ended => s.guard != NONE && s'.guard == NONE
             case _ => s.guard == NONE <==> s'.guard == NONE
    ensures Balanced(s')
  {
    CountAppend(s.log, e, Began);
    CountAppend(s.log, e, Ended);
  }

  lemma LoadBalanced(s: State, t: nat)
    requires Balanced(s) && Enabled(s, Load(t))
    ensures Balanced(Next(s, Load(t)))
  {
    var s' := Next(s, Load(t));
    if s'.log != s.log { LogBalanced(s, s', s'.log[|s.log|]); }
  }

  lemma SwapBalanced(s: State, t: nat, ok: bool)
    requires Exclusive(s) && Balanced(s) && Enabled(s, Swap(t, ok))
    ensures Balanced(Next(s, Swap(t, ok)))
  {
    var s' := Next(s, Swap(t, ok));
    assert s.pc[t].EndTry? ==> s.pc[t].seen != NONE;
    assert s.pc[t].BeginTry? ==> s.pc[t].seen != UPDATE_REQUIRED;
    if s'.log != s.log { LogBalanced(s, s', s'.log[|s.log|]); }
  }

  lemma StepBalanced(s: State, a: Step)
    requires Exclusive(s) && Balanced(s) && Enabled(s, a)
    ensures Balanced(Next(s, a))
  {
    match a
    case Load(t) => LoadBalanced(s, t);
    case Swap(t, ok) => SwapBalanced(s, t, ok);
    case Request(t, u) => LogBalanced(s, Next(s, a), Requested);
    case _ => assert Next(s, a).log == s.log && Next(s, a).guard == s.guard;
  }

  // ---------- The chain of callbacks ----------

  /** The requests issued since the update in progress, or the last one, began. */
  function Since(log: seq<Event>): nat
  {
    if log == [] then 0
    else
      match log[|log| - 1]
      case Began => 0
      case Requested => Since(log[..|log| - 1]) + 1
      case _ => Since(log[..|log| - 1])
  }

  function Index(stage: Stage): nat
  {
    match stage
    case Notification => 0
    case FirstCallback => 1
    case SecondCallback => 2
  }

  predicate StageOk(p: Pc, n: nat)
  {
    p.Body? || p.Pending? ==> n == Index(p.stage)
  }

  ghost predicate AllStaged(pc: map<nat, Pc>, n: nat)
  {
    forall t :: t in pc ==> StageOk(pc[t], n)
  }

  /** Whoever carries the update is as far along the chain as requests have been issued, and there are never
      more than two. */
  ghost predicate Staged(s: State)
  {
    Since(s.log) <= 2 && AllStaged(s.pc, Since(s.log))
  }

  lemma SinceAppend(log: seq<Event>, e: Event)
    ensures Since(log + [e]) == if e == Began then 0 else Since(log) + if e == Requested then 1 else 0
  {
    assert (log + [e])[..|log|] == log;
  }

  lemma StageSet(pc: map<nat, Pc>, n: nat, t: nat, p: Pc)
    requires forall u :: u in pc && u != t ==> StageOk(pc[u], n)
    requires StageOk(p, n)
    ensures AllStaged(pc[t := p], n)
  {
  }

  /** When `t` owns the update or nobody does, the other threads fit any stage. */
  lemma OthersFitAny(s: State, t: nat, n: nat)
    requires Exclusive(s) && (s.guard == NONE || (t in s.pc && Owner(s.pc[t])))
    ensures forall u :: u in s.pc && u != t ==> StageOk(s.pc[u], n)
  {
    forall u | u in s.pc && u != t
      ensures StageOk(s.pc[u], n)
    {
      var p := s.pc[u];
      assert StageOk(p, n) || Owner(p);
    }
  }

  lemma BeganStaged(s: State, t: nat)
    requires Exclusive(s) && Staged(s) && Enabled(s, Swap(t, true)) && s.pc[t] == BeginTry(NONE)
    ensures Staged(Next(s, Swap(t, true)))
  {
    SinceAppend(s.log, Began);
    OthersFitAny(s, t, 0);
    StageSet(s.pc, 0, t, Body(Notification));
  }

  lemma RequestStaged(s: State, t: nat, u: nat)
    requires Exclusive(s) && Staged(s) && Enabled(s, Request(t, u))
    ensures Staged(Next(s, Request(t, u)))
  {
    var n := Since(s.log) + 1;
    SinceAppend(s.log, Requested);
    assert StageOk(s.pc[t], Since(s.log));
    OthersFitAny(s, t, n);
    StageSet(s.pc, n, t, Handed);
    StageSet(s.pc[t := Handed], n, u, Next(s, Request(t, u)).pc[u]);
  }

  /** A step of one thread that issues no request and begins no update. */
  lemma StageKept(s: State, s': State, t: nat, p: Pc)
    requires Staged(s) && s'.pc == s.pc[t := p] && StageOk(p, Since(s.log))
    requires s'.log == s.log || exists e :: e != Began && e != Requested && s'.log == s.log + [e]
    ensures Staged(s')
  {
    if s'.log != s.log {
      var e :| e != Began && e != Requested && s'.log == s.log + [e];
      SinceAppend(s.log, e);
    }
    StageSet(s.pc, Since(s.log), t, p);
  }

  lemma LoadStaged(s: State, t: nat)
    requires Staged(s) && Enabled(s, Load(t))
    ensures Staged(Next(s, Load(t)))
  {
    var s' := Next(s, Load(t));
    assert s'.log == s.log || s'.log == s.log + [s'.log[|s.log|]];
    StageKept(s, s', t, s'.pc[t]);
  }

  lemma SwapStaged(s: State, t: nat, ok: bool)
    requires Exclusive(s) && Staged(s) && Enabled(s, Swap(t, ok))
    ensures Staged(Next(s, Swap(t, ok)))
  {
    var s' := Next(s, Swap(t, ok));
    if ok && s.pc[t] == BeginTry(NONE) {
      BeganStaged(s, t);
    } else {
      assert s'.log == s.log || s'.log == s.log + [s'.log[|s.log|]];
      StageKept(s, s', t, s'.pc[t]);
    }
  }

  lemma LocalStaged(s: State, a: Step)
    requires Staged(s) && Enabled(s, a) && (Local(a) || a.Notify?)
    ensures Staged(Next(s, a))
  {
    assert a.Start? ==> StageOk(s.pc[a.t], Since(s.log));
    StageKept(s, Next(s, a), a.t, Next(s, a).pc[a.t]);
  }

  lemma StepStaged(s: State, a: Step)
    requires Exclusive(s) && Staged(s) && Enabled(s, a)
    ensures Staged(Next(s, a))
  {
    match a
    case SetSynchronized(_) =>
    case SetObservers(_) =>
    case Request(t, u) => RequestStaged(s, t, u);
    case Load(t) => LoadStaged(s, t);
    case Swap(t, ok) => SwapStaged(s, t, ok);
    case _ => LocalStaged(s, a);
  }

  // ---------- No refusal is forgotten ----------

  /** An event that answers earlier refusals: an update that starts after them, or a rerun turned away. */
  predicate Answers(e: Event)
  {
    e == Began || e == Dropped(true)
  }

  predicate Open(log: seq<Event>)
  {
    log != [] &&
    var e := log[|log| - 1];
    e == Refusal || (!Answers(e) && Open(log[..|log| - 1]))
  }

  /** A thread that will try `beginUpdate` again, or be turned away at the gates as a rerun. */
  predicate WillTry(p: Pc)
  {
    p == GateSync(true) || p == GateObservers(true) || p.BeginLoad? || p.BeginTry?
  }

  ghost predicate Remembered(s: State)
  {
    Open(s.log) ==> s.guard == UPDATE_REQUIRED || exists t :: t in s.pc && WillTry(s.pc[t])
  }

  lemma OpenAppend(log: seq<Event>, e: Event)
    ensures Open(log + [e]) <==> e == Refusal || (!Answers(e) && Open(log))
  {
    assert (log + [e])[..|log|] == log;
  }

  /** The witness of `Remembered` is another thread, or the moving thread stays one. */
  lemma WitnessStays(s: State, s': State, t: nat)
    requires Remembered(s)
    requires t in s'.pc && (forall u :: u in s.pc && u != t ==> u in s'.pc && s'.pc[u] == s.pc[u])
    requires Open(s'.log) ==> Open(s.log) || s'.guard == UPDATE_REQUIRED
    requires s.guard == UPDATE_REQUIRED ==> s'.guard == UPDATE_REQUIRED || WillTry(s'.pc[t])
    requires t in s.pc && WillTry(s.pc[t]) ==> WillTry(s'.pc[t]) || !Open(s'.log) || s'.guard == UPDATE_REQUIRED
    ensures Remembered(s')
  {
    if Open(s'.log) && s'.guard != UPDATE_REQUIRED && s.guard != UPDATE_REQUIRED {
      var o :| o in s.pc && WillTry(s.pc[o]);
      assert o == t || s'.pc[o] == s.pc[o];
      assert WillTry(s'.pc[o]);
    }
  }

  /** `beginUpdate` reads the guard: a refusal is decided only while the guard asks for another update. */
  lemma DecideRemembered(s: State, t: nat)
    requires Remembered(s) && t in s.pc && (s.pc[t].BeginLoad? || s.pc[t].BeginTry?)
    ensures Remembered(Decide(s, t))
  {
    if s.guard != UPDATE_REQUIRED { WitnessStays(s, Decide(s, t), t); }
  }

  lemma GateRemembered(s: State, t: nat)
    requires Remembered(s) && t in s.pc && (s.pc[t].GateSync? || s.pc[t].GateObservers?)
    ensures Remembered(Next(s, Load(t)))
  {
    OpenAppend(s.log, Dropped(s.pc[t].rerun));
    WitnessStays(s, Next(s, Load(t)), t);
  }

  lemma LoadRemembered(s: State, t: nat)
    requires Remembered(s) && Enabled(s, Load(t))
    ensures Remembered(Next(s, Load(t)))
  {
    match s.pc[t]
    case BeginLoad => DecideRemembered(s, t);
    case EndLoad => WitnessStays(s, Next(s, Load(t)), t);
    case _ => GateRemembered(s, t);
  }

  lemma SwapRemembered(s: State, t: nat, ok: bool)
    requires Exclusive(s) && Remembered(s) && Enabled(s, Swap(t, ok))
    ensures Remembered(Next(s, Swap(t, ok)))
  {
    var s' := Next(s, Swap(t, ok));
    if s.pc[t].EndTry? {
      OpenAppend(s.log, Ended);
      WitnessStays(s, s', t);
    } else if !ok {
      DecideRemembered(s, t);
    } else {
      OpenAppend(s.log, Began);
    }
  }

  lemma LocalRemembered(s: State, a: Step)
    requires Remembered(s) && Enabled(s, a) && (Local(a) || a.Notify?)
    ensures Remembered(Next(s, a))
  {
    WitnessStays(s, Next(s, a), a.t);
  }

  lemma RequestRemembered(s: State, t: nat, u: nat)
    requires Remembered(s) && Enabled(s, Request(t, u))
    ensures Remembered(Next(s, Request(t, u)))
  {
    OpenAppend(s.log, Requested);
    WitnessStays(s, Goto(s, t, Handed), t);
    WitnessStays(Goto(s, t, Handed), Next(s, Request(t, u)), u);
  }

  lemma StepRemembered(s: State, a: Step)
    requires Exclusive(s) && Remembered(s) && Enabled(s, a)
    ensures Remembered(Next(s, a))
  {
    match a
    case SetSynchronized(_) =>
    case SetObservers(_) =>
    case Load(t) => LoadRemembered(s, t);
    case Swap(t, ok) => SwapRemembered(s, t, ok);
    case Request(t, u) => RequestRemembered(s, t, u);
    case _ => LocalRemembered(s, a);
  }

  // ---------- Runs ----------

  ghost predicate Invariant(s: State)
  {
    Exclusive(s) && Balanced(s) && Staged(s) && Remembered(s)
  }

  /** In every interleaving, with spurious failures: one update at a time, begins and ends matched, the
      assertion of `endUpdate` true, and no refusal forgotten. */
  lemma {:induction false} RunKeepsInvariant(states: seq<State>, steps: seq<Step>, i: nat)
    requires Run(states, steps) && i < |states|
    ensures Invariant(states[i])
  {
    if i > 0 {
      RunKeepsInvariant(states, steps, i - 1);
      StepExclusive(states[i - 1], steps[i - 1]);
      StepBalanced(states[i - 1], steps[i - 1]);
      StepStaged(states[i - 1], steps[i - 1]);
      StepRemembered(states[i - 1], steps[i - 1]);
    }
  }

  /** The refusal at `i` is followed by an answer. */
  ghost predicate AnsweredAt(log: seq<Event>, i: nat)
  {
    exists j :: i < j < |log| && Answers(log[j])
  }

  /** `Open` says exactly that some refusal has no answer. */
  lemma {:induction false} OpenExact(log: seq<Event>)
    ensures Open(log) <==> exists i :: 0 <= i < |log| && log[i] == Refusal && !AnsweredAt(log, i)
  {
    if log != [] {
      var n := |log| - 1;
      var shorter := log[..n];
      OpenExact(shorter);
      forall i | 0 <= i < n
        ensures AnsweredAt(log, i) <==> Answers(log[n]) || AnsweredAt(shorter, i)
      {
        if AnsweredAt(log, i) && !Answers(log[n]) {
          var j :| i < j < |log| && Answers(log[j]);
          assert shorter[j] == log[j];
        }
        if AnsweredAt(shorter, i) {
          var j :| i < j < |shorter| && Answers(shorter[j]);
          assert log[j] == shorter[j];
        }
      }
      if log[n] == Refusal {
        assert !AnsweredAt(log, n);
      }
      if i :| 0 <= i < n && shorter[i] == Refusal && !AnsweredAt(shorter, i) {
        assert log[i] == Refusal;
      }
    }
  }

  /** Every refusal is followed by a successful `beginUpdate`. */
  ghost predicate EveryRefusalAnswered(log: seq<Event>)
  {
    forall k :: 0 <= k < |log| && log[k] == Refusal ==> Began in log[k + 1..]
  }

  ghost predicate Quiescent(s: State)
  {
    forall t :: t in s.pc ==> s.pc[t].Finished?
  }

  /** Once nothing is running, the guard is free, every update that began has ended once, and every refused
      `beginUpdate` has been followed by a successful one, unless a rerun was turned away at the gates. */
  lemma QuiescenceAnswersAll(states: seq<State>, steps: seq<Step>, i: nat)
    requires Run(states, steps) && i < |states| && Quiescent(states[i])
    ensures states[i].guard == NONE
    ensures Count(states[i].log, Began) == Count(states[i].log, Ended)
    ensures forall k :: 0 <= k < |states[i].log| && states[i].log[k] == Refusal ==> AnsweredAt(states[i].log, k)
    ensures Dropped(true) !in states[i].log ==> EveryRefusalAnswered(states[i].log)
  {
    var s := states[i];
    RunKeepsInvariant(states, steps, i);
    OpenExact(s.log);
    assert s.guard == NONE;
    assert !Open(s.log);
    forall k | 0 <= k < |s.log| && s.log[k] == Refusal && Dropped(true) !in s.log
      ensures Began in s.log[k + 1..]
    {
      assert AnsweredAt(s.log, k);
      var j :| k < j < |s.log| && Answers(s.log[j]);
      assert s.log[k + 1..][j - k - 1] == s.log[j];
    }
  }

  /** At any moment at most one thread carries the update, and `endUpdate` never meets a free guard. */
  lemma OneUpdateAtATime(states: seq<State>, steps: seq<Step>, i: nat)
    requires Run(states, steps) && i < |states|
    ensures var s := states[i];
            && (forall t, u :: t in s.pc && u in s.pc && Owner(s.pc[t]) && Owner(s.pc[u]) ==> t == u)
            && (s.guard == NONE <==> forall t :: t in s.pc ==> !Owner(s.pc[t]))
            && (forall t :: t in s.pc && s.pc[t].EndLoad? ==> s.guard != NONE)
            && (forall t :: t in s.pc && s.pc[t].EndTry? ==> s.pc[t].seen != NONE && s.guard != NONE)
            && 0 <= Count(s.log, Began) - Count(s.log, Ended) <= 1
            && Since(s.log) <= 2
  {
    RunKeepsInvariant(states, steps, i);
  }

  // ---------- The gates ----------

  /** The step is the load at which a call is turned away at a closed gate. */
  predicate TurnsAway(s: State, a: Step, rerun: bool)
  {
    && a.Load? && a.t in s.pc
    && (|| (s.pc[a.t] == GateSync(rerun) && !s.synchronized)
        || (s.pc[a.t] == GateObservers(rerun) && s.observers == 0))
  }

  lemma StepTurnsAway(s: State, a: Step, rerun: bool)
    requires Enabled(s, a)
    ensures Dropped(rerun) in Next(s, a).log <==> Dropped(rerun) in s.log || TurnsAway(s, a, rerun)
  {
  }

  /** A run logs a dropped call exactly when some load met a closed gate. */
  lemma {:induction false} DroppedExact(states: seq<State>, steps: seq<Step>, i: nat, rerun: bool)
    requires Run(states, steps) && i < |states|
    ensures Dropped(rerun) in states[i].log <==> exists k :: 0 <= k < i && TurnsAway(states[k], steps[k], rerun)
  {
    if i > 0 {
      DroppedExact(states, steps, i - 1, rerun);
      StepTurnsAway(states[i - 1], steps[i - 1], rerun);
    }
  }

  /** While the gates stay open, every refused `beginUpdate` has been followed by a successful one by the time
      nothing runs any more. */
  lemma OpenGatesAnswerAll(states: seq<State>, steps: seq<Step>, i: nat)
    requires Run(states, steps) && i < |states| && Quiescent(states[i])
    requires forall k :: 0 <= k < i ==> states[k].synchronized && states[k].observers > 0
    ensures EveryRefusalAnswered(states[i].log)
  {
    DroppedExact(states, steps, i, true);
    QuiescenceAnswersAll(states, steps, i);
  }

  /** The values the two gates take in a run. */
  ghost predicate GatesWithin(states: seq<State>, flags: set<bool>, counts: set<nat>)
  {
    forall k :: 0 <= k < |states| ==> states[k].synchronized in flags && states[k].observers in counts
  }

  // ---------- A rerun turned away ----------

  /** A run one step longer, with its last state written out. */
  lemma Extend(states: seq<State>, steps: seq<Step>, a: Step, s': State, flags: set<bool>, counts: set<nat>)
      returns (states': seq<State>, steps': seq<Step>)
    requires Run(states, steps) && Enabled(states[|states| - 1], a) && s' == Next(states[|states| - 1], a)
    requires GatesWithin(states, flags, counts) && s'.synchronized in flags && s'.observers in counts
    ensures Run(states', steps') && states'[|states'| - 1] == s' && GatesWithin(states', flags, counts)
  {
    states', steps' := states + [s'], steps + [a];
    forall i | 0 <= i < |steps'|
      ensures Enabled(states'[i], steps'[i]) && states'[i + 1] == Next(states'[i], steps'[i])
    {
      if i < |steps| {
        assert states'[i] == states[i] && states'[i + 1] == states[i + 1] && steps'[i] == steps[i];
      }
    }
  }

  /** The threads 0 and 1 are where `p` and `q` say. */
  function Two(guard: Guard, on: bool, n: nat, p: Pc, q: Pc, log: seq<Event>): State
  {
    State(guard, on, n, map[0 := p, 1 := q], log)
  }

  lemma BothArrive(f: set<bool>, c: set<nat>, n: nat) returns (ss: seq<State>, steps: seq<Step>)
    requires true in f && n in c && n > 0
    ensures Run(ss, steps) && GatesWithin(ss, f, c)
    ensures ss[|ss| - 1] == Two(NONE, true, n, BeginTry(NONE), GateSync(false), [])
  {
    var s0 := State(NONE, true, n, map[], []);
    ss, steps := [s0], [];
    ss, steps := Extend(ss, steps, Notify(0), s0.(pc := map[0 := GateSync(false)]), f, c);
    ss, steps := Extend(ss, steps, Load(0), s0.(pc := map[0 := GateObservers(false)]), f, c);
    ss, steps := Extend(ss, steps, Load(0), s0.(pc := map[0 := BeginLoad]), f, c);
    ss, steps := Extend(ss, steps, Load(0), s0.(pc := map[0 := BeginTry(NONE)]), f, c);
    ss, steps := Extend(ss, steps, Notify(1), Two(NONE, true, n, BeginTry(NONE), GateSync(false), []), f, c);
  }

  lemma SecondRefused(f: set<bool>, c: set<nat>, n: nat) returns (ss: seq<State>, steps: seq<Step>)
    requires true in f && n in c && n > 0
    ensures Run(ss, steps) && GatesWithin(ss, f, c)
    ensures ss[|ss| - 1] == Two(UPDATE_REQUIRED, true, n, Body(Notification), Refused, [Began, Refusal])
  {
    var p := Body(Notification);
    ss, steps := BothArrive(f, c, n);
    ss, steps := Extend(ss, steps, Swap(0, true), Two(UPDATING, true, n, p, GateSync(false), [Began]), f, c);
    ss, steps := Extend(ss, steps, Load(1), Two(UPDATING, true, n, p, GateObservers(false), [Began]), f, c);
    ss, steps := Extend(ss, steps, Load(1), Two(UPDATING, true, n, p, BeginLoad, [Began]), f, c);
    ss, steps := Extend(ss, steps, Load(1), Two(UPDATING, true, n, p, BeginTry(UPDATING), [Began]), f, c);
    ss, steps := Extend(ss, steps, Swap(1, true), Two(UPDATE_REQUIRED, true, n, p, Refused, [Began, Refusal]), f, c);
  }

  lemma FirstFails(f: set<bool>, c: set<nat>, n: nat) returns (ss: seq<State>, steps: seq<Step>)
    requires true in f && n in c && n > 0
    ensures Run(ss, steps) && GatesWithin(ss, f, c)
    ensures ss[|ss| - 1] == Two(UPDATE_REQUIRED, true, n, EndLoad, Finished, [Began, Refusal])
  {
    var q, log := Finished, [Began, Refusal];
    ss, steps := SecondRefused(f, c, n);
    ss, steps := Extend(ss, steps, Return(1), Two(UPDATE_REQUIRED, true, n, Body(Notification), q, log), f, c);
    ss, steps := Extend(ss, steps, Fail(0), Two(UPDATE_REQUIRED, true, n, Leaving(true), q, log), f, c);
    ss, steps := Extend(ss, steps, Exit(0), Two(UPDATE_REQUIRED, true, n, EndLoad, q, log), f, c);
  }

  lemma RerunStarts(f: set<bool>, c: set<nat>, n: nat) returns (ss: seq<State>, steps: seq<Step>)
    requires true in f && n in c && n > 0
    ensures Run(ss, steps) && GatesWithin(ss, f, c)
    ensures ss[|ss| - 1] == Two(NONE, true, n, GateSync(true), Finished, [Began, Refusal, Ended])
  {
    var q, log := Finished, [Began, Refusal];
    ss, steps := FirstFails(f, c, n);
    ss, steps := Extend(ss, steps, Load(0), Two(UPDATE_REQUIRED, true, n, EndTry(UPDATE_REQUIRED), q, log), f, c);
    ss, steps := Extend(ss, steps, Swap(0, true), Two(NONE, true, n, GateSync(true), q, log + [Ended]), f, c);
  }

  /** The node loses its synchronization before the rerun looks at the gates: the refused call is never
      followed by an update. */
  lemma UnsynchronizedForgets(f: set<bool>, c: set<nat>, n: nat) returns (ss: seq<State>, steps: seq<Step>)
    requires true in f && false in f && n in c && n > 0
    ensures Run(ss, steps) && GatesWithin(ss, f, c) && Quiescent(ss[|ss| - 1])
    ensures ss[|ss| - 1].log == [Began, Refusal, Ended, Dropped(true)]
  {
    var q, log := Finished, [Began, Refusal, Ended];
    ss, steps := RerunStarts(f, c, n);
    ss, steps := Extend(ss, steps, SetSynchronized(false), Two(NONE, false, n, GateSync(true), q, log), f, c);
    ss, steps := Extend(ss, steps, Load(0), Two(NONE, false, n, Finished, q, log + [Dropped(true)]), f, c);
  }

  /** The last observer leaves before the rerun looks at the gates, with the same end. */
  lemma UnobservedForgets(f: set<bool>, c: set<nat>, n: nat) returns (ss: seq<State>, steps: seq<Step>)
    requires true in f && n in c && n > 0 && 0 in c
    ensures Run(ss, steps) && GatesWithin(ss, f, c) && Quiescent(ss[|ss| - 1])
    ensures ss[|ss| - 1].log == [Began, Refusal, Ended, Dropped(true)]
  {
    var q, log := Finished, [Began, Refusal, Ended];
    ss, steps := RerunStarts(f, c, n);
    ss, steps := Extend(ss, steps, Load(0), Two(NONE, true, n, GateObservers(true), q, log), f, c);
    ss, steps := Extend(ss, steps, SetObservers(0), Two(NONE, true, 0, GateObservers(true), q, log), f, c);
    ss, steps := Extend(ss, steps, Load(0), Two(NONE, true, 0, Finished, q, log + [Dropped(true)]), f, c);
  }

  /** Every refusal is answered by the time nothing runs, in every run that keeps the gates within the given
      values. */
  ghost predicate AlwaysAnswered(flags: set<bool>, counts: set<nat>)
  {
    forall states: seq<State>, steps: seq<Step>, i ::
      Run(states, steps) && 0 <= i < |states| && GatesWithin(states, flags, counts) && Quiescent(states[i]) ==>
        EveryRefusalAnswered(states[i].log)
  }

  lemma ForgottenRefusal(log: seq<Event>)
    requires log == [Began, Refusal, Ended, Dropped(true)]
    ensures !EveryRefusalAnswered(log)
  {
    assert log[1] == Refusal && log[2..] == [Ended, Dropped(true)];
  }

  /** Exactly when refusals are never forgotten: whatever values the gates may take, open ones among them, every
      refusal in every run is answered if and only if neither gate can close. */
  lemma GatesExact(flags: set<bool>, counts: set<nat>, n: nat)
    requires true in flags && n in counts && n > 0
    ensures AlwaysAnswered(flags, counts) <==> false !in flags && 0 !in counts
  {
    if false !in flags && 0 !in counts {
      forall states: seq<State>, steps: seq<Step>, i |
          Run(states, steps) && 0 <= i < |states| && GatesWithin(states, flags, counts) && Quiescent(states[i])
        ensures EveryRefusalAnswered(states[i].log)
      {
        OpenGatesAnswerAll(states, steps, i);
      }
    } else {
      var ss, steps;
      if false in flags {
        ss, steps := UnsynchronizedForgets(flags, counts, n);
      } else {
        ss, steps := UnobservedForgets(flags, counts, n);
      }
      ForgottenRefusal(ss[|ss| - 1].log);
    }
  }
}
