/** The bounded queue of src/common/BlockingQueue.h: a monitor with two condition variables. What a thread
    does between taking the mutex and either returning or waiting is one atomic step. */
module BlockingQueue {
  import opened Options

  /** Where a thread is. `Start` threads have called and wait for the mutex; `Asleep` threads are inside
      `wait`; `Awake` threads were notified, or woke spuriously, and wait to get the mutex back. */
  datatype Pc<T> =
    | Idle
    | PushStart(v: T) | PushAsleep(v: T) | PushAwake(v: T)
    | PopStart | PopAsleep | PopAwake
    | CloseStart(wait: bool) | CloseAsleep | CloseAwake

  datatype Event<T> =
    | Pushed(item: T) | PushRefused
    | Popped(item: T) | PopRefused
    | Closed | CloseReturned(waited: bool)

  datatype Notify = Nobody | OneForData | OneForSpace | AllForSpace | Everybody

  /** The effect of one passage through the monitor. */
  datatype Effect<T> = Effect(queue: seq<T>, closed: bool, sleeps: bool, notify: Notify, events: seq<Event<T>>)

  predicate Runnable<T>(p: Pc<T>)
  {
    p.PushStart? || p.PushAwake? || p.PopStart? || p.PopAwake? || p.CloseStart? || p.CloseAwake?
  }

  function PushEffect<T>(cap: nat, queue: seq<T>, closed: bool, v: T): Effect<T>
  {
    if !closed && |queue| >= cap then Effect(queue, closed, true, Nobody, [])
    else if closed then Effect(queue, closed, false, Nobody, [PushRefused])
    else Effect(queue + [v], closed, false, OneForData, [Pushed(v)])
  }

  function PopEffect<T>(queue: seq<T>, closed: bool): Effect<T>
  {
    if queue == [] then
      if closed then Effect(queue, closed, false, Nobody, [PopRefused])
      else Effect(queue, closed, true, Nobody, [])
    else
      var notify := if closed && queue[1..] == [] then AllForSpace else OneForSpace;
      Effect(queue[1..], closed, false, notify, [Popped(queue[0])])
  }

  function CloseEffect<T>(queue: seq<T>, wait: bool): Effect<T>
  {
    if wait && queue != [] then Effect(queue, true, true, Everybody, [Closed])
    else Effect(queue, true, false, Everybody, [Closed, CloseReturned(wait)])
  }

  function RecheckEffect<T>(queue: seq<T>, closed: bool): Effect<T>
  {
    if queue != [] then Effect(queue, closed, true, Nobody, [])
    else Effect(queue, closed, false, Nobody, [CloseReturned(true)])
  }

  function Passage<T>(cap: nat, queue: seq<T>, closed: bool, p: Pc<T>): Effect<T>
    requires Runnable(p)
  {
    match p
    case PushStart(v) => PushEffect(cap, queue, closed, v)
    case PushAwake(v) => PushEffect(cap, queue, closed, v)
    case PopStart => PopEffect(queue, closed)
    case PopAwake => PopEffect(queue, closed)
    case CloseStart(wait) => CloseEffect(queue, wait)
    case CloseAwake => RecheckEffect(queue, closed)
  }

  // ---------- Threads ----------

  datatype State<T> = State(cap: nat, queue: seq<T>, closed: bool, pc: map<nat, Pc<T>>, log: seq<Event<T>>)

  datatype Step<T> =
    | Call(t: nat, entry: Pc<T>)
    | Pass(t: nat, pick: Option<nat>)
    | Spurious(t: nat)

  predicate ForData<T>(p: Pc<T>)
  {
    p.PopAsleep?
  }

  predicate ForSpace<T>(p: Pc<T>)
  {
    p.PushAsleep? || p.CloseAsleep?
  }

  function Woken<T>(p: Pc<T>): Pc<T>
  {
    match p
    case PushAsleep(v) => PushAwake(v)
    case PopAsleep => PopAwake
    case CloseAsleep => CloseAwake
    case _ => p
  }

  function Asleep<T>(p: Pc<T>): Pc<T>
    requires Runnable(p)
  {
    match p
    case PushStart(v) => PushAsleep(v)
    case PushAwake(v) => PushAsleep(v)
    case PopStart => PopAsleep
    case PopAwake => PopAsleep
    case CloseStart(_) => CloseAsleep
    case CloseAwake => CloseAsleep
  }

  /** `notify_one` wakes some sleeper, any of them, unless there is none. */
  ghost predicate PickOk<T>(pc: map<nat, Pc<T>>, n: Notify, pick: Option<nat>)
  {
    match n
    case OneForData =>
      if pick.Some? then pick.value in pc && ForData(pc[pick.value])
      else forall t :: t in pc ==> !ForData(pc[t])
    case OneForSpace =>
      if pick.Some? then pick.value in pc && ForSpace(pc[pick.value])
      else forall t :: t in pc ==> !ForSpace(pc[t])
    case _ => pick == None
  }

  ghost function Notified<T>(pc: map<nat, Pc<T>>, n: Notify, pick: Option<nat>): (pc': map<nat, Pc<T>>)
    requires PickOk(pc, n, pick)
    ensures pc'.Keys == pc.Keys
  {
    match n
    case Nobody => pc
    case AllForSpace => map t | t in pc :: if ForSpace(pc[t]) then Woken(pc[t]) else pc[t]
    case Everybody => map t | t in pc :: Woken(pc[t])
    case _ => if pick.Some? then pc[pick.value := Woken(pc[pick.value])] else pc
  }

  ghost function Settled<T>(pc: map<nat, Pc<T>>, t: nat, sleeps: bool): map<nat, Pc<T>>
    requires t in pc && Runnable(pc[t])
  {
    pc[t := if sleeps then Asleep(pc[t]) else Idle]
  }

  ghost predicate Enabled<T>(s: State<T>, a: Step<T>)
  {
    match a
    case Call(t, entry) => t in s.pc && s.pc[t].Idle? && (entry.PushStart? || entry.PopStart? || entry.CloseStart?)
    case Pass(t, pick) =>
      && t in s.pc && Runnable(s.pc[t])
      && PickOk(s.pc, Passage(s.cap, s.queue, s.closed, s.pc[t]).notify, pick)
    case Spurious(t) => t in s.pc && (ForData(s.pc[t]) || ForSpace(s.pc[t]))
  }

  ghost function Next<T>(s: State<T>, a: Step<T>): State<T>
    requires Enabled(s, a)
  {
    match a
    case Call(t, entry) => s.(pc := s.pc[t := entry])
    case Spurious(t) => s.(pc := s.pc[t := Woken(s.pc[t])])
    case Pass(t, pick) =>
      var e := Passage(s.cap, s.queue, s.closed, s.pc[t]);
      WokenRunnable(s.pc, e.notify, pick, t);
      State(s.cap, e.queue, e.closed, Settled(Notified(s.pc, e.notify, pick), t, e.sleeps), s.log + e.events)
  }

  /** The notifying thread is not asleep, so it is not woken by its own notification. */
  lemma WokenRunnable<T>(pc: map<nat, Pc<T>>, n: Notify, pick: Option<nat>, t: nat)
    requires t in pc && Runnable(pc[t]) && PickOk(pc, n, pick)
    ensures Notified(pc, n, pick)[t] == pc[t]
  {
  }

  ghost predicate Init<T>(s: State<T>)
  {
    s.queue == [] && !s.closed && s.log == [] && forall t :: t in s.pc ==> s.pc[t].Idle?
  }

  /** The states of a run: `states[i]` leads to `states[i + 1]` by `steps[i]`. */
  ghost predicate Run<T>(states: seq<State<T>>, steps: seq<Step<T>>)
  {
    && |states| == |steps| + 1
    && Init(states[0])
    && forall i :: 0 <= i < |steps| ==> Enabled(states[i], steps[i]) && states[i + 1] == Next(states[i], steps[i])
  }
}
