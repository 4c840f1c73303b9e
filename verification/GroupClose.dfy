/** `GroupClose` of src/common/BlockingQueue.h: the last of a group of closers closes the queue. The test of
    the counter and its decrement are two atomic steps of each caller. */
module GroupClose {

  const SIZE_T: nat := 0x1_0000_0000_0000_0000

  /** `inside` holds the callers that saw a non-zero counter and have not yet decremented it; `subs` counts
      decrements and `closes` the calls of `m_queue.close()`. */
  datatype State = State(count: nat, inside: set<nat>, subs: nat, closes: nat)

  datatype Step = Test(t: nat) | Decrement(t: nat)

  predicate Enabled(s: State, a: Step)
  {
    match a
    case Test(t) => t !in s.inside
    case Decrement(t) => t in s.inside
  }

  function Next(s: State, a: Step): State
    requires Enabled(s, a)
  {
    match a
    case Test(t) => if s.count == 0 then s else s.(inside := s.inside + {t})
    case Decrement(t) =>
      State((s.count + SIZE_T - 1) % SIZE_T, s.inside - {t}, s.subs + 1,
            if s.count == 1 then s.closes + 1 else s.closes)
  }

  ghost predicate Run(group: nat, states: seq<State>, steps: seq<Step>)
  {
    && |states| == |steps| + 1
    && states[0] == State(group, {}, 0, 0)
    && forall i :: 0 <= i < |steps| ==> Enabled(states[i], steps[i]) && states[i + 1] == Next(states[i], steps[i])
  }

  /** How often the counter has gone from one to zero after `subs` decrements. */
  function Expected(group: nat, subs: nat): nat
  {
    if group == 0 || subs < group then 0 else 1 + (subs - group) / SIZE_T
  }

  ghost predicate Invariant(group: nat, s: State)
  {
    && s.count < SIZE_T
    && (s.count + s.subs) % SIZE_T == group
    && s.closes == Expected(group, s.subs)
    && (group == 0 ==> s.inside == {} && s.subs == 0)
  }

  lemma DecrementCloses(group: nat, s: State, t: nat)
    requires group < SIZE_T && Invariant(group, s) && t in s.inside
    ensures Next(s, Decrement(t)).closes == Expected(group, s.subs + 1)
    ensures (Next(s, Decrement(t)).count + s.subs + 1) % SIZE_T == group
  {
    var k := (s.count + s.subs) / SIZE_T;
    assert s.count + s.subs == k * SIZE_T + group;
    if s.subs + 1 >= group {
      var d := s.subs + 1 - group;
      assert d == k * SIZE_T + 1 - s.count;
    }
  }

  /** In every run the queue is closed once per full turn of the counter, starting with the decrement that
      completes the group; a group of size zero never closes it. */
  lemma {:induction false} GroupCloses(group: nat, states: seq<State>, steps: seq<Step>, i: nat)
    requires group < SIZE_T && Run(group, states, steps) && i < |states|
    ensures Invariant(group, states[i])
  {
    if i > 0 {
      GroupCloses(group, states, steps, i - 1);
      var s, a := states[i - 1], steps[i - 1];
      assert states[i] == Next(s, a);
      if a.Decrement? { DecrementCloses(group, s, a.t); }
    }
  }

  function Calls(steps: seq<Step>): nat
  {
    if steps == [] then 0
    else Calls(steps[..|steps| - 1]) + if steps[|steps| - 1].Test? then 1 else 0
  }

  /** Every decrement belongs to a call that passed the test. */
  lemma {:induction false} CallsCover(group: nat, states: seq<State>, steps: seq<Step>, i: nat)
    requires Run(group, states, steps) && i < |states|
    ensures states[i].subs + |states[i].inside| <= Calls(steps[..i])
  {
    if i > 0 {
      CallsCover(group, states, steps, i - 1);
      var s, a := states[i - 1], steps[i - 1];
      assert states[i] == Next(s, a);
      assert steps[..i][..i - 1] == steps[..i - 1];
      if a.Decrement? { assert |s.inside - {a.t}| == |s.inside| - 1; }
    }
  }

  /** When each member calls at most once, the queue is closed exactly when the whole group has called, and
      only once. */
  lemma LastMemberCloses(group: nat, states: seq<State>, steps: seq<Step>, i: nat)
    requires 0 < group < SIZE_T && Run(group, states, steps) && i < |states|
    requires Calls(steps[..i]) <= group
    ensures states[i].closes == if states[i].subs == group then 1 else 0
    ensures states[i].count == group - states[i].subs
  {
    GroupCloses(group, states, steps, i);
    CallsCover(group, states, steps, i);
  }

  // ---------- How many calls a group can take ----------

  /** The counter is what is left of the group: it has not been decremented past zero. */
  predicate Intact(group: nat, s: State)
  {
    s.count + s.subs == group
  }

  /** No run with at most `n` calls takes the counter past zero. */
  ghost predicate NeverWraps(group: nat, n: nat)
  {
    forall states, steps, i :: Run(group, states, steps) && 0 <= i < |states| && Calls(steps) <= n ==>
      Intact(group, states[i])
  }

  lemma {:induction false} CallsGrow(steps: seq<Step>, i: nat)
    requires i <= |steps|
    ensures Calls(steps[..i]) <= Calls(steps)
    decreases |steps|
  {
    if i == |steps| {
      assert steps[..i] == steps;
    } else {
      CallsGrow(steps[..|steps| - 1], i);
      assert steps[..|steps| - 1][..i] == steps[..i];
    }
  }

  /** The callers 0 to n - 1. */
  function Callers(n: nat): (s: set<nat>)
    ensures forall t :: t in s ==> t < n
  {
    if n == 0 then {} else Callers(n - 1) + {n - 1}
  }

  /** A run one step longer. */
  lemma Extend(group: nat, states: seq<State>, steps: seq<Step>, a: Step)
      returns (states': seq<State>, steps': seq<Step>)
    requires Run(group, states, steps) && Enabled(states[|states| - 1], a)
    ensures Run(group, states', steps') && states'[|states'| - 1] == Next(states[|states| - 1], a)
    ensures Calls(steps') == Calls(steps) + if a.Test? then 1 else 0
  {
    states', steps' := states + [Next(states[|states| - 1], a)], steps + [a];
    assert steps'[..|steps|] == steps;
    forall i | 0 <= i < |steps'|
      ensures Enabled(states'[i], steps'[i]) && states'[i + 1] == Next(states'[i], steps'[i])
    {
      if i < |steps| {
        assert states'[i] == states[i] && states'[i + 1] == states[i + 1] && steps'[i] == steps[i];
      }
    }
  }

  /** The first `n` callers pass the test before any of them decrements. */
  lemma {:induction false} AllTest(group: nat, n: nat) returns (states: seq<State>, steps: seq<Step>)
    requires 0 < group
    ensures Run(group, states, steps) && Calls(steps) == n
    ensures states[|states| - 1] == State(group, Callers(n), 0, 0)
  {
    if n == 0 {
      states, steps := [State(group, {}, 0, 0)], [];
    } else {
      states, steps := AllTest(group, n - 1);
      states, steps := Extend(group, states, steps, Test(n - 1));
    }
  }

  /** Then the last `k` of them decrement. */
  lemma {:induction false} SomeDecrement(group: nat, n: nat, k: nat) returns (states: seq<State>, steps: seq<Step>)
    requires 0 < group < SIZE_T && k <= n
    ensures Run(group, states, steps) && Calls(steps) == n
    ensures states[|states| - 1].inside == Callers(n - k) && states[|states| - 1].subs == k
  {
    if k == 0 {
      states, steps := AllTest(group, n);
    } else {
      states, steps := SomeDecrement(group, n, k - 1);
      states, steps := Extend(group, states, steps, Decrement(n - k));
      assert Callers(n - k + 1) - {n - k} == Callers(n - k);
    }
  }

  /** One caller more than members, all past the test before the first decrement: the counter wraps to the
      largest value of its type, whatever the size of the group. */
  lemma ExtraCallWraps(group: nat) returns (states: seq<State>, steps: seq<Step>)
    requires 0 < group < 0x1_0000_0000_0000_0000
    ensures Run(group, states, steps) && Calls(steps) == group + 1
    ensures states[|states| - 1].count == 0xffff_ffff_ffff_ffff && states[|states| - 1].subs == group + 1
  {
    states, steps := SomeDecrement(group, group + 1, group + 1);
    GroupCloses(group, states, steps, |states| - 1);
  }

  /** Calls that do not overlap never take the counter past zero, however many there are: those that come after the
      group is complete do nothing. */
  lemma {:induction false} LateCallsDoNothing(group: nat, states: seq<State>, steps: seq<Step>, i: nat)
    requires group < SIZE_T && Run(group, states, steps) && i < |states|
    requires forall k :: 0 <= k < |states| ==> |states[k].inside| <= 1
    ensures Intact(group, states[i]) && (states[i].inside != {} ==> states[i].count > 0)
  {
    if i > 0 {
      LateCallsDoNothing(group, states, steps, i - 1);
      GroupCloses(group, states, steps, i - 1);
      var s, a := states[i - 1], steps[i - 1];
      assert states[i] == Next(s, a);
      if a.Decrement? {
        assert |s.inside - {a.t}| == |s.inside| - 1;
      } else if s.inside != {} && s.count != 0 {
        assert |s.inside + {a.t}| == |s.inside| + 1;
      }
    }
  }

  /** A counter serves its group, in every run, exactly for as many calls as the group has members. */
  lemma CounterExact(group: nat, n: nat)
    requires 0 < group < 0x1_0000_0000_0000_0000
    ensures NeverWraps(group, n) <==> n <= group
  {
    if n <= group {
      forall states, steps, i | Run(group, states, steps) && 0 <= i < |states| && Calls(steps) <= n
        ensures Intact(group, states[i])
      {
        CallsGrow(steps, i);
        LastMemberCloses(group, states, steps, i);
      }
    } else {
      var states, steps := ExtraCallWraps(group);
      assert !Intact(group, states[|states| - 1]);
    }
  }
}
