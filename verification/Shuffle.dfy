/** The sparse Fisher-Yates generator of src/common/ShuffleGenerator.h. The random draw of each call is an
    input; the hash map `selected` stands for an array that is never built. */
module Shuffle {
  import opened Options

  // ---------- The dense array and its draws ----------

  function Identity(n: nat): (s: seq<nat>)
    ensures |s| == n
  {
    seq(n, i => i)
  }

  /** Take entry `d` and move the last entry into its place. */
  function Take(dense: seq<nat>, d: nat): seq<nat>
    requires d < |dense|
  {
    dense[d := dense[|dense| - 1]][..|dense| - 1]
  }

  /** The k-th draw is in [0, count - 1 - k]. */
  predicate ValidDraws(count: nat, draws: seq<nat>)
  {
    |draws| <= count && forall k :: 0 <= k < |draws| ==> draws[k] < count - k
  }

  function Outputs(dense: seq<nat>, draws: seq<nat>): (out: seq<nat>)
    requires ValidDraws(|dense|, draws)
    ensures |out| == |draws|
    decreases draws
  {
    if draws == [] then [] else [dense[draws[0]]] + Outputs(Take(dense, draws[0]), draws[1..])
  }

  predicate Distinct(s: seq<nat>)
  {
    forall i, j :: 0 <= i < j < |s| ==> s[i] != s[j]
  }

  ghost predicate Permutation(p: seq<nat>, dense: seq<nat>)
  {
    multiset(p) == multiset(dense)
  }

  function IndexOf(s: seq<nat>, x: nat): (i: nat)
    requires x in s
    ensures i < |s| && s[i] == x
  {
    if s[0] == x then 0 else 1 + IndexOf(s[1..], x)
  }

  /** The last entry takes the place of the drawn one, and no other moves. */
  lemma TakeExact(dense: seq<nat>, d: nat, i: nat)
    requires d < |dense| && i < |dense| - 1
    ensures |Take(dense, d)| == |dense| - 1
    ensures Take(dense, d)[i] == dense[if i == d then |dense| - 1 else i]
  {
  }

  lemma TakeSplits(dense: seq<nat>, d: nat)
    requires d < |dense|
    ensures multiset(dense) == multiset{dense[d]} + multiset(Take(dense, d))
  {
    var last := dense[|dense| - 1];
    var moved := dense[d := last];
    assert moved == Take(dense, d) + [last];
    assert multiset(moved) == multiset{last} + (multiset(dense) - multiset{dense[d]});
    assert multiset(moved) == multiset{last} + multiset(Take(dense, d));
    assert dense[d] in multiset(dense);
    assert multiset{dense[d]} + (multiset(dense) - multiset{dense[d]}) == multiset(dense);
    CancelHead(last, multiset(Take(dense, d)), multiset(dense) - multiset{dense[d]});
  }

  lemma TakeDistinct(dense: seq<nat>, d: nat)
    requires d < |dense| && Distinct(dense)
    ensures Distinct(Take(dense, d))
  {
  }

  lemma CancelHead(x: nat, a: multiset<nat>, b: multiset<nat>)
    requires multiset{x} + a == multiset{x} + b
    ensures a == b
  {
    assert (multiset{x} + a) - multiset{x} == a;
    assert (multiset{x} + b) - multiset{x} == b;
  }

  lemma PermutationLength(p: seq<nat>, dense: seq<nat>)
    requires Permutation(p, dense)
    ensures |p| == |dense|
  {
    assert |p| == |multiset(p)| && |dense| == |multiset(dense)|;
  }

  lemma PermutationTail(p: seq<nat>, dense: seq<nat>)
    requires Permutation(p, dense) && p != []
    ensures |p| == |dense| && p[0] in dense
    ensures Permutation(p[1..], Take(dense, IndexOf(dense, p[0])))
  {
    PermutationLength(p, dense);
    assert p[0] in multiset(p);
    assert p[0] in multiset(dense);
    var dense' := Take(dense, IndexOf(dense, p[0]));
    TakeSplits(dense, IndexOf(dense, p[0]));
    assert multiset(p) == multiset{p[0]} + multiset(p[1..]) by { assert p == [p[0]] + p[1..]; }
    CancelHead(p[0], multiset(p[1..]), multiset(dense'));
  }

  /** The draws that make the generator produce `p`. */
  ghost function DrawsFor(dense: seq<nat>, p: seq<nat>): (draws: seq<nat>)
    requires Permutation(p, dense)
    ensures |draws| == |p|
    decreases p
  {
    if p == [] then []
    else
      PermutationTail(p, dense);
      var d := IndexOf(dense, p[0]);
      [d] + DrawsFor(Take(dense, d), p[1..])
  }

  /** A full set of draws yields a rearrangement of the array. */
  lemma {:induction false} OutputsPermute(dense: seq<nat>, draws: seq<nat>)
    requires ValidDraws(|dense|, draws) && |draws| == |dense|
    ensures Permutation(Outputs(dense, draws), dense)
    decreases draws
  {
    if draws == [] {
      assert dense == [];
    } else {
      TakeSplits(dense, draws[0]);
      OutputsPermute(Take(dense, draws[0]), draws[1..]);
    }
  }

  /** Every rearrangement is reached. */
  lemma {:induction false} OutputsReach(dense: seq<nat>, p: seq<nat>)
    requires Permutation(p, dense)
    ensures |p| == |dense| && ValidDraws(|dense|, DrawsFor(dense, p))
    ensures Outputs(dense, DrawsFor(dense, p)) == p
    decreases p
  {
    PermutationLength(p, dense);
    if p != [] {
      PermutationTail(p, dense);
      var d := IndexOf(dense, p[0]);
      OutputsReach(Take(dense, d), p[1..]);
      var draws := DrawsFor(dense, p);
      assert draws[1..] == DrawsFor(Take(dense, d), p[1..]);
    }
  }

  lemma IndexOfUnique(s: seq<nat>, i: nat)
    requires Distinct(s) && i < |s|
    ensures IndexOf(s, s[i]) == i
  {
  }

  /** The outputs give the draws back. */
  lemma {:induction false} DrawsRecovered(dense: seq<nat>, draws: seq<nat>)
    requires Distinct(dense) && ValidDraws(|dense|, draws) && |draws| == |dense|
    ensures Permutation(Outputs(dense, draws), dense)
    ensures DrawsFor(dense, Outputs(dense, draws)) == draws
    decreases draws
  {
    OutputsPermute(dense, draws);
    if draws != [] {
      var out := Outputs(dense, draws);
      TakeDistinct(dense, draws[0]);
      IndexOfUnique(dense, draws[0]);
      DrawsRecovered(Take(dense, draws[0]), draws[1..]);
      assert out[1..] == Outputs(Take(dense, draws[0]), draws[1..]);
    }
  }

  // ---------- The sparse map ----------

  function Lookup(selected: map<nat, nat>, i: nat): nat
  {
    if i in selected then selected[i] else i
  }

  /** The array that `selected` stands for while `count` entries are left. */
  function Dense(selected: map<nat, nat>, count: nat): (s: seq<nat>)
    ensures |s| == count
  {
    seq(count, i requires 0 <= i < count => Lookup(selected, i))
  }

  /** The value returned by a call that draws `d` with `count + 1` entries left, and the map afterwards. */
  function Call(selected: map<nat, nat>, count: nat, d: nat): (nat, map<nat, nat>)
  {
    (Lookup(selected, d), selected[d := Lookup(selected, count)])
  }

  /** One call is one draw on the array; keys at or above `count` do not matter before or after. */
  lemma CallRefinesTake(selected: map<nat, nat>, count: nat, d: nat)
    requires d <= count
    ensures var (value, selected') := Call(selected, count, d);
            && value == Dense(selected, count + 1)[d]
            && Dense(selected', count) == Take(Dense(selected, count + 1), d)
  {
    var s := Dense(selected, count + 1);
    var s' := Dense(Call(selected, count, d).1, count);
    forall i | 0 <= i < count
      ensures s'[i] == Take(s, d)[i]
    {
    }
  }

  function SparseOutputs(selected: map<nat, nat>, count: nat, draws: seq<nat>): (out: seq<nat>)
    requires ValidDraws(count, draws)
    ensures |out| == |draws|
    decreases draws
  {
    if draws == [] then []
    else
      var (value, selected') := Call(selected, count - 1, draws[0]);
      [value] + SparseOutputs(selected', count - 1, draws[1..])
  }

  lemma {:induction false} SparseOutputsDense(selected: map<nat, nat>, count: nat, draws: seq<nat>)
    requires ValidDraws(count, draws)
    ensures SparseOutputs(selected, count, draws) == Outputs(Dense(selected, count), draws)
    decreases draws
  {
    if draws != [] {
      CallRefinesTake(selected, count - 1, draws[0]);
      SparseOutputsDense(Call(selected, count - 1, draws[0]).1, count - 1, draws[1..]);
    }
  }

  lemma FreshDense(n: nat)
    ensures Dense(map[], n) == Identity(n) && Distinct(Identity(n))
  {
  }

  /** Draw sequences and permutations of 0..n-1 correspond one to one under `n` calls: every run is a
      permutation, every permutation is reached, and the outputs determine the draws. */
  lemma ShuffleBijection(n: nat)
    ensures forall draws | |draws| == n && ValidDraws(n, draws) ::
              Permutation(SparseOutputs(map[], n, draws), Identity(n))
    ensures forall p | Permutation(p, Identity(n)) ::
              exists draws :: |draws| == n && ValidDraws(n, draws) && SparseOutputs(map[], n, draws) == p
    ensures forall a, b | |a| == n && |b| == n && ValidDraws(n, a) && ValidDraws(n, b) ::
              SparseOutputs(map[], n, a) == SparseOutputs(map[], n, b) ==> a == b
  {
    FreshDense(n);
    forall draws | |draws| == n && ValidDraws(n, draws)
      ensures Permutation(SparseOutputs(map[], n, draws), Identity(n))
      ensures DrawsFor(Identity(n), SparseOutputs(map[], n, draws)) == draws
    {
      SparseOutputsDense(map[], n, draws);
      DrawsRecovered(Identity(n), draws);
    }
    forall p | Permutation(p, Identity(n))
      ensures exists draws :: |draws| == n && ValidDraws(n, draws) && SparseOutputs(map[], n, draws) == p
    {
      OutputsReach(Identity(n), p);
      SparseOutputsDense(map[], n, DrawsFor(Identity(n), p));
    }
  }

  // ---------- The generator ----------

  class ShuffleGenerator {
    const N: nat
    var count: nat
    var selected: map<nat, nat>

    constructor (n: nat)
      ensures N == n && count == n && selected == map[]
    {
      N, count, selected := n, n, map[];
    }

    /** `operator()`: the source throws when the sequence has ended. */
    method Next(draw: nat) returns (r: Option<nat>)
      requires count > 0 ==> draw < count
      modifies this
      ensures old(count) == 0 ==> r == None && count == 0 && selected == old(selected)
      ensures old(count) > 0 ==> count == old(count) - 1
      ensures old(count) > 0 ==> (r.Some? && (r.value, selected) == Call(old(selected), count, draw))
      ensures old(count) > 0 ==>
        (r.value == old(Dense(selected, count))[draw]
         && Dense(selected, count) == Take(old(Dense(selected, count)), draw))
    {
      if count == 0 {
        return None;
      }
      count := count - 1;
      CallRefinesTake(selected, count, draw);
      var value := draw;
      var rval := if count in selected then selected[count] else count;
      if value in selected {
        value := selected[value];
        selected := selected[draw := rval];
      } else {
        selected := selected[value := rval];
      }
      return Some(value);
    }

    /** `reset`. */
    method Reset()
      modifies this
      ensures count == N && Dense(selected, count) == Identity(N)
    {
      count := N;
      selected := map[];
    }
  }

  // ---------- Runs with resets ----------

  datatype Op = Draw(d: nat) | Reset

  ghost predicate ValidOps(n: nat, count: nat, ops: seq<Op>)
    decreases ops
  {
    ops == [] ||
    match ops[0]
    case Draw(d) =>
      if count == 0 then ValidOps(n, 0, ops[1..]) else d < count && ValidOps(n, count - 1, ops[1..])
    case Reset => ValidOps(n, n, ops[1..])
  }

  ghost function SparseRun(n: nat, selected: map<nat, nat>, count: nat, ops: seq<Op>): seq<Option<nat>>
    requires ValidOps(n, count, ops)
    decreases ops
  {
    if ops == [] then []
    else
      match ops[0]
      case Draw(d) =>
        if count == 0 then [None] + SparseRun(n, selected, 0, ops[1..])
        else
          var (value, selected') := Call(selected, count - 1, d);
          [Some(value)] + SparseRun(n, selected', count - 1, ops[1..])
      case Reset => SparseRun(n, map[], n, ops[1..])
  }

  ghost function DenseRun(n: nat, dense: seq<nat>, ops: seq<Op>): seq<Option<nat>>
    requires ValidOps(n, |dense|, ops)
    decreases ops
  {
    if ops == [] then []
    else
      match ops[0]
      case Draw(d) =>
        if dense == [] then [None] + DenseRun(n, [], ops[1..])
        else [Some(dense[d])] + DenseRun(n, Take(dense, d), ops[1..])
      case Reset => DenseRun(n, Identity(n), ops[1..])
  }

  /** Over any run, resets and exhausted calls included, the map behaves as the array it stands for. */
  lemma {:induction false} SparseRunRefinesDense(n: nat, selected: map<nat, nat>, count: nat, ops: seq<Op>)
    requires ValidOps(n, count, ops)
    ensures SparseRun(n, selected, count, ops) == DenseRun(n, Dense(selected, count), ops)
    decreases ops
  {
    if ops != [] {
      match ops[0]
      case Draw(d) =>
        if count == 0 {
          assert Dense(selected, 0) == [];
          SparseRunRefinesDense(n, selected, 0, ops[1..]);
        } else {
          CallRefinesTake(selected, count - 1, d);
          SparseRunRefinesDense(n, Call(selected, count - 1, d).1, count - 1, ops[1..]);
        }
      case Reset =>
        FreshDense(n);
        SparseRunRefinesDense(n, map[], n, ops[1..]);
    }
  }

  /** Keys at or above `count` are never read: maps that agree below it give the same run. */
  lemma StaleKeysIrrelevant(n: nat, a: map<nat, nat>, b: map<nat, nat>, count: nat, ops: seq<Op>)
    requires ValidOps(n, count, ops)
    requires forall i :: 0 <= i < count ==> Lookup(a, i) == Lookup(b, i)
    ensures SparseRun(n, a, count, ops) == SparseRun(n, b, count, ops)
  {
    assert Dense(a, count) == Dense(b, count);
    SparseRunRefinesDense(n, a, count, ops);
    SparseRunRefinesDense(n, b, count, ops);
  }
}
