/** The first callback's bookkeeping in src/blockchain_explorer/BlockchainExplorer.cpp: applying a symmetric
    difference to `knownPoolState`, and what the observers are told of it. Transactions are named by their hashes. */
module PoolState {

  type Hash = nat

  function Elements(s: seq<Hash>): set<Hash>
  {
    set h | h in s
  }

  predicate NoDuplicates(s: seq<Hash>)
  {
    forall i, j :: 0 <= i < j < |s| ==> s[i] != s[j]
  }

  lemma ElementsAppend(s: seq<Hash>, h: Hash)
    ensures Elements(s + [h]) == Elements(s) + {h}
    ensures NoDuplicates(s) && h !in s ==> NoDuplicates(s + [h])
  {
  }

  /** The hashes of `s` that are in `pool`, or that are not, each once and in the order they first appear. */
  function Firsts(s: seq<Hash>, pool: set<Hash>, inside: bool): seq<Hash>
  {
    if s == [] then []
    else
      var front, h := s[..|s| - 1], s[|s| - 1];
      Firsts(front, pool, inside) + if (h in pool) == inside && h !in front then [h] else []
  }

  lemma {:induction false} FirstsExact(s: seq<Hash>, pool: set<Hash>, inside: bool)
    ensures NoDuplicates(Firsts(s, pool, inside))
    ensures Elements(Firsts(s, pool, inside)) == if inside then Elements(s) * pool else Elements(s) - pool
  {
    if s != [] {
      var front, h := s[..|s| - 1], s[|s| - 1];
      FirstsExact(front, pool, inside);
      assert s == front + [h];
      ElementsAppend(front, h);
      ElementsAppend(Firsts(front, pool, inside), h);
      var out := Firsts(front, pool, inside);
      assert h in out <==> h in Elements(out);
      assert h in front <==> h in Elements(front);
      assert out + [] == out;
    }
  }

  /** Each hash of the list stands where it first appears in `s`, and the places go up. */
  lemma {:induction false} FirstsInOrder(s: seq<Hash>, pool: set<Hash>, inside: bool) returns (at: seq<nat>)
    ensures var out := Firsts(s, pool, inside);
            && |at| == |out|
            && (forall i :: 0 <= i < |at| ==> at[i] < |s| && s[at[i]] == out[i] && out[i] !in s[..at[i]])
            && (forall i, j :: 0 <= i < j < |at| ==> at[i] < at[j])
  {
    at := [];
    if s != [] {
      var front, h := s[..|s| - 1], s[|s| - 1];
      at := FirstsInOrder(front, pool, inside);
      forall i | 0 <= i < |at|
        ensures s[at[i]] == front[at[i]] && s[..at[i]] == front[..at[i]]
      {
      }
      if (h in pool) == inside && h !in front { at := at + [|s| - 1]; }
    }
  }

  lemma FirstsStep(s: seq<Hash>, i: nat, pool: set<Hash>, inside: bool)
    requires i < |s|
    ensures Elements(s[..i + 1]) == Elements(s[..i]) + {s[i]}
    ensures Firsts(s[..i + 1], pool, inside)
         == Firsts(s[..i], pool, inside) + if (s[i] in pool) == inside && s[i] !in s[..i] then [s[i]] else []
  {
    assert s[..i + 1] == s[..i] + [s[i]];
    assert s[..i + 1][..i] == s[..i];
    ElementsAppend(s[..i], s[i]);
  }

  // ---------- What an observer holds ----------

  /** One update whose first request succeeded: the difference it brought, and whether the second request, after
      which the observers are notified, succeeded too. */
  datatype Update = Update(added: seq<Hash>, removed: seq<Hash>, delivered: bool)

  function News(known: set<Hash>, u: Update): seq<Hash>
  {
    Firsts(u.added, known, false)
  }

  function Gone(known: set<Hash>, u: Update): seq<Hash>
  {
    Firsts(u.removed, known + Elements(u.added), true)
  }

  function KnownAfter(known: set<Hash>, u: Update): set<Hash>
  {
    known + Elements(u.added) - Elements(u.removed)
  }

  /** An observer adds what it is told is new and drops what it is told is gone; it hears of an update only when
      the second request succeeds. */
  function ViewAfter(known: set<Hash>, view: set<Hash>, u: Update): set<Hash>
  {
    if u.delivered then view + Elements(News(known, u)) - Elements(Gone(known, u)) else view
  }

  /** The update reports `h`, as new or as gone. */
  predicate Mentions(known: set<Hash>, u: Update, h: Hash)
  {
    h in News(known, u) || h in Gone(known, u)
  }

  /** A report that reaches the observer settles the hashes it mentions and leaves the others, and so does the
      update itself. */
  lemma ReportSettles(known: set<Hash>, view: set<Hash>, u: Update, h: Hash)
    ensures !Mentions(known, u, h) ==> (h in KnownAfter(known, u) <==> h in known)
    ensures u.delivered && Mentions(known, u, h) ==> (h in ViewAfter(known, view, u) <==> h in KnownAfter(known, u))
    ensures !(u.delivered && Mentions(known, u, h)) ==> (h in ViewAfter(known, view, u) <==> h in view)
  {
    FirstsExact(u.added, known, false);
    FirstsExact(u.removed, known + Elements(u.added), true);
    var news, gone := News(known, u), Gone(known, u);
    assert h in Elements(news) <==> h in news;
    assert h in Elements(gone) <==> h in gone;
  }

  /** From agreement, an observer agrees again exactly when the report reached it or there was nothing to
      report. */
  lemma AgreementExact(known: set<Hash>, u: Update)
    ensures ViewAfter(known, known, u) == KnownAfter(known, u) <==> u.delivered || KnownAfter(known, u) == known
  {
    forall h
      ensures u.delivered ==> (h in ViewAfter(known, known, u) <==> h in KnownAfter(known, u))
    {
      ReportSettles(known, known, u, h);
    }
  }

  /** The known pool and the view after the first `k` updates. */
  function PoolAt(known: set<Hash>, us: seq<Update>, k: nat): set<Hash>
    requires k <= |us|
  {
    if k == 0 then known else KnownAfter(PoolAt(known, us, k - 1), us[k - 1])
  }

  function ViewAt(known: set<Hash>, us: seq<Update>, k: nat): set<Hash>
    requires k <= |us|
  {
    if k == 0 then known else ViewAfter(PoolAt(known, us, k - 1), ViewAt(known, us, k - 1), us[k - 1])
  }

  ghost predicate AgreesAt(known: set<Hash>, us: seq<Update>, k: nat)
    requires k <= |us|
  {
    ViewAt(known, us, k) == PoolAt(known, us, k)
  }

  /** The update at `k` cost the observer nothing. */
  ghost predicate Harmless(known: set<Hash>, us: seq<Update>, k: nat)
    requires k < |us|
  {
    us[k].delivered || PoolAt(known, us, k + 1) == PoolAt(known, us, k)
  }

  lemma {:induction false} AgreesWhileHarmless(known: set<Hash>, us: seq<Update>, k: nat)
    requires k <= |us| && forall i :: 0 <= i < k ==> Harmless(known, us, i)
    ensures AgreesAt(known, us, k)
  {
    if k > 0 {
      AgreesWhileHarmless(known, us, k - 1);
      assert Harmless(known, us, k - 1);
      AgreementExact(PoolAt(known, us, k - 1), us[k - 1]);
    }
  }

  /** Over any sequence of updates the observer agrees all along exactly when every report reached it or had
      nothing to say. */
  lemma AlwaysAgreesExact(known: set<Hash>, us: seq<Update>)
    ensures (forall k :: 0 <= k <= |us| ==> AgreesAt(known, us, k))
       <==> (forall k :: 0 <= k < |us| ==> Harmless(known, us, k))
  {
    if forall k :: 0 <= k < |us| ==> Harmless(known, us, k) {
      forall k | 0 <= k <= |us|
        ensures AgreesAt(known, us, k)
      {
        AgreesWhileHarmless(known, us, k);
      }
    }
    if forall k :: 0 <= k <= |us| ==> AgreesAt(known, us, k) {
      forall k | 0 <= k < |us|
        ensures Harmless(known, us, k)
      {
        assert AgreesAt(known, us, k) && AgreesAt(known, us, k + 1);
        AgreementExact(PoolAt(known, us, k), us[k]);
      }
    }
  }

  /** How many of the first `k` updates to replay to be where the observer last heard of `h`. */
  function LastHeard(known: set<Hash>, us: seq<Update>, k: nat, h: Hash): (n: nat)
    requires k <= |us|
    ensures n <= k
  {
    if k == 0 then 0
    else if us[k - 1].delivered && Mentions(PoolAt(known, us, k - 1), us[k - 1], h) then k
    else LastHeard(known, us, k - 1, h)
  }

  /** An observer holds of each hash what was true when it last heard of it: a lost report is made good by the
      next one that mentions the hash, and by nothing else. */
  lemma {:induction false} ViewIsLastHeard(known: set<Hash>, us: seq<Update>, k: nat, h: Hash)
    requires k <= |us|
    ensures h in ViewAt(known, us, k) <==> h in PoolAt(known, us, LastHeard(known, us, k, h))
  {
    if k > 0 {
      ViewIsLastHeard(known, us, k - 1, h);
      ReportSettles(PoolAt(known, us, k - 1), ViewAt(known, us, k - 1), us[k - 1], h);
    }
  }

  /** A failed second request after one new transaction: the next update, having nothing new, leaves the
      observer behind. */
  lemma LostReport(h: Hash)
    ensures var us := [Update([h], [], false), Update([], [], true)];
            PoolAt({}, us, 2) == {h} && ViewAt({}, us, 2) == {}
  {
    var first, second := Update([h], [], false), Update([], [], true);
    var us := [first, second];
    assert KnownAfter({}, first) == {h} && KnownAfter({h}, second) == {h};
    assert PoolAt({}, us, 0) == {} && ViewAt({}, us, 0) == {};
    assert PoolAt({}, us, 1) == {h};
    assert ViewAt({}, us, 1) == ViewAfter({}, {}, first) == {};
    assert ViewAfter({h}, {}, second) == {};
  }

  /** `view` is what an observer that was notified of every delivered report holds. */
  class KnownPool {
    var known: set<Hash>
    var view: set<Hash>

    /** The two loops of the first callback, building the lists to report: each hash once, in order; a
        transaction already known is not new, and one that is not known is not gone. */
    method Apply(added: seq<Hash>, removed: seq<Hash>) returns (news: seq<Hash>, gone: seq<Hash>)
      modifies this`known
      ensures known == (old(known) + Elements(added)) - Elements(removed)
      ensures news == Firsts(added, old(known), false)
      ensures gone == Firsts(removed, old(known) + Elements(added), true)
      ensures (old(known) + Elements(news)) - Elements(gone) == known
    {
      news, gone := [], [];
      for i := 0 to |added|
        invariant known == old(known) + Elements(added[..i])
        invariant news == Firsts(added[..i], old(known), false)
      {
        FirstsStep(added, i, old(known), false);
        assert added[i] in Elements(added[..i]) <==> added[i] in added[..i];
        if added[i] !in known {
          news := news + [added[i]];
        }
        known := known + {added[i]};
      }
      assert added[..|added|] == added;
      ghost var all := known;
      for i := 0 to |removed|
        invariant known == all - Elements(removed[..i])
        invariant gone == Firsts(removed[..i], all, true)
      {
        FirstsStep(removed, i, all, true);
        assert removed[i] in Elements(removed[..i]) <==> removed[i] in removed[..i];
        if removed[i] in known {
          gone := gone + [removed[i]];
          known := known - {removed[i]};
        }
      }
      assert removed[..|removed|] == removed;
      FirstsExact(added, old(known), false);
      FirstsExact(removed, all, true);
    }

    /** An update from the first callback on: the pool changes there, but the lists reach the observers only
        from the second callback, when its request has succeeded and there is something to tell. */
    method Process(u: Update)
      modifies this
      ensures known == KnownAfter(old(known), u)
      ensures view == ViewAfter(old(known), old(view), u)
      ensures old(view) == old(known) ==> (view == known <==> u.delivered || known == old(known))
    {
      AgreementExact(known, u);
      var news, gone := Apply(u.added, u.removed);
      if u.delivered && (|news| > 0 || |gone| > 0) {
        view := (view + (set h | h in news)) - (set h | h in gone);
      }
    }
  }
}
