/** src/graph.hpp: contract_edge, as values. After the contracted edge is
    removed, the lists of its endpoints s and t are merged, the parallel
    edges the merge reports are removed, and every edge left at t is
    renumbered to end at s instead (_change_edge_target). The lemmas here
    carry the representation through each of these steps. */
module Contraction {
  import opened Incidence
  import opened GraphRep

  /** _change_edge_target(e, nt) on the records: the end of e that is its
      target becomes nt. */
  function Retargeted(D: Records, e: Edge, nt: int): Records
    requires e.id in D
  {
    D[e.id := if e.reverse then D[e.id].(s := nt) else D[e.id].(t := nt)]
  }

  /** _change_edge_target(e, nt) on the list of e's source v: e leaves its
      place among the targets and is put back at nt's place. When nt is a
      new target for v, the list holds the same entries, stays sorted and
      has e's old target replaced by nt. */
  lemma RetargetedList(D: Records, l: seq<Edge>, e: Edge, v: int, nt: int)
    requires Leaving(D, l, v) && Sorted(D, l) && e in l && D[e.id].s != D[e.id].t
    requires nt !in Targets(D, l) && nt != v
    ensures Known(D, Removed(D, l, Target(D, e)))
    ensures Known(Retargeted(D, e, nt), Removed(D, l, Target(D, e)))
    ensures var D', l' := Retargeted(D, e, nt), Inserted(Retargeted(D, e, nt), Removed(D, l, Target(D, e)), e);
      Leaving(D', l', v) && Sorted(D', l') && |l'| == |l| &&
      (forall f :: f in l' <==> f in l) &&
      Targets(D', l') == Targets(D, l) - {Target(D, e)} + {nt}
  {
    var D' := Retargeted(D, e, nt);
    var r := Removed(D, l, Target(D, e));
    RetargetCut(D, l, e, v);
    assert Agree(D, D', r);
    AgreeTransfer(D, D', r);
    assert Target(D', e) == nt && Source(D', e) == v;
    InsertedSorted(D', r, e);
    InsertedMembers(D', r, e);
    var l' := Inserted(D', r, e);
    forall i | 0 <= i < |l'| ensures Live(D', l'[i].id) && Source(D', l'[i]) == v {
      assert l'[i] in l;
      var j :| 0 <= j < |l| && l[j] == l'[i];
    }
  }

  /** The first half of _change_edge_target: l without e is sorted, lacks
      only e and holds no other entry of e's edge. */
  lemma RetargetCut(D: Records, l: seq<Edge>, e: Edge, v: int)
    requires Leaving(D, l, v) && Sorted(D, l) && e in l && D[e.id].s != D[e.id].t
    ensures Known(D, Removed(D, l, Target(D, e)))
    ensures var r := Removed(D, l, Target(D, e));
      Sorted(D, r) && |r| == |l| - 1 && Targets(D, r) == Targets(D, l) - {Target(D, e)} &&
      (forall f :: f in l <==> f in r || f == e) &&
      forall i :: 0 <= i < |r| ==> r[i].id != e.id && Live(D, r[i].id) && Source(D, r[i]) == v
  {
    var t := Target(D, e);
    RemovedSorted(D, l, t);
    RemovedMembers(D, l, t);
    var r := Removed(D, l, t);
    var k := IndexOfTarget(D, l, t);
    OneEntryPerTarget(D, l, e, l[k]);
    assert |r| == |l| - 1 by {
      assert |multiset(r)| == |multiset(l)| - 1;
    }
    forall i | 0 <= i < |r| ensures r[i].id != e.id && Live(D, r[i].id) && Source(D, r[i]) == v {
      assert r[i] in r;
      var j :| 0 <= j < |l| && l[j] == r[i];
      SameId(D, e, r[i]);
    }
    forall f | f in l ensures f in r || f == e {
      if Target(D, f) == t {
        OneEntryPerTarget(D, l, f, e);
      }
    }
  }

  /** The record of an edge whose end t is renumbered to s. */
  function Shifted(r: EdgeData, t: int, s: int): EdgeData {
    r.(s := if r.s == t then s else r.s, t := if r.t == t then s else r.t)
  }

  /** The records after the edges numbered in P had their end t renumbered
      to s. */
  function Moved(D: Records, t: int, s: int, P: set<int>): Records {
    map id | id in D :: if id in P then Shifted(D[id], t, s) else D[id]
  }

  /** The records after the edges numbered in K were marked removed. */
  function Killed(D: Records, K: set<int>): Records {
    map id | id in D :: if id in K then D[id].(removed := true) else D[id]
  }

  /** Removing one more edge of the parallel ones. */
  lemma KilledStep(D: Records, K: set<int>, id: int)
    requires id in D
    ensures id in Killed(D, K) && Dead(Killed(D, K), id) == Killed(D, K + {id})
  {
  }

  /** The ids of a prefix grow by one entry at a time. */
  lemma IdsStep(l: seq<Edge>, i: int)
    requires 0 <= i < |l|
    ensures Ids(l[..i + 1]) == Ids(l[..i]) + {l[i].id}
  {
    assert forall k :: 0 <= k < i ==> l[..i + 1][k] == l[..i][k];
    assert l[..i + 1][i] == l[i];
  }

  /** The state in the middle of the renumbering loop of contract_edge:
      D5 and inc5 are the graph before it, the first i edges of t's list
      have been renumbered, and the lists outside s and t are right. */
  ghost predicate Renumbering(D5: Records, inc5: seq<seq<Edge>>, s: int, t: int, i: int, D: Records, inc: seq<seq<Edge>>) {
    Rep(D5, inc5) && 0 <= s < |inc5| && 0 <= t < |inc5| && s != t && !Joined(D5, s, t) &&
    Known(D5, inc5[s]) && Known(D5, inc5[t]) &&
    Targets(D5, inc5[s]) * Targets(D5, inc5[t]) == {} &&
    0 <= i <= |inc5[t]| && |inc| == |inc5| && inc[s] == inc5[s] && inc[t] == inc5[t] &&
    D == Moved(D5, t, s, Ids(inc5[t][..i])) && RepBut(D, inc, {s, t}) &&
    forall x :: 0 <= x < |inc| ==> |inc[x]| == |inc5[x]|
  }

  /** What the renumbering step at position i works with: the entry g of
      the edge seen from its far end x, which is listed at x, and s is not
      yet a target at x. */
  lemma RenumberFacts(D5: Records, inc5: seq<seq<Edge>>, s: int, t: int, i: int, D: Records, inc: seq<seq<Edge>>)
    requires Renumbering(D5, inc5, s, t, i, D, inc) && i < |inc5[t]|
    ensures var f := inc5[t][i]; var g := OppositeDir(f);
      g.id in D && g.id in D5 && D[g.id] == D5[g.id] && Live(D, g.id) &&
      0 <= Source(D, g) < |inc| && Source(D, g) != s && Source(D, g) != t &&
      Source(D, g) == Target(D5, f) && Target(D, g) == t && D[g.id].s != D[g.id].t &&
      Leaving(D, inc[Source(D, g)], Source(D, g)) && Sorted(D, inc[Source(D, g)]) &&
      g in inc[Source(D, g)] && s !in Targets(D, inc[Source(D, g)]) &&
      g.id !in Ids(inc5[t][..i])
  {
    var T5 := inc5[t];
    var f := T5[i];
    var g := OppositeDir(f);
    Members(D5, inc5, {}, t);
    Members(D5, inc5, {}, s);
    SortedUnique(D5, T5);
    assert f in T5;
    var x := Target(D5, f);
    assert Live(D5, f.id) && Source(D5, f) == t;
    forall k | 0 <= k < i ensures T5[..i][k].id != g.id {
      assert T5[..i][k] == T5[k];
      assert T5[k] in T5;
      SameId(D5, T5[k], f);
    }
    assert D[g.id] == D5[g.id];
    Members(D, inc, {s, t}, x);
    // the edges already renumbered do not end at x
    forall k | k in Ids(T5[..i]) ensures D[k].s != x && D[k].t != x {
      var j :| 0 <= j < i && T5[..i][j].id == k;
      assert T5[j] in T5;
    }
    TargetsHave(D5, inc5[s]);
    TargetsHave(D5, T5);
    assert x in Targets(D5, T5);
    forall h | h in inc[x] ensures Target(D, h) != s {
      assert D[h.id] == D5[h.id];
      assert OppositeDir(h) in inc5[s] <==> Live(D5, h.id) && Source(D5, OppositeDir(h)) == s;
    }
  }

  /** One renumbering step: _change_edge_target(g, s) for the entry g at
      the far end x of the i-th edge of t's list keeps the loop's state. */
  lemma RenumberStep(D5: Records, inc5: seq<seq<Edge>>, s: int, t: int, i: int, D: Records, inc: seq<seq<Edge>>)
    requires Renumbering(D5, inc5, s, t, i, D, inc) && i < |inc5[t]|
    ensures var g := OppositeDir(inc5[t][i]);
      g.id in D && 0 <= Source(D, g) < |inc| && Known(D, inc[Source(D, g)]) && Target(D, g) == t &&
      Known(Retargeted(D, g, s), Removed(D, inc[Source(D, g)], t)) &&
      Renumbering(D5, inc5, s, t, i + 1, Retargeted(D, g, s),
        inc[Source(D, g) := Inserted(Retargeted(D, g, s), Removed(D, inc[Source(D, g)], t), g)])
  {
    RenumberFacts(D5, inc5, s, t, i, D, inc);
    var g := OppositeDir(inc5[t][i]);
    var x := Source(D, g);
    RetargetedList(D, inc[x], g, x, s);
    IdsStep(inc5[t], i);
    var D' := Retargeted(D, g, s);
    MovedStep(D5, t, s, Ids(inc5[t][..i]), g);
    var inc' := inc[x := Inserted(D', Removed(D, inc[x], t), g)];
    RenumberRep(D, inc, g, x, s, t, inc'[x]);
    assert inc'[s] == inc5[s] && inc'[t] == inc5[t];
    assert forall y :: 0 <= y < |inc'| ==> |inc'[y]| == |inc5[y]|;
    assert D' == Moved(D5, t, s, Ids(inc5[t][..i + 1]));
    assert RepBut(D', inc', {s, t});
  }

  /** The lists stay right outside s and t when g's end t becomes s and
      the list at g's source x is replaced by l', which holds the same
      entries, sorted. */
  lemma RenumberRep(D: Records, inc: seq<seq<Edge>>, g: Edge, x: int, s: int, t: int, l': seq<Edge>)
    requires RepBut(D, inc, {s, t}) && 0 <= x < |inc| && 0 <= s < |inc| && x != s && x != t
    requires g.id in D && Live(D, g.id) && Source(D, g) == x && Target(D, g) == t
    requires var D' := Retargeted(D, g, s);
      Leaving(D', l', x) && Sorted(D', l') && forall f :: f in l' <==> f in inc[x]
    requires g in inc[x]
    ensures RepBut(Retargeted(D, g, s), inc[x := l'], {s, t})
  {
    var D' := Retargeted(D, g, s);
    var inc' := inc[x := l'];
    Members(D, inc, {s, t}, x);
    forall v | 0 <= v < |inc'| && v !in {s, t} && v != x ensures Leaving(D', inc'[v], v) && Sorted(D', inc'[v]) {
      Members(D, inc, {s, t}, v);
      assert Agree(D, D', inc[v]);
      AgreeTransfer(D, D', inc[v]);
    }
    forall k | Live(D', k) ensures
      (D'[k].s !in {s, t} ==> Edge(k, false) in inc'[D'[k].s]) &&
      (D'[k].t !in {s, t} ==> Edge(k, true) in inc'[D'[k].t])
    {
      if k == g.id {
        assert Source(D', g) == x;
      }
    }
  }

  /** Renumbering the end t of one more edge g. */
  lemma MovedStep(D5: Records, t: int, s: int, P: set<int>, g: Edge)
    requires g.id in D5 && g.id !in P && Target(D5, g) == t && Source(D5, g) != t
    ensures g.id in Moved(D5, t, s, P)
    ensures Retargeted(Moved(D5, t, s, P), g, s) == Moved(D5, t, s, P + {g.id})
  {
    var D := Moved(D5, t, s, P);
    assert D[g.id] == D5[g.id];
    assert Retargeted(D, g, s)[g.id] == Shifted(D5[g.id], t, s);
  }

  /** With no edge left between s and t, an edge has at most one entry in
      the lists of s and t together. */
  lemma UniqueIds(D: Records, inc: seq<seq<Edge>>, s: int, t: int)
    requires Rep(D, inc) && 0 <= s < |inc| && 0 <= t < |inc| && s != t && !Joined(D, s, t)
    ensures forall f, g :: (f in inc[s] || f in inc[t]) && (g in inc[s] || g in inc[t]) && f.id == g.id ==> f == g
    ensures forall f :: multiset(inc[s])[f] + multiset(inc[t])[f] <= 1
  {
    Members(D, inc, {}, s);
    Members(D, inc, {}, t);
    SortedUnique(D, inc[s]);
    SortedUnique(D, inc[t]);
    forall f, g | (f in inc[s] || f in inc[t]) && (g in inc[s] || g in inc[t]) ensures f.id == g.id ==> f == g {
      assert Live(D, f.id);
      SameId(D, f, g);
    }
  }

  /** What _merge_inc_list of the lists of s and t delivers once the edge
      between them is gone: a sorted list of the targets of both, whose
      entries are those of both lists that to_remove does not name, and
      for every shared target one of its two edges in to_remove. */
  lemma MergeFacts(D: Records, inc: seq<seq<Edge>>, s: int, t: int)
    requires Rep(D, inc) && 0 <= s < |inc| && 0 <= t < |inc| && s != t && !Joined(D, s, t)
    ensures Known(D, inc[s]) && Known(D, inc[t])
    ensures var r := Merge(D, inc[s], inc[t]);
      Known(D, r.0) && Known(D, r.1) && Sorted(D, r.0) &&
      Targets(D, r.0) == Targets(D, inc[s]) + Targets(D, inc[t]) &&
      (forall f :: f in r.0 ==> (f in inc[s] || f in inc[t]) && f.id !in Ids(r.1)) &&
      (forall f :: (f in inc[s] || f in inc[t]) && f.id !in Ids(r.1) ==> f in r.0) &&
      (forall f :: f in r.1 ==> f in inc[s] || f in inc[t]) &&
      (forall a, b :: a in inc[s] && b in inc[t] && Target(D, a) == Target(D, b) ==> a.id in Ids(r.1) || b.id in Ids(r.1))
  {
    Members(D, inc, {}, s);
    Members(D, inc, {}, t);
    MergeSorted(D, inc[s], inc[t]);
    MergeEntries(D, inc, s, t);
    MergeShared(D, inc[s], inc[t]);
  }

  /** The entries of the merge and of to_remove split those of both lists. */
  lemma MergeEntries(D: Records, inc: seq<seq<Edge>>, s: int, t: int)
    requires Rep(D, inc) && 0 <= s < |inc| && 0 <= t < |inc| && s != t && !Joined(D, s, t)
    requires Known(D, inc[s]) && Known(D, inc[t])
    ensures var r := Merge(D, inc[s], inc[t]);
      (forall f :: f in r.0 ==> (f in inc[s] || f in inc[t]) && f.id !in Ids(r.1)) &&
      (forall f :: (f in inc[s] || f in inc[t]) && f.id !in Ids(r.1) ==> f in r.0) &&
      (forall f :: f in r.1 ==> f in inc[s] || f in inc[t])
  {
    MergeAccount(D, inc[s], inc[t]);
    UniqueIds(D, inc, s, t);
    SplitEntries(inc[s], inc[t], Merge(D, inc[s], inc[t]));
  }

  /** When no edge has two entries in a and b together, accounted lists
      r.0 and r.1 split the entries of a and b, and no edge is in both. */
  lemma SplitEntries(a: seq<Edge>, b: seq<Edge>, r: (seq<Edge>, seq<Edge>))
    requires Accounted(a, b, r)
    requires forall f, g :: (f in a || f in b) && (g in a || g in b) && f.id == g.id ==> f == g
    requires forall f :: multiset(a)[f] + multiset(b)[f] <= 1
    ensures forall f :: f in r.0 ==> (f in a || f in b) && f.id !in Ids(r.1)
    ensures forall f :: (f in a || f in b) && f.id !in Ids(r.1) ==> f in r.0
    ensures forall f :: f in r.1 ==> f in a || f in b
  {
    IdsHave(r.1);
    forall f | f in r.1 ensures f in a || f in b {
      Counted(a, b, r, f);
    }
    forall f | f in r.0 ensures (f in a || f in b) && f.id !in Ids(r.1) {
      Counted(a, b, r, f);
      forall i | 0 <= i < |r.1| ensures r.1[i].id != f.id {
        assert r.1[i] in r.1;
      }
    }
    forall f | (f in a || f in b) && f.id !in Ids(r.1) ensures f in r.0 {
      Counted(a, b, r, f);
    }
  }

  /** Accounted lists, entry by entry. */
  lemma Counted(a: seq<Edge>, b: seq<Edge>, r: (seq<Edge>, seq<Edge>), f: Edge)
    requires Accounted(a, b, r)
    ensures multiset(r.0)[f] + multiset(r.1)[f] == multiset(a)[f] + multiset(b)[f]
  {
    assert (multiset(r.0) + multiset(r.1))[f] == (multiset(a) + multiset(b))[f];
  }

  /** For a target both lists have, to_remove gets one of its two edges. */
  lemma MergeShared(D: Records, a: seq<Edge>, b: seq<Edge>)
    requires Known(D, a) && Known(D, b) && Sorted(D, a) && Sorted(D, b)
    ensures var r := Merge(D, a, b);
      forall f, g :: f in a && g in b && Target(D, f) == Target(D, g) ==> f.id in Ids(r.1) || g.id in Ids(r.1)
  {
    var r := Merge(D, a, b);
    IdsHave(r.1);
    TargetsHave(D, a);
    TargetsHave(D, b);
    forall f, g | f in a && g in b && Target(D, f) == Target(D, g) ensures f.id in Ids(r.1) || g.id in Ids(r.1) {
      var x := Target(D, f);
      MergeKeepsLighter(D, a, b, x);
      OneEntryPerTarget(D, a, f, a[IndexOfTarget(D, a, x)]);
      OneEntryPerTarget(D, b, g, b[IndexOfTarget(D, b, x)]);
    }
  }

  /** After the parallel edges numbered in K are removed, the lists of s
      and t keep exactly their entries outside K, and when K holds one edge
      of every shared target, s and t have no neighbour in common. */
  lemma DeletedFacts(D4: Records, inc4: seq<seq<Edge>>, s: int, t: int, K: set<int>, inc5: seq<seq<Edge>>)
    requires Rep(D4, inc4) && 0 <= s < |inc4| && 0 <= t < |inc4| && s != t && !Joined(D4, s, t)
    requires Rep(Killed(D4, K), inc5) && |inc5| == |inc4|
    requires Known(D4, inc4[s]) && Known(D4, inc4[t])
    requires forall a, b :: a in inc4[s] && b in inc4[t] && Target(D4, a) == Target(D4, b) ==> a.id in K || b.id in K
    ensures Known(Killed(D4, K), inc5[s]) && Known(Killed(D4, K), inc5[t])
    ensures forall f :: f in inc5[s] <==> f in inc4[s] && f.id !in K
    ensures forall f :: f in inc5[t] <==> f in inc4[t] && f.id !in K
    ensures !Joined(Killed(D4, K), s, t)
    ensures Targets(Killed(D4, K), inc5[s]) * Targets(Killed(D4, K), inc5[t]) == {}
  {
    var D5 := Killed(D4, K);
    Members(D4, inc4, {}, s);
    Members(D4, inc4, {}, t);
    Members(D5, inc5, {}, s);
    Members(D5, inc5, {}, t);
    DeletedApart(D4, inc4[s], inc4[t], K, inc5[s], inc5[t]);
  }

  /** DeletedFacts' part about the common neighbours: a and b are the old
      lists of s and t, a5 and b5 the new ones. */
  lemma DeletedApart(D4: Records, a: seq<Edge>, b: seq<Edge>, K: set<int>, a5: seq<Edge>, b5: seq<Edge>)
    requires Known(D4, a) && Known(D4, b) && Known(Killed(D4, K), a5) && Known(Killed(D4, K), b5)
    requires forall f :: f in a5 ==> f in a && f.id !in K
    requires forall f :: f in b5 ==> f in b && f.id !in K
    requires forall f, g :: f in a && g in b && Target(D4, f) == Target(D4, g) ==> f.id in K || g.id in K
    ensures Targets(Killed(D4, K), a5) * Targets(Killed(D4, K), b5) == {}
  {
    var D5 := Killed(D4, K);
    forall x | x in Targets(D5, a5) ensures x !in Targets(D5, b5) {
      var i :| 0 <= i < |a5| && Target(D5, a5[i]) == x;
      assert a5[i] in a5;
      forall j | 0 <= j < |b5| ensures Target(D5, b5[j]) != x {
        assert b5[j] in b5;
      }
    }
  }

  /** The state contract_edge reaches before its lists of s and t are
      replaced: D4 and inc4 are the graph without the contracted edge, D5
      and inc5 the graph without the parallel edges to_remove names, and
      D6 and inc6 the graph after every edge at t was renumbered to s. */
  ghost predicate Contracting(D4: Records, inc4: seq<seq<Edge>>, s: int, t: int,
                              D5: Records, inc5: seq<seq<Edge>>, D6: Records, inc6: seq<seq<Edge>>) {
    Rep(D4, inc4) && 0 <= s < |inc4| && 0 <= t < |inc4| && s != t && !Joined(D4, s, t) &&
    Known(D4, inc4[s]) && Known(D4, inc4[t]) &&
    D5 == Killed(D4, Ids(Merge(D4, inc4[s], inc4[t]).1)) && Rep(D5, inc5) && |inc5| == |inc4| &&
    Renumbering(D5, inc5, s, t, |inc5[t]|, D6, inc6)
  }

  /** The merged list is a right list for s after the renumbering, with
      the targets of both old lists. */
  lemma MergedAtS(D4: Records, inc4: seq<seq<Edge>>, s: int, t: int,
                  D5: Records, inc5: seq<seq<Edge>>, D6: Records, inc6: seq<seq<Edge>>)
    requires Contracting(D4, inc4, s, t, D5, inc5, D6, inc6)
    ensures var m := Merge(D4, inc4[s], inc4[t]).0;
      Known(D6, m) && Leaving(D6, m, s) && Sorted(D6, m) &&
      Targets(D6, m) == Targets(D4, inc4[s]) + Targets(D4, inc4[t])
  {
    var r := Merge(D4, inc4[s], inc4[t]);
    var m := r.0;
    MergeFacts(D4, inc4, s, t);
    DeletedFacts(D4, inc4, s, t, Ids(r.1), inc5);
    Members(D4, inc4, {}, s);
    Members(D4, inc4, {}, t);
    IdsHave(inc5[t]);
    forall i | 0 <= i < |m| ensures m[i].id in D6 && Live(D6, m[i].id) && Source(D6, m[i]) == s && Target(D6, m[i]) == Target(D4, m[i]) {
      var f := m[i];
      assert f in m;
      assert Live(D4, f.id);
    }
    SameTargets(D4, D6, m);
  }

  /** Every live edge at s after the renumbering has its entry in the
      merged list. */
  lemma ListedAtS(D4: Records, inc4: seq<seq<Edge>>, s: int, t: int,
                  D5: Records, inc5: seq<seq<Edge>>, D6: Records, inc6: seq<seq<Edge>>)
    requires Contracting(D4, inc4, s, t, D5, inc5, D6, inc6)
    ensures forall k :: Live(D6, k) && (D6[k].s == s || D6[k].t == s) ==>
      Edge(k, D6[k].s != s) in Merge(D4, inc4[s], inc4[t]).0
  {
    var r := Merge(D4, inc4[s], inc4[t]);
    MergeFacts(D4, inc4, s, t);
    DeletedFacts(D4, inc4, s, t, Ids(r.1), inc5);
    Members(D5, inc5, {}, s);
    Members(D5, inc5, {}, t);
    forall k | Live(D6, k) && (D6[k].s == s || D6[k].t == s) ensures Edge(k, D6[k].s != s) in r.0 {
      if k in Ids(inc5[t]) {
        var j :| 0 <= j < |inc5[t]| && inc5[t][j].id == k;
        var f := inc5[t][j];
        assert f in inc5[t];
        SameId(D6, f, Edge(k, D6[k].s != s));
      } else {
        assert D6[k] == D5[k];
        assert Edge(k, D5[k].s != s) in inc5[s];
      }
    }
  }

  /** No live edge ends at t after the renumbering. */
  lemma NoneAtT(D4: Records, inc4: seq<seq<Edge>>, s: int, t: int,
                D5: Records, inc5: seq<seq<Edge>>, D6: Records, inc6: seq<seq<Edge>>)
    requires Contracting(D4, inc4, s, t, D5, inc5, D6, inc6)
    ensures forall k :: Live(D6, k) ==> D6[k].s != t && D6[k].t != t
  {
    Members(D5, inc5, {}, t);
    IdsHave(inc5[t]);
    forall k | Live(D6, k) ensures D6[k].s != t && D6[k].t != t {
      assert Live(D5, k);
      assert Edge(k, D5[k].s != t) in inc5[t] <==> D5[k].s == t || D5[k].t == t;
    }
  }

  /** Lists right outside s and t, a right list m for s and no edge at t
      make the whole representation right once m and an empty list take
      the places of s and t. */
  lemma Reassembled(D: Records, inc: seq<seq<Edge>>, s: int, t: int, m: seq<Edge>)
    requires RepBut(D, inc, {s, t}) && 0 <= s < |inc| && 0 <= t < |inc| && s != t
    requires Leaving(D, m, s) && Sorted(D, m)
    requires forall k :: Live(D, k) && (D[k].s == s || D[k].t == s) ==> Edge(k, D[k].s != s) in m
    requires forall k :: Live(D, k) ==> D[k].s != t && D[k].t != t
    ensures Rep(D, inc[s := m][t := []])
  {
  }

  /** contract_edge leaves the representation right, with an empty list
      for t. */
  lemma ContractedRep(D4: Records, inc4: seq<seq<Edge>>, s: int, t: int,
                      D5: Records, inc5: seq<seq<Edge>>, D6: Records, inc6: seq<seq<Edge>>)
    requires Contracting(D4, inc4, s, t, D5, inc5, D6, inc6)
    ensures Rep(D6, inc6[s := Merge(D4, inc4[s], inc4[t]).0][t := []])
    ensures Targets(D6, Merge(D4, inc4[s], inc4[t]).0) == Targets(D4, inc4[s]) + Targets(D4, inc4[t])
  {
    MergedAtS(D4, inc4, s, t, D5, inc5, D6, inc6);
    ListedAtS(D4, inc4, s, t, D5, inc5, D6, inc6);
    NoneAtT(D4, inc4, s, t, D5, inc5, D6, inc6);
    Reassembled(D6, inc6, s, t, Merge(D4, inc4[s], inc4[t]).0);
  }
}
