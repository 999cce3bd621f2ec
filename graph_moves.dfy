/** src/graph.hpp: the operations that reshape the graph, on GraphState:
    _change_edge_target, contract_edge, buy_edge, suppress_vertex and the
    add_edge overloads that record which original edges an edge stands
    for. */
module GraphMoves {
  import opened Incidence
  import opened GraphRep
  import opened Contraction
  import opened Graphs

  /** What _change_edge_target(e, nt) reads: e's record and the list of
      e's source. */
  predicate Retargetable(g: GraphState, e: Edge) {
    e.id in g.data && 0 <= Source(g.data, e) < |g.inc| && Known(g.data, g.inc[Source(g.data, e)])
  }

  /** Retargeting a record keeps a cut list known. */
  lemma RetargetedKnown(D: Records, l: seq<Edge>, e: Edge, nt: int, t: int)
    requires Known(D, l) && e.id in D
    ensures Known(Retargeted(D, e, nt), Removed(D, l, t))
  {
    RemovedSorted(D, l, t);
  }

  /** _change_edge_target(e, nt), by its effect: the entry e leaves its
      place in the list of its source and is put back where nt belongs,
      and the end of e that was its target becomes nt. */
  function Retargeting(g: GraphState, e: Edge, nt: int): (r: GraphState)
    requires Retargetable(g, e)
    ensures r.data == Retargeted(g.data, e, nt) && |r.inc| == |g.inc|
    ensures r == g.(data := r.data, inc := r.inc)
  {
    var D, x := g.data, Source(g.data, e);
    RetargetedKnown(D, g.inc[x], e, nt, Target(D, e));
    g.(data := Retargeted(D, e, nt),
       inc := g.inc[x := Inserted(Retargeted(D, e, nt), Removed(D, g.inc[x], Target(D, e)), e)])
  }

  /** The ends contract_edge keeps and empties: e's source and target,
      swapped when the target is a terminal. The kept end is a terminal
      when either end is, the emptied one only when both are. */
  function ContractEnds(g: GraphState, e: Edge): (r: (int, int))
    requires e.id in g.data
    requires 0 <= Source(g.data, e) < |g.terminalMask| && 0 <= Target(g.data, e) < |g.terminalMask|
    ensures r == (Source(g.data, e), Target(g.data, e)) || r == (Target(g.data, e), Source(g.data, e))
    ensures g.terminalMask[r.0] <==> g.terminalMask[Source(g.data, e)] || g.terminalMask[Target(g.data, e)]
    ensures g.terminalMask[r.1] <==> g.terminalMask[Source(g.data, e)] && g.terminalMask[Target(g.data, e)]
  {
    var s, t := Source(g.data, e), Target(g.data, e);
    if g.terminalMask[t] then (t, s) else (s, t)
  }

  /** What contract_edge reads once the live edge e is removed: the
      state is consistent, the two ends are different vertices no edge
      joins any more, and their lists are known. */
  lemma ContractReady(g: GraphState, e: Edge)
    requires Consistent(g) && Live(g.data, e.id)
    ensures Reachable(g, e.id) && |g.terminalMask| == g.vertexCount
    ensures 0 <= Source(g.data, e) < g.vertexCount && 0 <= Target(g.data, e) < g.vertexCount
    ensures Source(g.data, e) != Target(g.data, e)
    ensures Consistent(Unlinking(g, e.id))
    ensures !Joined(Unlinking(g, e.id).data, Source(g.data, e), Target(g.data, e))
    ensures !Joined(Unlinking(g, e.id).data, Target(g.data, e), Source(g.data, e))
    ensures Known(Unlinking(g, e.id).data, Unlinking(g, e.id).inc[Source(g.data, e)])
    ensures Known(Unlinking(g, e.id).data, Unlinking(g, e.id).inc[Target(g.data, e)])
  {
    LiveEnds(g, e.id);
    RemoveKeeps(g, e.id);
    RemovingEffect(g, e.id);
    var u := Unlinking(g, e.id);
    Members(u.data, u.inc, {}, g.data[e.id].s);
    Members(u.data, u.inc, {}, g.data[e.id].t);
  }

  /** l without the entries whose edge is numbered in K, in order. */
  function Filtered(l: seq<Edge>, K: set<int>): (r: seq<Edge>)
    ensures forall f :: f in r <==> f in l && f.id !in K
  {
    if l == [] then []
    else
      assert forall f :: f in l <==> f == l[0] || f in l[1..] by {
        assert l == [l[0]] + l[1..];
      }
      (if l[0].id in K then [] else [l[0]]) + Filtered(l[1..], K)
  }

  /** Taking one more edge out of a filtered list. */
  lemma {:induction false} FilteredStep(l: seq<Edge>, K: set<int>, id: int)
    ensures WithoutId(Filtered(l, K), id) == Filtered(l, K + {id})
  {
    if l != [] {
      FilteredStep(l[1..], K, id);
      var F := Filtered(l[1..], K);
      if l[0].id !in K {
        var r := [l[0]] + F;
        assert r[1..] == F;
        assert Filtered(l, K) == r;
      } else {
        assert Filtered(l, K) == F;
      }
    }
  }

  /** Filtering by no edge keeps the list. */
  lemma {:induction false} FilteredNone(l: seq<Edge>)
    ensures Filtered(l, {}) == l
  {
    if l != [] {
      FilteredNone(l[1..]);
      assert l == [l[0]] + l[1..];
    }
  }

  /** Marking no edge removed keeps the records. */
  lemma KilledNone(D: Records)
    ensures Killed(D, {}) == D
  {
  }

  /** Renumbering no edge keeps the records. */
  lemma MovedNone(D: Records, t: int, s: int)
    ensures Moved(D, t, s, {}) == D
  {
  }

  /** remove_edge changes only the lists, the degrees, edge_list, the edge
      count and the records, and takes edge id out of edge_list, also when
      it was removed before. */
  lemma RemovingRest(g: GraphState, id: int)
    requires Consistent(g) && id in g.data && id != 0
    ensures Removing(g, id).edgeList == WithoutId(g.edgeList, id)
    ensures Removing(g, id) == g.(data := Removing(g, id).data, inc := Removing(g, id).inc,
      degrees := Removing(g, id).degrees, edgeList := Removing(g, id).edgeList, edgeCount := Removing(g, id).edgeCount)
  {
    if g.data[id].removed {
      WithoutAbsent(g.edgeList, id);
    }
  }

  /** contract_edge of the live edge e, as a relation between the state
      before, g, and after, r. With s and t the kept and the emptied end
      and u the state once e is removed: the parallel edges that merging
      the lists of s and t reports are marked removed and leave edge_list,
      every edge left at t is renumbered to end at s instead, s gets the
      merged list, whose targets are those of both lists, t an empty list,
      and t leaves the terminals when both ends were terminals; r is
      consistent and nothing else changes. */
  ghost predicate ContractsTo(g: GraphState, e: Edge, r: GraphState)
    requires Consistent(g) && Live(g.data, e.id)
  {
    ContractReady(g, e);
    var (s, t) := ContractEnds(g, e);
    var u := Unlinking(g, e.id);
    ContractedVia(g, s, t, u, Merge(u.data, u.inc[s], u.inc[t]), r)
  }

  /** ContractsTo once its ends s and t, the state u without e and the
      merge m of the lists of s and t are named. */
  ghost predicate ContractedVia(g: GraphState, s: int, t: int, u: GraphState, m: (seq<Edge>, seq<Edge>), r: GraphState)
    requires 0 <= s < |u.inc| && 0 <= t < |u.inc| && Known(u.data, u.inc[s]) && Known(u.data, u.inc[t])
    requires 0 <= s < |g.terminalMask| && 0 <= t < |g.terminalMask| && |u.inc| == g.vertexCount
  {
    var K := Ids(m.1);
    var both := g.terminalMask[s] && g.terminalMask[t];
    r.vertexCount == g.vertexCount && Consistent(r) &&
    r.data == Moved(Killed(u.data, K), t, s, Ids(u.inc[t]) - K) &&
    r.inc[s] == m.0 && r.inc[t] == [] &&
    Targets(r.data, r.inc[s]) == Targets(u.data, u.inc[s]) + Targets(u.data, u.inc[t]) &&
    r.edgeList == Filtered(u.edgeList, K) &&
    r.terminals == (if both then RemoveValue(g.terminals, t) else g.terminals) &&
    r.terminalMask == (if both then g.terminalMask[t := false] else g.terminalMask) &&
    r.terminalCount == (if both then g.terminalCount - 1 else g.terminalCount) &&
    r.nextId == g.nextId && r.partialSolution == g.partialSolution &&
    r.partialSolutionWeight == g.partialSolutionWeight
  }

  /** The entries merging reports are live edges of u. */
  lemma DeletedLive(u: GraphState, s: int, t: int, m: (seq<Edge>, seq<Edge>))
    requires Consistent(u) && 0 <= s < u.vertexCount && 0 <= t < u.vertexCount && s != t && !Joined(u.data, s, t)
    requires Known(u.data, u.inc[s]) && Known(u.data, u.inc[t]) && m == Merge(u.data, u.inc[s], u.inc[t])
    ensures forall i :: 0 <= i < |m.1| ==> m.1[i].id in u.data && m.1[i].id != 0
  {
    MergeFacts(u.data, u.inc, s, t);
    Members(u.data, u.inc, {}, s);
    Members(u.data, u.inc, {}, t);
    forall i | 0 <= i < |m.1| ensures m.1[i].id in u.data && m.1[i].id != 0 {
      assert m.1[i] in m.1;
    }
  }

  /** Before the renumbering loop of contract_edge: g5 is u without the
      parallel edges, and the loop starts from it. */
  lemma RenumberStart(u: GraphState, s: int, t: int, m: (seq<Edge>, seq<Edge>), g5: GraphState)
    requires Consistent(u) && 0 <= s < u.vertexCount && 0 <= t < u.vertexCount && s != t && !Joined(u.data, s, t)
    requires Known(u.data, u.inc[s]) && Known(u.data, u.inc[t]) && m == Merge(u.data, u.inc[s], u.inc[t])
    requires Consistent(g5) && g5.vertexCount == u.vertexCount && g5.data == Killed(u.data, Ids(m.1))
    ensures Renumbering(g5.data, g5.inc, s, t, 0, g5.data, g5.inc)
  {
    MergeFacts(u.data, u.inc, s, t);
    DeletedFacts(u.data, u.inc, s, t, Ids(m.1), g5.inc);
    MovedNone(g5.data, t, s);
    assert g5.inc[t][..0] == [];
    RepButMore(g5.data, g5.inc, {s, t});
  }

  /** The edges left at t after the parallel ones are removed are those of
      u's list of t that were not removed. */
  lemma LeftAtT(u: GraphState, s: int, t: int, m: (seq<Edge>, seq<Edge>), g5: GraphState)
    requires Consistent(u) && 0 <= s < u.vertexCount && 0 <= t < u.vertexCount && s != t && !Joined(u.data, s, t)
    requires Known(u.data, u.inc[s]) && Known(u.data, u.inc[t]) && m == Merge(u.data, u.inc[s], u.inc[t])
    requires Consistent(g5) && g5.vertexCount == u.vertexCount && g5.data == Killed(u.data, Ids(m.1))
    ensures Ids(g5.inc[t]) == Ids(u.inc[t]) - Ids(m.1)
  {
    MergeFacts(u.data, u.inc, s, t);
    DeletedFacts(u.data, u.inc, s, t, Ids(m.1), g5.inc);
    IdsHave(g5.inc[t]);
    IdsHave(u.inc[t]);
    forall k | k in Ids(u.inc[t]) - Ids(m.1) ensures k in Ids(g5.inc[t]) {
      var j :| 0 <= j < |u.inc[t]| && u.inc[t][j].id == k;
      assert u.inc[t][j] in u.inc[t];
    }
    forall k | k in Ids(g5.inc[t]) ensures k in Ids(u.inc[t]) - Ids(m.1) {
      var j :| 0 <= j < |g5.inc[t]| && g5.inc[t][j].id == k;
      assert g5.inc[t][j] in g5.inc[t];
    }
  }

  /** After the renumbering loop: once s gets the merged list and t an
      empty one, with the degrees to match, the state g7 is consistent, its
      records are u's with the parallel edges removed and the edges left
      at t renumbered, and the merged list has the targets of both. */
  lemma ContractFinish(u: GraphState, s: int, t: int, m: (seq<Edge>, seq<Edge>), g5: GraphState, g6: GraphState, g7: GraphState)
    requires Consistent(u) && 0 <= s < u.vertexCount && 0 <= t < u.vertexCount && s != t && !Joined(u.data, s, t)
    requires Known(u.data, u.inc[s]) && Known(u.data, u.inc[t]) && m == Merge(u.data, u.inc[s], u.inc[t])
    requires Consistent(g5) && g5.vertexCount == u.vertexCount && g5.data == Killed(u.data, Ids(m.1))
    requires Renumbering(g5.data, g5.inc, s, t, |g5.inc[t]|, g6.data, g6.inc)
    requires g6 == g5.(data := g6.data, inc := g6.inc)
    requires g7 == g6.(inc := g6.inc[s := m.0][t := []], degrees := g6.degrees[t := 0][s := |m.0|])
    ensures Consistent(g7)
    ensures g7.data == Moved(Killed(u.data, Ids(m.1)), t, s, Ids(u.inc[t]) - Ids(m.1))
    ensures Known(g7.data, g7.inc[s]) && g7.inc[s] == m.0 && g7.inc[t] == []
    ensures Targets(g7.data, g7.inc[s]) == Targets(u.data, u.inc[s]) + Targets(u.data, u.inc[t])
  {
    ContractedRep(u.data, u.inc, s, t, g5.data, g5.inc, g6.data, g6.inc);
    MergedAtS(u.data, u.inc, s, t, g5.data, g5.inc, g6.data, g6.inc);
    FinishRest(g5, g6, s, t, m.0);
    LeftAtT(u, s, t, m, g5);
    assert g5.inc[t][..|g5.inc[t]|] == g5.inc[t];
  }

  /** The degrees, the numbering, edge_list and the partial solution stay
      right through the renumbering and the final list swap. */
  lemma FinishRest(g5: GraphState, g6: GraphState, s: int, t: int, l: seq<Edge>)
    requires Consistent(g5) && 0 <= t < |g5.inc|
    requires Renumbering(g5.data, g5.inc, s, t, |g5.inc[t]|, g6.data, g6.inc)
    requires g6 == g5.(data := g6.data, inc := g6.inc)
    requires Rep(g6.data, g6.inc[s := l][t := []])
    ensures Consistent(g6.(inc := g6.inc[s := l][t := []], degrees := g6.degrees[t := 0][s := |l|]))
  {
    var D5, D6 := g5.data, g6.data;
    assert D6.Keys == D5.Keys;
    assert forall id :: Live(D5, id) <==> Live(D6, id);
    LifeListed(D5, D6, g5.edgeList);
    WeightsKept(D5, D6, g5.partialSolution);
  }

  /** unmark_terminal reads only the terminal members. */
  lemma UnmarkedSame(a: GraphState, b: GraphState, v: int)
    requires Consistent(a) && Consistent(b) && 0 <= v < a.vertexCount && a.vertexCount == b.vertexCount
    requires a.terminals == b.terminals && a.terminalMask == b.terminalMask && a.terminalCount == b.terminalCount
    ensures Unmarked(a, v).terminals == Unmarked(b, v).terminals
    ensures Unmarked(a, v).terminalMask == Unmarked(b, v).terminalMask
    ensures Unmarked(a, v).terminalCount == Unmarked(b, v).terminalCount
  {
  }

  /** The pieces contract_edge computes make up ContractsTo: g7 is the
      state before the terminal check and r the state after it. */
  lemma ContractsFrom(g: GraphState, e: Edge, u: GraphState, m: (seq<Edge>, seq<Edge>), g7: GraphState, r: GraphState)
    requires Consistent(g) && Live(g.data, e.id)
    requires 0 <= Source(g.data, e) < g.vertexCount && 0 <= Target(g.data, e) < g.vertexCount
    requires |g.terminalMask| == g.vertexCount && Reachable(g, e.id) && u == Unlinking(g, e.id)
    requires var (s, t) := ContractEnds(g, e);
      Known(u.data, u.inc[s]) && Known(u.data, u.inc[t]) && m == Merge(u.data, u.inc[s], u.inc[t])
    requires Consistent(g7) && g7.vertexCount == g.vertexCount
    requires g7.terminals == g.terminals && g7.terminalMask == g.terminalMask && g7.terminalCount == g.terminalCount
    requires g7.nextId == g.nextId && g7.partialSolution == g.partialSolution && g7.partialSolutionWeight == g.partialSolutionWeight
    requires var (s, t) := ContractEnds(g, e);
      g7.data == Moved(Killed(u.data, Ids(m.1)), t, s, Ids(u.inc[t]) - Ids(m.1)) &&
      Known(g7.data, g7.inc[s]) && g7.inc[s] == m.0 && g7.inc[t] == [] &&
      Targets(g7.data, g7.inc[s]) == Targets(u.data, u.inc[s]) + Targets(u.data, u.inc[t]) &&
      g7.edgeList == Filtered(u.edgeList, Ids(m.1)) &&
      r == if g7.terminalMask[s] && g7.terminalMask[t] then Unmarked(g7, t) else g7
    ensures ContractsTo(g, e, r)
  {
    var (s, t) := ContractEnds(g, e);
    if g7.terminalMask[s] && g7.terminalMask[t] {
      UnmarkedSame(g7, g, t);
    }
  }

  /** What contract_edge promises: t has an empty list and degree 0 and no
      live edge ends at it; the degree of s is the length of its merged
      list; s is a terminal when either end was, and t is not one when
      both were; e itself is removed. */
  lemma ContractEffect(g: GraphState, e: Edge, r: GraphState)
    requires Consistent(g) && Live(g.data, e.id) && ContractsTo(g, e, r)
    ensures var (s, t) := ContractEnds(g, e);
      r.inc[t] == [] && r.degrees[t] == 0 && r.degrees[s] == |r.inc[s]| &&
      (forall k :: Live(r.data, k) ==> r.data[k].s != t && r.data[k].t != t) &&
      (g.terminalMask[Source(g.data, e)] || g.terminalMask[Target(g.data, e)] ==> s in r.terminals) &&
      (g.terminalMask[Source(g.data, e)] && g.terminalMask[Target(g.data, e)] ==> t !in r.terminals) &&
      !Live(r.data, e.id)
  {
    ContractReady(g, e);
    var (s, t) := ContractEnds(g, e);
    var u := Unlinking(g, e.id);
    forall k | Live(r.data, k) ensures r.data[k].s != t && r.data[k].t != t {
      assert Edge(k, false) in r.inc[r.data[k].s] && Edge(k, true) in r.inc[r.data[k].t];
    }
    if g.terminalMask[s] && g.terminalMask[t] {
      RemoveValueKeeps(g.terminals, t);
    }
  }

  /** Two consistent states agree on their lists when they agree on the
      records: each list holds the live edges leaving its vertex, sorted. */
  lemma RepUnique(D: Records, inc1: seq<seq<Edge>>, inc2: seq<seq<Edge>>)
    requires Rep(D, inc1) && Rep(D, inc2) && |inc1| == |inc2|
    ensures inc1 == inc2
  {
    forall v | 0 <= v < |inc1| ensures inc1[v] == inc2[v] {
      Members(D, inc1, {}, v);
      Members(D, inc2, {}, v);
      SortedSame(D, inc1[v], inc2[v]);
    }
  }

  /** Two sorted lists with the same entries are the same list. */
  lemma {:induction false} SortedSame(D: Records, a: seq<Edge>, b: seq<Edge>)
    requires Known(D, a) && Known(D, b) && Sorted(D, a) && Sorted(D, b)
    requires forall f :: f in a <==> f in b
    ensures a == b
    decreases |a|
  {
    assert b != [] ==> b[0] in a;
    if a != [] {
      assert a[0] in b;
      HeadsSame(D, a, b);
      SortedTail(D, a);
      SortedTail(D, b);
      TailsSame(a, b);
      SortedSame(D, a[1..], b[1..]);
      assert a == [a[0]] + a[1..] && b == [b[0]] + b[1..];
    }
  }

  /** Two sorted lists with the same entries start alike: the first entry
      of each has the least target of the other. */
  lemma HeadsSame(D: Records, a: seq<Edge>, b: seq<Edge>)
    requires Known(D, a) && Known(D, b) && Sorted(D, a) && Sorted(D, b) && a != [] && b != []
    requires forall f :: f in a <==> f in b
    ensures a[0] == b[0]
  {
    assert a[0] in b && b[0] in a;
    var i :| 0 <= i < |a| && a[i] == b[0];
    var j :| 0 <= j < |b| && b[j] == a[0];
    assert Target(D, a[0]) <= Target(D, a[i]) && Target(D, b[0]) <= Target(D, b[j]);
    OneEntryPerTarget(D, a, a[0], b[0]);
  }

  /** The rest of a sorted list is sorted and lacks its first entry. */
  lemma SortedTail(D: Records, l: seq<Edge>)
    requires Known(D, l) && Sorted(D, l) && l != []
    ensures Known(D, l[1..]) && Sorted(D, l[1..]) && l[0] !in l[1..]
  {
    assert forall k :: 0 <= k < |l[1..]| ==> l[1..][k] == l[k + 1];
  }

  /** Lists with the same entries and the same first entry, found nowhere
      else in either, have the same entries after it. */
  lemma TailsSame(a: seq<Edge>, b: seq<Edge>)
    requires a != [] && b != [] && a[0] == b[0] && a[0] !in a[1..] && b[0] !in b[1..]
    requires forall f :: f in a <==> f in b
    ensures forall f :: f in a[1..] <==> f in b[1..]
  {
    forall f ensures f in a[1..] <==> f in b[1..] {
      assert f in a <==> f == a[0] || f in a[1..] by { assert a == [a[0]] + a[1..]; }
      assert f in b <==> f == b[0] || f in b[1..] by { assert b == [b[0]] + b[1..]; }
    }
  }

  /** ContractsTo leaves no choice: it names exactly one state. */
  lemma ContractsUnique(g: GraphState, e: Edge, r1: GraphState, r2: GraphState)
    requires Consistent(g) && Live(g.data, e.id) && ContractsTo(g, e, r1) && ContractsTo(g, e, r2)
    ensures r1 == r2
  {
    ContractReady(g, e);
    var (s, t) := ContractEnds(g, e);
    var u := Unlinking(g, e.id);
    ViaUnique(g, s, t, u, Merge(u.data, u.inc[s], u.inc[t]), r1, r2);
  }

  lemma ViaUnique(g: GraphState, s: int, t: int, u: GraphState, m: (seq<Edge>, seq<Edge>), r1: GraphState, r2: GraphState)
    requires 0 <= s < |u.inc| && 0 <= t < |u.inc| && Known(u.data, u.inc[s]) && Known(u.data, u.inc[t])
    requires 0 <= s < |g.terminalMask| && 0 <= t < |g.terminalMask| && |u.inc| == g.vertexCount
    requires ContractedVia(g, s, t, u, m, r1) && ContractedVia(g, s, t, u, m, r2)
    ensures r1 == r2
  {
    RepUnique(r1.data, r1.inc, r2.inc);
    assert r1.degrees == r2.degrees;
  }
}
