/** src/heuristics.hpp: the reductions run on the graph before the search.
    Each loop is a method over the Graph object; the states it passes
    through are returned as ghosts, and what each iteration does is stated
    by a predicate on GraphState built from the specifications of buy_edge,
    remove_edge and suppress_vertex. */
module Heuristics {
  import opened Incidence
  import opened GraphRep
  import opened Contraction
  import opened Graphs
  import opened GraphMoves
  import opened GraphOps
  import opened GraphObject
  import Text

  // cheapest_edge_from

  /** What cheapest_edge_from returns after scanning the entries l: it
      starts from null_edge, whose weight is INT_MAX, and takes an entry
      only when it is strictly lighter than the one held. */
  function Cheapest(D: Records, l: seq<Edge>): (e: Edge)
    requires NullKept(D) && Known(D, l)
    ensures e.id in D
  {
    if l == [] then NullEdge
    else
      assert Known(D, l[..|l| - 1]);
      var m := Cheapest(D, l[..|l| - 1]);
      if Weight(D, l[|l| - 1]) < Weight(D, m) then l[|l| - 1] else m
  }

  /** The cheapest edge is null_edge exactly when no entry weighs less
      than INT_MAX; otherwise it is the first entry of least weight. */
  lemma {:induction false} CheapestLeast(D: Records, l: seq<Edge>)
    requires NullKept(D) && Known(D, l)
    ensures var e := Cheapest(D, l);
      Weight(D, e) <= IntMax &&
      (forall i :: 0 <= i < |l| ==> Weight(D, e) <= Weight(D, l[i])) &&
      (e == NullEdge <==> forall i :: 0 <= i < |l| ==> Weight(D, l[i]) >= IntMax) &&
      (e != NullEdge ==> exists k :: 0 <= k < |l| && l[k] == e && forall j :: 0 <= j < k ==> Weight(D, l[j]) > Weight(D, e))
  {
    if l != [] {
      var p := l[..|l| - 1];
      assert Known(D, p);
      CheapestLeast(D, p);
      var m := Cheapest(D, p);
      assert forall i :: 0 <= i < |p| ==> p[i] == l[i];
      if Weight(D, l[|l| - 1]) < Weight(D, m) {
        assert l[|l| - 1] != NullEdge;
      } else if m != NullEdge {
        var k :| 0 <= k < |p| && p[k] == m && forall j :: 0 <= j < k ==> Weight(D, p[j]) > Weight(D, m);
        assert l[k] == m;
      }
    }
  }

  /** In a consistent state the cheapest edge of v, when it is not
      null_edge, is an entry of v's list: a live edge leaving v towards
      another vertex of the graph. */
  lemma CheapestLive(g: GraphState, v: int)
    requires Consistent(g) && 0 <= v < g.vertexCount
    ensures NullKept(g.data) && Known(g.data, g.inc[v])
    ensures var e := Cheapest(g.data, g.inc[v]);
      e != NullEdge ==>
        (e in g.inc[v] && Live(g.data, e.id) && Source(g.data, e) == v &&
         0 <= Target(g.data, e) < g.vertexCount && Target(g.data, e) != v)
  {
    Members(g.data, g.inc, {}, v);
    CheapestLeast(g.data, g.inc[v]);
    var e := Cheapest(g.data, g.inc[v]);
    if e != NullEdge {
      LiveEnds(g, e.id);
    }
  }

  /** The loop of cheapest_edge_from over the entries l of a list. */
  method CheapestIn(D: Records, l: seq<Edge>) returns (e: Edge)
    requires NullKept(D) && Known(D, l)
    ensures e == Cheapest(D, l)
  {
    e := NullEdge;
    var i := 0;
    while i < |l|
      invariant 0 <= i <= |l| && Known(D, l[..i]) && e == Cheapest(D, l[..i])
    {
      assert l[..i + 1][..i] == l[..i];
      if Weight(D, l[i]) < Weight(D, e) {
        e := l[i];
      }
      i := i + 1;
    }
    assert l[..i] == l;
  }

  /** cheapest_edge_from(g, v). */
  method CheapestEdgeFrom(g: Graph, v: int) returns (e: Edge)
    requires g.Valid() && 0 <= v < g.st.vertexCount
    ensures NullKept(g.st.data) && Known(g.st.data, g.st.inc[v])
    ensures e == Cheapest(g.st.data, g.st.inc[v])
  {
    CheapestLive(g.st, v);
    e := CheapestIn(g.st.data, g.st.inc[v]);
  }

  // handle_small_degrees

  /** The first entry of a vertex of positive degree is a live edge
      leaving it. */
  lemma Front(g: GraphState, v: int)
    requires Consistent(g) && 0 <= v < g.vertexCount && g.degrees[v] >= 1
    ensures |g.inc[v]| == g.degrees[v] && Live(g.data, g.inc[v][0].id) && Source(g.data, g.inc[v][0]) == v
  {
    Members(g.data, g.inc, {}, v);
    assert g.inc[v][0] in g.inc[v];
  }

  /** One iteration of handle_small_degrees, at v: a terminal of degree 1
      buys its edge, any other vertex of degree 1 loses it, a non-terminal
      of degree 2 is suppressed, and anything else is left alone. */
  ghost predicate SmallStep(g: GraphState, v: int, r: GraphState)
    requires Consistent(g) && 0 <= v < g.vertexCount
  {
    if g.degrees[v] == 1 then
      Front(g, v);
      var e := g.inc[v][0];
      if g.terminalMask[v] then BuysTo(g, e, r) else r == Removing(g, e.id)
    else if g.degrees[v] == 2 && !g.terminalMask[v] then
      SuppressesTo(g, v, r)
    else
      r == g
  }

  /** suppress_vertex(v) takes g to r, under the names it gives (the two
      entries of v's list, their targets and the sum of their weights,
      which SuppressNames fixes). */
  ghost predicate SuppressesTo(g: GraphState, v: int, r: GraphState) {
    exists e, f, s, t, w :: SuppressNames(g, v, e, f, s, t, w) && r == Suppressed(g, v, e, f, s, t, w)
  }

  /** A terminal of degree 1 buys its edge: the state stays consistent,
      the edge is appended to the partial solution, its weight added, and
      it leaves the graph. */
  lemma BuyStepEffect(g: GraphState, v: int, r: GraphState)
    requires Consistent(g) && 0 <= v < g.vertexCount && |g.inc[v]| >= 1 && Live(g.data, g.inc[v][0].id)
    requires BuysTo(g, g.inc[v][0], r)
    ensures Consistent(r) && r.vertexCount == g.vertexCount
    ensures r.partialSolution == g.partialSolution + [g.inc[v][0]]
    ensures r.partialSolutionWeight == g.partialSolutionWeight + Weight(g.data, g.inc[v][0])
    ensures !Live(r.data, g.inc[v][0].id)
  {
    var e := g.inc[v][0];
    BuyingEffect(g, e, r);
    BuyingOk(g, e);
    var b := Buying(g, e);
    ContractReady(b, e);
    var (s, t) := ContractEnds(b, e);
    var u := Unlinking(b, e.id);
    assert ContractedVia(b, s, t, u, Merge(u.data, u.inc[s], u.inc[t]), r);
  }

  /** A non-terminal of degree 1 loses its edge: the state stays
      consistent, the terminals and the partial solution are kept, and v
      is left without edges. */
  lemma RemoveStepEffect(g: GraphState, v: int, r: GraphState)
    requires Consistent(g) && 0 <= v < g.vertexCount && g.degrees[v] == 1 && |g.inc[v]| == 1
    requires Live(g.data, g.inc[v][0].id) && Source(g.data, g.inc[v][0]) == v
    requires r == Removing(g, g.inc[v][0].id)
    ensures Consistent(r) && r.vertexCount == g.vertexCount && Untouched(g, r) && r.degrees[v] == 0 && r.inc[v] == []
  {
    var id := g.inc[v][0].id;
    RemovingOk(g, id);
    RemovingEffect(g, id);
    RemovingUntouched(g, id);
    ZeroDegree(r, v);
  }

  /** A non-terminal of degree 2 is suppressed: the state stays
      consistent, the terminals and the partial solution are kept, and v
      is left without edges. */
  lemma SuppressStepEffect(g: GraphState, v: int, r: GraphState)
    requires SuppressesTo(g, v, r)
    ensures Consistent(r) && r.vertexCount == g.vertexCount && Untouched(g, r) && r.degrees[v] == 0 && r.inc[v] == []
  {
    var e, f, s, t, w :| SuppressNames(g, v, e, f, s, t, w) && r == Suppressed(g, v, e, f, s, t, w);
    SuppressedShape(g, v, e, f, s, t, w, r);
  }

  /** Every iteration keeps the state consistent and the vertices. Buying
      appends the edge to the partial solution and adds its weight; the
      two other moves keep the terminals and the partial solution and leave
      v without edges; a vertex of any other degree changes nothing. */
  lemma SmallStepEffect(g: GraphState, v: int, r: GraphState)
    requires Consistent(g) && 0 <= v < g.vertexCount && SmallStep(g, v, r)
    ensures Consistent(r) && r.vertexCount == g.vertexCount
    ensures g.degrees[v] == 1 && g.terminalMask[v] ==>
      |g.inc[v]| == 1 && r.partialSolution == g.partialSolution + [g.inc[v][0]] &&
      r.partialSolutionWeight == g.partialSolutionWeight + Weight(g.data, g.inc[v][0]) &&
      !Live(r.data, g.inc[v][0].id)
    ensures (g.degrees[v] == 1 || g.degrees[v] == 2) && !g.terminalMask[v] ==>
      Untouched(g, r) && r.degrees[v] == 0 && r.inc[v] == []
    ensures g.degrees[v] != 1 && (g.degrees[v] != 2 || g.terminalMask[v]) ==> r == g
  {
    if g.degrees[v] == 1 {
      Front(g, v);
      if g.terminalMask[v] {
        assert BuysTo(g, g.inc[v][0], r);
        BuyStepEffect(g, v, r);
      } else {
        assert r == Removing(g, g.inc[v][0].id);
        RemoveStepEffect(g, v, r);
      }
    } else if g.degrees[v] == 2 && !g.terminalMask[v] {
      SuppressStepEffect(g, v, r);
    } else {
      assert r == g;
    }
  }

  /** The iterations done so far, and one more. */
  lemma SmallStepsAppend(trace: seq<GraphState>, n: int, r: GraphState)
    requires SmallSteps(trace, n) && |trace| <= n && StepFrom(trace[|trace| - 1], |trace| - 1, r, n)
    ensures SmallSteps(trace + [r], n)
  {
    assert (trace + [r])[0] == trace[0];
    forall v | 0 <= v < |trace| {
      AppendedStep(trace, n, r, v);
    }
  }

  /** Iteration v of the iterations so far and one more. */
  lemma AppendedStep(trace: seq<GraphState>, n: int, r: GraphState, v: int)
    requires SmallSteps(trace, n) && StepFrom(trace[|trace| - 1], |trace| - 1, r, n) && 0 <= v < |trace|
    ensures var t := trace + [r]; StepFrom(t[v], v, t[v + 1], n)
  {
    var t := trace + [r];
    assert t[v] == trace[v];
    if v < |trace| - 1 {
      StepOf(trace, n, v);
      assert t[v + 1] == trace[v + 1];
    } else {
      assert t[v + 1] == r;
    }
  }

  /** trace[v + 1] is what iteration v makes of trace[v], for each
      iteration done so far, among the n vertices. */
  ghost predicate SmallSteps(trace: seq<GraphState>, n: int) {
    |trace| >= 1 && |trace| <= n + 1 &&
    Consistent(trace[0]) && trace[0].vertexCount == n &&
    forall v :: 0 <= v < |trace| - 1 ==> StepFrom(trace[v], v, trace[v + 1], n)
  }

  /** Iteration v, in a state of n vertices: a consistent state, as every
      state of a run is (SmallStepsConsistent). */
  ghost predicate StepFrom(g: GraphState, v: int, r: GraphState, n: int) {
    g.vertexCount == n && 0 <= v < n && (Consistent(g) ==> SmallStep(g, v, r))
  }

  /** A whole run of handle_small_degrees from g: one iteration per
      vertex. */
  ghost predicate SmallRun(g: GraphState, trace: seq<GraphState>) {
    SmallSteps(trace, g.vertexCount) && |trace| == g.vertexCount + 1 && trace[0] == g
  }

  /** What BoughtAt reads of g: v is a vertex and its degree is the length
      of its list. */
  predicate Sized(g: GraphState, v: int) {
    0 <= v < |g.inc| && v < |g.degrees| && v < |g.terminalMask| && g.degrees[v] == |g.inc[v]|
  }

  /** The edge iteration v buys in g: that of a terminal of degree 1. */
  function BoughtAt(g: GraphState, v: int): (r: seq<Edge>)
    requires Sized(g, v)
  {
    if g.degrees[v] == 1 && g.terminalMask[v] then [g.inc[v][0]] else []
  }

  /** Each iteration so far appended what it bought to the partial
      solution. */
  ghost predicate Grows(trace: seq<GraphState>, n: int) {
    |trace| >= 1 &&
    forall v :: 0 <= v < |trace| - 1 ==>
      Sized(trace[v], v) && trace[v + 1].partialSolution == trace[v].partialSolution + BoughtAt(trace[v], v)
  }

  /** Every run appends what each iteration buys. */
  lemma SmallStepsGrow(trace: seq<GraphState>, n: int)
    requires SmallSteps(trace, n)
    ensures Grows(trace, n)
  {
    forall v | 0 <= v < |trace| - 1
      ensures Sized(trace[v], v) && trace[v + 1].partialSolution == trace[v].partialSolution + BoughtAt(trace[v], v)
    {
      SmallStepAt(trace, n, v);
      SmallStepEffect(trace[v], v, trace[v + 1]);
    }
  }

  /** The iterations of a run but the last. */
  lemma GrowsPrefix(trace: seq<GraphState>, n: int)
    requires Grows(trace, n) && |trace| > 1
    ensures Grows(trace[..|trace| - 1], n)
  {
    var p := trace[..|trace| - 1];
    assert forall v :: 0 <= v < |p| ==> p[v] == trace[v];
  }

  /** The edges a run buys: the edge of each terminal of degree 1, in the
      order of the vertices. */
  ghost function BoughtAlong(trace: seq<GraphState>, n: int): (r: seq<Edge>)
    requires Grows(trace, n)
    decreases |trace|
  {
    if |trace| == 1 then []
    else
      GrowsPrefix(trace, n);
      var v := |trace| - 2;
      BoughtAlong(trace[..|trace| - 1], n) + BoughtAt(trace[v], v)
  }

  /** The partial solution grows by exactly what is bought. */
  lemma {:induction false} GrowsBought(trace: seq<GraphState>, n: int)
    requires Grows(trace, n)
    ensures trace[|trace| - 1].partialSolution == trace[0].partialSolution + BoughtAlong(trace, n)
  {
    if |trace| > 1 {
      var p := trace[..|trace| - 1];
      var v := |trace| - 2;
      GrowsPrefix(trace, n);
      GrowsBought(p, n);
      assert p[0] == trace[0] && p[v] == trace[v];
      var a, x := BoughtAlong(p, n), BoughtAt(trace[v], v);
      assert BoughtAlong(trace, n) == a + x;
      assert trace[v + 1].partialSolution == trace[v].partialSolution + x;
      assert trace[v].partialSolution == trace[0].partialSolution + a;
      assert trace[0].partialSolution + a + x == trace[0].partialSolution + (a + x);
    }
  }

  /** Every state of a run is consistent and has the same vertices. */
  lemma {:induction false} SmallStepsConsistent(trace: seq<GraphState>, n: int, v: int)
    requires SmallSteps(trace, n) && 0 <= v < |trace|
    ensures Consistent(trace[v]) && trace[v].vertexCount == n
    decreases v
  {
    if v > 0 {
      SmallStepsConsistent(trace, n, v - 1);
      StepOf(trace, n, v - 1);
      SmallStepEffect(trace[v - 1], v - 1, trace[v]);
    }
  }

  /** The state a run ends in is consistent and has the same vertices. */
  lemma SmallStepsEnd(trace: seq<GraphState>, n: int)
    requires SmallSteps(trace, n)
    ensures Consistent(trace[|trace| - 1]) && trace[|trace| - 1].vertexCount == n
  {
    SmallStepsConsistent(trace, n, |trace| - 1);
  }

  /** Along a run of handle_small_degrees the partial solution grows by
      exactly the edges of the terminals of degree 1, in vertex order. */
  lemma SmallStepsBought(trace: seq<GraphState>, n: int)
    requires SmallSteps(trace, n)
    ensures Grows(trace, n)
    ensures trace[|trace| - 1].partialSolution == trace[0].partialSolution + BoughtAlong(trace, n)
  {
    SmallStepsGrow(trace, n);
    GrowsBought(trace, n);
  }

  /** Iteration v of a run, as recorded. */
  lemma StepOf(trace: seq<GraphState>, n: int, v: int)
    requires SmallSteps(trace, n) && 0 <= v < |trace| - 1
    ensures StepFrom(trace[v], v, trace[v + 1], n)
  {
  }

  /** Iteration v of a run, from a consistent state. */
  lemma SmallStepAt(trace: seq<GraphState>, n: int, v: int)
    requires SmallSteps(trace, n) && 0 <= v < |trace| - 1
    ensures Consistent(trace[v]) && trace[v].vertexCount == n && SmallStep(trace[v], v, trace[v + 1])
  {
    SmallStepsConsistent(trace, n, v);
    StepOf(trace, n, v);
  }

  /** handle_small_degrees(g): every vertex in turn, in order. */
  method HandleSmallDegrees(g: Graph) returns (ghost trace: seq<GraphState>)
    requires g.Valid()
    modifies g
    ensures g.Valid()
    ensures SmallRun(old(g.st), trace) && g.st == trace[|trace| - 1]
  {
    var n := g.st.vertexCount;
    trace := [g.st];
    var v := 0;
    while v < n
      invariant 0 <= v <= n && g.Valid() && g.st.vertexCount == n
      invariant |trace| == v + 1 && trace[0] == old(g.st) && trace[v] == g.st
      invariant SmallSteps(trace, n)
    {
      ghost var before := g.st;
      if g.st.degrees[v] == 1 {
        Front(g.st, v);
        var e := g.st.inc[v][0];
        if g.IsTerminal(v) {
          var _ := g.BuyEdge(e);
          BuyStepEffect(before, v, g.st);
        } else {
          g.RemoveEdge(e);
          RemoveStepEffect(before, v, g.st);
        }
      } else if g.st.degrees[v] == 2 && !g.IsTerminal(v) {
        ghost var e, f, s, t, w := g.SuppressVertex(v);
        SuppressStepEffect(before, v, g.st);
      }
      assert SmallStep(before, v, g.st);
      assert StepFrom(before, v, g.st, n);
      SmallStepsAppend(trace, n, g.st);
      trace := trace + [g.st];
      v := v + 1;
    }
  }

  // shortest_edge_between_terminals

  /** What the first loop of shortest_edge_between_terminals reads: each
      list entry has a record, and its target is a vertex of the graph;
      null_edge keeps its record. */
  ghost predicate Spans(D: Records, inc: seq<seq<Edge>>, n: int) {
    NullKept(D) &&
    forall v, i :: 0 <= v < |inc| && 0 <= i < |inc[v]| ==> inc[v][i].id in D && 0 <= Target(D, inc[v][i]) < n
  }

  /** A consistent state has the shape the first loop reads, and every
      list holds live edges leaving its vertex. */
  lemma SpansOf(g: GraphState)
    requires Consistent(g)
    ensures |g.terminalMask| == g.vertexCount && Spans(g.data, g.inc, g.vertexCount)
    ensures forall v :: 0 <= v < g.vertexCount ==> Leaving(g.data, g.inc[v], v)
  {
    forall v, i | 0 <= v < |g.inc| && 0 <= i < |g.inc[v]|
      ensures g.inc[v][i].id in g.data && 0 <= Target(g.data, g.inc[v][i]) < g.vertexCount
    {
      Members(g.data, g.inc, {}, v);
      assert g.inc[v][i] in g.inc[v];
      LiveEnds(g, g.inc[v][i].id);
    }
  }

  /** The first loop of shortest_edge_between_terminals over the
      terminals T: the cheapest edge of each terminal, kept when its other
      end is a terminal too; None once a terminal has no edge lighter than
      INT_MAX, where the assertion on null_edge fails. */
  ghost function Candidates(D: Records, inc: seq<seq<Edge>>, mask: seq<bool>, T: seq<int>): (r: Text.Option<seq<Edge>>)
    requires Spans(D, inc, |mask|) && forall i :: 0 <= i < |T| ==> 0 <= T[i] < |inc|
  {
    if T == [] then Text.Some([])
    else
      match Candidates(D, inc, mask, T[..|T| - 1])
      case None => Text.None
      case Some(c) =>
        var l := inc[T[|T| - 1]];
        assert Known(D, l);
        CheapestLeast(D, l);
        var e := Cheapest(D, l);
        if e == NullEdge then Text.None
        else if mask[Target(D, e)] then Text.Some(c + [e])
        else Text.Some(c)
  }

  /** The first loop fails exactly when some terminal has no edge lighter
      than INT_MAX. */
  lemma {:induction false} CandidatesNone(D: Records, inc: seq<seq<Edge>>, mask: seq<bool>, T: seq<int>)
    requires Spans(D, inc, |mask|) && forall i :: 0 <= i < |T| ==> 0 <= T[i] < |inc|
    ensures forall i :: 0 <= i < |T| ==> Known(D, inc[T[i]])
    ensures Candidates(D, inc, mask, T) == Text.None <==> exists i :: 0 <= i < |T| && Cheapest(D, inc[T[i]]) == NullEdge
  {
    if T != [] {
      var p := T[..|T| - 1];
      CandidatesNone(D, inc, mask, p);
      assert forall i :: 0 <= i < |p| ==> p[i] == T[i];
      assert Known(D, inc[T[|T| - 1]]);
      if Candidates(D, inc, mask, p) == Text.None {
        var i :| 0 <= i < |p| && Cheapest(D, inc[p[i]]) == NullEdge;
        assert T[i] == p[i];
      }
    }
  }

  /** One more iteration of the first loop, at terminal T[i]. */
  lemma CandidatesStep(D: Records, inc: seq<seq<Edge>>, mask: seq<bool>, T: seq<int>, i: int, c: seq<Edge>)
    requires Spans(D, inc, |mask|) && forall k :: 0 <= k < |T| ==> 0 <= T[k] < |inc|
    requires 0 <= i < |T| && Candidates(D, inc, mask, T[..i]) == Text.Some(c)
    ensures Known(D, inc[T[i]])
    ensures var e := Cheapest(D, inc[T[i]]);
      (e != NullEdge ==> 0 <= Target(D, e) < |mask|) &&
      Candidates(D, inc, mask, T[..i + 1]) ==
        if e == NullEdge then Text.None
        else if mask[Target(D, e)] then Text.Some(c + [e])
        else Text.Some(c)
  {
    assert Known(D, inc[T[i]]);
    assert T[..i + 1][..i] == T[..i];
    CheapestLeast(D, inc[T[i]]);
  }

  /** Once the first loop has failed on a prefix of the terminals it has
      failed on all of them. */
  lemma {:induction false} NoneExtends(D: Records, inc: seq<seq<Edge>>, mask: seq<bool>, T: seq<int>, k: int)
    requires Spans(D, inc, |mask|) && forall i :: 0 <= i < |T| ==> 0 <= T[i] < |inc|
    requires 0 <= k <= |T| && Candidates(D, inc, mask, T[..k]) == Text.None
    ensures Candidates(D, inc, mask, T) == Text.None
    decreases |T| - k
  {
    if k < |T| {
      assert T[..k + 1][..k] == T[..k];
      NoneExtends(D, inc, mask, T, k + 1);
    } else {
      assert T[..k] == T;
    }
  }

  /** The candidates of all the terminals are those of all but the last,
      and the last terminal's cheapest edge when its target is a
      terminal; that edge leaves the last terminal. */
  lemma CandidatesLast(D: Records, inc: seq<seq<Edge>>, mask: seq<bool>, T: seq<int>, c: seq<Edge>)
    requires Spans(D, inc, |mask|) && forall i :: 0 <= i < |T| ==> 0 <= T[i] < |inc|
    requires forall i :: 0 <= i < |T| ==> 0 <= T[i] < |mask| && mask[T[i]] && Leaving(D, inc[T[i]], T[i])
    requires Candidates(D, inc, mask, T) == Text.Some(c) && T != []
    ensures Known(D, inc[T[|T| - 1]])
    ensures var p, e := T[..|T| - 1], Cheapest(D, inc[T[|T| - 1]]);
      e != NullEdge && Live(D, e.id) && Source(D, e) == T[|T| - 1] && 0 <= Target(D, e) < |mask| &&
      Candidates(D, inc, mask, p).Some? &&
      c == if mask[Target(D, e)] then Candidates(D, inc, mask, p).value + [e] else Candidates(D, inc, mask, p).value
  {
    var l := inc[T[|T| - 1]];
    assert Known(D, l);
    CheapestLeast(D, l);
    var e := Cheapest(D, l);
    var k :| 0 <= k < |l| && l[k] == e;
  }

  /** The prefixes of the terminals meet the requirements on the
      terminals. */
  lemma PrefixSpans(D: Records, inc: seq<seq<Edge>>, mask: seq<bool>, T: seq<int>)
    requires forall i :: 0 <= i < |T| ==> 0 <= T[i] < |inc|
    requires forall i :: 0 <= i < |T| ==> 0 <= T[i] < |mask| && mask[T[i]] && Leaving(D, inc[T[i]], T[i])
    requires T != []
    ensures var p := T[..|T| - 1]; forall i :: 0 <= i < |p| ==> p[i] == T[i]
    ensures var p := T[..|T| - 1]; forall i :: 0 <= i < |p| ==> 0 <= p[i] < |inc|
    ensures var p := T[..|T| - 1];
      forall i :: 0 <= i < |p| ==> 0 <= p[i] < |mask| && mask[p[i]] && Leaving(D, inc[p[i]], p[i])
  {
  }

  /** Every candidate is the cheapest edge of some terminal, and its
      target is a terminal. */
  lemma {:induction false} CandidatesSound(D: Records, inc: seq<seq<Edge>>, mask: seq<bool>, T: seq<int>, c: seq<Edge>)
    requires Spans(D, inc, |mask|) && forall i :: 0 <= i < |T| ==> 0 <= T[i] < |inc|
    requires forall i :: 0 <= i < |T| ==> 0 <= T[i] < |mask| && mask[T[i]] && Leaving(D, inc[T[i]], T[i])
    requires Candidates(D, inc, mask, T) == Text.Some(c)
    ensures forall i :: 0 <= i < |T| ==> Known(D, inc[T[i]])
    ensures forall x :: x in c ==>
      exists i :: 0 <= i < |T| && x == Cheapest(D, inc[T[i]]) && 0 <= Target(D, x) < |mask| && mask[Target(D, x)]
  {
    assert forall i :: 0 <= i < |T| ==> Known(D, inc[T[i]]);
    if T != [] {
      var p := T[..|T| - 1];
      PrefixSpans(D, inc, mask, T);
      CandidatesLast(D, inc, mask, T, c);
      var e := Cheapest(D, inc[T[|T| - 1]]);
      var c' := Candidates(D, inc, mask, p).value;
      CandidatesSound(D, inc, mask, p, c');
      forall x | x in c
        ensures exists i :: 0 <= i < |T| && x == Cheapest(D, inc[T[i]]) && 0 <= Target(D, x) < |mask| && mask[Target(D, x)]
      {
        if x in c' {
          var i :| 0 <= i < |p| && x == Cheapest(D, inc[p[i]]) && 0 <= Target(D, x) < |mask| && mask[Target(D, x)];
          assert T[i] == p[i];
        } else {
          assert x == e;
        }
      }
    }
  }

  /** The cheapest edge of each terminal is a candidate when its target
      is a terminal. */
  lemma {:induction false} CandidatesComplete(D: Records, inc: seq<seq<Edge>>, mask: seq<bool>, T: seq<int>, c: seq<Edge>)
    requires Spans(D, inc, |mask|) && forall i :: 0 <= i < |T| ==> 0 <= T[i] < |inc|
    requires forall i :: 0 <= i < |T| ==> 0 <= T[i] < |mask| && mask[T[i]] && Leaving(D, inc[T[i]], T[i])
    requires Candidates(D, inc, mask, T) == Text.Some(c)
    ensures forall i :: 0 <= i < |T| ==> Known(D, inc[T[i]])
    ensures forall x, i :: 0 <= i < |T| && x == Cheapest(D, inc[T[i]]) && 0 <= Target(D, x) < |mask| && mask[Target(D, x)] ==>
      x in c
  {
    assert forall i :: 0 <= i < |T| ==> Known(D, inc[T[i]]);
    if T != [] {
      var p := T[..|T| - 1];
      PrefixSpans(D, inc, mask, T);
      CandidatesLast(D, inc, mask, T, c);
      var c' := Candidates(D, inc, mask, p).value;
      CandidatesComplete(D, inc, mask, p, c');
      forall x, i | 0 <= i < |T| && x == Cheapest(D, inc[T[i]]) && 0 <= Target(D, x) < |mask| && mask[Target(D, x)]
        ensures x in c
      {
        if i < |p| {
          assert p[i] == T[i];
          assert x in c';
        }
      }
    }
  }

  /** Every candidate is a live edge between two terminals. */
  lemma {:induction false} CandidatesLive(D: Records, inc: seq<seq<Edge>>, mask: seq<bool>, T: seq<int>, c: seq<Edge>)
    requires Spans(D, inc, |mask|) && forall i :: 0 <= i < |T| ==> 0 <= T[i] < |inc|
    requires forall i :: 0 <= i < |T| ==> 0 <= T[i] < |mask| && mask[T[i]] && Leaving(D, inc[T[i]], T[i])
    requires Candidates(D, inc, mask, T) == Text.Some(c)
    ensures forall k :: 0 <= k < |c| ==>
      (Live(D, c[k].id) && 0 <= Source(D, c[k]) < |mask| && 0 <= Target(D, c[k]) < |mask| &&
       mask[Source(D, c[k])] && mask[Target(D, c[k])])
  {
    if T != [] {
      var p := T[..|T| - 1];
      PrefixSpans(D, inc, mask, T);
      CandidatesLast(D, inc, mask, T, c);
      var c' := Candidates(D, inc, mask, p).value;
      CandidatesLive(D, inc, mask, p, c');
      assert forall k :: 0 <= k < |c'| ==> c[k] == c'[k];
    }
  }

  /** When the first loop succeeds, its candidates are exactly the
      cheapest edges of the terminals whose other end is a terminal; each
      is a live edge between two terminals. */
  lemma CandidatesAre(D: Records, inc: seq<seq<Edge>>, mask: seq<bool>, T: seq<int>, c: seq<Edge>)
    requires Spans(D, inc, |mask|) && forall i :: 0 <= i < |T| ==> 0 <= T[i] < |inc|
    requires forall i :: 0 <= i < |T| ==> 0 <= T[i] < |mask| && mask[T[i]] && Leaving(D, inc[T[i]], T[i])
    requires Candidates(D, inc, mask, T) == Text.Some(c)
    ensures forall i :: 0 <= i < |T| ==> Known(D, inc[T[i]])
    ensures forall e :: e in c <==>
      exists i :: 0 <= i < |T| && e == Cheapest(D, inc[T[i]]) && 0 <= Target(D, e) < |mask| && mask[Target(D, e)]
    ensures forall k :: 0 <= k < |c| ==>
      (Live(D, c[k].id) && 0 <= Source(D, c[k]) < |mask| && 0 <= Target(D, c[k]) < |mask| &&
       mask[Source(D, c[k])] && mask[Target(D, c[k])])
  {
    CandidatesSound(D, inc, mask, T, c);
    CandidatesComplete(D, inc, mask, T, c);
    CandidatesLive(D, inc, mask, T, c);
  }

  /** Record id has both ends among the first n vertices. */
  predicate EndsWithin(D: Records, id: int, n: int) {
    id in D && 0 <= D[id].s < n && 0 <= D[id].t < n
  }

  /** One iteration of the second loop, at the candidate e, with the
      affected vertices aff: e is bought, and both its ends marked, when
      neither is marked yet; buy_edge leaves a removed edge alone. */
  ghost predicate Chosen(g: GraphState, aff: seq<bool>, e: Edge, r: GraphState, aff': seq<bool>)
    requires |aff| == g.vertexCount && EndsWithin(g.data, e.id, g.vertexCount)
  {
    var s, t := Source(g.data, e), Target(g.data, e);
    if !aff[s] && !aff[t] then
      aff' == aff[s := true][t := true] &&
      if g.data[e.id].removed then r == g else Consistent(g) && e.id != 0 && BuysTo(g, e, r)
    else
      aff' == aff && r == g
  }

  /** One iteration, in a state of n vertices. */
  ghost predicate ChosenFrom(g: GraphState, aff: seq<bool>, e: Edge, r: GraphState, aff': seq<bool>, n: int) {
    g.vertexCount == n && |aff| == n && EndsWithin(g.data, e.id, n) && Chosen(g, aff, e, r, aff')
  }

  /** Removing records and renumbering ends to s, a vertex of the graph,
      keep every record and its ends among the vertices. */
  lemma MovedKeepsEnds(D: Records, id: int, K: set<int>, t: int, s: int, P: set<int>, n: int)
    requires id in D && EndsWithin(D[id := D[id].(removed := true)], id, n) && 0 <= s < n
    ensures forall x :: EndsWithin(D, x, n) ==> EndsWithin(Moved(Killed(Dead(D, id), K), t, s, P), x, n)
  {
  }

  /** buy_edge keeps every record, and renumbers ends only to vertices of
      the graph. */
  lemma BuyKeepsEnds(g: GraphState, e: Edge, r: GraphState)
    requires Consistent(g) && Live(g.data, e.id) && BuysTo(g, e, r)
    ensures forall id :: EndsWithin(g.data, id, g.vertexCount) ==> EndsWithin(r.data, id, g.vertexCount)
  {
    BuyingOk(g, e);
    var b := Buying(g, e);
    ContractReady(b, e);
    var (s, t) := ContractEnds(b, e);
    var u := Unlinking(b, e.id);
    var m := Merge(u.data, u.inc[s], u.inc[t]);
    assert ContractedVia(b, s, t, u, m, r);
    assert r.data == Moved(Killed(Dead(g.data, e.id), Ids(m.1)), t, s, Ids(u.inc[t]) - Ids(m.1));
    LiveEnds(g, e.id);
    MovedKeepsEnds(g.data, e.id, Ids(m.1), t, s, Ids(u.inc[t]) - Ids(m.1), g.vertexCount);
  }

  /** states[k + 1] and affs[k + 1] are what iteration k makes of
      states[k] and affs[k], for each candidate so far. */
  ghost predicate Choosing(cands: seq<Edge>, states: seq<GraphState>, affs: seq<seq<bool>>, n: int) {
    |states| == |cands| + 1 && |affs| == |cands| + 1 &&
    forall k :: 0 <= k < |cands| ==> ChosenFrom(states[k], affs[k], cands[k], states[k + 1], affs[k + 1], n)
  }

  /** The iterations done so far, and one more. */
  lemma ChoosingAppend(cands: seq<Edge>, j: int, states: seq<GraphState>, affs: seq<seq<bool>>, n: int,
                       r: GraphState, aff: seq<bool>)
    requires 0 <= j < |cands| && Choosing(cands[..j], states, affs, n)
    requires ChosenFrom(states[j], affs[j], cands[j], r, aff, n)
    ensures Choosing(cands[..j + 1], states + [r], affs + [aff], n)
  {
    var c, s, a := cands[..j + 1], states + [r], affs + [aff];
    forall k | 0 <= k < |c| {
      AppendedAt(cands, j, states, affs, n, r, aff, k);
    }
  }

  /** Iteration k of the iterations so far and one more. */
  lemma AppendedAt(cands: seq<Edge>, j: int, states: seq<GraphState>, affs: seq<seq<bool>>, n: int,
                   r: GraphState, aff: seq<bool>, k: int)
    requires 0 <= j < |cands| && Choosing(cands[..j], states, affs, n)
    requires ChosenFrom(states[j], affs[j], cands[j], r, aff, n) && 0 <= k <= j
    ensures var c, s, a := cands[..j + 1], states + [r], affs + [aff];
      ChosenFrom(s[k], a[k], c[k], s[k + 1], a[k + 1], n)
  {
    var c, s, a := cands[..j + 1], states + [r], affs + [aff];
    assert s[k] == states[k] && a[k] == affs[k] && c[k] == cands[k];
    if k < j {
      ChoosingAt(cands[..j], states, affs, n, k);
      assert cands[..j][k] == cands[k] && s[k + 1] == states[k + 1] && a[k + 1] == affs[k + 1];
    } else {
      assert s[k + 1] == r && a[k + 1] == aff;
    }
  }

  /** Iteration k of those recorded. */
  lemma ChoosingAt(cands: seq<Edge>, states: seq<GraphState>, affs: seq<seq<bool>>, n: int, k: int)
    requires Choosing(cands, states, affs, n) && 0 <= k < |cands|
    ensures ChosenFrom(states[k], affs[k], cands[k], states[k + 1], affs[k + 1], n)
  {
  }

  /** Iteration k takes its candidate: neither end is marked yet. */
  ghost predicate Taken(cands: seq<Edge>, states: seq<GraphState>, affs: seq<seq<bool>>, n: int, k: int)
    requires Choosing(cands, states, affs, n) && 0 <= k < |cands|
  {
    ChosenFrom(states[k], affs[k], cands[k], states[k + 1], affs[k + 1], n) &&
    !affs[k][Source(states[k].data, cands[k])] && !affs[k][Target(states[k].data, cands[k])]
  }

  /** A vertex once marked affected stays marked. */
  lemma {:induction false} AffectedStays(cands: seq<Edge>, states: seq<GraphState>, affs: seq<seq<bool>>, n: int, i: int, j: int, x: int)
    requires Choosing(cands, states, affs, n) && 0 <= i <= j <= |cands| && 0 <= x < n && |affs[i]| == n && affs[i][x]
    ensures |affs[j]| == n && affs[j][x]
    decreases j - i
  {
    if i < j {
      ChoosingAt(cands, states, affs, n, i);
      AffectedStays(cands, states, affs, n, i + 1, j, x);
    }
  }

  /** The candidates the second loop takes are vertex-disjoint, as read
      when they are taken: affected_vertices lets each vertex take part in
      one contraction at most. */
  lemma TakenApart(cands: seq<Edge>, states: seq<GraphState>, affs: seq<seq<bool>>, n: int, i: int, j: int)
    requires Choosing(cands, states, affs, n) && 0 <= i < j < |cands|
    requires Taken(cands, states, affs, n, i) && Taken(cands, states, affs, n, j)
    ensures var si, ti := Source(states[i].data, cands[i]), Target(states[i].data, cands[i]);
      var sj, tj := Source(states[j].data, cands[j]), Target(states[j].data, cands[j]);
      si != sj && si != tj && ti != sj && ti != tj
  {
    var si, ti := Source(states[i].data, cands[i]), Target(states[i].data, cands[i]);
    AffectedStays(cands, states, affs, n, i + 1, j, si);
    AffectedStays(cands, states, affs, n, i + 1, j, ti);
  }

  /** What shortest_edge_between_terminals does to g, reporting whether
      its assertion failed (the state is then left as it was). */
  ghost predicate ShortestTo(g: GraphState, aborted: bool, cands: seq<Edge>, states: seq<GraphState>,
                             affs: seq<seq<bool>>, r: GraphState)
    requires Consistent(g)
  {
    assert forall i :: 0 <= i < |g.terminals| ==> 0 <= g.terminals[i] < g.vertexCount;
    SpansOf(g);
    var c := Candidates(g.data, g.inc, g.terminalMask, g.terminals);
    if g.terminalCount == 1 then !aborted && r == g
    else if c == Text.None then aborted && r == g
    else
      !aborted && c == Text.Some(cands) && Choosing(cands, states, affs, g.vertexCount) &&
      states[0] == g && affs[0] == seq(g.vertexCount, _ => false) && r == states[|cands|]
  }

  /** The second loop, before iteration j: the iterations done so far,
      the state they reached, consistent and with the same vertices, and
      the candidates still to come, whose records have their ends among
      the vertices. */
  ghost predicate Choice(cands: seq<Edge>, j: int, states: seq<GraphState>, affs: seq<seq<bool>>, n: int) {
    0 <= j <= |cands| && |states| == j + 1 && |affs| == j + 1 && Choosing(cands[..j], states, affs, n) &&
    Consistent(states[j]) && states[j].vertexCount == n && |affs[j]| == n &&
    forall k :: j <= k < |cands| ==> cands[k].id != 0 && EndsWithin(states[j].data, cands[k].id, n)
  }

  /** Iteration j when neither end of its candidate e is marked: e is
      bought unless it was removed, and both ends are marked. */
  lemma ChosenBuy(g: GraphState, aff: seq<bool>, e: Edge, r: GraphState)
    requires Consistent(g) && |aff| == g.vertexCount && e.id != 0 && EndsWithin(g.data, e.id, g.vertexCount)
    requires !aff[Source(g.data, e)] && !aff[Target(g.data, e)]
    requires g.data[e.id].removed ==> r == g
    requires !g.data[e.id].removed ==> BuysTo(g, e, r)
    ensures Chosen(g, aff, e, r, aff[Source(g.data, e) := true][Target(g.data, e) := true])
    ensures r.vertexCount == g.vertexCount
    ensures forall id :: EndsWithin(g.data, id, g.vertexCount) ==> EndsWithin(r.data, id, g.vertexCount)
  {
    if !g.data[e.id].removed {
      assert Live(g.data, e.id);
      BuyKeepsEnds(g, e, r);
    }
  }

  /** The second loop advances by one iteration. */
  lemma ChoiceAdvance(cands: seq<Edge>, j: int, states: seq<GraphState>, affs: seq<seq<bool>>, n: int,
                      r: GraphState, aff: seq<bool>)
    requires Choice(cands, j, states, affs, n) && j < |cands|
    requires Chosen(states[j], affs[j], cands[j], r, aff) && Consistent(r) && r.vertexCount == n && |aff| == n
    requires forall id :: EndsWithin(states[j].data, id, n) ==> EndsWithin(r.data, id, n)
    ensures Choice(cands, j + 1, states + [r], affs + [aff], n)
  {
    ChoosingAppend(cands, j, states, affs, n, r, aff);
  }

  /** The first loop of shortest_edge_between_terminals (lines 43-50),
      which changes nothing: ok is false when the assertion on null_edge
      fails. */
  method TerminalCandidates(g: Graph) returns (ok: bool, possible: seq<Edge>)
    requires g.Valid()
    ensures Candidates(g.st.data, g.st.inc, g.st.terminalMask, g.st.terminals) == if ok then Text.Some(possible) else Text.None
  {
    var T := g.st.terminals;
    assert forall i :: 0 <= i < |T| ==> 0 <= T[i] < g.st.vertexCount;
    SpansOf(g.st);
    ghost var D, inc, mask := g.st.data, g.st.inc, g.st.terminalMask;
    possible := [];
    var i := 0;
    while i < |T|
      invariant 0 <= i <= |T| && Candidates(D, inc, mask, T[..i]) == Text.Some(possible)
    {
      var e := CheapestEdgeFrom(g, T[i]);
      CandidatesStep(D, inc, mask, T, i, possible);
      if e == NullEdge {
        NoneExtends(D, inc, mask, T, i + 1);
        return false, possible;
      }
      if g.IsTerminal(Target(g.st.data, e)) {
        possible := possible + [e];
      }
      i := i + 1;
    }
    assert T[..i] == T;
    ok := true;
  }

  /** The second loop of shortest_edge_between_terminals (lines 52-58):
      each candidate in turn is bought, unless an end of it is already
      marked affected; its ends are then marked. */
  method BuyApart(g: Graph, possible: seq<Edge>) returns (ghost states: seq<GraphState>, ghost affs: seq<seq<bool>>)
    requires g.Valid()
    requires forall k :: 0 <= k < |possible| ==> possible[k].id != 0 && EndsWithin(g.st.data, possible[k].id, g.st.vertexCount)
    modifies g
    ensures g.Valid()
    ensures Choosing(possible, states, affs, old(g.st).vertexCount) && states[0] == old(g.st)
    ensures affs[0] == seq(old(g.st).vertexCount, _ => false) && g.st == states[|possible|]
  {
    var n := g.st.vertexCount;
    var affected := seq(n, _ => false);
    states, affs := [g.st], [affected];
    var j := 0;
    while j < |possible|
      invariant Choice(possible, j, states, affs, n) && g.st == states[j] && affected == affs[j]
      invariant states[0] == old(g.st) && affs[0] == seq(n, _ => false)
    {
      var e := possible[j];
      ghost var before, aff0 := g.st, affected;
      assert Consistent(before) && EndsWithin(before.data, e.id, n);
      var s, t := Source(g.st.data, e), Target(g.st.data, e);
      if !affected[s] && !affected[t] {
        affected := affected[s := true][t := true];
        var _ := g.BuyEdge(e);
        ChosenBuy(before, aff0, e, g.st);
      } else {
        assert Chosen(before, aff0, e, g.st, affected);
      }
      ChoiceAdvance(possible, j, states, affs, n, g.st, affected);
      states, affs := states + [g.st], affs + [affected];
      j := j + 1;
    }
    assert possible[..j] == possible;
  }

  /** shortest_edge_between_terminals(g). */
  method ShortestEdgeBetweenTerminals(g: Graph)
      returns (aborted: bool, ghost cands: seq<Edge>, ghost states: seq<GraphState>, ghost affs: seq<seq<bool>>)
    requires g.Valid()
    modifies g
    ensures g.Valid()
    ensures ShortestTo(old(g.st), aborted, cands, states, affs, g.st)
  {
    cands, states, affs := [], [g.st], [seq(g.st.vertexCount, _ => false)];
    if g.st.terminalCount == 1 {
      return false, cands, states, affs;
    }
    var ok, possible := TerminalCandidates(g);
    if !ok {
      return true, cands, states, affs;
    }
    ghost var g0 := g.st;
    SpansOf(g0);
    CandidatesAre(g0.data, g0.inc, g0.terminalMask, g0.terminals, possible);
    forall k | 0 <= k < |possible| ensures possible[k].id != 0 && EndsWithin(g0.data, possible[k].id, g0.vertexCount) {
      LiveEnds(g0, possible[k].id);
    }
    cands := possible;
    states, affs := BuyApart(g, possible);
    aborted := false;
  }

  // run_all_heuristics

  /** run_all_heuristics(g): handle_small_degrees, then
      shortest_edge_between_terminals on what it leaves. */
  method RunAllHeuristics(g: Graph)
      returns (aborted: bool, ghost trace: seq<GraphState>, ghost cands: seq<Edge>, ghost states: seq<GraphState>,
               ghost affs: seq<seq<bool>>)
    requires g.Valid()
    modifies g
    ensures g.Valid()
    ensures SmallRun(old(g.st), trace) && Consistent(trace[|trace| - 1])
    ensures ShortestTo(trace[|trace| - 1], aborted, cands, states, affs, g.st)
  {
    trace := HandleSmallDegrees(g);
    aborted, cands, states, affs := ShortestEdgeBetweenTerminals(g);
  }
}
