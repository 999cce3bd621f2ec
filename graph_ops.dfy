/** src/graph.hpp: buy_edge, the add_edge overloads that record where an
    edge came from, and suppress_vertex, as functions on GraphState. */
module GraphOps {
  import opened Incidence
  import opened GraphRep
  import opened Contraction
  import opened Graphs
  import opened GraphMoves

  /** The bookkeeping of buy_edge before the contraction: e is appended to
      partial_solution and its weight added to partial_solution_weight. */
  function Buying(g: GraphState, e: Edge): (r: GraphState)
    requires e.id in g.data
  {
    g.(partialSolution := g.partialSolution + [e], partialSolutionWeight := g.partialSolutionWeight + Weight(g.data, e))
  }

  /** Buying a live edge keeps the state consistent: the weight is still the
      sum over the bought edges. */
  lemma BuyingOk(g: GraphState, e: Edge)
    requires Consistent(g) && Live(g.data, e.id)
    ensures Consistent(Buying(g, e)) && Live(Buying(g, e).data, e.id)
  {
    var ps := g.partialSolution + [e];
    assert ps[..|ps| - 1] == g.partialSolution;
  }

  /** buy_edge(e) of a live edge: buy it, then contract it. */
  ghost predicate BuysTo(g: GraphState, e: Edge, r: GraphState)
    requires Consistent(g) && Live(g.data, e.id)
  {
    BuyingOk(g, e);
    ContractsTo(Buying(g, e), e, r)
  }

  /** After buy_edge the edge is the last of the partial solution, counted
      once more in its weight, and gone from the graph; the bought edges
      keep their weights, so the weight is still their sum. */
  lemma BuyingEffect(g: GraphState, e: Edge, r: GraphState)
    requires Consistent(g) && Live(g.data, e.id) && BuysTo(g, e, r)
    ensures r.partialSolution == g.partialSolution + [e]
    ensures r.partialSolutionWeight == g.partialSolutionWeight + Weight(g.data, e)
    ensures Consistent(r) && e.id in r.data && !Live(r.data, e.id) && Weight(r.data, e) == Weight(g.data, e)
    ensures r.partialSolutionWeight == SumWeights(r.data, r.partialSolution)
  {
    BuyingOk(g, e);
    var b := Buying(g, e);
    ContractReady(b, e);
    ContractEffect(b, e, r);
  }

  /** The edge numbered id with history h in place of its own. */
  function Historied(g: GraphState, id: int, h: seq<(int, int)>): (r: GraphState)
    requires id in g.data
  {
    g.(data := g.data[id := g.data[id].(history := h)])
  }

  /** Histories are not part of the invariant. */
  lemma HistoriedOk(g: GraphState, id: int, h: seq<(int, int)>)
    requires Consistent(g) && id in g.data && id != 0
    ensures Consistent(Historied(g, id, h))
    ensures SameShape(g.data, Historied(g, id, h).data)
  {
    var D' := Historied(g, id, h).data;
    assert SameShape(g.data, D');
    ShapeKept(g.data, D', g.inc, g.edgeList, g.partialSolution, g.partialSolutionWeight);
  }

  /** add_edge(s, t, w, hist): add_edge(s, t, w), and an edge it returns
      with an empty history, which a new edge has, takes history h. The
      overload with an original pair (orig_s, orig_t) is h == [(orig_s, orig_t)]. */
  function AddingWith(g: GraphState, s: int, t: int, w: int, h: seq<(int, int)>): (r: (GraphState, Edge))
    requires Consistent(g) && 0 <= s < g.vertexCount && 0 <= t < g.vertexCount && s != t
  {
    AddingOk(g, s, t, w);
    var (g1, e) := Adding(g, s, t, w);
    if g1.data[e.id].history == [] then (Historied(g1, e.id, h), e) else (g1, e)
  }

  /** add_edge with a history keeps the invariant, and the edge it returns
      is the only one between s and t. */
  lemma AddingWithOk(g: GraphState, s: int, t: int, w: int, h: seq<(int, int)>)
    requires Consistent(g) && 0 <= s < g.vertexCount && 0 <= t < g.vertexCount && s != t
    ensures var (r, e) := AddingWith(g, s, t, w, h);
      Consistent(r) && Joins(r.data, e.id, s, t) && Source(r.data, e) == s && Target(r.data, e) == t &&
      (forall id :: Joins(r.data, id, s, t) ==> id == e.id)
  {
    AddingOk(g, s, t, w);
    AddingUnique(g, s, t, w);
    var (g1, e) := Adding(g, s, t, w);
    var r := AddingWith(g, s, t, w, h).0;
    HistoryStep(g1, e.id, h, r);
    forall id | Joins(r.data, id, s, t) ensures id == e.id {
      assert Joins(g1.data, id, s, t);
    }
  }

  /** The weight and history of the edge add_edge with a history returns:
      a kept edge keeps its weight, and its history unless that was empty;
      a new edge has weight w and history h. */
  lemma AddingWithEffect(g: GraphState, s: int, t: int, w: int, h: seq<(int, int)>)
    requires Consistent(g) && 0 <= s < g.vertexCount && 0 <= t < g.vertexCount && s != t
    ensures var (r, e) := AddingWith(g, s, t, w, h);
      e.id in r.data &&
      (forall id :: Joins(g.data, id, s, t) && g.data[id].weight < w ==>
        e.id == id && r.data[id].weight == g.data[id].weight &&
        r.data[id].history == (if g.data[id].history == [] then h else g.data[id].history)) &&
      (forall id :: Joins(g.data, id, s, t) && g.data[id].weight >= w ==>
        e.id == g.nextId && r.data[e.id].weight == w && r.data[e.id].history == h) &&
      (!Joined(g.data, s, t) ==> e.id == g.nextId && r.data[e.id].weight == w && r.data[e.id].history == h)
  {
    AddingOk(g, s, t, w);
    AddingWeight(g, s, t, w);
    var (g1, e) := Adding(g, s, t, w);
    var r := AddingWith(g, s, t, w, h).0;
    HistoryStep(g1, e.id, h, r);
  }

  /** The last step of add_edge with a history. */
  lemma HistoryStep(g1: GraphState, id: int, h: seq<(int, int)>, r: GraphState)
    requires Consistent(g1) && Live(g1.data, id)
    requires r == if g1.data[id].history == [] then Historied(g1, id, h) else g1
    ensures Consistent(r) && SameShape(g1.data, r.data)
    ensures r.data[id].history == if g1.data[id].history == [] then h else g1.data[id].history
  {
    if g1.data[id].history == [] {
      HistoriedOk(g1, id, h);
    }
  }

  /** What suppress_vertex asserts of v: a non-terminal of degree 2. */
  ghost predicate Suppressible(g: GraphState, v: int) {
    Consistent(g) && 0 <= v < g.vertexCount && !g.terminalMask[v] && g.degrees[v] == 2
  }

  /** A vertex of degree 2 has two entries in its list. */
  lemma SuppressTwo(g: GraphState, v: int)
    requires Suppressible(g, v)
    ensures |g.inc[v]| == 2
  {
  }

  /** The two entries of the list of a vertex of degree 2 are different
      live edges leaving it, towards two different other vertices. */
  lemma SuppressReady(g: GraphState, v: int, e: Edge, f: Edge)
    requires Suppressible(g, v) && |g.inc[v]| == 2 && e == g.inc[v][0] && f == g.inc[v][1]
    ensures Live(g.data, e.id) && Live(g.data, f.id) && e.id != f.id
    ensures Source(g.data, e) == v && Source(g.data, f) == v
    ensures 0 <= Target(g.data, e) < g.vertexCount && 0 <= Target(g.data, f) < g.vertexCount
    ensures Target(g.data, e) != Target(g.data, f) && Target(g.data, e) != v && Target(g.data, f) != v
  {
    Members(g.data, g.inc, {}, v);
    assert e in g.inc[v] && f in g.inc[v];
  }

  /** add_edge changes no record but that of the old edge between s and t
      and the new one, and no degree but those of s and t. */
  lemma AddingKeeps(g: GraphState, s: int, t: int, w: int)
    requires Consistent(g) && 0 <= s < g.vertexCount && 0 <= t < g.vertexCount && s != t
    ensures var (r, e) := Adding(g, s, t, w);
      r.vertexCount == g.vertexCount && |r.degrees| == |g.degrees| == g.vertexCount &&
      (forall id :: id in g.data && !Joins(g.data, id, s, t) ==> id in r.data && r.data[id] == g.data[id]) &&
      (forall x :: 0 <= x < g.vertexCount && x != s && x != t ==> r.degrees[x] == g.degrees[x])
  {
    FoundJoined(g.data, g.inc, s, t);
    var f := Found(g.data, g.inc, s, t);
    if f != NullEdge && Weight(g.data, f) < w {
      AddingKept(g, s, t, w, f);
    } else if f != NullEdge {
      AddingReplaced(g, s, t, w, f);
      ReplacedOthers(g, s, t, w, f);
    } else {
      AddingNew(g, s, t, w);
      PlacedOthers(g, s, t, w);
    }
  }

  /** r has the terminals and the partial solution of g. */
  ghost predicate Untouched(g: GraphState, r: GraphState) {
    r.terminals == g.terminals && r.terminalMask == g.terminalMask && r.terminalCount == g.terminalCount &&
    r.partialSolution == g.partialSolution && r.partialSolutionWeight == g.partialSolutionWeight
  }

  /** remove_edge touches neither the terminals nor the partial solution. */
  lemma RemovingUntouched(g: GraphState, id: int)
    requires Consistent(g) && id in g.data && id != 0
    ensures Untouched(g, Removing(g, id)) && Removing(g, id).vertexCount == g.vertexCount
  {
    if !g.data[id].removed {
      LiveEnds(g, id);
      var r := Unlinking(g, id);
      assert r.(edgeCount := g.edgeCount, degrees := g.degrees, inc := g.inc, edgeList := g.edgeList, data := g.data) == g;
    }
  }

  /** Placing an edge touches neither the terminals nor the partial
      solution. */
  lemma PlacedUntouched(g: GraphState, s: int, t: int, w: int)
    requires Placeable(g, s, t, w)
    ensures Untouched(g, Placed(g, s, t, w).0) && Placed(g, s, t, w).0.vertexCount == g.vertexCount
  {
    var r := Placed(g, s, t, w).0;
    assert r.(inc := g.inc, degrees := g.degrees, edgeList := g.edgeList, edgeCount := g.edgeCount,
              data := g.data, nextId := g.nextId) == g;
  }

  /** add_edge touches neither the terminals nor the partial solution. */
  lemma AddingUntouched(g: GraphState, s: int, t: int, w: int)
    requires Consistent(g) && 0 <= s < g.vertexCount && 0 <= t < g.vertexCount && s != t
    ensures Untouched(g, Adding(g, s, t, w).0)
  {
    FoundJoined(g.data, g.inc, s, t);
    var f := Found(g.data, g.inc, s, t);
    if f != NullEdge && Weight(g.data, f) < w {
      AddingKept(g, s, t, w, f);
    } else if f != NullEdge {
      AddingReplaced(g, s, t, w, f);
      RemovingUntouched(g, f.id);
      PlacedUntouched(Removing(g, f.id), s, t, w);
    } else {
      AddingNew(g, s, t, w);
      PlacedUntouched(g, s, t, w);
    }
  }

  /** s and t gain an edge under add_edge, and the graph one, unless they
      were joined. */
  lemma AddingCounts(g: GraphState, s: int, t: int, w: int) returns (r: GraphState)
    requires Consistent(g) && 0 <= s < g.vertexCount && 0 <= t < g.vertexCount && s != t
    ensures r == Adding(g, s, t, w).0 && |r.degrees| == |g.degrees| == g.vertexCount
    ensures Joined(g.data, s, t) ==>
      r.degrees[s] == g.degrees[s] && r.degrees[t] == g.degrees[t] && r.edgeCount == g.edgeCount
    ensures !Joined(g.data, s, t) ==>
      r.degrees[s] == g.degrees[s] + 1 && r.degrees[t] == g.degrees[t] + 1 && r.edgeCount == g.edgeCount + 1
  {
    r := Adding(g, s, t, w).0;
    FoundJoined(g.data, g.inc, s, t);
    var f := Found(g.data, g.inc, s, t);
    if f != NullEdge && Weight(g.data, f) < w {
      AddingKept(g, s, t, w, f);
    } else if f != NullEdge {
      AddingReplaced(g, s, t, w, f);
      var g1 := Removing(g, f.id);
      UnjoinCounts(g, s, t, f, g1);
      PlacedCounts(g1, s, t, w, r);
    } else {
      AddingNew(g, s, t, w);
      PlacedCounts(g, s, t, w, r);
    }
  }

  /** Placing an edge between s and t adds one edge to s, one to t and one
      to the graph. */
  lemma PlacedCounts(g: GraphState, s: int, t: int, w: int, r: GraphState)
    requires Consistent(g) && 0 <= s < g.vertexCount && 0 <= t < g.vertexCount && s != t && !Joined(g.data, s, t)
    requires Placeable(g, s, t, w) && r == Placed(g, s, t, w).0
    ensures |r.degrees| == |g.degrees| && r.edgeCount == g.edgeCount + 1
    ensures r.degrees[s] == g.degrees[s] + 1 && r.degrees[t] == g.degrees[t] + 1
  {
    PlacedOk(g, s, t, w);
  }

  /** Removing the edge f between s and t takes one edge from s, one from
      t and one from the graph. */
  lemma UnjoinCounts(g: GraphState, s: int, t: int, f: Edge, g1: GraphState)
    requires Consistent(g) && Joins(g.data, f.id, s, t) && g1 == Removing(g, f.id)
    ensures |g1.degrees| == |g.degrees| && g1.edgeCount == g.edgeCount - 1
    ensures g1.degrees[s] == g.degrees[s] - 1 && g1.degrees[t] == g.degrees[t] - 1
  {
    RemovingEffect(g, f.id);
    if g.data[f.id].s == s {
      assert g.data[f.id].t == t;
    } else {
      assert g.data[f.id].s == t && g.data[f.id].t == s;
    }
  }

  /** Replacing the edge f between s and t keeps every other record and
      every degree but those of s and t. */
  lemma ReplacedOthers(g: GraphState, s: int, t: int, w: int, f: Edge)
    requires Consistent(g) && 0 <= s < g.vertexCount && 0 <= t < g.vertexCount && s != t
    requires Joins(g.data, f.id, s, t)
    requires Consistent(Removing(g, f.id)) && !Joined(Removing(g, f.id).data, s, t)
    ensures Placeable(Removing(g, f.id), s, t, w) && var r := Placed(Removing(g, f.id), s, t, w).0;
      r.vertexCount == g.vertexCount && |r.degrees| == |g.degrees| == g.vertexCount &&
      (forall id :: id in g.data && !Joins(g.data, id, s, t) ==> id in r.data && r.data[id] == g.data[id]) &&
      (forall x :: 0 <= x < g.vertexCount && x != s && x != t ==> r.degrees[x] == g.degrees[x])
  {
    RemovedOthers(g, f.id);
    var g1 := Removing(g, f.id);
    PlacedOthers(g1, s, t, w);
    var r := Placed(g1, s, t, w).0;
    forall id | id in g.data && !Joins(g.data, id, s, t) ensures id in r.data && r.data[id] == g.data[id] {
      assert id != f.id && g1.data[id] == g.data[id];
    }
    forall x | 0 <= x < g.vertexCount && x != s && x != t ensures r.degrees[x] == g.degrees[x] {
      assert x != g.data[f.id].s && x != g.data[f.id].t;
      assert g1.degrees[x] == g.degrees[x];
    }
  }

  /** Placing a new edge between s and t keeps every record and every
      degree but those of s and t. */
  lemma PlacedOthers(g: GraphState, s: int, t: int, w: int)
    requires Consistent(g) && 0 <= s < g.vertexCount && 0 <= t < g.vertexCount && s != t && !Joined(g.data, s, t)
    ensures Placeable(g, s, t, w) && var r := Placed(g, s, t, w).0;
      r.vertexCount == g.vertexCount && |r.degrees| == |g.degrees| &&
      (forall id :: id in g.data ==> id in r.data && r.data[id] == g.data[id]) &&
      (forall x :: 0 <= x < |g.degrees| && x != s && x != t ==> r.degrees[x] == g.degrees[x])
  {
    PlacedOk(g, s, t, w);
  }

  /** Removing a live edge keeps every other record and every degree but
      those of its endpoints. */
  lemma RemovedOthers(g: GraphState, id: int)
    requires Consistent(g) && Live(g.data, id)
    ensures var r := Removing(g, id);
      r.vertexCount == g.vertexCount && |r.degrees| == |g.degrees| &&
      (forall k :: k in g.data && k != id ==> k in r.data && r.data[k] == g.data[k]) &&
      (forall x :: 0 <= x < |g.degrees| && x != g.data[id].s && x != g.data[id].t ==> r.degrees[x] == g.degrees[x])
  {
    RemovingEffect(g, id);
  }

  /** The history update of suppress_vertex: the new edge n takes the
      histories of a and b, which are cleared. */
  function Cleared(g: GraphState, n: int, a: int, b: int): (r: GraphState)
    requires n in g.data && a in g.data && b in g.data
  {
    Historied(Historied(Historied(g, n, g.data[a].history + g.data[b].history), a, []), b, [])
  }

  lemma ClearedOk(g: GraphState, n: int, a: int, b: int)
    requires Consistent(g) && n in g.data && a in g.data && b in g.data && n != 0 && a != 0 && b != 0
    requires n != a && n != b && a != b
    ensures Consistent(Cleared(g, n, a, b)) && SameShape(g.data, Cleared(g, n, a, b).data)
    ensures var D := Cleared(g, n, a, b).data;
      D[n].history == g.data[a].history + g.data[b].history && D[a].history == [] && D[b].history == []
  {
    var g1 := Historied(g, n, g.data[a].history + g.data[b].history);
    HistoriedOk(g, n, g.data[a].history + g.data[b].history);
    HistoriedOk(g1, a, []);
    HistoriedOk(Historied(g1, a, []), b, []);
  }

  /** The names suppress_vertex(v) gives: e and f are the two entries of
      v's list, s and t their targets and w the sum of their weights. */
  ghost predicate SuppressNames(g: GraphState, v: int, e: Edge, f: Edge, s: int, t: int, w: int) {
    Suppressible(g, v) && |g.inc[v]| == 2 && e == g.inc[v][0] && f == g.inc[v][1] &&
    e.id in g.data && f.id in g.data && s == Target(g.data, e) && t == Target(g.data, f) &&
    w == g.data[e.id].weight + g.data[f.id].weight
  }

  /** suppress_vertex(v): add an s-t edge of weight w; when the edge
      returned has an empty history, which a new edge has, it takes the
      histories of e and f, which are cleared; then e and f are removed. */
  function Suppressed(g: GraphState, v: int, e: Edge, f: Edge, s: int, t: int, w: int): (r: GraphState)
    requires SuppressNames(g, v, e, f, s, t, w)
  {
    SuppressReady(g, v, e, f);
    SuppressMiddle(g, v, e, f, s, t, w);
    var a := Adding(g, s, t, w);
    Unbranched(a.0, a.1, e, f)
  }

  /** The end of suppress_vertex, once the s-t edge n is added: the history
      update, then the removal of e and f. */
  function Unbranched(g1: GraphState, n: Edge, e: Edge, f: Edge): (r: GraphState)
    requires Consistent(g1) && Live(g1.data, n.id) && Live(g1.data, e.id) && Live(g1.data, f.id)
    requires n.id != e.id && n.id != f.id && e.id != f.id
  {
    var g2 := if g1.data[n.id].history == [] then Cleared(g1, n.id, e.id, f.id) else g1;
    SuppressRemovable(g1, n, e, f, g2);
    RemovingOk(g2, e.id);
    Removing(Removing(g2, e.id), f.id)
  }

  /** After the add_edge of suppress_vertex: e and f are as they were, and
      the edge returned joins s and t and is neither of them. */
  lemma SuppressMiddle(g: GraphState, v: int, e: Edge, f: Edge, s: int, t: int, w: int)
    requires Suppressible(g, v) && |g.inc[v]| == 2 && e == g.inc[v][0] && f == g.inc[v][1]
    requires 0 <= s < g.vertexCount && 0 <= t < g.vertexCount && s != t
    requires e.id in g.data && f.id in g.data && s == Target(g.data, e) && t == Target(g.data, f)
    requires w == g.data[e.id].weight + g.data[f.id].weight
    ensures var a := Adding(g, s, t, w);
      Consistent(a.0) && Joins(a.0.data, a.1.id, s, t) && e.id in a.0.data && f.id in a.0.data &&
      a.0.data[e.id] == g.data[e.id] && a.0.data[f.id] == g.data[f.id] && a.1.id != e.id && a.1.id != f.id &&
      a.0.vertexCount == g.vertexCount && |a.0.degrees| == g.vertexCount && a.0.degrees[v] == 2
  {
    SuppressApart(g, v, e, f, s, t);
    SuppressKept(g, v, e, f, s, t, w);
    SuppressJoined(g, s, t, w);
    var a := Adding(g, s, t, w);
    assert a.0.data[a.1.id].s != v && a.0.data[a.1.id].t != v;
  }

  lemma SuppressJoined(g: GraphState, s: int, t: int, w: int)
    requires Consistent(g) && 0 <= s < g.vertexCount && 0 <= t < g.vertexCount && s != t
    ensures Consistent(Adding(g, s, t, w).0) && Joins(Adding(g, s, t, w).0.data, Adding(g, s, t, w).1.id, s, t)
  {
    AddingOk(g, s, t, w);
  }

  /** add_edge in suppress_vertex keeps e, f and the degree of v. */
  lemma SuppressKept(g: GraphState, v: int, e: Edge, f: Edge, s: int, t: int, w: int)
    requires Consistent(g) && 0 <= s < g.vertexCount && 0 <= t < g.vertexCount && s != t && 0 <= v < g.vertexCount
    requires s != v && t != v && e.id in g.data && f.id in g.data && !Joins(g.data, e.id, s, t) && !Joins(g.data, f.id, s, t)
    ensures var a := Adding(g, s, t, w);
      e.id in a.0.data && f.id in a.0.data && a.0.data[e.id] == g.data[e.id] && a.0.data[f.id] == g.data[f.id] &&
      a.0.vertexCount == g.vertexCount && |a.0.degrees| == g.vertexCount && a.0.degrees[v] == g.degrees[v]
  {
    AddingKeeps(g, s, t, w);
  }

  /** Neither e nor f joins s and t: each has v as an end. */
  lemma SuppressApart(g: GraphState, v: int, e: Edge, f: Edge, s: int, t: int)
    requires Suppressible(g, v) && |g.inc[v]| == 2 && e == g.inc[v][0] && f == g.inc[v][1]
    requires e.id in g.data && f.id in g.data && s == Target(g.data, e) && t == Target(g.data, f)
    ensures s != v && t != v && Live(g.data, e.id) && Live(g.data, f.id)
    ensures g.data[e.id].s == v || g.data[e.id].t == v
    ensures g.data[f.id].s == v || g.data[f.id].t == v
    ensures !Joins(g.data, e.id, s, t) && !Joins(g.data, f.id, s, t)
  {
    SuppressReady(g, v, e, f);
  }

  /** The state before the removals of suppress_vertex is consistent and
      still has e and f as they were, but for their histories. */
  lemma SuppressRemovable(g1: GraphState, n: Edge, e: Edge, f: Edge, g2: GraphState)
    requires Consistent(g1) && Live(g1.data, n.id) && Live(g1.data, e.id) && Live(g1.data, f.id)
    requires n.id != e.id && n.id != f.id && e.id != f.id
    requires g2 == if g1.data[n.id].history == [] then Cleared(g1, n.id, e.id, f.id) else g1
    ensures Consistent(g2) && SameShape(g1.data, g2.data) && e.id in g2.data && f.id in g2.data
    ensures g2 == g1.(data := g2.data)
  {
    if g1.data[n.id].history == [] {
      ClearedOk(g1, n.id, e.id, f.id);
    }
  }

  /** What the history update of suppress_vertex leaves: the invariant
      and the shape of every edge kept; the new edge n takes the histories
      of e and f, which are cleared, when its own was empty. */
  ghost predicate ClearedFrom(g1: GraphState, n: Edge, e: Edge, f: Edge, g2: GraphState)
    requires n.id in g1.data && e.id in g1.data && f.id in g1.data
  {
    var bare := g1.data[n.id].history == [];
    Consistent(g2) && SameShape(g1.data, g2.data) && g2 == g1.(data := g2.data) &&
    g2.data[n.id].history == (if bare then g1.data[e.id].history + g1.data[f.id].history else g1.data[n.id].history) &&
    g2.data[e.id].history == (if bare then [] else g1.data[e.id].history) &&
    g2.data[f.id].history == (if bare then [] else g1.data[f.id].history) &&
    forall x :: x in g1.data && x != n.id && x != e.id && x != f.id ==> g2.data[x] == g1.data[x]
  }

  lemma ClearStep(g1: GraphState, n: Edge, e: Edge, f: Edge, g2: GraphState)
    requires Consistent(g1) && Live(g1.data, n.id) && Live(g1.data, e.id) && Live(g1.data, f.id)
    requires n.id != e.id && n.id != f.id && e.id != f.id
    requires g2 == if g1.data[n.id].history == [] then Cleared(g1, n.id, e.id, f.id) else g1
    ensures ClearedFrom(g1, n, e, f, g2)
    ensures Live(g2.data, e.id) && Live(g2.data, f.id) && Live(g2.data, n.id)
    ensures g2.data[e.id].s == g1.data[e.id].s && g2.data[e.id].t == g1.data[e.id].t
    ensures g2.data[f.id].s == g1.data[f.id].s && g2.data[f.id].t == g1.data[f.id].t
  {
    SuppressRemovable(g1, n, e, f, g2);
    if g1.data[n.id].history == [] {
      ClearedOk(g1, n.id, e.id, f.id);
      ClearedOthers(g1, n.id, e.id, f.id);
    }
  }

  /** The history update touches no record but those of n, a and b. */
  lemma ClearedOthers(g: GraphState, n: int, a: int, b: int)
    requires n in g.data && a in g.data && b in g.data
    ensures forall x :: x in g.data && x != n && x != a && x != b ==> Cleared(g, n, a, b).data[x] == g.data[x]
  {
  }

  /** Removing a live edge at v lowers the degree of v by one. */
  lemma RemoveOneAt(g: GraphState, e: Edge, v: int, f: Edge) returns (r: GraphState)
    requires Consistent(g) && Live(g.data, e.id) && 0 <= v < g.vertexCount
    requires g.data[e.id].s == v || g.data[e.id].t == v
    ensures r == Removing(g, e.id) && Consistent(r) && r.vertexCount == g.vertexCount
    ensures |r.degrees| == g.vertexCount && r.degrees[v] == g.degrees[v] - 1
    ensures r.data == Dead(g.data, e.id) && Untouched(g, r) && r.edgeCount == g.edgeCount - 1
    ensures f.id in g.data && f.id != e.id ==> f.id in r.data && r.data[f.id] == g.data[f.id]
  {
    RemovingUntouched(g, e.id);
    RemovingOk(g, e.id);
    RemovingEffect(g, e.id);
    LiveEnds(g, e.id);
    r := Removing(g, e.id);
  }

  /** The end of suppress_vertex from the state g1 that add_edge returned
      with the new edge n: g2 is the state after the history update, g3
      the state after the removal of e and r the final state. */
  lemma SuppressTail(g1: GraphState, n: Edge, e: Edge, f: Edge, v: int)
      returns (g2: GraphState, g3: GraphState, r: GraphState)
    requires Consistent(g1) && Live(g1.data, n.id) && Live(g1.data, e.id) && Live(g1.data, f.id)
    requires n.id != e.id && n.id != f.id && e.id != f.id
    requires 0 <= v < g1.vertexCount && g1.degrees[v] == 2
    requires g1.data[e.id].s == v || g1.data[e.id].t == v
    requires g1.data[f.id].s == v || g1.data[f.id].t == v
    ensures r == Unbranched(g1, n, e, f)
    ensures g2 == if g1.data[n.id].history == [] then Cleared(g1, n.id, e.id, f.id) else g1
    ensures ClearedFrom(g1, n, e, f, g2) && Live(g2.data, e.id) && Live(g2.data, f.id)
    ensures g3 == Removing(g2, e.id) && Consistent(g3) && g3.data == Dead(g2.data, e.id) && Live(g3.data, f.id)
    ensures r == Removing(g3, f.id) && Consistent(r) && r.data == Dead(g3.data, f.id) && r.vertexCount == g1.vertexCount
    ensures r.degrees[v] == 0 && r.inc[v] == []
  {
    g2 := if g1.data[n.id].history == [] then Cleared(g1, n.id, e.id, f.id) else g1;
    ClearStep(g1, n, e, f, g2);
    g3, r := RemoveBoth(g2, e, f, v);
  }

  /** Removing the two edges e and f at v, of degree 2, leaves v without
      edges. */
  lemma RemoveBoth(g2: GraphState, e: Edge, f: Edge, v: int) returns (g3: GraphState, r: GraphState)
    requires Consistent(g2) && Live(g2.data, e.id) && Live(g2.data, f.id) && e.id != f.id
    requires 0 <= v < g2.vertexCount && g2.degrees[v] == 2
    requires g2.data[e.id].s == v || g2.data[e.id].t == v
    requires g2.data[f.id].s == v || g2.data[f.id].t == v
    ensures g3 == Removing(g2, e.id) && Consistent(g3) && g3.data == Dead(g2.data, e.id) && Live(g3.data, f.id)
    ensures r == Removing(g3, f.id) && Consistent(r) && r.data == Dead(g3.data, f.id)
    ensures r.vertexCount == g2.vertexCount && r.degrees[v] == 0 && r.inc[v] == []
  {
    g3 := RemoveOneAt(g2, e, v, f);
    r := RemoveOneAt(g3, f, v, e);
    ZeroDegree(r, v);
  }

  /** A vertex of degree 0 has no edge in its list. */
  lemma ZeroDegree(g: GraphState, v: int)
    requires Consistent(g) && 0 <= v < g.vertexCount && g.degrees[v] == 0
    ensures g.inc[v] == []
  {
  }

  /** The states suppress_vertex goes through, named: a is what add_edge
      returns, g2 the state after the history update, g3 the state after
      the removal of e and r the final state. */
  lemma SuppressSteps(g: GraphState, v: int, e: Edge, f: Edge, s: int, t: int, w: int)
      returns (a: (GraphState, Edge), g2: GraphState, g3: GraphState, r: GraphState)
    requires SuppressNames(g, v, e, f, s, t, w)
    ensures r == Suppressed(g, v, e, f, s, t, w)
    ensures 0 <= s < g.vertexCount && 0 <= t < g.vertexCount && s != t && s != v && t != v
    ensures !Joins(g.data, e.id, s, t) && !Joins(g.data, f.id, s, t)
    ensures a == Adding(g, s, t, w) && Consistent(a.0) && Joins(a.0.data, a.1.id, s, t)
    ensures Live(a.0.data, e.id) && Live(a.0.data, f.id) && a.1.id != e.id && a.1.id != f.id && e.id != f.id
    ensures a.0.data[e.id] == g.data[e.id] && a.0.data[f.id] == g.data[f.id]
    ensures g2 == if a.0.data[a.1.id].history == [] then Cleared(a.0, a.1.id, e.id, f.id) else a.0
    ensures ClearedFrom(a.0, a.1, e, f, g2) && Live(g2.data, e.id) && Live(g2.data, f.id)
    ensures g3 == Removing(g2, e.id) && Consistent(g3) && g3.data == Dead(g2.data, e.id) && Live(g3.data, f.id)
    ensures r == Removing(g3, f.id) && Consistent(r) && r.data == Dead(g3.data, f.id) && r.vertexCount == g.vertexCount
    ensures r.degrees[v] == 0 && r.inc[v] == []
  {
    SuppressReady(g, v, e, f);
    SuppressApart(g, v, e, f, s, t);
    SuppressMiddle(g, v, e, f, s, t, w);
    a := Adding(g, s, t, w);
    g2, g3, r := SuppressTail(a.0, a.1, e, f, v);
  }

  /** Removing e, between v and s, and then f, between v and t, takes one
      edge from s, one from t and two from the graph, and changes no other
      degree but that of v. */
  lemma RemoveBothCounts(g2: GraphState, e: Edge, f: Edge, v: int, s: int, t: int, g3: GraphState, r: GraphState)
    requires Consistent(g2) && Joins(g2.data, e.id, v, s) && Joins(g2.data, f.id, v, t) && e.id != f.id
    requires v != s && v != t && s != t
    requires g3 == Removing(g2, e.id) && Consistent(g3) && r == Removing(g3, f.id)
    ensures Untouched(g2, r) && r.edgeCount == g2.edgeCount - 2 && |r.degrees| == |g2.degrees|
    ensures r.degrees[s] == g2.degrees[s] - 1 && r.degrees[t] == g2.degrees[t] - 1
    ensures forall x :: 0 <= x < |g2.degrees| && x != v && x != s && x != t ==> r.degrees[x] == g2.degrees[x]
  {
    UnjoinCounts(g2, v, s, e, g3);
    RemovedOthers(g2, e.id);
    RemovingUntouched(g2, e.id);
    assert Joins(g3.data, f.id, v, t) by {
      assert g3.data[f.id] == g2.data[f.id];
    }
    UnjoinCounts(g3, v, t, f, r);
    RemovedOthers(g3, f.id);
    RemovingUntouched(g3, f.id);
  }

  /** suppress_vertex(v) keeps the invariant, the terminals and the partial
      solution; it leaves v without edges and e and f removed; s and t
      lose an edge, and the graph one more, when they were joined already;
      no other degree changes. */
  lemma SuppressedShape(g: GraphState, v: int, e: Edge, f: Edge, s: int, t: int, w: int, r: GraphState)
    requires SuppressNames(g, v, e, f, s, t, w) && r == Suppressed(g, v, e, f, s, t, w)
    ensures Consistent(r) && r.vertexCount == g.vertexCount && Untouched(g, r)
    ensures r.inc[v] == [] && r.degrees[v] == 0 && !Live(r.data, e.id) && !Live(r.data, f.id)
    ensures Joined(g.data, s, t) ==>
      r.degrees[s] == g.degrees[s] - 1 && r.degrees[t] == g.degrees[t] - 1 && r.edgeCount == g.edgeCount - 2
    ensures !Joined(g.data, s, t) ==>
      r.degrees[s] == g.degrees[s] && r.degrees[t] == g.degrees[t] && r.edgeCount == g.edgeCount - 1
    ensures forall x :: 0 <= x < g.vertexCount && x != v && x != s && x != t ==> r.degrees[x] == g.degrees[x]
  {
    var a, g2, g3, r' := SuppressSteps(g, v, e, f, s, t, w);
    SuppressReady(g, v, e, f);
    AddingUntouched(g, s, t, w);
    var g1 := AddingCounts(g, s, t, w);
    AddingKeeps(g, s, t, w);
    assert g2.degrees == g1.degrees && g2.edgeCount == g1.edgeCount && Untouched(g1, g2);
    assert Joins(g2.data, e.id, v, s) && Joins(g2.data, f.id, v, t) by {
      assert g2.data[e.id].s == g.data[e.id].s && g2.data[e.id].t == g.data[e.id].t;
      assert g2.data[f.id].s == g.data[f.id].s && g2.data[f.id].t == g.data[f.id].t;
    }
    RemoveBothCounts(g2, e, f, v, s, t, g3, r');
  }

  /** The history update, from D1 to D2, and the removal of e and f,
      neither between s and t, keep which edges join s and t, every weight,
      and every record but those of n, e and f; histories survive the
      removals. */
  lemma TailKeeps(D1: Records, n: int, e: int, f: int, D2: Records, D3: Records, D4: Records, s: int, t: int)
    requires SameShape(D1, D2) && n in D1 && e in D1 && f in D1
    requires forall x :: x in D1 && x != n && x != e && x != f ==> D2[x] == D1[x]
    requires D3 == Dead(D2, e) && D4 == Dead(D3, f)
    requires !Joins(D1, e, s, t) && !Joins(D1, f, s, t) && e != f
    ensures forall id :: Joins(D4, id, s, t) <==> Joins(D1, id, s, t)
    ensures forall id :: id in D1 ==> id in D4 && D4[id].weight == D1[id].weight
    ensures forall id :: id in D1 && id != n && id != e && id != f ==> D4[id] == D1[id]
    ensures !Live(D4, e) && !Live(D4, f)
    ensures D4[n].history == D2[n].history && D4[e].history == D2[e].history && D4[f].history == D2[f].history
  {
    forall id ensures Joins(D4, id, s, t) <==> Joins(D1, id, s, t) {
      if id in D1 && id != e && id != f {
        assert D4[id] == D2[id];
      }
    }
  }

  /** After suppress_vertex(v) exactly one edge n joins s and t. It is the
      old s-t edge when that was lighter than w, keeping its weight;
      otherwise, or when s and t were not joined, it is a new edge of
      weight w numbered nextId. */
  lemma SuppressedJoin(g: GraphState, v: int, e: Edge, f: Edge, s: int, t: int, w: int, r: GraphState) returns (n: Edge)
    requires SuppressNames(g, v, e, f, s, t, w) && r == Suppressed(g, v, e, f, s, t, w)
    ensures Joins(r.data, n.id, s, t) && forall id :: Joins(r.data, id, s, t) ==> id == n.id
    ensures forall id :: Joins(g.data, id, s, t) ==>
      (g.data[id].weight < w <==> n.id == id) &&
      r.data[n.id].weight == if g.data[id].weight < w then g.data[id].weight else w
    ensures !Joined(g.data, s, t) ==> n.id == g.nextId && r.data[n.id].weight == w
  {
    var a, g2, g3, r' := SuppressSteps(g, v, e, f, s, t, w);
    n := a.1;
    AddingUnique(g, s, t, w);
    AddingWeight(g, s, t, w);
    assert !Joins(a.0.data, e.id, s, t) && !Joins(a.0.data, f.id, s, t);
    TailKeeps(a.0.data, n.id, e.id, f.id, g2.data, g3.data, r.data, s, t);
    assert r.data[n.id].weight == Weight(a.0.data, n);
  }

  /** The history rule of suppress_vertex: the edge joining s and t keeps
      its history when it is an old edge with one, and e and f keep
      theirs; otherwise it takes the histories of e and then f, which are
      cleared. No record but those of e, f and the old s-t edge changes. */
  lemma SuppressedHistory(g: GraphState, v: int, e: Edge, f: Edge, s: int, t: int, w: int, r: GraphState)
    requires SuppressNames(g, v, e, f, s, t, w) && r == Suppressed(g, v, e, f, s, t, w)
    ensures forall id :: Joins(r.data, id, s, t) ==>
      if id in g.data && g.data[id].history != [] then
        r.data[id].history == g.data[id].history &&
        r.data[e.id].history == g.data[e.id].history && r.data[f.id].history == g.data[f.id].history
      else
        r.data[id].history == g.data[e.id].history + g.data[f.id].history &&
        r.data[e.id].history == [] && r.data[f.id].history == []
    ensures forall x :: x in g.data && x != e.id && x != f.id && !Joins(g.data, x, s, t) ==>
      x in r.data && r.data[x] == g.data[x]
  {
    var a, g2, g3, r' := SuppressSteps(g, v, e, f, s, t, w);
    var n := a.1;
    AddingUnique(g, s, t, w);
    AddingWeight(g, s, t, w);
    AddingKeeps(g, s, t, w);
    assert !Joins(a.0.data, e.id, s, t) && !Joins(a.0.data, f.id, s, t);
    TailKeeps(a.0.data, n.id, e.id, f.id, g2.data, g3.data, r.data, s, t);
    if a.0 == g {
      assert n.id in g.data && a.0.data[n.id] == g.data[n.id];
    } else {
      assert n.id !in g.data && a.0.data[n.id].history == [];
    }
    forall x | x in g.data && x != e.id && x != f.id && !Joins(g.data, x, s, t) ensures x in r.data && r.data[x] == g.data[x] {
      assert x != n.id;
    }
  }
}
