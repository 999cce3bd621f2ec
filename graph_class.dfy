/** src/graph.hpp: struct Graph as an object. Its members are kept
    together in one GraphState record, which each method replaces; every
    method is proved against the function on GraphState that specifies it. */
module GraphObject {
  import opened Incidence
  import opened GraphRep
  import opened Contraction
  import opened Graphs
  import opened GraphMoves
  import opened GraphOps

  class Graph {
    /** The members of the struct. */
    var st: GraphState

    ghost predicate Valid()
      reads this
    {
      Consistent(st)
    }

    /** Graph(vertex_count). */
    constructor (n: int)
      requires n >= 0
      ensures st == Initial(n)
      ensures Valid()
    {
      st := Initial(n);
    }

    /** is_terminal(v). */
    function IsTerminal(v: int): (b: bool)
      reads this
      requires Valid() && 0 <= v < st.vertexCount
      ensures b <==> v in st.terminals
    {
      st.terminalMask[v]
    }

    /** mark_terminal(v). */
    method MarkTerminal(v: int)
      requires Valid() && 0 <= v < st.vertexCount
      modifies this
      ensures st == Marked(old(st), v)
      ensures Valid()
    {
      if IsTerminal(v) {
        return;
      }
      var g := st;
      st := g.(terminals := g.terminals + [v], terminalMask := g.terminalMask[v := true],
               terminalCount := g.terminalCount + 1);
    }

    /** unmark_terminal(v). */
    method UnmarkTerminal(v: int)
      requires Valid() && 0 <= v < st.vertexCount
      modifies this
      ensures st == Unmarked(old(st), v)
      ensures Valid()
    {
      if !IsTerminal(v) {
        return;
      }
      var g := st;
      st := g.(terminals := RemoveValue(g.terminals, v), terminalMask := g.terminalMask[v := false],
               terminalCount := g.terminalCount - 1);
    }

    /** find_edge(s, t): walk s's list for an entry with target t. */
    method FindEdge(s: int, t: int) returns (e: Edge)
      requires Valid() && 0 <= s < st.vertexCount
      ensures Known(st.data, st.inc[s]) && e == Found(st.data, st.inc, s, t)
      ensures e == NullEdge <==> !Joined(st.data, s, t)
      ensures e != NullEdge ==> e in st.inc[s] && Live(st.data, e.id) && Source(st.data, e) == s && Target(st.data, e) == t
    {
      var D, l := st.data, st.inc[s];
      FoundJoined(D, st.inc, s, t);
      var i := 0;
      while i < |l|
        invariant 0 <= i <= |l|
        invariant forall k :: 0 <= k < i ==> Target(D, l[k]) != t
      {
        if Target(D, l[i]) == t {
          IndexOfTargetIs(D, l, t, i);
          return l[i];
        }
        i := i + 1;
      }
      IndexOfTargetIs(D, l, t, i);
      return NullEdge;
    }

    /** remove_edge(e). */
    method RemoveEdge(e: Edge)
      requires Valid() && e.id in st.data && e.id != 0
      modifies this
      ensures st == Removing(old(st), e.id)
      ensures Valid()
    {
      var g := st;
      RemovingOk(g, e.id);
      if g.data[e.id].removed {
        return;
      }
      LiveEnds(g, e.id);
      var D := g.data;
      var s, t := D[e.id].s, D[e.id].t;
      var ls := FindAndRemove(D, g.inc[s], t);
      var lt := FindAndRemove(D, g.inc[t], s);
      var deg := g.degrees[s := g.degrees[s] - 1][t := g.degrees[t] - 1];
      UnlinkingIs(g, e.id, s, t, ls, lt, deg);
      st := g.(inc := g.inc[s := ls][t := lt], edgeList := WithoutId(g.edgeList, e.id), data := Dead(D, e.id),
               degrees := deg, edgeCount := g.edgeCount - 1);
    }

    /** add_edge(s, t, weight). */
    method AddEdge(s: int, t: int, w: int) returns (e: Edge)
      requires Valid() && 0 <= s < st.vertexCount && 0 <= t < st.vertexCount && s != t
      modifies this
      ensures (st, e) == Adding(old(st), s, t, w)
      ensures Valid()
    {
      ghost var g0 := st;
      AddingOk(g0, s, t, w);
      var oldE := FindEdge(s, t);
      if oldE != NullEdge {
        if Weight(st.data, oldE) < w {
          AddingKept(g0, s, t, w, oldE);
          return oldE;
        }
        AddingReplaced(g0, s, t, w, oldE);
        RemoveEdge(oldE);
      } else {
        AddingNew(g0, s, t, w);
      }
      e := Place(s, t, w);
    }

    /** The second half of add_edge, once s and t are not joined: a new
        edge numbered next_id at the front of edge_list and in both lists. */
    method Place(s: int, t: int, w: int) returns (e: Edge)
      requires Valid() && 0 <= s < st.vertexCount && 0 <= t < st.vertexCount && s != t
      requires !Joined(st.data, s, t)
      modifies this
      ensures Placeable(old(st), s, t, w)
      ensures st == Placed(old(st), s, t, w).0 && e == Placed(old(st), s, t, w).1
      ensures Valid()
    {
      var g := st;
      PlaceKeeps(g, s, t, w);
      var id := g.nextId;
      var D := Born(g.data, id, s, t, w);
      var ls := InsSorted(D, Edge(id, false), g.inc[s]);
      var lt := InsSorted(D, Edge(id, true), g.inc[t]);
      var deg := g.degrees[s := g.degrees[s] + 1][t := g.degrees[t] + 1];
      PlacingIs(g, s, t, w, ls, lt, deg);
      st := g.(data := D, nextId := id + 1, edgeList := [Edge(id, false)] + g.edgeList,
               edgeCount := g.edgeCount + 1, inc := g.inc[s := ls][t := lt], degrees := deg);
      e := Edge(id, false);
      assert st == Placed(g, s, t, w).0;
    }

    /** _change_edge_target(e, nt): rotate e to nt's place in its source's
        list, then renumber its target end. */
    method ChangeEdgeTarget(e: Edge, nt: int)
      requires Retargetable(st, e)
      modifies this
      ensures st == Retargeting(old(st), e, nt)
    {
      var g := st;
      var D, x := g.data, Source(g.data, e);
      var l := FindAndRemove(D, g.inc[x], Target(D, e));
      var D' := Retargeted(D, e, nt);
      RetargetedKnown(D, g.inc[x], e, nt, Target(D, e));
      l := InsSorted(D', e, l);
      st := g.(data := D', inc := g.inc[x := l]);
    }

    /** contract_edge(e). */
    method ContractEdge(e: Edge)
      requires Valid() && e.id in st.data && e.id != 0
      modifies this
      ensures old(st).data[e.id].removed ==> st == old(st)
      ensures !old(st).data[e.id].removed ==> ContractsTo(old(st), e, st)
      ensures Valid()
    {
      if st.data[e.id].removed {
        return;
      }
      ghost var g := st;
      ContractReady(g, e);
      var s, t := Source(st.data, e), Target(st.data, e);
      if IsTerminal(t) {
        s, t := t, s;
      }
      RemoveEdge(e);
      ghost var u := st;
      ghost var m := MergeEnds(s, t);
      ghost var g7 := st;
      if IsTerminal(s) && IsTerminal(t) {
        UnmarkTerminal(t);
      }
      ContractsFrom(g, e, u, m, g7, st);
    }

    /** buy_edge(e): false for a removed edge, which changes nothing;
        otherwise e joins the partial solution, its weight is added, and e
        is contracted. */
    method BuyEdge(e: Edge) returns (b: bool)
      requires Valid() && e.id in st.data && e.id != 0
      modifies this
      ensures b == !old(st).data[e.id].removed
      ensures !b ==> st == old(st)
      ensures b ==> BuysTo(old(st), e, st)
      ensures Valid()
    {
      if st.data[e.id].removed {
        return false;
      }
      ghost var g := st;
      BuyingOk(g, e);
      st := st.(partialSolution := st.partialSolution + [e],
                partialSolutionWeight := st.partialSolutionWeight + Weight(st.data, e));
      ContractEdge(e);
      b := true;
    }

    /** add_edge(s, t, weight, hist): add_edge, then a returned edge with
        an empty history, which a new edge has, takes hist. */
    method AddEdgeWithHistory(s: int, t: int, w: int, h: seq<(int, int)>) returns (e: Edge)
      requires Valid() && 0 <= s < st.vertexCount && 0 <= t < st.vertexCount && s != t
      modifies this
      ensures st == AddingWith(old(st), s, t, w, h).0 && e == AddingWith(old(st), s, t, w, h).1
      ensures Valid()
    {
      ghost var g := st;
      AddingOk(g, s, t, w);
      e := AddEdge(s, t, w);
      if st.data[e.id].history == [] {
        HistoriedOk(st, e.id, h);
        st := st.(data := st.data[e.id := st.data[e.id].(history := h)]);
      }
    }

    /** add_edge(s, t, weight, orig_s, orig_t): the history of a new edge is
        the one original edge (orig_s, orig_t). */
    method AddEdgeWithOrigin(s: int, t: int, w: int, os: int, ot: int) returns (e: Edge)
      requires Valid() && 0 <= s < st.vertexCount && 0 <= t < st.vertexCount && s != t
      modifies this
      ensures st == AddingWith(old(st), s, t, w, [(os, ot)]).0 && e == AddingWith(old(st), s, t, w, [(os, ot)]).1
      ensures Valid()
    {
      e := AddEdgeWithHistory(s, t, w, [(os, ot)]);
    }

    /** suppress_vertex(v) for a non-terminal v of degree 2: the two entries
        e and f of its list, towards s and t, become one s-t edge of weight
        w(e) + w(f). The names the source gives are returned as ghosts. */
    method SuppressVertex(v: int) returns (ghost e: Edge, ghost f: Edge, ghost s: int, ghost t: int, ghost w: int)
      requires Valid() && Suppressible(st, v)
      modifies this
      ensures SuppressNames(old(st), v, e, f, s, t, w)
      ensures st == Suppressed(old(st), v, e, f, s, t, w)
      ensures Valid()
    {
      ghost var g := st;
      SuppressTwo(g, v);
      var e0, f0 := st.inc[v][0], st.inc[v][1];
      SuppressReady(g, v, e0, f0);
      var s0, t0 := Target(st.data, e0), Target(st.data, f0);
      var w0 := Weight(st.data, e0) + Weight(st.data, f0);
      e, f, s, t, w := e0, f0, s0, t0, w0;
      ghost var a, g2, g3, r := SuppressSteps(g, v, e, f, s, t, w);
      var n := AddEdge(s0, t0, w0);
      assert st == a.0 && n == a.1;
      if st.data[n.id].history == [] {
        var hist := st.data[e0.id].history + st.data[f0.id].history;
        st := st.(data := st.data[n.id := st.data[n.id].(history := hist)]);
        st := st.(data := st.data[e0.id := st.data[e0.id].(history := [])]);
        st := st.(data := st.data[f0.id := st.data[f0.id].(history := [])]);
      }
      assert st == g2;
      RemoveEdge(e0);
      RemoveEdge(f0);
    }

    /** The middle of contract_edge, once e is removed: merge the lists of
        s and t, remove the parallel edges, renumber the edges left at t to
        end at s and leave t without edges. */
    method MergeEnds(s: int, t: int) returns (ghost m: (seq<Edge>, seq<Edge>))
      requires Valid() && 0 <= s < st.vertexCount && 0 <= t < st.vertexCount && s != t && !Joined(st.data, s, t)
      requires Known(st.data, st.inc[s]) && Known(st.data, st.inc[t])
      modifies this
      ensures m == Merge(old(st).data, old(st).inc[s], old(st).inc[t])
      ensures st == old(st).(data := st.data, inc := st.inc, degrees := st.degrees, edgeList := st.edgeList,
                             edgeCount := st.edgeCount)
      ensures Valid()
      ensures st.data == Moved(Killed(old(st).data, Ids(m.1)), t, s, Ids(old(st).inc[t]) - Ids(m.1))
      ensures Known(st.data, st.inc[s]) && st.inc[s] == m.0 && st.inc[t] == []
      ensures Targets(st.data, st.inc[s]) == Targets(old(st).data, old(st).inc[s]) + Targets(old(st).data, old(st).inc[t])
      ensures st.edgeList == Filtered(old(st).edgeList, Ids(m.1))
    {
      ghost var u := st;
      var merged, del := MergeIncList(st.data, st.inc[s], st.inc[t]);
      m := (merged, del);
      DeletedLive(u, s, t, m);
      RemoveAll(del);
      ghost var g5 := st;
      RenumberStart(u, s, t, m, g5);
      RenumberAll(s, t);
      ghost var g6 := st;
      st := st.(inc := st.inc[s := merged][t := []], degrees := st.degrees[t := 0][s := |merged|]);
      ContractFinish(u, s, t, m, g5, g6, st);
    }

    /** The loop of contract_edge that removes the parallel edges. */
    method RemoveAll(del: seq<Edge>)
      requires Valid() && forall i :: 0 <= i < |del| ==> del[i].id in st.data && del[i].id != 0
      modifies this
      ensures st == old(st).(data := st.data, inc := st.inc, degrees := st.degrees, edgeList := st.edgeList,
                             edgeCount := st.edgeCount)
      ensures st.data == Killed(old(st).data, Ids(del)) && st.edgeList == Filtered(old(st).edgeList, Ids(del))
      ensures Valid()
    {
      ghost var g := st;
      KilledNone(g.data);
      FilteredNone(g.edgeList);
      assert del[..0] == [] && Ids(del[..0]) == {};
      var i := 0;
      while i < |del|
        invariant 0 <= i <= |del| && Valid()
        invariant st == g.(data := st.data, inc := st.inc, degrees := st.degrees, edgeList := st.edgeList,
                           edgeCount := st.edgeCount)
        invariant st.data == Killed(g.data, Ids(del[..i])) && st.edgeList == Filtered(g.edgeList, Ids(del[..i]))
      {
        ghost var h := st;
        RemovingRest(h, del[i].id);
        RemoveEdge(del[i]);
        KilledStep(g.data, Ids(del[..i]), del[i].id);
        IdsStep(del, i);
        FilteredStep(g.edgeList, Ids(del[..i]), del[i].id);
        i := i + 1;
      }
      assert del[..i] == del;
    }

    /** The loop of contract_edge that renumbers every edge left at t to
        end at s. */
    method RenumberAll(s: int, t: int)
      requires Renumbering(st.data, st.inc, s, t, 0, st.data, st.inc)
      modifies this
      ensures Renumbering(old(st).data, old(st).inc, s, t, |old(st).inc[t]|, st.data, st.inc)
      ensures st == old(st).(data := st.data, inc := st.inc)
    {
      ghost var g := st;
      var l := st.inc[t];
      var i := 0;
      while i < |l|
        invariant 0 <= i <= |l| && l == g.inc[t]
        invariant Renumbering(g.data, g.inc, s, t, i, st.data, st.inc)
        invariant st == g.(data := st.data, inc := st.inc)
      {
        RenumberStep(g.data, g.inc, s, t, i, st.data, st.inc);
        ChangeEdgeTarget(OppositeDir(l[i]), s);
        i := i + 1;
      }
    }
  }
}
