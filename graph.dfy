/** src/graph.hpp: struct Graph, the mutable graph the solver reduces.
    Edge records (EdgeData) are known by their number in the map `data`;
    a fresh number is handed out for every edge add_edge creates. The
    members of the struct are kept together in one record, GraphState,
    which every operation of class Graph replaces; each operation is
    specified by a function on GraphState that says what the new members
    are, and the properties the code promises are proved about those
    functions. */
module Graphs {
  import opened Incidence
  import opened GraphRep
  import opened Contraction

  /** The members of struct Graph. */
  datatype GraphState = GraphState(
    vertexCount: int, edgeCount: int, terminalCount: int,
    degrees: seq<int>, inc: seq<seq<Edge>>, edgeList: seq<Edge>,
    terminals: seq<int>, terminalMask: seq<bool>,
    partialSolution: seq<Edge>, partialSolutionWeight: int,
    data: Records, nextId: int)

  /** The invariant every public operation keeps: each vertex has the
      sorted list of the live edges leaving it and its degree is that
      list's length; edge_list holds each live edge once and edge_count is
      its length; the terminal list, mask and counter agree; the partial
      solution's weight is the sum of its edges' weights. */
  ghost predicate Consistent(g: GraphState) {
    0 <= g.vertexCount && |g.inc| == g.vertexCount && Rep(g.data, g.inc) && Degrees(g.degrees, g.inc) &&
    Fresh(g.data, g.nextId) && EdgeListed(g.data, g.edgeList) && g.edgeCount == |g.edgeList| &&
    TerminalsKept(g.terminals, g.terminalMask, g.terminalCount, g.vertexCount) &&
    Bought(g.data, g.partialSolution, g.partialSolutionWeight)
  }

  /** Edge number id is a live edge between s and t, either way round. */
  predicate Joins(D: Records, id: int, s: int, t: int) {
    Live(D, id) && ((D[id].s == s && D[id].t == t) || (D[id].s == t && D[id].t == s))
  }

  /** Graph(n): n vertices with empty lists and degree 0, no terminals, no
      edges and an empty partial solution. */
  function Initial(n: nat): (g: GraphState)
    ensures Consistent(g) && g.vertexCount == n && g.edgeCount == 0 && g.terminalCount == 0
    ensures forall v :: 0 <= v < n ==> g.degrees[v] == 0 && g.inc[v] == [] && !g.terminalMask[v]
    ensures forall id :: !Live(g.data, id)
    ensures g.partialSolution == [] && g.partialSolutionWeight == 0
  {
    GraphState(n, 0, 0, seq(n, _ => 0), seq(n, _ => []), [], [], seq(n, _ => false), [], 0,
               map[0 := NullData], 1)
  }

  /** mark_terminal(v): a no-op for a terminal, otherwise v is appended to
      the list, marked and counted. */
  function Marked(g: GraphState, v: int): (r: GraphState)
    requires Consistent(g) && 0 <= v < g.vertexCount
    ensures Consistent(r)
    ensures forall x :: x in r.terminals <==> x in g.terminals || x == v
    ensures r.terminalCount == if v in g.terminals then g.terminalCount else g.terminalCount + 1
    ensures r.terminalMask == g.terminalMask[v := true]
    ensures r.(terminals := g.terminals, terminalMask := g.terminalMask, terminalCount := g.terminalCount) == g
  {
    if g.terminalMask[v] then
      assert g.terminalMask == g.terminalMask[v := true];
      g
    else
      g.(terminals := g.terminals + [v], terminalMask := g.terminalMask[v := true],
         terminalCount := g.terminalCount + 1)
  }

  /** unmark_terminal(v): a no-op for a non-terminal, otherwise v is erased
      from the list, unmarked and uncounted. */
  function Unmarked(g: GraphState, v: int): (r: GraphState)
    requires Consistent(g) && 0 <= v < g.vertexCount
    ensures Consistent(r)
    ensures forall x :: x in r.terminals <==> x in g.terminals && x != v
    ensures r.terminalCount == if v in g.terminals then g.terminalCount - 1 else g.terminalCount
    ensures r.terminalMask == g.terminalMask[v := false]
    ensures r.(terminals := g.terminals, terminalMask := g.terminalMask, terminalCount := g.terminalCount) == g
  {
    if !g.terminalMask[v] then
      assert g.terminalMask == g.terminalMask[v := false];
      g
    else
      RemoveValueKeeps(g.terminals, v);
      var T := RemoveValue(g.terminals, v);
      assert forall i :: 0 <= i < |T| ==> T[i] in T;
      g.(terminals := T, terminalMask := g.terminalMask[v := false], terminalCount := g.terminalCount - 1)
  }

  /** mark_terminal twice is mark_terminal once, and so is unmark_terminal;
      marking and then unmarking a vertex that was no terminal restores the
      state. */
  lemma {:induction false} MarkIdempotent(g: GraphState, v: int)
    requires Consistent(g) && 0 <= v < g.vertexCount
    ensures Marked(Marked(g, v), v) == Marked(g, v)
    ensures Unmarked(Unmarked(g, v), v) == Unmarked(g, v)
    ensures v !in g.terminals ==> Unmarked(Marked(g, v), v) == g
  {
    if v !in g.terminals {
      var T := g.terminals;
      RemoveValueAppended(T, v);
      assert g.terminalMask[v := true][v := false] == g.terminalMask;
    }
  }

  /** Erasing the first v from a list that ends in its only v. */
  lemma {:induction false} RemoveValueAppended(T: seq<int>, v: int)
    requires v !in T
    ensures RemoveValue(T + [v], v) == T
  {
    if T != [] {
      assert (T + [v])[1..] == T[1..] + [v];
      RemoveValueAppended(T[1..], v);
    }
  }

  /** The ends of a live edge are different vertices of the graph. */
  lemma LiveEnds(g: GraphState, id: int)
    requires Consistent(g) && Live(g.data, id)
    ensures 0 <= g.data[id].s < g.vertexCount && 0 <= g.data[id].t < g.vertexCount
    ensures g.data[id].s != g.data[id].t && Reachable(g, id)
  {
  }

  /** What remove_edge reads of the state: the record of edge id and the
      lists and degrees of its endpoints. */
  predicate Reachable(g: GraphState, id: int) {
    |g.inc| == g.vertexCount && |g.degrees| == g.vertexCount && Reaches(g.data, g.inc, id)
  }

  /** remove_edge of the live edge numbered id: its entries leave the
      lists of both endpoints (_find_and_remove) and edge_list, its record
      is marked removed and both degrees and the edge count drop by one. */
  function Unlinking(g: GraphState, id: int): (r: GraphState)
    requires Reachable(g, id)
    ensures r.data == Dead(g.data, id)
    ensures r.(edgeCount := g.edgeCount, degrees := g.degrees, inc := g.inc, edgeList := g.edgeList, data := g.data) == g
  {
    var D, s, t := g.data, g.data[id].s, g.data[id].t;
    g.(inc := Unlinked(D, g.inc, id), edgeList := WithoutId(g.edgeList, id), data := Dead(D, id),
       degrees := g.degrees[s := g.degrees[s] - 1][t := g.degrees[t] - 1], edgeCount := g.edgeCount - 1)
  }

  /** The pieces remove_edge computes make up Unlinking. */
  lemma UnlinkingIs(g: GraphState, id: int, s: int, t: int, ls: seq<Edge>, lt: seq<Edge>, deg: seq<int>)
    requires Reachable(g, id) && s == g.data[id].s && t == g.data[id].t
    requires ls == Removed(g.data, g.inc[s], t)
    requires lt == Removed(g.data, g.inc[t], s)
    requires deg == g.degrees[s := g.degrees[s] - 1][t := g.degrees[t] - 1]
    ensures Unlinking(g, id) == g.(inc := g.inc[s := ls][t := lt], edgeList := WithoutId(g.edgeList, id),
      data := Dead(g.data, id), degrees := deg, edgeCount := g.edgeCount - 1)
  {
  }

  /** remove_edge of the edge numbered id, on the state: a no-op for a
      removed edge. */
  function Removing(g: GraphState, id: int): (r: GraphState)
    requires Consistent(g) && id in g.data && id != 0
    ensures r.data == Dead(g.data, id)
    ensures g.data[id].removed ==> r == g
  {
    if g.data[id].removed then
      assert Dead(g.data, id) == g.data;
      g
    else
      LiveEnds(g, id);
      Unlinking(g, id)
  }

  /** remove_edge keeps the invariant. */
  lemma RemovingOk(g: GraphState, id: int)
    requires Consistent(g) && id in g.data && id != 0
    ensures Consistent(Removing(g, id))
  {
    if !g.data[id].removed {
      RemoveKeeps(g, id);
    }
  }

  /** Everything remove_edge of a live edge must keep. */
  lemma RemoveKeeps(g: GraphState, id: int)
    requires Consistent(g) && Live(g.data, id)
    ensures Consistent(Unlinking(g, id))
  {
    UnlinkingLists(g, id);
    UnlinkingRest(g, id);
  }

  /** remove_edge keeps the incidence lists and the degrees right. */
  lemma UnlinkingLists(g: GraphState, id: int)
    requires Consistent(g) && Live(g.data, id)
    ensures Reachable(g, id)
    ensures Rep(Unlinking(g, id).data, Unlinking(g, id).inc)
    ensures Degrees(Unlinking(g, id).degrees, Unlinking(g, id).inc)
  {
    LiveEnds(g, id);
    UnlinkedRep(g.data, g.inc, id);
    UnlinkedDegrees(g.data, g.inc, g.degrees, id);
  }

  /** remove_edge keeps the numbering, edge_list, the terminals and the
      partial solution right. */
  lemma UnlinkingRest(g: GraphState, id: int)
    requires Consistent(g) && Live(g.data, id)
    ensures Reachable(g, id)
    ensures Fresh(Unlinking(g, id).data, Unlinking(g, id).nextId)
    ensures EdgeListed(Unlinking(g, id).data, Unlinking(g, id).edgeList)
    ensures Unlinking(g, id).edgeCount == |Unlinking(g, id).edgeList|
    ensures Bought(Unlinking(g, id).data, Unlinking(g, id).partialSolution, Unlinking(g, id).partialSolutionWeight)
  {
    LiveEnds(g, id);
    DeadFresh(g.data, id, g.nextId);
    DeadListed(g.data, g.edgeList, id);
    WeightsKept(g.data, Dead(g.data, id), g.partialSolution);
  }

  /** remove_edge of a live edge: it is removed, no edge joins its ends any
      more, they lose one degree each, and the edge count drops by one. */
  lemma RemovingEffect(g: GraphState, id: int)
    requires Consistent(g) && Live(g.data, id)
    ensures var r, s, t := Removing(g, id), g.data[id].s, g.data[id].t;
      0 <= s < g.vertexCount && 0 <= t < g.vertexCount && |g.degrees| == g.vertexCount &&
      !Live(r.data, id) && !Joined(r.data, s, t) && !Joined(r.data, t, s) && r.edgeCount == g.edgeCount - 1 &&
      r.degrees == g.degrees[s := g.degrees[s] - 1][t := g.degrees[t] - 1]
  {
    var D, s, t := g.data, g.data[id].s, g.data[id].t;
    LiveEnds(g, id);
    UnlinkedApart(D, g.inc, id, s, t);
    UnlinkedApart(D, g.inc, id, t, s);
  }

  /** What the second half of add_edge reads of the state: the lists and
      degrees of s and t, whose entries keep their records once the new
      one is added. */
  predicate Placeable(g: GraphState, s: int, t: int, w: int) {
    0 <= s < g.vertexCount && 0 <= t < g.vertexCount && |g.inc| == g.vertexCount && |g.degrees| == g.vertexCount &&
    Known(Born(g.data, g.nextId, s, t, w), g.inc[s]) && Known(Born(g.data, g.nextId, s, t, w), g.inc[t])
  }

  /** A fresh record leaves the lists known. */
  lemma BornKnown(g: GraphState, s: int, t: int, w: int)
    requires Consistent(g) && 0 <= s < g.vertexCount && 0 <= t < g.vertexCount
    ensures Placeable(g, s, t, w)
  {
    Members(g.data, g.inc, {}, s);
    Members(g.data, g.inc, {}, t);
  }

  /** The second half of add_edge: a new edge numbered next_id from s to t
      of weight w and empty history, put at the front of edge_list and in
      the lists of both ends (_ins_sorted), whose degrees grow by one. */
  function Placed(g: GraphState, s: int, t: int, w: int): (r: (GraphState, Edge))
    requires Placeable(g, s, t, w)
    ensures r.1 == Edge(g.nextId, false) && r.0.nextId == g.nextId + 1
    ensures r.0.data == g.data[r.1.id := EdgeData(false, s, t, w, [])]
    ensures r.0.edgeCount == g.edgeCount + 1 && r.0.edgeList == [r.1] + g.edgeList
    ensures r.0.(inc := g.inc, degrees := g.degrees, edgeList := g.edgeList, edgeCount := g.edgeCount,
                 data := g.data, nextId := g.nextId) == g
  {
    var id := g.nextId;
    var D := Born(g.data, id, s, t, w);
    (g.(data := D, nextId := id + 1, edgeList := [Edge(id, false)] + g.edgeList, edgeCount := g.edgeCount + 1,
        inc := Linked(D, g.inc, id), degrees := g.degrees[s := g.degrees[s] + 1][t := g.degrees[t] + 1]),
     Edge(id, false))
  }

  /** The pieces add_edge computes make up Placed. */
  lemma PlacingIs(g: GraphState, s: int, t: int, w: int, ls: seq<Edge>, lt: seq<Edge>, deg: seq<int>)
    requires Placeable(g, s, t, w)
    requires ls == Inserted(Born(g.data, g.nextId, s, t, w), g.inc[s], Edge(g.nextId, false))
    requires lt == Inserted(Born(g.data, g.nextId, s, t, w), g.inc[t], Edge(g.nextId, true))
    requires deg == g.degrees[s := g.degrees[s] + 1][t := g.degrees[t] + 1]
    ensures Placed(g, s, t, w).0 ==
      g.(data := Born(g.data, g.nextId, s, t, w), nextId := g.nextId + 1, edgeList := [Edge(g.nextId, false)] + g.edgeList,
         edgeCount := g.edgeCount + 1, inc := g.inc[s := ls][t := lt], degrees := deg)
    ensures Placed(g, s, t, w).1 == Edge(g.nextId, false)
  {
  }

  /** Everything the second half of add_edge must keep. */
  lemma PlaceKeeps(g: GraphState, s: int, t: int, w: int)
    requires Consistent(g) && 0 <= s < g.vertexCount && 0 <= t < g.vertexCount && s != t
    requires !Joined(g.data, s, t)
    ensures Placeable(g, s, t, w) && Consistent(Placed(g, s, t, w).0)
  {
    PlacingLists(g, s, t, w);
    PlacingRest(g, s, t, w);
  }

  /** add_edge keeps the incidence lists and the degrees right. */
  lemma PlacingLists(g: GraphState, s: int, t: int, w: int)
    requires Consistent(g) && 0 <= s < g.vertexCount && 0 <= t < g.vertexCount && s != t
    requires !Joined(g.data, s, t)
    ensures Placeable(g, s, t, w)
    ensures Rep(Placed(g, s, t, w).0.data, Placed(g, s, t, w).0.inc)
    ensures Degrees(Placed(g, s, t, w).0.degrees, Placed(g, s, t, w).0.inc)
  {
    BornKnown(g, s, t, w);
    LinkedRep(g.data, g.inc, g.nextId, s, t, w);
    LinkedDegrees(g.data, g.inc, g.degrees, g.nextId, s, t, w);
  }

  /** add_edge keeps the numbering, edge_list, the terminals and the
      partial solution right. */
  lemma PlacingRest(g: GraphState, s: int, t: int, w: int)
    requires Consistent(g) && 0 <= s < g.vertexCount && 0 <= t < g.vertexCount && s != t
    ensures Placeable(g, s, t, w)
    ensures Fresh(Placed(g, s, t, w).0.data, Placed(g, s, t, w).0.nextId)
    ensures EdgeListed(Placed(g, s, t, w).0.data, Placed(g, s, t, w).0.edgeList)
    ensures Placed(g, s, t, w).0.edgeCount == |Placed(g, s, t, w).0.edgeList|
    ensures Bought(Placed(g, s, t, w).0.data, Placed(g, s, t, w).0.partialSolution, Placed(g, s, t, w).0.partialSolutionWeight)
  {
    BornKnown(g, s, t, w);
    BornFresh(g.data, g.nextId, s, t, w);
    BornListed(g.data, g.edgeList, g.nextId, s, t, w);
    WeightsKept(g.data, Born(g.data, g.nextId, s, t, w), g.partialSolution);
  }

  /** Placing a new edge keeps the invariant; the edge is live, from s to t,
      with a number no record had, and the degrees of s and t grow by one. */
  lemma PlacedOk(g: GraphState, s: int, t: int, w: int)
    requires Consistent(g) && 0 <= s < g.vertexCount && 0 <= t < g.vertexCount && s != t
    requires !Joined(g.data, s, t)
    ensures var (r, e) := Placed(g, s, t, w);
      Consistent(r) && e.id !in g.data && Joins(r.data, e.id, s, t) && Source(r.data, e) == s && Target(r.data, e) == t &&
      |g.degrees| == g.vertexCount && r.degrees == g.degrees[s := g.degrees[s] + 1][t := g.degrees[t] + 1]
  {
    PlaceKeeps(g, s, t, w);
  }

  /** add_edge(s, t, w): look the s-t edge up; keep it when it is strictly
      lighter than w, otherwise remove it; then place a new edge. The state
      and the edge returned. */
  function Adding(g: GraphState, s: int, t: int, w: int): (r: (GraphState, Edge))
    requires Consistent(g) && 0 <= s < g.vertexCount && 0 <= t < g.vertexCount && s != t
  {
    FoundJoined(g.data, g.inc, s, t);
    var old_e := Found(g.data, g.inc, s, t);
    if old_e != NullEdge && Weight(g.data, old_e) < w then (g, old_e)
    else if old_e != NullEdge then
      RemovingOk(g, old_e.id);
      BornKnown(Removing(g, old_e.id), s, t, w);
      Placed(Removing(g, old_e.id), s, t, w)
    else
      BornKnown(g, s, t, w);
      Placed(g, s, t, w)
  }

  /** The three ways add_edge goes, by what find_edge returned: the old
      edge is kept, replaced, or there was none. */
  lemma AddingKept(g: GraphState, s: int, t: int, w: int, f: Edge)
    requires Consistent(g) && 0 <= s < g.vertexCount && 0 <= t < g.vertexCount && s != t
    requires f == Found(g.data, g.inc, s, t) && f != NullEdge && f.id in g.data && Weight(g.data, f) < w
    ensures Adding(g, s, t, w) == (g, f)
  {
  }

  lemma AddingReplaced(g: GraphState, s: int, t: int, w: int, f: Edge)
    requires Consistent(g) && 0 <= s < g.vertexCount && 0 <= t < g.vertexCount && s != t
    requires f == Found(g.data, g.inc, s, t) && f != NullEdge && f.id in g.data && f.id != 0 && Weight(g.data, f) >= w
    ensures Consistent(Removing(g, f.id)) && !Joined(Removing(g, f.id).data, s, t)
    ensures Placeable(Removing(g, f.id), s, t, w)
    ensures Adding(g, s, t, w) == Placed(Removing(g, f.id), s, t, w)
  {
    ReplacedReady(g, s, t, w, f);
  }

  /** What placing the new edge after the removal needs. */
  lemma ReplacedReady(g: GraphState, s: int, t: int, w: int, f: Edge)
    requires Consistent(g) && 0 <= s < g.vertexCount && 0 <= t < g.vertexCount && s != t
    requires f == Found(g.data, g.inc, s, t) && f != NullEdge && f.id in g.data && f.id != 0
    ensures Consistent(Removing(g, f.id)) && !Joined(Removing(g, f.id).data, s, t)
    ensures Placeable(Removing(g, f.id), s, t, w)
  {
    FoundJoined(g.data, g.inc, s, t);
    RemovingOk(g, f.id);
    RemovingEffect(g, f.id);
    BornKnown(Removing(g, f.id), s, t, w);
  }

  lemma AddingNew(g: GraphState, s: int, t: int, w: int)
    requires Consistent(g) && 0 <= s < g.vertexCount && 0 <= t < g.vertexCount && s != t
    requires Found(g.data, g.inc, s, t) == NullEdge
    ensures Placeable(g, s, t, w) && Adding(g, s, t, w) == Placed(g, s, t, w)
  {
    BornKnown(g, s, t, w);
  }

  /** add_edge keeps the invariant and returns a live edge from s to t. */
  lemma AddingOk(g: GraphState, s: int, t: int, w: int)
    requires Consistent(g) && 0 <= s < g.vertexCount && 0 <= t < g.vertexCount && s != t
    ensures var (r, e) := Adding(g, s, t, w);
      Consistent(r) && Joins(r.data, e.id, s, t) && Source(r.data, e) == s && Target(r.data, e) == t
  {
    FoundJoined(g.data, g.inc, s, t);
    var f := Found(g.data, g.inc, s, t);
    if f != NullEdge && Weight(g.data, f) < w {
    } else if f != NullEdge {
      RemovingOk(g, f.id);
      RemovingEffect(g, f.id);
      PlacedOk(Removing(g, f.id), s, t, w);
    } else {
      PlacedOk(g, s, t, w);
    }
  }

  /** After add_edge the edge it returns is the only one between s and t. */
  lemma AddingUnique(g: GraphState, s: int, t: int, w: int)
    requires Consistent(g) && 0 <= s < g.vertexCount && 0 <= t < g.vertexCount && s != t
    ensures var (r, e) := Adding(g, s, t, w);
      forall id :: Joins(r.data, id, s, t) ==> id == e.id
  {
    FoundJoined(g.data, g.inc, s, t);
    AddingOk(g, s, t, w);
    var f := Found(g.data, g.inc, s, t);
    var (r, e) := Adding(g, s, t, w);
    if f != NullEdge && Weight(g.data, f) < w {
      OneJoining(r, s, t, e.id);
    } else {
      if f != NullEdge {
        RemovingOk(g, f.id);
        RemovingEffect(g, f.id);
      }
      var g1 := if f != NullEdge then Removing(g, f.id) else g;
      assert !Joined(g1.data, s, t);
      forall id | id != e.id ensures Joins(r.data, id, s, t) ==> Joins(g1.data, id, s, t) {
      }
    }
  }

  /** add_edge keeps the old s-t edge, and changes nothing, exactly when it
      is strictly lighter than w; otherwise the edge returned is new, of
      weight w and with an empty history. Either way its weight is the
      least of w and the old weight. */
  lemma AddingWeight(g: GraphState, s: int, t: int, w: int)
    requires Consistent(g) && 0 <= s < g.vertexCount && 0 <= t < g.vertexCount && s != t
    ensures var (r, e) := Adding(g, s, t, w);
      (forall id :: Joins(g.data, id, s, t) ==>
        (g.data[id].weight < w <==> r == g && e.id == id) &&
        Weight(r.data, e) == if g.data[id].weight < w then g.data[id].weight else w) &&
      (!Joined(g.data, s, t) ==> Weight(r.data, e) == w) &&
      (r != g ==> e == Edge(g.nextId, false) && r.data[e.id].history == [] && r.edgeCount == g.edgeCount + (if Joined(g.data, s, t) then 0 else 1))
  {
    FoundJoined(g.data, g.inc, s, t);
    var f := Found(g.data, g.inc, s, t);
    if f != NullEdge {
      RemovingEffect(g, f.id);
    }
  }

  /** In a consistent state the edge between s and t is the one in s's list. */
  lemma OneJoining(g: GraphState, s: int, t: int, id: int)
    requires Consistent(g) && 0 <= s < g.vertexCount && Joins(g.data, id, s, t)
    ensures forall k :: Joins(g.data, k, s, t) ==> k == id
  {
    FoundJoined(g.data, g.inc, s, t);
  }
}
