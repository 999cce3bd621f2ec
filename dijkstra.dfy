/** src/dfs.hpp, Dijkstra: the relaxation loop over an indexed heap whose
    order is the caller's distance vector. The graph is given by its
    incidence lists, each arc reduced to the target and weight it exposes;
    the distance and predecessor maps are arrays owned by the caller. The
    visitor callbacks (vertex popped, edge relaxed, edge not relaxed) do not
    alter the search and are left out. */
module ShortestPaths {
  import opened Heaps

  /** An incident edge as Dijkstra sees it: e.target() and e.weight(). */
  datatype Arc = Arc(target: int, weight: int)

  /** Incidence lists over vertices 0 .. |adj| - 1 with weights that are not
      negative. */
  predicate WellFormed(adj: seq<seq<Arc>>) {
    forall v, j :: 0 <= v < |adj| && 0 <= j < |adj[v]| ==>
      0 <= adj[v][j].target < |adj| && adj[v][j].weight >= 0
  }

  /** None of the first j arcs of p can lower a distance any more. */
  predicate RelaxedBelow(adj: seq<seq<Arc>>, d: seq<int>, p: int, j: int)
    requires WellFormed(adj) && |d| == |adj| && 0 <= p < |adj| && j <= |adj[p]|
  {
    forall k :: 0 <= k < j ==> d[adj[p][k].target] <= d[p] + adj[p][k].weight
  }

  /** No arc of p can lower a distance any more. */
  predicate Relaxed(adj: seq<seq<Arc>>, d: seq<int>, p: int)
    requires WellFormed(adj) && |d| == |adj| && 0 <= p < |adj|
  {
    RelaxedBelow(adj, d, p, |adj[p]|)
  }

  /** Some arc from v to u accounts exactly for u's distance. */
  predicate Tight(adj: seq<seq<Arc>>, d: seq<int>, v: int, u: int)
    requires WellFormed(adj) && |d| == |adj| && 0 <= v < |adj|
  {
    exists j :: 0 <= j < |adj[v]| && adj[v][j].target == u && d[v] + adj[v][j].weight == d[u]
  }

  /** No distance went up. */
  predicate NoHigher(d0: seq<int>, d: seq<int>) {
    |d0| == |d| && forall u :: 0 <= u < |d| ==> d[u] <= d0[u]
  }

  /** The vertices whose distance went down. */
  ghost function Improved(d0: seq<int>, d: seq<int>): set<int>
    requires |d0| == |d|
  {
    set u | 0 <= u < |d| && d[u] < d0[u]
  }

  /** An arc-by-arc walk: at each step, the index of the arc taken in the
      incidence list of the vertex reached so far. */
  predicate IsWalk(adj: seq<seq<Arc>>, s: int, js: seq<int>)
    requires WellFormed(adj) && 0 <= s < |adj|
    decreases |js|
  {
    |js| == 0 ||
    (0 <= js[0] < |adj[s]| && IsWalk(adj, adj[s][js[0]].target, js[1..]))
  }

  /** The vertex a walk ends at. */
  function WalkEnd(adj: seq<seq<Arc>>, s: int, js: seq<int>): (e: int)
    requires WellFormed(adj) && 0 <= s < |adj| && IsWalk(adj, s, js)
    ensures 0 <= e < |adj|
    decreases |js|
  {
    if |js| == 0 then s else WalkEnd(adj, adj[s][js[0]].target, js[1..])
  }

  /** The total weight of a walk. */
  function WalkLength(adj: seq<seq<Arc>>, s: int, js: seq<int>): (l: int)
    requires WellFormed(adj) && 0 <= s < |adj| && IsWalk(adj, s, js)
    ensures l >= 0
    decreases |js|
  {
    if |js| == 0 then 0 else adj[s][js[0]].weight + WalkLength(adj, adj[s][js[0]].target, js[1..])
  }

  /** A vertex stays relaxed when its own distance is kept and no other
      distance goes up. */
  lemma RelaxedKept(adj: seq<seq<Arc>>, d: seq<int>, d': seq<int>, p: int)
    requires WellFormed(adj) && |d| == |adj| && 0 <= p < |adj|
    requires NoHigher(d, d') && d'[p] == d[p] && Relaxed(adj, d, p)
    ensures Relaxed(adj, d', p)
  {
  }

  /** A tight arc stays tight while both its ends keep their distances. */
  lemma TightKept(adj: seq<seq<Arc>>, d: seq<int>, d': seq<int>, v: int, u: int)
    requires WellFormed(adj) && |d| == |adj| == |d'| && 0 <= v < |adj| && 0 <= u < |adj|
    requires d'[v] == d[v] && d'[u] == d[u] && Tight(adj, d, v, u)
    ensures Tight(adj, d', v, u)
  {
    var j :| 0 <= j < |adj[v]| && adj[v][j].target == u && d[v] + adj[v][j].weight == d[u];
    assert adj[v][j].target == u && d'[v] + adj[v][j].weight == d'[u];
  }

  /** Improvements compose: what went down overall went down in the first
      step or in the second. */
  lemma ImprovedSteps(d0: seq<int>, d1: seq<int>, d2: seq<int>)
    requires NoHigher(d0, d1) && NoHigher(d1, d2)
    ensures Improved(d0, d2) == Improved(d0, d1) + Improved(d1, d2)
  {
  }

  /** One more improved vertex. */
  lemma ImprovedOneMore(d0: seq<int>, d: seq<int>, u: int, x: int)
    requires |d0| == |d| && 0 <= u < |d| && x < d[u] && x < d0[u]
    ensures Improved(d0, d[u := x]) == Improved(d0, d) + {u}
  {
  }

  /** A set of vertex numbers below n has at most n elements. */
  lemma {:induction false} VertexSetBound(S: set<int>, n: int)
    requires n >= 0 && forall p :: p in S ==> 0 <= p < n
    ensures |S| <= n
    decreases n
  {
    if n > 0 {
      VertexSetBound(S - {n - 1}, n - 1);
    } else {
      forall p | p in S
        ensures false
      {
      }
      assert S == {};
    }
  }

  /** The inner loop of Dijkstra over the arcs of v: each arc whose target
      it strictly shortens sets the target's distance and predecessor and
      pushes the target. Afterwards v is relaxed, the heap holds the
      improved vertices as well, and each of them got its distance through
      an arc from v. */
  method RelaxArcs(adj: seq<seq<Arc>>, dist: array<int>, pred: array<int>, heap: Heap, v: int)
    requires WellFormed(adj) && dist != pred && 0 <= v < |adj|
    requires |adj| == dist.Length == pred.Length == |heap.pos|
    requires heap.Valid() && Ordered(heap.data, dist[..])
    modifies heap, dist, pred
    ensures heap.Valid() && |heap.pos| == |adj| && Ordered(heap.data, dist[..])
    ensures Relaxation(adj, old(dist[..]), old(pred[..]), old(Members(heap.pos)),
                       dist[..], pred[..], Members(heap.pos), v)
  {
    var j := 0;
    while j < |adj[v]|
      invariant heap.Valid() && |heap.pos| == |adj| && Ordered(heap.data, dist[..])
      invariant Relaxing(adj, old(dist[..]), old(pred[..]), old(Members(heap.pos)),
                         dist[..], pred[..], Members(heap.pos), v, j)
    {
      ghost var d, pr, M := dist[..], pred[..], Members(heap.pos);
      var u, w := adj[v][j].target, adj[v][j].weight;
      if dist[v] + w < dist[u] {
        Improve(adj, dist, pred, heap, v, j);
      }
      RelaxStep(adj, old(dist[..]), old(pred[..]), old(Members(heap.pos)), d, pr, M, v, j,
                dist[..], pred[..], Members(heap.pos));
      j := j + 1;
    }
  }

  /** The body of the inner loop for an arc that strictly shortens its
      target u: dist[u] and pred[u] are set and u is pushed. */
  method Improve(adj: seq<seq<Arc>>, dist: array<int>, pred: array<int>, heap: Heap, v: int, j: int)
    requires WellFormed(adj) && dist != pred && 0 <= v < |adj| && 0 <= j < |adj[v]|
    requires |adj| == dist.Length == pred.Length == |heap.pos|
    requires heap.Valid() && Ordered(heap.data, dist[..])
    requires dist[v] + adj[v][j].weight < dist[adj[v][j].target]
    modifies heap, dist, pred
    ensures dist[..] == old(dist[..])[adj[v][j].target := dist[v] + adj[v][j].weight]
    ensures pred[..] == old(pred[..])[adj[v][j].target := v]
    ensures heap.Valid() && |heap.pos| == |adj| && Ordered(heap.data, dist[..])
    ensures Members(heap.pos) == old(Members(heap.pos)) + {adj[v][j].target}
  {
    var u, w := adj[v][j].target, adj[v][j].weight;
    ghost var d0 := dist[..];
    dist[u] := dist[v] + w;
    pred[u] := v;
    assert dist[..] == d0[u := dist[u]];
    if heap.pos[u] == NotInHeap {
      HeapSizeBound(heap.data, heap.pos);
      assert forall i :: 0 <= i < |heap.data| ==> heap.data[i] != u;
      OrderedOnHeld(heap.data, d0, dist[..]);
    } else {
      LoweredKey(heap.data, d0, dist[..], heap.pos[u]);
    }
    heap.Push(u, dist[..]);
  }

  /** The state of the search between two pops, against the distances d0,
      predecessors pr0 and heap members m0 it started from: popped vertices
      are relaxed, out of the heap and no further than any member; popped and
      held vertices together are the starting members and the improved
      vertices; each improved vertex has a tight arc from a popped one. */
  ghost predicate Searching(adj: seq<seq<Arc>>, d0: seq<int>, pr0: seq<int>, m0: set<int>,
                            d: seq<int>, pr: seq<int>, popped: set<int>, M: set<int>)
  {
    WellFormed(adj) && |d0| == |pr0| == |d| == |pr| == |adj| && NoHigher(d0, d) &&
    (forall m :: m in M ==> 0 <= m < |adj|) &&
    (forall u :: 0 <= u < |adj| && d[u] == d0[u] ==> pr[u] == pr0[u]) &&
    (forall p :: p in popped ==> 0 <= p < |adj| && p !in M && Relaxed(adj, d, p)) &&
    popped + M == m0 + Improved(d0, d) &&
    (forall p, m :: p in popped && m in M ==> d[p] <= d[m]) &&
    (forall u :: 0 <= u < |adj| && d[u] < d0[u] ==> pr[u] in popped && Tight(adj, d, pr[u], u))
  }

  /** Relaxing the first j arcs of v took distances d1, predecessors pr1
      and heap members M1 to d, pr and M: no distance went up and v's
      stayed; the heap gained exactly the improved vertices; each of them got
      its distance, at least v's, through a tight arc from v, which became
      its predecessor; other predecessors stayed; and those j arcs are
      relaxed. */
  ghost predicate Relaxing(adj: seq<seq<Arc>>, d1: seq<int>, pr1: seq<int>, M1: set<int>,
                           d: seq<int>, pr: seq<int>, M: set<int>, v: int, j: int)
  {
    WellFormed(adj) && |d1| == |pr1| == |d| == |pr| == |adj| && 0 <= v < |adj| && 0 <= j <= |adj[v]| &&
    NoHigher(d1, d) && d[v] == d1[v] &&
    M == M1 + Improved(d1, d) &&
    (forall u :: 0 <= u < |adj| && d[u] < d1[u] ==> d[v] <= d[u] && pr[u] == v && Tight(adj, d, v, u)) &&
    (forall u :: 0 <= u < |adj| && d[u] == d1[u] ==> pr[u] == pr1[u]) &&
    RelaxedBelow(adj, d, v, j)
  }

  /** All arcs of v relaxed. */
  ghost predicate Relaxation(adj: seq<seq<Arc>>, d1: seq<int>, pr1: seq<int>, M1: set<int>,
                             d: seq<int>, pr: seq<int>, M: set<int>, v: int)
  {
    0 <= v < |adj| && Relaxing(adj, d1, pr1, M1, d, pr, M, v, |adj[v]|)
  }

  /** One arc further: the j-th arc of v either leaves everything as it is,
      since it does not shorten its target, or gives its target u the
      distance through v, v as predecessor, and a place in the heap. */
  lemma RelaxStep(adj: seq<seq<Arc>>, d1: seq<int>, pr1: seq<int>, M1: set<int>,
                  d: seq<int>, pr: seq<int>, M: set<int>, v: int, j: int,
                  d': seq<int>, pr': seq<int>, M': set<int>)
    requires Relaxing(adj, d1, pr1, M1, d, pr, M, v, j) && j < |adj[v]|
    requires var u, x := adj[v][j].target, d[v] + adj[v][j].weight;
      if x < d[u] then d' == d[u := x] && pr' == pr[u := v] && M' == M + {u}
      else d' == d && pr' == pr && M' == M
    ensures Relaxing(adj, d1, pr1, M1, d', pr', M', v, j + 1)
  {
    var u, x := adj[v][j].target, d[v] + adj[v][j].weight;
    if x < d[u] {
      ImprovedOneMore(d1, d, u, x);
      forall w | 0 <= w < |adj| && d'[w] < d1[w]
        ensures d'[v] <= d'[w] && pr'[w] == v && Tight(adj, d', v, w)
      {
        if w != u {
          TightKept(adj, d, d', v, w);
        } else {
          assert adj[v][j].target == w && d'[v] + adj[v][j].weight == d'[w];
        }
      }
    }
  }

  /** One turn of the loop from distances d1, predecessors pr1 and members
      M1: v, a member of least distance, is popped, leaving members M2, and
      its arcs are relaxed, giving d, pr and members M. */
  ghost predicate Turn(adj: seq<seq<Arc>>, d1: seq<int>, pr1: seq<int>, M1: set<int>, M2: set<int>,
                       d: seq<int>, pr: seq<int>, M: set<int>, v: int)
  {
    |d1| == |adj| && (forall m :: m in M1 ==> 0 <= m < |adj|) &&
    v in M1 && (forall m :: m in M1 ==> d1[v] <= d1[m]) && M2 == M1 - {v} &&
    Relaxation(adj, d1, pr1, M2, d, pr, M, v)
  }

  /** The search state survives a turn, with v added to the popped
      vertices; v was not popped before, so the loop makes progress. */
  lemma Settle(adj: seq<seq<Arc>>, d0: seq<int>, pr0: seq<int>, m0: set<int>,
               d1: seq<int>, pr1: seq<int>, popped: set<int>, M1: set<int>, M2: set<int>,
               d: seq<int>, pr: seq<int>, M: set<int>, v: int)
    requires Searching(adj, d0, pr0, m0, d1, pr1, popped, M1)
    requires Turn(adj, d1, pr1, M1, M2, d, pr, M, v)
    ensures v !in popped && Searching(adj, d0, pr0, m0, d, pr, popped + {v}, M)
  {
    ImprovedSteps(d0, d1, d);
    SettlePopped(adj, d0, pr0, m0, d1, pr1, popped, M1, M2, d, pr, M, v);
    SettleTight(adj, d0, pr0, m0, d1, pr1, popped, M1, M2, d, pr, M, v);
  }

  /** After a turn, the popped vertices and v are relaxed, out of the heap
      and no further than any member. */
  lemma SettlePopped(adj: seq<seq<Arc>>, d0: seq<int>, pr0: seq<int>, m0: set<int>,
                     d1: seq<int>, pr1: seq<int>, popped: set<int>, M1: set<int>, M2: set<int>,
                     d: seq<int>, pr: seq<int>, M: set<int>, v: int)
    requires Searching(adj, d0, pr0, m0, d1, pr1, popped, M1)
    requires Turn(adj, d1, pr1, M1, M2, d, pr, M, v)
    ensures forall p :: p in popped + {v} ==> 0 <= p < |adj| && p !in M && Relaxed(adj, d, p)
    ensures forall p, m :: p in popped + {v} && m in M ==> d[p] <= d[m]
  {
    forall p | p in popped + {v}
      ensures 0 <= p < |adj| && p !in M && Relaxed(adj, d, p)
    {
      if p != v {
        assert d1[p] <= d1[v];
        RelaxedKept(adj, d1, d, p);
      }
    }
  }

  /** After a turn, every improved vertex has a tight arc from a popped
      vertex or v. */
  lemma SettleTight(adj: seq<seq<Arc>>, d0: seq<int>, pr0: seq<int>, m0: set<int>,
                    d1: seq<int>, pr1: seq<int>, popped: set<int>, M1: set<int>, M2: set<int>,
                    d: seq<int>, pr: seq<int>, M: set<int>, v: int)
    requires Searching(adj, d0, pr0, m0, d1, pr1, popped, M1)
    requires Turn(adj, d1, pr1, M1, M2, d, pr, M, v)
    ensures forall u :: 0 <= u < |adj| && d[u] < d0[u] ==> pr[u] in popped + {v} && Tight(adj, d, pr[u], u)
  {
    forall u | 0 <= u < |adj| && d[u] < d0[u]
      ensures pr[u] in popped + {v} && Tight(adj, d, pr[u], u)
    {
      if d[u] == d1[u] {
        TightKept(adj, d1, d, pr[u], u);
      }
    }
  }

  /** What Dijkstra leaves behind, against the distances d0, predecessors
      pr0 and heap members m0 it started from: no distance went up; a
      predecessor changed only with its distance; every vertex that was held
      or improved is relaxed; and each improved vertex has a tight arc from
      a held or improved vertex, its predecessor. */
  ghost predicate Settled(adj: seq<seq<Arc>>, d0: seq<int>, pr0: seq<int>, m0: set<int>,
                          d: seq<int>, pr: seq<int>)
    requires WellFormed(adj) && |d0| == |pr0| == |d| == |pr| == |adj|
  {
    NoHigher(d0, d) &&
    (forall u :: 0 <= u < |adj| && d[u] == d0[u] ==> pr[u] == pr0[u]) &&
    (forall u :: 0 <= u < |adj| && (u in m0 || d[u] < d0[u]) ==> Relaxed(adj, d, u)) &&
    (forall u :: 0 <= u < |adj| && d[u] < d0[u] ==>
      0 <= pr[u] < |adj| && (pr[u] in m0 || d[pr[u]] < d0[pr[u]]) && Tight(adj, d, pr[u], u))
  }

  /** With the heap empty, the search state is the settled one. */
  lemma Finish(adj: seq<seq<Arc>>, d0: seq<int>, pr0: seq<int>, m0: set<int>,
               d: seq<int>, pr: seq<int>, popped: set<int>)
    requires Searching(adj, d0, pr0, m0, d, pr, popped, {})
    ensures Settled(adj, d0, pr0, m0, d, pr)
  {
    assert popped == m0 + Improved(d0, d);
  }

  /** What the settled state guarantees: a walk from a vertex x that was
      held or improved, with d[x] at most base, ends at distance at most
      base plus the walk's length, provided every vertex that was not held
      started further away than that. For x a starting vertex and base its
      distance: no walk from a start beats the distances Dijkstra leaves,
      when the other vertices start "infinitely" far. */
  lemma {:induction false} WalkBound(adj: seq<seq<Arc>>, d0: seq<int>, pr0: seq<int>, m0: set<int>,
                                     d: seq<int>, pr: seq<int>, x: int, js: seq<int>, base: int)
    requires WellFormed(adj) && |d0| == |pr0| == |d| == |pr| == |adj|
    requires Settled(adj, d0, pr0, m0, d, pr)
    requires 0 <= x < |adj| && (x in m0 || d[x] < d0[x]) && d[x] <= base && IsWalk(adj, x, js)
    requires forall y :: 0 <= y < |adj| && y !in m0 ==> base + WalkLength(adj, x, js) < d0[y]
    ensures d[WalkEnd(adj, x, js)] <= base + WalkLength(adj, x, js)
    decreases |js|
  {
    if |js| > 0 {
      var t, w := adj[x][js[0]].target, adj[x][js[0]].weight;
      assert Relaxed(adj, d, x);
      assert d[t] <= d[x] + w;
      WalkBound(adj, d0, pr0, m0, d, pr, t, js[1..], base + w);
    }
  }

  /** Dijkstra: while the heap is not empty, pop a vertex of least distance
      and relax its arcs. An arc changes its target only on a strict
      improvement, so no distance goes up and a predecessor changes only with
      its distance. When the heap is empty, every vertex that was in it at
      the start or whose distance went down has been popped and relaxed, and
      each improved vertex owes its distance to a tight arc from such a
      vertex. Weights must not be negative (they are edge weights of the
      graph); the loop ends because a popped vertex is never pushed again. */
  method Dijkstra(adj: seq<seq<Arc>>, dist: array<int>, pred: array<int>, heap: Heap)
    requires WellFormed(adj) && dist != pred
    requires |adj| == dist.Length == pred.Length == |heap.pos|
    requires heap.Valid() && Ordered(heap.data, dist[..])
    modifies heap, dist, pred
    ensures heap.Valid() && |heap.pos| == |adj| && Members(heap.pos) == {}
    ensures Settled(adj, old(dist[..]), old(pred[..]), old(Members(heap.pos)), dist[..], pred[..])
  {
    ghost var d0, pr0, m0 := dist[..], pred[..], Members(heap.pos);
    ghost var popped: set<int> := {};
    while !heap.Empty()
      invariant heap.Valid() && |heap.pos| == |adj| && Ordered(heap.data, dist[..])
      invariant Searching(adj, d0, pr0, m0, dist[..], pred[..], popped, Members(heap.pos))
      decreases |adj| - |popped|
    {
      VertexSetBound(popped, |adj|);
      var v := Visit(adj, dist, pred, heap, d0, pr0, m0, popped);
      popped := popped + {v};
    }
    Finish(adj, d0, pr0, m0, dist[..], pred[..], popped);
  }

  /** The body of Dijkstra's loop: pop a vertex v, a member of least
      distance, and relax its arcs; v had not been popped before. */
  method Visit(adj: seq<seq<Arc>>, dist: array<int>, pred: array<int>, heap: Heap,
               ghost d0: seq<int>, ghost pr0: seq<int>, ghost m0: set<int>, ghost popped: set<int>)
    returns (v: int)
    requires WellFormed(adj) && dist != pred
    requires |adj| == dist.Length == pred.Length == |heap.pos|
    requires heap.Valid() && Ordered(heap.data, dist[..]) && heap.data != []
    requires Searching(adj, d0, pr0, m0, dist[..], pred[..], popped, Members(heap.pos))
    modifies heap, dist, pred
    ensures heap.Valid() && |heap.pos| == |adj| && Ordered(heap.data, dist[..])
    ensures v !in popped && Searching(adj, d0, pr0, m0, dist[..], pred[..], popped + {v}, Members(heap.pos))
  {
    ghost var d1, pr1, M1 := dist[..], pred[..], Members(heap.pos);
    v := heap.Pop(dist[..]);
    ghost var M2 := Members(heap.pos);
    RelaxArcs(adj, dist, pred, heap, v);
    Settle(adj, d0, pr0, m0, d1, pr1, popped, M1, M2, dist[..], pred[..], Members(heap.pos), v);
  }
}
