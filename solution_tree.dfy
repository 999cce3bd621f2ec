/** The last step of verifier.py: the graph induced by the solution edges is
    explored from the first terminal with a stack, recording for each node
    whether it is unvisited, the root, or reached from a parent. A visited
    neighbour other than the parent is reported as a cycle. This module states
    what the exploration computes in graph-theoretic terms. */
module SolutionTree {

  /** An entry of the parent array: -2, -1 or a node index in the source. */
  datatype Mark = Unvisited | Root | Parent(p: int)

  /** How the exploration ends: it either exhausts the stack or stops at the
      first neighbour that closes a cycle. */
  datatype Outcome = Tree | Cycle(node: int, neighbour: int)

  /** Every adjacency entry names a node of the graph. */
  predicate WellFormed(adj: seq<seq<int>>) {
    forall u, i :: 0 <= u < |adj| && 0 <= i < |adj[u]| ==> 0 <= adj[u][i] < |adj|
  }

  /** No neighbour is listed twice, except a node in its own list: a self-loop
      puts its node twice into that node's list. This is the shape of a graph
      whose edges have pairwise distinct endpoint pairs. */
  predicate Simple(adj: seq<seq<int>>) {
    forall u, i, j :: 0 <= u < |adj| && 0 <= i < j < |adj[u]| && adj[u][i] == adj[u][j] ==> adj[u][i] == u
  }

  predicate IsWalk(adj: seq<seq<int>>, w: seq<int>) {
    && |w| > 0
    && (forall i :: 0 <= i < |w| ==> 0 <= w[i] < |adj|)
    && (forall i :: 0 <= i < |w| - 1 ==> w[i + 1] in adj[w[i]])
  }

  ghost predicate Reachable(adj: seq<seq<int>>, root: int, v: int) {
    exists w :: IsWalk(adj, w) && w[0] == root && w[|w| - 1] == v
  }

  /** The parent link of v is an edge from an already marked node that comes
      earlier in ord; only root is marked as the root. */
  predicate LinkOk(adj: seq<seq<int>>, root: int, marks: seq<Mark>, ord: seq<nat>, v: int)
    requires |marks| == |adj| && |ord| == |adj| && 0 <= v < |adj|
  {
    match marks[v]
    case Unvisited => true
    case Root => v == root
    case Parent(p) => 0 <= p < |adj| && v in adj[p] && marks[p] != Unvisited && ord[p] < ord[v]
  }

  /** The marked nodes form a tree rooted at root whose links are edges. */
  predicate PartialTree(adj: seq<seq<int>>, root: int, marks: seq<Mark>, ord: seq<nat>) {
    && |marks| == |adj| && |ord| == |adj| && 0 <= root < |adj|
    && marks[root] == Root
    && forall v :: 0 <= v < |adj| ==> LinkOk(adj, root, marks, ord, v)
  }

  /** The edge u-w is a tree link in one direction, and w is marked. */
  predicate EdgeOk(marks: seq<Mark>, u: int, w: int)
    requires 0 <= u < |marks| && 0 <= w < |marks|
  {
    marks[w] != Unvisited && (marks[u] == Parent(w) || marks[w] == Parent(u))
  }

  /** The first j entries of u's list are tree links. */
  predicate Scanned(adj: seq<seq<int>>, marks: seq<Mark>, u: int, j: nat)
    requires WellFormed(adj) && |marks| == |adj| && 0 <= u < |adj| && j <= |adj[u]|
  {
    forall i :: 0 <= i < j ==> EdgeOk(marks, u, adj[u][i])
  }

  /** Every edge at a marked node is a tree link. */
  predicate Closed(adj: seq<seq<int>>, marks: seq<Mark>)
    requires WellFormed(adj) && |marks| == |adj|
  {
    forall u :: 0 <= u < |adj| && marks[u] != Unvisited ==> Scanned(adj, marks, u, |adj[u]|)
  }

  /** marks labels the component of root as a tree: the marked nodes are
      closed under adjacency and every edge among them is a parent link. */
  predicate TreeLabelling(adj: seq<seq<int>>, root: int, marks: seq<Mark>, ord: seq<nat>) {
    WellFormed(adj) && PartialTree(adj, root, marks, ord) && Closed(adj, marks)
  }

  /** In a simple graph: the connected component of root is a tree. */
  ghost predicate IsTreeComponent(adj: seq<seq<int>>, root: int) {
    exists marks, ord :: TreeLabelling(adj, root, marks, ord)
  }

  /** A marked node of a partial tree is reachable from the root. */
  lemma {:induction false} MarkedReachable(adj: seq<seq<int>>, root: int, marks: seq<Mark>, ord: seq<nat>, v: int)
    requires PartialTree(adj, root, marks, ord) && 0 <= v < |adj| && marks[v] != Unvisited
    ensures Reachable(adj, root, v)
    decreases ord[v]
  {
    assert LinkOk(adj, root, marks, ord, v);
    if marks[v] == Root {
      assert IsWalk(adj, [root]);
    } else {
      var p := marks[v].p;
      MarkedReachable(adj, root, marks, ord, p);
      var w :| IsWalk(adj, w) && w[0] == root && w[|w| - 1] == p;
      var w' := w + [v];
      assert IsWalk(adj, w');
    }
  }

  lemma {:induction false} WalkStaysMarked(adj: seq<seq<int>>, marks: seq<Mark>, w: seq<int>, k: nat)
    requires WellFormed(adj) && |marks| == |adj| && Closed(adj, marks)
    requires IsWalk(adj, w) && k < |w| && marks[w[0]] != Unvisited
    ensures marks[w[k]] != Unvisited
  {
    if k > 0 {
      WalkStaysMarked(adj, marks, w, k - 1);
      var u := w[k - 1];
      assert Scanned(adj, marks, u, |adj[u]|);
      var i :| 0 <= i < |adj[u]| && adj[u][i] == w[k];
      assert EdgeOk(marks, u, adj[u][i]);
    }
  }

  /** A tree labelling marks exactly the nodes reachable from the root. */
  lemma MarkedIffReachable(adj: seq<seq<int>>, root: int, marks: seq<Mark>, ord: seq<nat>, v: int)
    requires TreeLabelling(adj, root, marks, ord) && 0 <= v < |adj|
    ensures marks[v] != Unvisited <==> Reachable(adj, root, v)
  {
    if marks[v] != Unvisited {
      MarkedReachable(adj, root, marks, ord, v);
    }
    if Reachable(adj, root, v) {
      var w :| IsWalk(adj, w) && w[0] == root && w[|w| - 1] == v;
      WalkStaysMarked(adj, marks, w, |w| - 1);
    }
  }

  /** A tree labelling agrees with every partial tree on the nodes the
      partial tree marks: the parent of a node in a tree is determined. */
  lemma {:induction false} LabellingAgrees(adj: seq<seq<int>>, root: int, marks: seq<Mark>, ord: seq<nat>,
                                           part: seq<Mark>, pord: seq<nat>, v: int)
    requires TreeLabelling(adj, root, marks, ord) && PartialTree(adj, root, part, pord)
    requires 0 <= v < |adj| && part[v] != Unvisited
    ensures marks[v] == part[v]
    decreases pord[v]
  {
    assert LinkOk(adj, root, part, pord, v);
    match part[v]
    case Root =>
    case Parent(p) =>
      LabellingAgrees(adj, root, marks, ord, part, pord, p);
      assert Scanned(adj, marks, p, |adj[p]|);
      var i :| 0 <= i < |adj[p]| && adj[p][i] == v;
      assert EdgeOk(marks, p, adj[p][i]);
      assert LinkOk(adj, root, part, pord, p);
  }

  /** The situation in which the exploration reports a cycle: node's j-th
      neighbour nb is marked, is not node's parent, and the only nodes that
      have node as their parent are among its first j neighbours. In a simple
      graph no tree labelling is then possible. */
  lemma CycleRefutesTree(adj: seq<seq<int>>, root: int, part: seq<Mark>, pord: seq<nat>, node: int, j: nat)
    requires WellFormed(adj) && PartialTree(adj, root, part, pord)
    requires 0 <= node < |adj| && part[node] != Unvisited && j < |adj[node]|
    requires part[adj[node][j]] != Unvisited && part[node] != Parent(adj[node][j])
    requires forall x :: 0 <= x < |adj| && part[x] == Parent(node) ==> x in adj[node][..j]
    ensures Simple(adj) ==> !IsTreeComponent(adj, root)
  {
    if Simple(adj) && IsTreeComponent(adj, root) {
      var marks, ord :| TreeLabelling(adj, root, marks, ord);
      var nb := adj[node][j];
      LabellingAgrees(adj, root, marks, ord, part, pord, node);
      LabellingAgrees(adj, root, marks, ord, part, pord, nb);
      assert false;
    }
  }

  /** Marking the unvisited neighbour nb of a marked node keeps the partial
      tree and every tree link already established. */
  lemma MarkKeepsTree(adj: seq<seq<int>>, root: int, marks: seq<Mark>, ord: seq<nat>, node: int, nb: int, stamp: nat)
    requires WellFormed(adj) && PartialTree(adj, root, marks, ord)
    requires 0 <= node < |adj| && nb in adj[node] && marks[node] != Unvisited && marks[nb] == Unvisited
    requires forall v :: 0 <= v < |adj| && marks[v] != Unvisited ==> ord[v] < stamp
    ensures PartialTree(adj, root, marks[nb := Parent(node)], ord[nb := stamp])
    ensures forall u, w :: 0 <= u < |adj| && 0 <= w < |adj| && EdgeOk(marks, u, w) ==> EdgeOk(marks[nb := Parent(node)], u, w)
  {
    var marks', ord' := marks[nb := Parent(node)], ord[nb := stamp];
    forall v | 0 <= v < |adj|
      ensures LinkOk(adj, root, marks', ord', v)
    {
      assert LinkOk(adj, root, marks, ord, v);
    }
  }

  /** The nodes 0 .. n-1, as a set. */
  ghost function Below(n: nat): (r: set<int>)
    ensures forall v: int :: v in r <==> 0 <= v < n
  {
    if n == 0 then {} else Below(n - 1) + {n - 1}
  }

  /** The pending stack holds distinct marked nodes not yet scanned. */
  ghost predicate StackOk(n: nat, marks: seq<Mark>, done: set<int>, q: seq<int>)
    requires |marks| == n
  {
    && (forall i :: 0 <= i < |q| ==> 0 <= q[i] < n && marks[q[i]] != Unvisited && q[i] !in done)
    && (forall i, k :: 0 <= i < k < |q| ==> q[i] != q[k])
  }

  /** Bookkeeping that every state of the exploration satisfies: the marks
      are a partial tree stamped in ord before stamp, every scanned node has
      all its edges explained, and every unvisited node is still in unseen. */
  ghost predicate Common(adj: seq<seq<int>>, root: int, marks: seq<Mark>, ord: seq<nat>, stamp: nat,
                         done: set<int>, q: seq<int>, unseen: set<int>)
  {
    && WellFormed(adj) && PartialTree(adj, root, marks, ord)
    && (forall v :: 0 <= v < |adj| && marks[v] != Unvisited ==> ord[v] < stamp)
    && StackOk(|adj|, marks, done, q)
    && (forall v :: v in done ==> 0 <= v < |adj| && marks[v] != Unvisited && Scanned(adj, marks, v, |adj[v]|))
    && (forall v :: 0 <= v < |adj| && marks[v] == Unvisited ==> v in unseen)
  }

  /** The state at the head of the outer loop of verifier.py:80. */
  ghost predicate Between(adj: seq<seq<int>>, root: int, marks: seq<Mark>, ord: seq<nat>, stamp: nat,
                          done: set<int>, q: seq<int>, unseen: set<int>)
  {
    && Common(adj, root, marks, ord, stamp, done, q, unseen)
    && (forall v :: 0 <= v < |adj| && marks[v] != Unvisited ==> v in done || v in q)
    && (forall x :: 0 <= x < |adj| && marks[x].Parent? ==> marks[x].p in done)
  }

  /** The state in the inner loop of verifier.py:82, after the first j
      neighbours of the popped node have been handled. */
  ghost predicate Scanning(adj: seq<seq<int>>, root: int, marks: seq<Mark>, ord: seq<nat>, stamp: nat,
                           done: set<int>, q: seq<int>, unseen: set<int>, node: int, j: nat)
  {
    && Common(adj, root, marks, ord, stamp, done, q, unseen)
    && 0 <= node < |adj| && marks[node] != Unvisited && node !in done && node !in q
    && (forall v :: 0 <= v < |adj| && marks[v] != Unvisited ==> v in done || v in q || v == node)
    && j <= |adj[node]| && Scanned(adj, marks, node, j)
    && (forall x :: 0 <= x < |adj| && marks[x].Parent? ==>
          marks[x].p in done || (marks[x].p == node && x in adj[node][..j]))
  }

  lemma StartBetween(adj: seq<seq<int>>, root: int)
    requires WellFormed(adj) && 0 <= root < |adj|
    ensures Between(adj, root, seq(|adj|, _ => Unvisited)[root := Root], seq(|adj|, _ => 0), 1, {}, [root], Below(|adj|))
  {
    var marks := seq(|adj|, _ => Unvisited)[root := Root];
    var ord: seq<nat> := seq(|adj|, _ => 0);
    forall v | 0 <= v < |adj|
      ensures LinkOk(adj, root, marks, ord, v)
    {
    }
  }

  lemma PopScanning(adj: seq<seq<int>>, root: int, marks: seq<Mark>, ord: seq<nat>, stamp: nat,
                    done: set<int>, q: seq<int>, unseen: set<int>)
    requires Between(adj, root, marks, ord, stamp, done, q, unseen) && |q| > 0
    ensures Scanning(adj, root, marks, ord, stamp, done, q[..|q| - 1], unseen, q[|q| - 1], 0)
  {
    var q' := q[..|q| - 1];
    forall v | 0 <= v < |adj| && marks[v] != Unvisited
      ensures v in done || v in q' || v == q[|q| - 1]
    {
      if v in q {
        var i :| 0 <= i < |q| && q[i] == v;
        if i < |q| - 1 {
          assert q'[i] == v;
        }
      }
    }
  }

  /** The neighbour is the parent of the popped node: nothing to do. */
  lemma SkipParent(adj: seq<seq<int>>, root: int, marks: seq<Mark>, ord: seq<nat>, stamp: nat,
                   done: set<int>, q: seq<int>, unseen: set<int>, node: int, j: nat)
    requires Scanning(adj, root, marks, ord, stamp, done, q, unseen, node, j)
    requires j < |adj[node]| && marks[node] == Parent(adj[node][j])
    ensures Scanning(adj, root, marks, ord, stamp, done, q, unseen, node, j + 1)
  {
    assert adj[node][..j + 1] == adj[node][..j] + [adj[node][j]];
    assert LinkOk(adj, root, marks, ord, node);
  }

  /** The neighbour is unvisited: it is marked with the popped node as its
      parent and pushed. */
  lemma MarkNeighbour(adj: seq<seq<int>>, root: int, marks: seq<Mark>, ord: seq<nat>, stamp: nat,
                      done: set<int>, q: seq<int>, unseen: set<int>, node: int, j: nat)
    requires Scanning(adj, root, marks, ord, stamp, done, q, unseen, node, j)
    requires j < |adj[node]| && marks[adj[node][j]] == Unvisited
    ensures var nb := adj[node][j];
      && nb in unseen
      && Scanning(adj, root, marks[nb := Parent(node)], ord[nb := stamp], stamp + 1,
                  done, q + [nb], unseen - {nb}, node, j + 1)
  {
    var nb := adj[node][j];
    assert adj[node][..j + 1] == adj[node][..j] + [nb];
    MarkCommon(adj, root, marks, ord, stamp, done, q, unseen, node, nb);
    assert Scanned(adj, marks, node, j);
  }

  /** Marking an unvisited neighbour nb of a marked node with that node as
      its parent, stamping it and pushing it keeps the bookkeeping. */
  lemma MarkCommon(adj: seq<seq<int>>, root: int, marks: seq<Mark>, ord: seq<nat>, stamp: nat,
                   done: set<int>, q: seq<int>, unseen: set<int>, node: int, nb: int)
    requires Common(adj, root, marks, ord, stamp, done, q, unseen)
    requires 0 <= node < |adj| && nb in adj[node] && marks[node] != Unvisited && marks[nb] == Unvisited
    ensures nb in unseen
    ensures Common(adj, root, marks[nb := Parent(node)], ord[nb := stamp], stamp + 1, done, q + [nb], unseen - {nb})
    ensures forall u, w :: 0 <= u < |adj| && 0 <= w < |adj| && EdgeOk(marks, u, w) ==> EdgeOk(marks[nb := Parent(node)], u, w)
  {
    var marks' := marks[nb := Parent(node)];
    MarkKeepsTree(adj, root, marks, ord, node, nb, stamp);
    forall v | v in done
      ensures Scanned(adj, marks', v, |adj[v]|)
    {
      assert Scanned(adj, marks, v, |adj[v]|);
    }
    assert StackOk(|adj|, marks', done, q + [nb]);
  }

  lemma FinishScanning(adj: seq<seq<int>>, root: int, marks: seq<Mark>, ord: seq<nat>, stamp: nat,
                       done: set<int>, q: seq<int>, unseen: set<int>, node: int)
    requires 0 <= node < |adj|
    requires Scanning(adj, root, marks, ord, stamp, done, q, unseen, node, |adj[node]|)
    ensures Between(adj, root, marks, ord, stamp, done + {node}, q, unseen)
  {
  }

  /** The stack is exhausted: the marks label the component of root. */
  lemma EndTree(adj: seq<seq<int>>, root: int, marks: seq<Mark>, ord: seq<nat>, stamp: nat,
                done: set<int>, unseen: set<int>)
    requires Between(adj, root, marks, ord, stamp, done, [], unseen)
    ensures TreeLabelling(adj, root, marks, ord) && IsTreeComponent(adj, root)
    ensures forall v :: 0 <= v < |adj| ==> (marks[v] != Unvisited <==> Reachable(adj, root, v))
  {
    assert TreeLabelling(adj, root, marks, ord);
    forall v | 0 <= v < |adj|
      ensures marks[v] != Unvisited <==> Reachable(adj, root, v)
    {
      MarkedIffReachable(adj, root, marks, ord, v);
    }
  }

  /** The exploration stops at node's j-th neighbour, which is marked and is
      not node's parent. */
  lemma EndCycle(adj: seq<seq<int>>, root: int, marks: seq<Mark>, ord: seq<nat>, stamp: nat,
                 done: set<int>, q: seq<int>, unseen: set<int>, node: int, j: nat)
    requires Scanning(adj, root, marks, ord, stamp, done, q, unseen, node, j)
    requires j < |adj[node]| && marks[adj[node][j]] != Unvisited && marks[node] != Parent(adj[node][j])
    ensures Simple(adj) ==> !IsTreeComponent(adj, root)
    ensures forall v :: 0 <= v < |adj| && marks[v] != Unvisited ==> Reachable(adj, root, v)
  {
    CycleRefutesTree(adj, root, marks, ord, node, j);
    forall v | 0 <= v < |adj| && marks[v] != Unvisited
      ensures Reachable(adj, root, v)
    {
      MarkedReachable(adj, root, marks, ord, v);
    }
  }

  /** verifier.py:82-94 for one popped node: its neighbours in order, each
      skipped when it is the node's parent, marked and pushed when unvisited,
      and otherwise the end of the exploration. found tells whether it ended
      at neighbour j. */
  method ScanNode(adj: seq<seq<int>>, root: int, parent: array<Mark>, node: int, q: seq<int>,
                  ghost ord: seq<nat>, ghost stamp: nat, ghost done: set<int>, ghost unseen: set<int>)
    returns (found: bool, j: nat, q': seq<int>, ghost ord': seq<nat>, ghost stamp': nat, ghost unseen': set<int>)
    modifies parent
    requires parent.Length == |adj|
    requires Scanning(adj, root, parent[..], ord, stamp, done, q, unseen, node, 0)
    ensures Scanning(adj, root, parent[..], ord', stamp', done, q', unseen', node, j)
    ensures !found ==> j == |adj[node]| && |unseen'| + |q'| == |unseen| + |q| && |q'| >= |q|
    ensures found ==> j < |adj[node]| && parent[adj[node][j]] != Unvisited && parent[node] != Parent(adj[node][j])
  {
    q', ord', stamp', unseen' := q, ord, stamp, unseen;
    j := 0;
    while j < |adj[node]|
      invariant parent.Length == |adj|
      invariant Scanning(adj, root, parent[..], ord', stamp', done, q', unseen', node, j)
      invariant |unseen'| + |q'| == |unseen| + |q| && |q'| >= |q|
    {
      var nb := adj[node][j];
      if parent[node] == Parent(nb) {
        SkipParent(adj, root, parent[..], ord', stamp', done, q', unseen', node, j);
      } else if parent[nb] == Unvisited {
        MarkNeighbour(adj, root, parent[..], ord', stamp', done, q', unseen', node, j);
        parent[nb] := Parent(node);
        ord' := ord'[nb := stamp'];
        stamp' := stamp' + 1;
        q' := q' + [nb];
        unseen' := unseen' - {nb};
      } else {
        return true, j, q', ord', stamp', unseen';
      }
      j := j + 1;
    }
    found := false;
  }

  /** verifier.py:77-94. The exploration from root with a stack. It returns
      how it ended and the final parent array, and as a ghost the order in
      which nodes were marked. */
  method Explore(adj: seq<seq<int>>, root: int) returns (outcome: Outcome, marks: seq<Mark>, ghost ord: seq<nat>)
    requires WellFormed(adj) && 0 <= root < |adj|
    ensures PartialTree(adj, root, marks, ord)
    ensures forall v :: 0 <= v < |adj| && marks[v] != Unvisited ==> Reachable(adj, root, v)
    ensures outcome.Tree? ==> TreeLabelling(adj, root, marks, ord)
    ensures outcome.Tree? ==> forall v :: 0 <= v < |adj| ==> (marks[v] != Unvisited <==> Reachable(adj, root, v))
    ensures outcome.Cycle? ==>
      && 0 <= outcome.node < |adj| && outcome.neighbour in adj[outcome.node]
      && marks[outcome.node] != Unvisited && marks[outcome.neighbour] != Unvisited
      && marks[outcome.node] != Parent(outcome.neighbour)
    ensures Simple(adj) ==> (outcome.Tree? <==> IsTreeComponent(adj, root))
  {
    var n := |adj|;
    var parent := new Mark[n](_ => Unvisited);
    parent[root] := Root;
    ord := seq(n, _ => 0);
    ghost var stamp: nat := 1;
    ghost var done: set<int> := {};
    ghost var unseen: set<int> := Below(n);
    var q: seq<int> := [root];
    StartBetween(adj, root);
    assert parent[..] == seq(n, _ => Unvisited)[root := Root];
    while |q| > 0
      invariant parent.Length == n
      invariant Between(adj, root, parent[..], ord, stamp, done, q, unseen)
      decreases |unseen|, |q|
    {
      PopScanning(adj, root, parent[..], ord, stamp, done, q, unseen);
      var node := q[|q| - 1];
      var found, j;
      found, j, q, ord, stamp, unseen := ScanNode(adj, root, parent, node, q[..|q| - 1], ord, stamp, done, unseen);
      if found {
        marks := parent[..];
        EndCycle(adj, root, marks, ord, stamp, done, q, unseen, node, j);
        return Cycle(node, adj[node][j]), marks, ord;
      }
      FinishScanning(adj, root, parent[..], ord, stamp, done, q, unseen, node);
      done := done + {node};
    }
    marks := parent[..];
    outcome := Tree;
    EndTree(adj, root, marks, ord, stamp, done, unseen);
  }
}
