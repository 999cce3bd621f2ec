/** src/tdist.hpp, IncrementalBridgeConnComponents: the connected
    components and the bridge-connected components (blocks) of a graph to
    which edges are only ever added. Two union-finds hold the classes; the
    blocks of one connected component form a tree, kept in parent_bc (the
    block a block hangs from) and parent_edge (the bridge it hangs by). */
module Bridges {
  import opened Incidence
  import opened DisjointSets
  import opened BlockForest

  /** The root of every element of a union-find. */
  function Labels(parent: seq<int>, rank: seq<int>, size: int): (l: seq<int>)
    requires Ranked(parent, rank, size) && size >= 0
    ensures |l| == size && Blocks(l)
    ensures forall x :: 0 <= x < size ==> l[x] == RootOf(parent, rank, size, x)
  {
    seq(size, x requires 0 <= x < size => RootOf(parent, rank, size, x))
  }

  /** The number of elements labelled r. */
  function ClassSize(l: seq<int>, r: int): nat {
    |set x | 0 <= x < |l| && l[x] == r|
  }

  /** Forests with the same roots have the same labels. */
  lemma SameLabels(parent: seq<int>, parent': seq<int>, rank: seq<int>, size: int)
    requires Ranked(parent, rank, size) && Ranked(parent', rank, size) && size >= 0
    requires SameRoots(parent, parent', rank, size)
    ensures Labels(parent', rank, size) == Labels(parent, rank, size)
  {
  }

  /** The tree of every vertex agrees with its connected component: the
      top of the tree lies in the component, and each component (named by
      its root comp[.]) has one tree, whose top rep records. */
  ghost predicate Consistent(blk: seq<int>, pb: seq<int>, comp: seq<int>, rep: seq<int>)
    requires Blocks(blk) && Parents(|blk|, pb) && Acyclic(Ups(blk, pb))
    requires Blocks(comp) && |comp| == |blk| && |rep| == |blk|
  {
    forall x :: 0 <= x < |blk| ==> ConsistentAt(blk, pb, comp, rep, x)
  }

  /** Consistent at vertex x. */
  ghost predicate ConsistentAt(blk: seq<int>, pb: seq<int>, comp: seq<int>, rep: seq<int>, x: int)
    requires Blocks(blk) && Parents(|blk|, pb) && Acyclic(Ups(blk, pb))
    requires Blocks(comp) && |comp| == |blk| && |rep| == |blk| && 0 <= x < |blk|
  {
    comp[TreeOf(blk, pb, x)] == comp[blk[x]] && TreeOf(blk, pb, x) == rep[comp[blk[x]]]
  }

  /** Ties the component label to tree membership: two vertices carry one
      component label (comp) exactly when their blocks are in one tree of
      the block forest. */
  lemma ComponentIsTree(blk: seq<int>, pb: seq<int>, comp: seq<int>, rep: seq<int>, u: int, v: int)
    requires Blocks(blk) && Parents(|blk|, pb) && Acyclic(Ups(blk, pb))
    requires Blocks(comp) && |comp| == |blk| && |rep| == |blk| && Consistent(blk, pb, comp, rep)
    requires 0 <= u < |blk| && 0 <= v < |blk|
    ensures comp[blk[u]] == comp[blk[v]] <==> TreeOf(blk, pb, u) == TreeOf(blk, pb, v)
  {
    assert ConsistentAt(blk, pb, comp, rep, u) && ConsistentAt(blk, pb, comp, rep, v);
  }

  /** Hanging the top r of one component's tree under block t of another
      component, while the union-find of components merges a into s (the
      two components in some order), keeps the forest acyclic and
      consistent; the merged component's tree has t's top. */
  lemma HangConsistent(blk: seq<int>, pb: seq<int>, comp: seq<int>, rep: seq<int>, r: int, t: int,
                       comp2: seq<int>, s: int)
    requires Blocks(blk) && Parents(|blk|, pb) && Acyclic(Ups(blk, pb))
    requires Blocks(comp) && |comp| == |blk| && |rep| == |blk| && Consistent(blk, pb, comp, rep)
    requires 0 <= r < |blk| && blk[r] == r && pb[r] == -1 && 0 <= t < |blk| && blk[t] == t
    requires comp[r] != comp[t] && (s == comp[r] || s == comp[t])
    requires Blocks(comp2) && |comp2| == |blk|
    requires forall y :: 0 <= y < |blk| ==> comp2[y] == if comp[y] == comp[r] || comp[y] == comp[t] then s else comp[y]
    ensures Parents(|blk|, pb[r := t]) && Acyclic(Ups(blk, pb[r := t]))
    ensures Consistent(blk, pb[r := t], comp2, rep[s := rep[comp[t]]])
  {
    var up := Ups(blk, pb);
    PathFacts(up, r);
    PathStep(up, r);
    assert TopOf(up, r) == r;
    assert ConsistentAt(blk, pb, comp, rep, t) && ConsistentAt(blk, pb, comp, rep, r);
    assert TopOf(up, t) == rep[comp[t]] && comp[TopOf(up, t)] == comp[t];
    HangAcyclic(blk, pb, r, t);
    var pb2, rep2 := pb[r := t], rep[s := rep[comp[t]]];
    forall x | 0 <= x < |blk|
      ensures ConsistentAt(blk, pb2, comp2, rep2, x)
    {
      assert ConsistentAt(blk, pb, comp, rep, x);
      HangTopOf(blk, pb, r, t, blk[x]);
    }
  }

  /** The blocks gathered at z all lie in z's component. */
  lemma GatheredComp(blk: seq<int>, pb: seq<int>, comp: seq<int>, rep: seq<int>, M: set<int>, z: int, c: int)
    requires Blocks(blk) && Parents(|blk|, pb) && Acyclic(Ups(blk, pb))
    requires Blocks(comp) && |comp| == |blk| && |rep| == |blk| && Consistent(blk, pb, comp, rep)
    requires Gathered(blk, pb, M, z) && c in M
    ensures comp[c] == comp[z]
  {
    PathSuffixHas(Ups(blk, pb), c, z);
    assert ConsistentAt(blk, pb, comp, rep, c) && ConsistentAt(blk, pb, comp, rep, z);
    assert TreeOf(blk, pb, c) == TreeOf(blk, pb, z);
  }

  /** Condensing the blocks M gathered at z into block m keeps the forest
      acyclic and consistent with the unchanged components; the top of
      z's tree moves to m when it was z. */
  lemma CondenseConsistent(blk: seq<int>, pb: seq<int>, comp: seq<int>, rep: seq<int>,
                           M: set<int>, z: int, blk2: seq<int>, m: int, pb2: seq<int>, rep2: seq<int>)
    requires Blocks(blk) && Parents(|blk|, pb) && Acyclic(Ups(blk, pb))
    requires Blocks(comp) && |comp| == |blk| && |rep| == |blk| && Consistent(blk, pb, comp, rep)
    requires Gathered(blk, pb, M, z) && Merged(blk, blk2, M, m)
    requires pb2 == pb[m := Up(blk, pb, z)] && rep2 == rep[comp[z] := if rep[comp[z]] == z then m else rep[comp[z]]]
    ensures Blocks(blk2) && Parents(|blk2|, pb2) && Acyclic(Ups(blk2, pb2)) && |rep2| == |blk2|
    ensures Consistent(blk2, pb2, comp, rep2)
  {
    CondenseAcyclic(blk, pb, M, z, blk2, m);
    forall x | 0 <= x < |blk|
      ensures ConsistentAt(blk2, pb2, comp, rep2, x)
    {
      CondenseConsistentAt(blk, pb, comp, rep, M, z, blk2, m, x);
    }
  }

  lemma CondenseConsistentAt(blk: seq<int>, pb: seq<int>, comp: seq<int>, rep: seq<int>,
                             M: set<int>, z: int, blk2: seq<int>, m: int, x: int)
    requires Blocks(blk) && Parents(|blk|, pb) && Acyclic(Ups(blk, pb))
    requires Blocks(comp) && |comp| == |blk| && |rep| == |blk| && Consistent(blk, pb, comp, rep)
    requires Gathered(blk, pb, M, z) && Merged(blk, blk2, M, m) && 0 <= x < |blk|
    ensures Blocks(blk2) && Parents(|blk2|, pb[m := Up(blk, pb, z)])
    ensures Acyclic(Ups(blk2, pb[m := Up(blk, pb, z)]))
    ensures ConsistentAt(blk2, pb[m := Up(blk, pb, z)], comp, rep[comp[z] := if rep[comp[z]] == z then m else rep[comp[z]]], x)
  {
    assert ConsistentAt(blk, pb, comp, rep, x) && ConsistentAt(blk, pb, comp, rep, z);
    CondenseTree(blk, pb, M, z, blk2, m, x);
    GatheredComp(blk, pb, comp, rep, M, z, m);
    if blk[x] in M {
      GatheredComp(blk, pb, comp, rep, M, z, blk[x]);
    }
    assert TreeOf(blk, pb, z) == rep[comp[z]];
  }

  /** The parent edges of the blocks s, in order. */
  function EdgesOf(pe: seq<Edge>, s: seq<int>): (r: seq<Edge>)
    ensures |r| == |s|
  {
    if s == [] then []
    else EdgesOf(pe, s[..|s| - 1]) + [if 0 <= s[|s| - 1] < |pe| then pe[s[|s| - 1]] else NullEdge]
  }

  /** The blocks gathered at z are blocks. */
  lemma GatheredRoots(blk: seq<int>, pb: seq<int>, toLink: seq<int>, z: int)
    requires Blocks(blk) && Parents(|blk|, pb) && Acyclic(Ups(blk, pb)) && Gathered(blk, pb, {z} + Elements(toLink), z)
    ensures forall i :: 0 <= i < |toLink| ==> 0 <= toLink[i] < |blk| && blk[toLink[i]] == toLink[i]
  {
    forall i | 0 <= i < |toLink|
      ensures 0 <= toLink[i] < |blk| && blk[toLink[i]] == toLink[i]
    {
      assert toLink[i] in {z} + Elements(toLink);
    }
  }

  /** p is a walk up the forest: distinct blocks, each hanging from the
      next, the last a top. */
  predicate Walk(blk: seq<int>, pb: seq<int>, p: seq<int>)
    requires Blocks(blk) && Parents(|blk|, pb)
  {
    p != [] && Distinct(p) &&
    (forall i :: 0 <= i < |p| ==> 0 <= p[i] < |blk| && blk[p[i]] == p[i]) &&
    (forall i :: 0 <= i < |p| - 1 ==> Up(blk, pb, p[i]) == p[i + 1]) &&
    Up(blk, pb, p[|p| - 1]) == -1
  }

  /** What one step of evert's loop finds at the next block of the walk
      and leaves behind it. */
  lemma WalkStep<E>(blk: seq<int>, pb: seq<int>, pe: seq<E>, p: seq<int>, i: int)
    requires Blocks(blk) && Parents(|blk|, pb) && |pe| == |blk| && Walk(blk, pb, p) && 0 <= i < |p| - 1
    ensures Reversed(pb, p[..i + 1])[p[i + 1]] == pb[p[i + 1]]
    ensures Handed(pe, p[..i + 1])[p[i + 1]] == pe[p[i + 1]]
    ensures Reversed(pb, p[..i + 2]) == Reversed(pb, p[..i + 1])[p[i + 1] := p[i]]
    ensures Handed(pe, p[..i + 2]) == Handed(pe, p[..i + 1])[p[i + 1] := pe[p[i]]]
    ensures Up(blk, pb, p[i + 1]) == if i + 2 < |p| then p[i + 2] else -1
  {
    var q := p[..i + 1];
    forall j | 0 < j < |q|
      ensures q[j] != p[i + 1]
    {
      assert p[j] != p[i + 1];
    }
    ReversedOff(pb, pe, q, p[i + 1]);
    ReversedGrow(pb, pe, p, i);
  }

  /** Where get_parent_bc leads from the block at i on a walk. */
  lemma WalkUp(blk: seq<int>, pb: seq<int>, p: seq<int>, i: int)
    requires Blocks(blk) && Parents(|blk|, pb) && Walk(blk, pb, p) && 0 <= i < |p|
    ensures Up(blk, pb, p[i]) == if i + 1 < |p| then p[i + 1] else -1
  {
  }

  /** One step of a gathering walk: the next block, and the prefix and its
      parent edges grown by one. */
  lemma GatherStep(blk: seq<int>, pb: seq<int>, pe: seq<Edge>, p: seq<int>, i: int)
    requires Blocks(blk) && Parents(|blk|, pb) && |pe| == |blk| && Walk(blk, pb, p) && 0 <= i < |p| - 1
    ensures Up(blk, pb, p[i]) == p[i + 1] && blk[p[i]] == p[i]
    ensures p[..i + 1] == p[..i] + [p[i]]
    ensures EdgesOf(pe, p[..i + 1]) == EdgesOf(pe, p[..i]) + [pe[blk[p[i]]]]
  {
    assert p[..i + 1][..i] == p[..i];
  }

  /** The path from a block is such a walk. */
  lemma PathWalk(blk: seq<int>, pb: seq<int>, b: int)
    requires Blocks(blk) && Parents(|blk|, pb) && Acyclic(Ups(blk, pb)) && 0 <= b < |blk| && blk[b] == b
    ensures Walk(blk, pb, Path(Ups(blk, pb), b))
  {
    PathFacts(Ups(blk, pb), b);
    PathBlocks(blk, pb, b);
  }

  /** Apart vertices with nothing hung form a consistent forest. */
  lemma Initially(blk: seq<int>, comp: seq<int>)
    requires |comp| == |blk| && forall x :: 0 <= x < |blk| ==> blk[x] == x && comp[x] == x
    ensures Blocks(blk) && Blocks(comp) && Parents(|blk|, seq(|blk|, _ => -1))
    ensures Acyclic(Ups(blk, seq(|blk|, _ => -1)))
    ensures Consistent(blk, seq(|blk|, _ => -1), comp, seq(|blk|, x => x))
  {
    var pb := seq(|blk|, _ => -1);
    var up := Ups(blk, pb);
    forall x | 0 <= x < |blk|
      ensures Top(up, x, |blk|)
    {
      assert up[x] == -1;
    }
    forall x | 0 <= x < |blk|
      ensures TopOf(up, x) == x
    {
      PathStep(up, x);
    }
  }

  /** Evert re-roots one tree at b, which becomes that component's top. */
  lemma EvertConsistent(blk: seq<int>, pb: seq<int>, comp: seq<int>, rep: seq<int>, b: int)
    requires Blocks(blk) && Parents(|blk|, pb) && Acyclic(Ups(blk, pb))
    requires Blocks(comp) && |comp| == |blk| && |rep| == |blk| && Consistent(blk, pb, comp, rep)
    requires 0 <= b < |blk| && blk[b] == b
    ensures var pb' := Everted(pb, Path(Ups(blk, pb), b));
      Parents(|blk|, pb') && Acyclic(Ups(blk, pb')) && Consistent(blk, pb', comp, rep[comp[b] := b])
  {
    var up := Ups(blk, pb);
    var pb' := Everted(pb, Path(up, b));
    EvertAcyclic(blk, pb, b);
    var rep' := rep[comp[b] := b];
    var T := TopOf(up, b);
    assert ConsistentAt(blk, pb, comp, rep, b);
    assert TreeOf(blk, pb, b) == T;
    forall x | 0 <= x < |blk|
      ensures ConsistentAt(blk, pb', comp, rep', x)
    {
      assert ConsistentAt(blk, pb, comp, rep, x);
      EvertTopOf(blk, pb, b, blk[x]);
      if TreeOf(blk, pb, x) != T {
        assert comp[blk[x]] != comp[b];
      }
    }
  }

  /** A second write to one index hides the first. */
  lemma Overwrite<T>(s: seq<T>, i: int, x: T, y: T)
    requires 0 <= i < |s|
    ensures s[i := x][i := y] == s[i := y]
  {
  }

  /** No block is marked. */
  predicate Unmarked(visited: seq<bool>)
  {
    forall x :: 0 <= x < |visited| ==> !visited[x]
  }

  /** The marked blocks are exactly those on s or on t. */
  ghost predicate Marks(visited: seq<bool>, s: seq<int>, t: seq<int>) {
    forall x :: 0 <= x < |visited| ==> (visited[x] <==> x in s || x in t)
  }

  /** Marking the next block on the first walker's path. */
  lemma MarkFirst(visited: seq<bool>, p: seq<int>, k: int, t: seq<int>)
    requires 0 <= k < |p| && 0 <= p[k] < |visited| && Marks(visited, p[..k], t)
    ensures Marks(visited[p[k] := true], p[..k + 1], t)
  {
    assert p[..k + 1] == p[..k] + [p[k]];
  }

  /** Marking the next block on the second walker's path. */
  lemma MarkSecond(visited: seq<bool>, s: seq<int>, q: seq<int>, l: int)
    requires 0 <= l < |q| && 0 <= q[l] < |visited| && Marks(visited, s, q[..l])
    ensures Marks(visited[q[l] := true], s, q[..l + 1])
  {
    assert q[..l + 1] == q[..l] + [q[l]];
  }

  /** parent_bc and parent_edge once evert(a) has made a the top of its
      tree and a has been hung from b by the edge e. */
  ghost predicate Rehung(blk: seq<int>, pb0: seq<int>, pe0: seq<Edge>, a: int, b: int, e: Edge,
                         pb: seq<int>, pe: seq<Edge>)
    requires Blocks(blk) && Parents(|blk|, pb0) && Acyclic(Ups(blk, pb0)) && |pe0| == |blk| && 0 <= a < |blk|
  {
    var p := Path(Ups(blk, pb0), a);
    pb == Everted(pb0, p)[a := b] && pe == Handed(pe0, p)[a := e]
  }

  /** The outcome of closing the cycle through the blocks a and b of one
      tree: removed holds the parent edges on the two paths below their
      lowest common ancestor z, every block of the cycle is merged into m,
      and m hangs where z hung, by the edge z hung by. */
  ghost predicate Condensed(blk0: seq<int>, pb0: seq<int>, pe0: seq<Edge>, a: int, b: int,
                            blk: seq<int>, pb: seq<int>, pe: seq<Edge>, m: int, removed: seq<Edge>)
    requires Blocks(blk0) && Parents(|blk0|, pb0) && Acyclic(Ups(blk0, pb0)) && |pe0| == |blk0|
    requires 0 <= a < |blk0| && 0 <= b < |blk0| && TopOf(Ups(blk0, pb0), a) == TopOf(Ups(blk0, pb0), b)
  {
    var up := Ups(blk0, pb0);
    var p, q, z := Path(up, a), Path(up, b), Lca(up, a, b);
    0 <= m < |blk0| &&
    removed == EdgesOf(pe0, Before(p, q)) + EdgesOf(pe0, Before(q, p)) &&
    Merged(blk0, blk, Cycle(up, a, b), m) &&
    pb == pb0[m := Up(blk0, pb0, z)] && pe == pe0[m := pe0[z]]
  }

  class BridgeComponents {
    const size: int
    const components: UnionFind
    const blocks: UnionFind
    var parentBc: seq<int>
    var parentEdge: seq<Edge>
    var visited: seq<bool>
    /** The top of each component's tree, by the component's root. */
    ghost var rep: seq<int>

    /** The block of every vertex. */
    ghost function Blk(): seq<int>
      reads blocks
      requires blocks.Valid() && blocks.size == size && size >= 0
    {
      Labels(blocks.parent, blocks.rank, size)
    }

    /** The connected component of every block. */
    ghost function Comp(): seq<int>
      reads components
      requires components.Valid() && components.size == size && size >= 0
    {
      Labels(components.parent, components.rank, size)
    }

    /** The vectors have one entry per vertex and both union-finds are over
        the vertices. */
    ghost predicate Wf()
      reads this, components, blocks
    {
      components != blocks && size >= 0 &&
      components.Valid() && blocks.Valid() && components.size == size && blocks.size == size &&
      Parents(size, parentBc) && |parentEdge| == size && |visited| == size && |rep| == size
    }

    /** The blocks form a forest whose trees are the components, and no
        block is marked between calls. */
    ghost predicate Valid()
      reads this, components, blocks
    {
      Wf() && Acyclic(Ups(Blk(), parentBc)) && Unmarked(visited) &&
      Consistent(Blk(), parentBc, Comp(), rep)
    }

    /** IncrementalBridgeConnComponents(size): every vertex its own block
        and its own component, no block hung from another. */
    constructor (size: int)
      requires size >= 0
      ensures Valid() && this.size == size && fresh(components) && fresh(blocks)
      ensures forall x :: 0 <= x < size ==> Blk()[x] == x && Comp()[x] == x
      ensures parentBc == seq(size, _ => -1) && parentEdge == seq(size, _ => NullEdge)
    {
      this.size := size;
      components := new UnionFind(size);
      blocks := new UnionFind(size);
      parentBc := seq(size, _ => -1);
      parentEdge := seq(size, _ => NullEdge);
      visited := seq(size, _ => false);
      rep := seq(size, x => x);
      new;
      Initially(Blk(), Comp());
    }

    /** get_parent_edge(u): the edge u's block hangs by. */
    method GetParentEdge(u: int) returns (e: Edge)
      requires Wf() && 0 <= u < size
      modifies blocks
      ensures Wf() && Blk() == old(Blk()) && unchanged(components)
      ensures e == parentEdge[Blk()[u]]
    {
      ghost var p0 := blocks.parent;
      var r := blocks.Root(u);
      SameLabels(p0, blocks.parent, blocks.rank, size);
      e := parentEdge[r];
    }

    /** get_parent_bc(u): the block u's block hangs from, or -1. */
    method GetParentBc(u: int) returns (p: int)
      requires Wf() && 0 <= u < size
      modifies blocks
      ensures Wf() && Blk() == old(Blk()) && unchanged(components)
      ensures p == Up(Blk(), parentBc, u)
    {
      ghost var p0 := blocks.parent;
      var r := blocks.Root(u);
      p := parentBc[r];
      if p != -1 {
        p := blocks.Root(p);
      }
      SameLabels(p0, blocks.parent, blocks.rank, size);
    }

    /** The root of u's block (blocks.find(u)). */
    method BlockRoot(u: int) returns (b: int)
      requires Wf() && 0 <= u < size
      modifies blocks
      ensures Wf() && Blk() == old(Blk()) && unchanged(components)
      ensures b == Blk()[u]
    {
      ghost var p0 := blocks.parent;
      b := blocks.Root(u);
      SameLabels(p0, blocks.parent, blocks.rank, size);
    }

    /** component_label(u): the root of the component of u's block. */
    method ComponentLabel(u: int) returns (l: int)
      requires Wf() && 0 <= u < size
      modifies components, blocks
      ensures Wf() && Blk() == old(Blk()) && Comp() == old(Comp())
      ensures l == Comp()[Blk()[u]]
    {
      ghost var p0 := blocks.parent;
      ghost var c0 := components.parent;
      var b := blocks.Label(u);
      l := components.Label(b);
      SameLabels(p0, blocks.parent, blocks.rank, size);
      SameLabels(c0, components.parent, components.rank, size);
    }

    /** same_component(u, v): whether u and v are connected, which is
        whether their blocks lie in one tree. */
    method SameComponent(u: int, v: int) returns (same: bool)
      requires Valid() && 0 <= u < size && 0 <= v < size
      modifies components, blocks
      ensures Valid() && Blk() == old(Blk()) && Comp() == old(Comp())
      ensures same <==> Comp()[Blk()[u]] == Comp()[Blk()[v]]
      ensures same <==> TreeOf(Blk(), parentBc, u) == TreeOf(Blk(), parentBc, v)
    {
      var lu := ComponentLabel(u);
      var lv := ComponentLabel(v);
      same := lu == lv;
      ComponentIsTree(Blk(), parentBc, Comp(), rep, u, v);
    }

    /** same_bridge_conn_component(u, v): whether u and v share a block. */
    method SameBlock(u: int, v: int) returns (same: bool)
      requires Wf() && 0 <= u < size && 0 <= v < size
      modifies blocks
      ensures Wf() && Blk() == old(Blk()) && unchanged(components)
      ensures same <==> Blk()[u] == Blk()[v]
    {
      ghost var p0 := blocks.parent;
      var ru := blocks.Root(u);
      var rv := blocks.Root(v);
      SameLabels(p0, blocks.parent, blocks.rank, size);
      same := ru == rv;
    }
 
    /** evert(u): re-roots the tree of u's block at that block. Walking up
        from it, each block is hung from the one it hung from before by
        the edge that one hung by; u's block becomes the top. */
    method Evert(u: int)
      requires Valid() && 0 <= u < size
      modifies this, blocks
      ensures Valid() && Blk() == old(Blk()) && unchanged(components)
      ensures var b := old(Blk())[u]; var p := Path(old(Ups(Blk(), parentBc)), b);
        parentBc == Everted(old(parentBc), p) &&
        parentEdge == Handed(old(parentEdge), p)[b := NullEdge] &&
        visited == old(visited) && rep == old(rep)[Comp()[b] := b]
    {
      ghost var blk, c := Blk(), Comp();
      ghost var pb0, rep0 := parentBc, rep;
      var b := BlockRoot(u);
      EvertAt(b);
      rep := rep[c[b] := b];
      EvertConsistent(blk, pb0, c, rep0, b);
    }

    /** evert once the root b of u's block is known. */
    method EvertAt(b: int)
      requires Wf() && Acyclic(Ups(Blk(), parentBc)) && 0 <= b < size && Blk()[b] == b
      modifies this, blocks
      ensures Wf() && Blk() == old(Blk()) && visited == old(visited) && rep == old(rep)
      ensures var p := Path(old(Ups(Blk(), parentBc)), b);
        parentBc == Everted(old(parentBc), p) && parentEdge == Handed(old(parentEdge), p)[b := NullEdge]
    {
      ghost var blk, pb0 := Blk(), parentBc;
      ghost var p := Path(Ups(blk, pb0), b);
      PathWalk(blk, pb0, b);
      EvertWalk(b, p);
      parentBc := parentBc[b := -1];
      parentEdge := parentEdge[b := NullEdge];
    }

    /** One step of evert's walk: reads what block par hangs from and by,
        then hangs it from curr by e. */
    method EvertStep(par: int, curr: int, e: Edge) returns (pp: int, pe: Edge)
      requires Wf() && 0 <= par < size && 0 <= curr < size
      modifies this, blocks
      ensures Wf() && Blk() == old(Blk())
      ensures pp == Up(Blk(), old(parentBc), par) && pe == old(parentEdge)[Blk()[par]]
      ensures parentBc == old(parentBc)[par := curr] && parentEdge == old(parentEdge)[par := e]
      ensures visited == old(visited) && rep == old(rep)
    {
      pp := GetParentBc(par);
      pe := GetParentEdge(par);
      parentBc := parentBc[par := curr];
      parentEdge := parentEdge[par := e];
    }

    /** The loop of evert: along the path p from block b, each block after
        the first is hung from the one before it, by that one's old edge. */
    method EvertWalk(b: int, ghost p: seq<int>)
      requires Wf() && Walk(Blk(), parentBc, p) && p[0] == b
      modifies this, blocks
      ensures Wf() && Blk() == old(Blk())
      ensures parentBc == Reversed(old(parentBc), p) && parentEdge == Handed(old(parentEdge), p)
      ensures visited == old(visited) && rep == old(rep)
    {
      ghost var blk := Blk();
      ghost var pb0, pe0 := parentBc, parentEdge;
      var curr := b;
      var e := GetParentEdge(curr);
      var par := GetParentBc(curr);
      ghost var i := 0;
      while par != -1
        invariant Wf() && Blk() == blk && visited == old(visited) && rep == old(rep)
        invariant 0 <= i < |p| && curr == p[i] && e == pe0[p[i]]
        invariant par == if i + 1 < |p| then p[i + 1] else -1
        invariant parentBc == Reversed(pb0, p[..i + 1]) && parentEdge == Handed(pe0, p[..i + 1])
        decreases |p| - i
      {
        WalkStep(blk, pb0, pe0, p, i);
        ghost var pb1 := parentBc;
        var pp, pe := EvertStep(par, curr, e);
        assert Up(blk, pb1, par) == Up(blk, pb0, par);
        e := pe;
        curr := par;
        par := pp;
        i := i + 1;
      }
      assert p[..i + 1] == p;
    }

    /** find_lca(bcu, bcv) for blocks a and b of one tree, corrected: two
        walkers climb from a and b in turns, each marking the block it
        leaves; the first to land on a marked block, or on the block where
        the other walker stands, is at the lowest common ancestor. All
        marks are cleared before it answers. */
    method FindLca(a: int, b: int) returns (lca: int)
      requires Valid() && 0 <= a < size && 0 <= b < size && Blk()[a] == a && Blk()[b] == b
      requires TreeOf(Blk(), parentBc, a) == TreeOf(Blk(), parentBc, b)
      modifies this, blocks
      ensures Valid() && Blk() == old(Blk()) && unchanged(components)
      ensures parentBc == old(parentBc) && parentEdge == old(parentEdge)
      ensures visited == old(visited) && rep == old(rep)
      ensures lca == Lca(Ups(Blk(), parentBc), a, b)
    {
      ghost var marks := visited;
      lca := Climb(a, b);
      visited := seq(size, _ => false);
      assert visited == marks;
    }

    /** The walk of find_lca from blocks a and b of one tree; it leaves
        marks behind. */
    method Climb(a: int, b: int) returns (lca: int)
      requires Wf() && Acyclic(Ups(Blk(), parentBc)) && Unmarked(visited)
      requires 0 <= a < size && 0 <= b < size && Blk()[a] == a && Blk()[b] == b
      requires TopOf(Ups(Blk(), parentBc), a) == TopOf(Ups(Blk(), parentBc), b)
      modifies this, blocks
      ensures Wf() && Blk() == old(Blk()) && parentBc == old(parentBc) && parentEdge == old(parentEdge)
      ensures rep == old(rep) && lca == Lca(Ups(Blk(), parentBc), a, b)
    {
      ghost var blk, pb0 := Blk(), parentBc;
      ghost var P, Q := Path(Ups(blk, pb0), a), Path(Ups(blk, pb0), b);
      ghost var m, n := LcaMeet(Ups(blk, pb0), a, b);
      PathWalk(blk, pb0, a);
      PathWalk(blk, pb0, b);
      var u, v := a, b;
      ghost var i, j := 0, 0;
      assert P[..0] == [] && Q[..0] == [];
      while true
        invariant Wf() && Blk() == old(Blk()) && parentBc == old(parentBc)
        invariant parentEdge == old(parentEdge) && rep == old(rep)
        invariant 0 <= i < |P| && 0 <= j < |Q| && u == P[i] && v == Q[j]
        invariant Marks(visited, P[..i], Q[..j]) && Pending(m, n, i, j)
        decreases |P| - i + |Q| - j
      {
        MeetHere(P, Q, m, n, i, j);
        if u == v {
          lca := u;
          break;
        }
        ghost var i0, j0 := i, j;
        var found;
        u, found, i := FirstWalker(u, v, P, Q, m, n, i, j);
        if found {
          lca := u;
          break;
        }
        v, found, j := SecondWalker(u, v, P, Q, m, n, i, j);
        if found {
          lca := v;
          break;
        }
        if i == i0 && j == j0 {
          MeetAtTop(P, Q, m, n);
        }
      }
    }

    /** The first walker's turn in find_lca, from u == P[i] while the
        second stands on v == Q[j]: unless u is a top it marks u and steps
        up, and it has found the answer if it lands on a marked block or
        on v. */
    method FirstWalker(u: int, v: int, ghost P: seq<int>, ghost Q: seq<int>, ghost m: int, ghost n: int,
                       ghost i: int, ghost j: int) returns (u': int, found: bool, ghost i': int)
      requires Wf() && Walk(Blk(), parentBc, P) && Meet(P, Q, m, n) && Pending(m, n, i, j)
      requires 0 <= i < |P| && 0 <= j < |Q| && u == P[i] && v == Q[j] && u != v
      requires Marks(visited, P[..i], Q[..j])
      modifies this, blocks
      ensures Wf() && Blk() == old(Blk()) && parentBc == old(parentBc)
      ensures parentEdge == old(parentEdge) && rep == old(rep)
      ensures found ==> u' == P[m]
      ensures !found ==> (0 <= i' < |P| && u' == P[i'] && u' != v && Pending(m, n, i', j) &&
                          Marks(visited, P[..i'], Q[..j]) && (i' == i + 1 || i' == i == |P| - 1))
    {
      WalkUp(Blk(), parentBc, P, i);
      ghost var marks := visited;
      u', i', found := u, i, false;
      var pu := StepUp(u);
      if pu != -1 {
        WalkerOne(P, Q, m, n, i, j);
        MarkFirst(marks, P, i, Q[..j]);
        u', i' := pu, i + 1;
        found := visited[u'] || u' == v;
      }
    }

    /** The second walker's turn, from v == Q[j] while the first stands on
        u == P[i]: unless v is a top it marks v and steps up, and it has
        found the answer if it lands on a marked block. */
    method SecondWalker(u: int, v: int, ghost P: seq<int>, ghost Q: seq<int>, ghost m: int, ghost n: int,
                        ghost i: int, ghost j: int) returns (v': int, found: bool, ghost j': int)
      requires Wf() && Walk(Blk(), parentBc, Q) && Meet(P, Q, m, n) && Pending(m, n, i, j)
      requires 0 <= i < |P| && 0 <= j < |Q| && u == P[i] && v == Q[j] && u != v
      requires Marks(visited, P[..i], Q[..j])
      modifies this, blocks
      ensures Wf() && Blk() == old(Blk()) && parentBc == old(parentBc)
      ensures parentEdge == old(parentEdge) && rep == old(rep)
      ensures found ==> v' == P[m]
      ensures !found ==> (0 <= j' < |Q| && v' == Q[j'] && Pending(m, n, i, j') &&
                          Marks(visited, P[..i], Q[..j']) && (j' == j + 1 || j' == j == |Q| - 1))
    {
      WalkUp(Blk(), parentBc, Q, j);
      ghost var marks := visited;
      v', j', found := v, j, false;
      var pv := StepUp(v);
      if pv != -1 {
        WalkerTwo(P, Q, m, n, i, j);
        MarkSecond(marks, P[..i], Q, j);
        v', j' := pv, j + 1;
        found := visited[v'];
        if found {
          MeetHere(P, Q, m, n, m, n);
        }
      }
    }

    /** One walker's move in find_lca: unless block x is a top, mark it
        and answer the block it hangs from; a top is answered by -1. */
    method StepUp(x: int) returns (px: int)
      requires Wf() && 0 <= x < size
      modifies this, blocks
      ensures Wf() && Blk() == old(Blk()) && parentBc == old(parentBc) && parentEdge == old(parentEdge)
      ensures rep == old(rep) && px == Up(Blk(), parentBc, x)
      ensures visited == if px != -1 then old(visited)[x := true] else old(visited)
    {
      px := GetParentBc(x);
      if px != -1 {
        visited := visited[x := true];
      }
    }

    /** The number of vertices in the component of x. */
    ghost function CompSize(x: int): nat
      reads this, components, blocks
      requires Wf() && 0 <= x < size
    {
      ClassSize(Comp(), Comp()[Blk()[x]])
    }

    /** components.get_size(c): the number of vertices whose component is
        c's. */
    method ComponentSize(c: int) returns (s: int)
      requires Wf() && 0 <= c < size
      modifies components
      ensures Wf() && Comp() == old(Comp())
      ensures s == ClassSize(Comp(), Comp()[c])
    {
      ghost var c0 := components.parent;
      s := components.GetSize(c);
      SameLabels(c0, components.parent, components.rank, size);
      assert ClassOf(c0, components.rank, size, Comp()[c]) == set x | 0 <= x < |Comp()| && Comp()[x] == Comp()[c];
    }

    /** link(e): adds the edge e between u = Source(D, e) and
        v = Target(D, e) and returns the edges that stop being bridges.
        Within one block nothing changes; across components the edge
        becomes a bridge (Join); within one tree the edge closes a cycle
        whose bridges are returned (Condense). */
    method Link(D: Records, e: Edge) returns (removed: seq<Edge>)
      requires Valid() && e.id in D && 0 <= Source(D, e) < size && 0 <= Target(D, e) < size
      modifies this, blocks, components
      ensures Valid()
      ensures var u, v := Source(D, e), Target(D, e);
        old(Blk()[u] == Blk()[v]) ==>
          removed == [] && Blk() == old(Blk()) && Comp() == old(Comp()) &&
          parentBc == old(parentBc) && parentEdge == old(parentEdge)
      ensures var u, v := Source(D, e), Target(D, e);
        old(Comp()[Blk()[u]] != Comp()[Blk()[v]]) ==>
          removed == [] && Blk() == old(Blk()) && Comp()[Blk()[u]] == Comp()[Blk()[v]] &&
          (forall y :: 0 <= y < size ==>
            Comp()[y] == if old(Comp())[y] == old(Comp()[Blk()[u]]) || old(Comp())[y] == old(Comp()[Blk()[v]])
                         then Comp()[Blk()[v]] else old(Comp())[y]) &&
          (var flip := old(CompSize(u)) > old(CompSize(v));
           var a, b := if flip then Blk()[v] else Blk()[u], if flip then Blk()[u] else Blk()[v];
           Rehung(old(Blk()), old(parentBc), old(parentEdge), a, b, e, parentBc, parentEdge))
      ensures var u, v := Source(D, e), Target(D, e);
        old(Blk()[u] != Blk()[v] && TreeOf(Blk(), parentBc, u) == TreeOf(Blk(), parentBc, v)) ==>
          Comp() == old(Comp()) && Blk()[u] == Blk()[v] &&
          Condensed(old(Blk()), old(parentBc), old(parentEdge), old(Blk()[u]), old(Blk()[v]),
                    Blk(), parentBc, parentEdge, Blk()[u], removed)
    {
      var u, v := Source(D, e), Target(D, e);
      var sameBlock := SameBlock(u, v);
      if sameBlock {
        return [];
      }
      var sameComp := SameComponent(u, v);
      if !sameComp {
        Join(e, u, v);
        removed := [];
      } else {
        removed := Condense(u, v);
      }
    }

    /** The first case of link: the edge e joins two components. The
        block of the endpoint in the component with fewer elements (u's
        block on a tie) is made the top of its tree and hung from the
        other endpoint's block by e, and the components are merged. */
    method Join(e: Edge, u: int, v: int)
      requires Valid() && 0 <= u < size && 0 <= v < size && Comp()[Blk()[u]] != Comp()[Blk()[v]]
      modifies this, blocks, components
      ensures Valid() && Blk() == old(Blk()) && Comp()[Blk()[u]] == Comp()[Blk()[v]]
      ensures var cu, cv := old(Comp()[Blk()[u]]), old(Comp()[Blk()[v]]);
        forall y :: 0 <= y < size ==>
          Comp()[y] == if old(Comp())[y] == cu || old(Comp())[y] == cv then Comp()[Blk()[v]] else old(Comp())[y]
      ensures var flip := old(CompSize(u)) > old(CompSize(v));
        var a, b := if flip then Blk()[v] else Blk()[u], if flip then Blk()[u] else Blk()[v];
        Rehung(old(Blk()), old(parentBc), old(parentEdge), a, b, e, parentBc, parentEdge)
    {
      var a, b, ca, cb := Pick(u, v);
      HangUnder(e, a, b, ca, cb);
    }

    /** The blocks of u and v and their components, the one in the smaller
        component (u's on a tie) first. */
    method Pick(u: int, v: int) returns (a: int, b: int, ca: int, cb: int)
      requires Wf() && 0 <= u < size && 0 <= v < size
      modifies blocks, components
      ensures Wf() && Blk() == old(Blk()) && Comp() == old(Comp())
      ensures var flip := old(CompSize(u)) > old(CompSize(v));
        a == (if flip then Blk()[v] else Blk()[u]) && b == (if flip then Blk()[u] else Blk()[v])
      ensures ca == Comp()[a] && cb == Comp()[b]
    {
      var bcu := BlockRoot(u);
      var bcv := BlockRoot(v);
      var cu := ComponentLabel(u);
      var cv := ComponentLabel(v);
      var su := ComponentSize(cu);
      var sv := ComponentSize(cv);
      if su > sv {
        a, b, ca, cb := bcv, bcu, cv, cu;
      } else {
        a, b, ca, cb := bcu, bcv, cu, cv;
      }
    }

    /** evert(bcu), then parent_bc[bcu] = bcv, parent_edge[bcu] = e and
        components.link(cu, cv), for the roots bcu and bcv of two blocks in
        different components cu and cv. */
    method HangUnder(e: Edge, bcu: int, bcv: int, cu: int, cv: int)
      requires Valid() && 0 <= bcu < size && 0 <= bcv < size && Blk()[bcu] == bcu && Blk()[bcv] == bcv
      requires cu == Comp()[bcu] && cv == Comp()[bcv] && cu != cv
      modifies this, blocks, components
      ensures Valid() && Blk() == old(Blk()) && (Comp()[bcv] == cu || Comp()[bcv] == cv)
      ensures forall y :: 0 <= y < size ==>
        Comp()[y] == if old(Comp())[y] == cu || old(Comp())[y] == cv then Comp()[bcv] else old(Comp())[y]
      ensures Rehung(old(Blk()), old(parentBc), old(parentEdge), bcu, bcv, e, parentBc, parentEdge)
    {
      ghost var p, pe0 := Path(Ups(Blk(), parentBc), bcu), parentEdge;
      Evert(bcu);
      HangTop(e, bcu, bcv, cu, cv);
      Overwrite(Handed(pe0, p), bcu, NullEdge, e);
    }

    /** The hang itself, once bcu is the top of its tree. */
    method HangTop(e: Edge, bcu: int, bcv: int, cu: int, cv: int)
      requires Valid() && 0 <= bcu < size && 0 <= bcv < size && Blk()[bcu] == bcu && Blk()[bcv] == bcv
      requires cu == Comp()[bcu] && cv == Comp()[bcv] && cu != cv && parentBc[bcu] == -1
      modifies this, components
      ensures Valid() && Blk() == old(Blk()) && (Comp()[bcv] == cu || Comp()[bcv] == cv)
      ensures forall y :: 0 <= y < size ==>
        Comp()[y] == if old(Comp())[y] == cu || old(Comp())[y] == cv then Comp()[bcv] else old(Comp())[y]
      ensures parentBc == old(parentBc)[bcu := bcv] && parentEdge == old(parentEdge)[bcu := e]
    {
      ghost var blk, c, pb1, rep1 := Blk(), Comp(), parentBc, rep;
      var r := Hang(e, bcu, bcv, cu, cv);
      rep := rep[r := rep1[cv]];
      HangConsistent(blk, pb1, c, rep1, bcu, bcv, Comp(), r);
    }

    /** The writes of HangUnder after the evert. */
    method Hang(e: Edge, bcu: int, bcv: int, cu: int, cv: int) returns (r: int)
      requires Wf() && 0 <= bcu < size && 0 <= bcv < size
      requires 0 <= cu < size && 0 <= cv < size && Comp()[cu] == cu && Comp()[cv] == cv && cu != cv
      modifies this, components
      ensures Wf() && Blk() == old(Blk()) && visited == old(visited) && rep == old(rep)
      ensures parentBc == old(parentBc)[bcu := bcv] && parentEdge == old(parentEdge)[bcu := e]
      ensures (r == cu || r == cv) && Comp()[cu] == r && Comp()[cv] == r
      ensures forall y :: 0 <= y < size ==>
        Comp()[y] == if old(Comp())[y] == cu || old(Comp())[y] == cv then r else old(Comp())[y]
    {
      parentBc := parentBc[bcu := bcv];
      parentEdge := parentEdge[bcu := e];
      r := LinkComponents(cu, cv);
    }

    /** components.link(cu, cv) for two different component roots: the
        answer is the surviving root, and the other one's class joins it. */
    method LinkComponents(cu: int, cv: int) returns (r: int)
      requires Wf() && 0 <= cu < size && 0 <= cv < size && Comp()[cu] == cu && Comp()[cv] == cv && cu != cv
      modifies components
      ensures Wf() && (r == cu || r == cv) && Comp()[cu] == r && Comp()[cv] == r
      ensures forall y :: 0 <= y < size ==>
        Comp()[y] == if old(Comp())[y] == cu || old(Comp())[y] == cv then r else old(Comp())[y]
    {
      r := components.Link(cu, cv);
    }

    /** The second case of link: the edge joins two blocks of one tree,
        and so closes a cycle of the tree. The parent edges on the tree
        path between the two blocks stop being bridges and are returned;
        the blocks on that path are merged into one, which hangs where
        their lowest common ancestor hung. */
    method Condense(u: int, v: int) returns (removed: seq<Edge>)
      requires Valid() && 0 <= u < size && 0 <= v < size
      requires TreeOf(Blk(), parentBc, u) == TreeOf(Blk(), parentBc, v)
      modifies this, blocks
      ensures Valid() && unchanged(components) && Blk()[u] == Blk()[v]
      ensures Condensed(old(Blk()), old(parentBc), old(parentEdge), old(Blk()[u]), old(Blk()[v]),
                        Blk(), parentBc, parentEdge, Blk()[u], removed)
    {
      var bcu := BlockRoot(u);
      var bcv := BlockRoot(v);
      var z := FindLca(bcu, bcv);
      ghost var up := Ups(Blk(), parentBc);
      removed := CondenseAt(bcu, bcv, z);
      CycleEnds(up, bcu, bcv);
    }

    /** Condense once the roots a and b of the two blocks and their lowest
        common ancestor z are known. */
    method CondenseAt(a: int, b: int, z: int) returns (removed: seq<Edge>)
      requires Valid() && 0 <= a < size && 0 <= b < size && Blk()[a] == a && Blk()[b] == b
      requires TopOf(Ups(Blk(), parentBc), a) == TopOf(Ups(Blk(), parentBc), b)
      requires z == Lca(Ups(Blk(), parentBc), a, b)
      modifies this, blocks
      ensures Valid() && unchanged(components)
      ensures var up := old(Ups(Blk(), parentBc)); var p, q := Path(up, a), Path(up, b);
        removed == EdgesOf(old(parentEdge), Before(p, q)) + EdgesOf(old(parentEdge), Before(q, p)) &&
        Merged(old(Blk()), Blk(), Cycle(up, a, b), Blk()[z]) &&
        parentBc == old(parentBc)[Blk()[z] := old(Up(Blk(), parentBc, z))] &&
        parentEdge == old(parentEdge)[Blk()[z] := old(parentEdge[z])]
    {
      ghost var up := Ups(Blk(), parentBc);
      var toLink;
      removed, toLink := CycleOf(a, b, z);
      CycleGathered(Blk(), parentBc, a, b);
      CycleParts(up, a, b);
      assert Cycle(up, a, b) == {z} + Elements(toLink);
      CondenseMerge(toLink, z);
    }

    /** The two gathering walks of link, from a and from b up to their
        lowest common ancestor z: the parent edges passed and the blocks
        left, a's walk first. */
    method CycleOf(a: int, b: int, z: int) returns (removed: seq<Edge>, toLink: seq<int>)
      requires Wf() && Acyclic(Ups(Blk(), parentBc))
      requires 0 <= a < size && 0 <= b < size && Blk()[a] == a && Blk()[b] == b
      requires TopOf(Ups(Blk(), parentBc), a) == TopOf(Ups(Blk(), parentBc), b)
      requires z == Lca(Ups(Blk(), parentBc), a, b)
      modifies blocks
      ensures Wf() && Blk() == old(Blk())
      ensures var up := Ups(Blk(), parentBc); var p, q := Path(up, a), Path(up, b);
        removed == EdgesOf(parentEdge, Before(p, q)) + EdgesOf(parentEdge, Before(q, p)) &&
        toLink == Before(p, q) + Before(q, p)
    {
      ghost var up := Ups(Blk(), parentBc);
      ghost var m, n := LcaMeet(up, a, b);
      MeetFirst(Path(up, a), Path(up, b), m, n);
      var e1, l1 := Gather(a, z, m);
      var e2, l2 := Gather(b, z, n);
      removed, toLink := e1 + e2, l1 + l2;
    }

    /** One gathering walk: from block x up to z, which the path from x
        reaches at k; the parent edges passed and the blocks left. */
    method Gather(x: int, z: int, ghost k: int) returns (edges: seq<Edge>, left: seq<int>)
      requires Wf() && Acyclic(Ups(Blk(), parentBc)) && 0 <= x < size && Blk()[x] == x
      requires 0 <= k < |Path(Ups(Blk(), parentBc), x)| && Path(Ups(Blk(), parentBc), x)[k] == z
      modifies blocks
      ensures Wf() && Blk() == old(Blk())
      ensures var p := Path(Ups(Blk(), parentBc), x); left == p[..k] && edges == EdgesOf(parentEdge, p[..k])
    {
      PathWalk(Blk(), parentBc, x);
      edges, left := GatherWalk(x, z, Path(Ups(Blk(), parentBc), x), k);
    }

    /** The loop of a gathering walk along the walk p from x. */
    method GatherWalk(x: int, z: int, ghost p: seq<int>, ghost k: int) returns (edges: seq<Edge>, left: seq<int>)
      requires Wf() && Walk(Blk(), parentBc, p) && p[0] == x && 0 <= k < |p| && p[k] == z
      modifies blocks
      ensures Wf() && Blk() == old(Blk())
      ensures left == p[..k] && edges == EdgesOf(parentEdge, p[..k])
    {
      var bcx := x;
      ghost var i := 0;
      edges, left := [], [];
      while bcx != z
        invariant Wf() && Blk() == old(Blk())
        invariant 0 <= i <= k && bcx == p[i] && left == p[..i] && edges == EdgesOf(parentEdge, p[..i])
        decreases k - i
      {
        GatherStep(Blk(), parentBc, parentEdge, p, i);
        var e, up := StepEdge(bcx);
        edges, left, bcx := edges + [e], left + [bcx], up;
        i := i + 1;
      }
    }

    /** get_parent_edge(x) and get_parent_bc(x). */
    method StepEdge(x: int) returns (e: Edge, px: int)
      requires Wf() && 0 <= x < size
      modifies blocks
      ensures Wf() && Blk() == old(Blk())
      ensures e == parentEdge[Blk()[x]] && px == Up(Blk(), parentBc, x)
    {
      e := GetParentEdge(x);
      px := GetParentBc(x);
    }

    /** The merging loop of link and the writes after it: the blocks of
        toLink are linked with z, and the merged block takes over z's
        parent and parent edge. */
    method CondenseMerge(toLink: seq<int>, z: int)
      requires Valid() && 0 <= z < size && Blk()[z] == z
      requires Gathered(Blk(), parentBc, {z} + Elements(toLink), z)
      modifies this, blocks
      ensures Valid() && unchanged(components)
      ensures Merged(old(Blk()), Blk(), {z} + Elements(toLink), Blk()[z])
      ensures parentBc == old(parentBc)[Blk()[z] := old(Up(Blk(), parentBc, z))]
      ensures parentEdge == old(parentEdge)[Blk()[z] := old(parentEdge[z])]
    {
      ghost var blk, c, pb, rep0 := Blk(), Comp(), parentBc, rep;
      var newz := MergeAndHang(toLink, z);
      rep := rep[c[z] := if rep[c[z]] == z then newz else rep[c[z]]];
      CondenseConsistent(blk, pb, c, rep0, {z} + Elements(toLink), z, Blk(), newz, parentBc, rep);
    }

    /** bczp = get_parent_bc(bcz) and bcze = get_parent_edge(bcz), the
        merging loop, then parent_bc[new_bcz] = bczp and
        parent_edge[new_bcz] = bcze. */
    method MergeAndHang(toLink: seq<int>, z: int) returns (newz: int)
      requires Wf() && Acyclic(Ups(Blk(), parentBc)) && 0 <= z < size && Blk()[z] == z
      requires Gathered(Blk(), parentBc, {z} + Elements(toLink), z)
      modifies this, blocks
      ensures Wf() && Merged(old(Blk()), Blk(), {z} + Elements(toLink), newz) && Blk()[z] == newz
      ensures parentBc == old(parentBc)[newz := old(Up(Blk(), parentBc, z))]
      ensures parentEdge == old(parentEdge)[newz := old(parentEdge[z])]
      ensures visited == old(visited) && rep == old(rep)
    {
      var bcze, bczp := StepEdge(z);
      newz := MergeGathered(toLink, z);
      parentBc := parentBc[newz := bczp];
      parentEdge := parentEdge[newz := bcze];
    }

    /** The merging loop over blocks gathered at z. */
    method MergeGathered(toLink: seq<int>, z: int) returns (newz: int)
      requires Wf() && Acyclic(Ups(Blk(), parentBc)) && 0 <= z < size && Blk()[z] == z
      requires Gathered(Blk(), parentBc, {z} + Elements(toLink), z)
      modifies blocks
      ensures Wf() && Merged(old(Blk()), Blk(), {z} + Elements(toLink), newz) && Blk()[z] == newz
    {
      GatheredRoots(Blk(), parentBc, toLink, z);
      newz := Merge(toLink, z);
    }

    /** The loop for(bcx : to_link) new_bcz = link(bcx, bcz): every block
        of toLink is merged with z's. */
    method Merge(toLink: seq<int>, z: int) returns (newz: int)
      requires Wf() && 0 <= z < size && Blk()[z] == z
      requires forall i :: 0 <= i < |toLink| ==> 0 <= toLink[i] < size && Blk()[toLink[i]] == toLink[i]
      modifies blocks
      ensures Wf() && Merged(old(Blk()), Blk(), {z} + Elements(toLink), newz)
    {
      newz := z;
      ghost var blk0 := Blk();
      for k := 0 to |toLink|
        invariant Wf() && Merged(blk0, Blk(), {z} + Elements(toLink[..k]), newz)
      {
        newz := MergeOne(toLink, k, z, blk0, newz);
      }
      assert toLink[..|toLink|] == toLink;
    }

    /** One round of the merging loop: block x joins the blocks M merged
        into m, z among them. */
    method MergeOne(toLink: seq<int>, k: int, z: int, ghost blk0: seq<int>, m: int) returns (r: int)
      requires Wf() && Blocks(blk0) && |blk0| == size && 0 <= k < |toLink| && 0 <= toLink[k] < size && blk0[toLink[k]] == toLink[k]
      requires Merged(blk0, Blk(), {z} + Elements(toLink[..k]), m) && 0 <= z < size && Blk()[z] == m
      modifies blocks
      ensures Wf() && Merged(blk0, Blk(), {z} + Elements(toLink[..k + 1]), r)
    {
      ghost var blk := Blk();
      r := LinkBlocks(toLink[k], z);
      MergeStep(blk0, blk, {z} + Elements(toLink[..k]), m, toLink[k], Blk(), r);
      assert toLink[..k + 1] == toLink[..k] + [toLink[k]];
    }

    /** bridge_conn_components.link(x, z): the blocks of x and z become
        one, named by the answer. */
    method LinkBlocks(x: int, z: int) returns (r: int)
      requires Wf() && 0 <= x < size && 0 <= z < size
      modifies blocks
      ensures Wf() && (r == old(Blk())[x] || r == old(Blk())[z])
      ensures forall y :: 0 <= y < size ==>
        Blk()[y] == if old(Blk())[y] == old(Blk())[x] || old(Blk())[y] == old(Blk())[z] then r else old(Blk())[y]
    {
      r := blocks.Link(x, z);
    }
  }
}
