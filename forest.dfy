/** The forest of bridge-connected components that src/tdist.hpp keeps on
    top of two union-finds. Every vertex x lies in a block (the root of its
    class in bridge_conn_components), and up[x] is the block that x's block
    hangs from, or -1: it is get_parent_bc(x). This module states, on
    values, what a walk up the forest visits and how evert, the hanging of
    a tree and the condensing of a cycle change the forest. */
module BlockForest {

  /** Each entry is -1 or a vertex. */
  predicate Shaped(up: seq<int>) {
    forall x :: 0 <= x < |up| ==> -1 <= up[x] < |up|
  }

  /** Following up from x reaches -1 within k steps. */
  predicate Top(up: seq<int>, x: int, k: nat)
    requires Shaped(up) && -1 <= x < |up|
    decreases k
  {
    x == -1 || (k > 0 && Top(up, up[x], k - 1))
  }

  /** One step more for one vertex more. */
  lemma TopStep(up: seq<int>, x: int, k: nat)
    requires Shaped(up) && 0 <= x < |up| && Top(up, up[x], k)
    ensures Top(up, x, k + 1)
  {
  }

  /** The vertices passed from x up to the top of its tree. */
  function Chain(up: seq<int>, x: int, k: nat): (c: seq<int>)
    requires Shaped(up) && -1 <= x < |up| && Top(up, x, k)
    ensures |c| <= k && (x == -1 <==> c == []) && (x != -1 ==> c[0] == x)
    ensures forall i :: 0 <= i < |c| ==> 0 <= c[i] < |up|
    decreases k
  {
    if x == -1 then [] else [x] + Chain(up, up[x], k - 1)
  }

  /** More steps reach -1 as well and pass the same vertices. */
  lemma {:induction false} ChainFuel(up: seq<int>, x: int, k: nat, k': nat)
    requires Shaped(up) && -1 <= x < |up| && Top(up, x, k) && k <= k'
    ensures Top(up, x, k') && Chain(up, x, k') == Chain(up, x, k)
    decreases k
  {
    if x != -1 {
      ChainFuel(up, up[x], k - 1, k' - 1);
    }
  }

  /** A chain steps along up. */
  lemma {:induction false} ChainSteps(up: seq<int>, x: int, k: nat, i: int)
    requires Shaped(up) && -1 <= x < |up| && Top(up, x, k)
    requires 0 <= i < |Chain(up, x, k)|
    ensures var c := Chain(up, x, k);
      (i + 1 < |c| ==> up[c[i]] == c[i + 1]) && (i + 1 == |c| ==> up[c[i]] == -1)
    decreases k
  {
    if i > 0 {
      ChainSteps(up, up[x], k - 1, i - 1);
    }
  }

  /** The chain from a vertex of a chain is the rest of that chain. */
  lemma {:induction false} ChainSuffix(up: seq<int>, x: int, k: nat, i: int)
    requires Shaped(up) && -1 <= x < |up| && Top(up, x, k)
    requires 0 <= i <= |Chain(up, x, k)|
    ensures var c := Chain(up, x, k);
      var y := if i < |c| then c[i] else -1;
      Top(up, y, k - i) && Chain(up, y, k - i) == c[i..]
    decreases k
  {
    if i > 0 {
      ChainSuffix(up, up[x], k - 1, i - 1);
    }
  }

  /** No vertex occurs twice. */
  predicate Distinct(c: seq<int>) {
    forall i, j :: 0 <= i < j < |c| ==> c[i] != c[j]
  }

  /** A chain that reaches -1 never comes back to a vertex it passed. */
  lemma ChainDistinct(up: seq<int>, x: int, k: nat)
    requires Shaped(up) && -1 <= x < |up| && Top(up, x, k)
    ensures Distinct(Chain(up, x, k))
  {
    var c := Chain(up, x, k);
    forall i, j | 0 <= i < j < |c|
      ensures c[i] != c[j]
    {
      NoReturn(up, x, k, i, j);
    }
  }

  lemma NoReturn(up: seq<int>, x: int, k: nat, i: int, j: int)
    requires Shaped(up) && -1 <= x < |up| && Top(up, x, k)
    requires 0 <= i < j < |Chain(up, x, k)|
    ensures Chain(up, x, k)[i] != Chain(up, x, k)[j]
  {
    var c := Chain(up, x, k);
    ChainSuffix(up, x, k, i);
    ChainSuffix(up, x, k, j);
    if c[i] == c[j] {
      ChainFuel(up, c[i], k - j, k - i);
    }
  }

  /** The numbers 0 to n - 1. */
  function Below(n: nat): (s: set<int>)
    ensures |s| == n && forall x :: x in s <==> 0 <= x < n
  {
    if n == 0 then {} else Below(n - 1) + {n - 1}
  }

  /** A sequence of distinct vertices is no longer than the number of
      vertices. */
  lemma {:induction false} Pigeonhole(c: seq<int>, n: nat)
    requires forall i :: 0 <= i < |c| ==> 0 <= c[i] < n
    requires Distinct(c)
    ensures |c| <= n
  {
    var s := set i | 0 <= i < |c| :: c[i];
    assert s <= Below(n);
    DistinctCard(c);
    SubsetCard(s, Below(n));
  }

  lemma {:induction false} DistinctCard(c: seq<int>)
    requires Distinct(c)
    ensures |set i | 0 <= i < |c| :: c[i]| == |c|
  {
    if c != [] {
      var c' := c[..|c| - 1];
      assert Distinct(c');
      DistinctCard(c');
      var s' := set i | 0 <= i < |c'| :: c'[i];
      var s := set i | 0 <= i < |c| :: c[i];
      assert s == s' + {c[|c| - 1]};
      assert c[|c| - 1] !in s';
    }
  }

  lemma SubsetCard(a: set<int>, b: set<int>)
    requires a <= b
    ensures |a| <= |b|
  {
    assert b == a + (b - a);
  }

  /** Reaching -1 at all means reaching it within as many steps as there
      are vertices. */
  lemma TopWithin(up: seq<int>, x: int, k: nat)
    requires Shaped(up) && -1 <= x < |up| && Top(up, x, k)
    ensures Top(up, x, |up|) && Chain(up, x, |up|) == Chain(up, x, k)
  {
    var c := Chain(up, x, k);
    ChainDistinct(up, x, k);
    Pigeonhole(c, |up|);
    ChainShort(up, x, k);
    if |up| <= k {
      ChainFuel(up, x, |c|, |up|);
      ChainFuel(up, x, |c|, k);
    } else {
      ChainFuel(up, x, k, |up|);
    }
  }

  /** As many steps as the chain is long suffice. */
  lemma {:induction false} ChainShort(up: seq<int>, x: int, k: nat)
    requires Shaped(up) && -1 <= x < |up| && Top(up, x, k)
    ensures Top(up, x, |Chain(up, x, k)|) && Chain(up, x, |Chain(up, x, k)|) == Chain(up, x, k)
    decreases k
  {
    if x != -1 {
      ChainShort(up, up[x], k - 1);
    }
  }

  /** No cycle: every walk up reaches -1. */
  predicate Acyclic(up: seq<int>) {
    Shaped(up) && forall x :: 0 <= x < |up| ==> Top(up, x, |up|)
  }

  /** The walk from x to the top of its tree: x first, the top last. */
  function Path(up: seq<int>, x: int): (p: seq<int>)
    requires Acyclic(up) && 0 <= x < |up|
    ensures p != [] && p[0] == x && forall i :: 0 <= i < |p| ==> 0 <= p[i] < |up|
  {
    Chain(up, x, |up|)
  }

  /** The top of x's tree. */
  function TopOf(up: seq<int>, x: int): (t: int)
    requires Acyclic(up) && 0 <= x < |up|
    ensures 0 <= t < |up|
  {
    var p := Path(up, x);
    p[|p| - 1]
  }

  /** One step up: the path from x is x followed by the path from up[x]. */
  lemma PathStep(up: seq<int>, x: int)
    requires Acyclic(up) && 0 <= x < |up|
    ensures up[x] == -1 ==> Path(up, x) == [x] && TopOf(up, x) == x
    ensures up[x] != -1 ==> Path(up, x) == [x] + Path(up, up[x]) && TopOf(up, x) == TopOf(up, up[x])
  {
    assert Top(up, x, |up|);
    ChainFuel(up, up[x], |up| - 1, |up|);
    if up[x] != -1 {
      TopWithin(up, up[x], |up| - 1);
    }
  }

  /** The path from a vertex of a path is the rest of that path. */
  lemma PathSuffix(up: seq<int>, x: int, i: int)
    requires Acyclic(up) && 0 <= x < |up| && 0 <= i < |Path(up, x)|
    ensures Path(up, Path(up, x)[i]) == Path(up, x)[i..]
    ensures TopOf(up, Path(up, x)[i]) == TopOf(up, x)
  {
    ChainSuffix(up, x, |up|, i);
    TopWithin(up, Path(up, x)[i], |up| - i);
  }

  /** The vertices of a path are distinct, and each steps to the next. */
  lemma PathFacts(up: seq<int>, x: int)
    requires Acyclic(up) && 0 <= x < |up|
    ensures var p := Path(up, x);
      Distinct(p) &&
      (forall i :: 0 <= i < |p| - 1 ==> up[p[i]] == p[i + 1]) &&
      up[p[|p| - 1]] == -1
  {
    ChainDistinct(up, x, |up|);
    var p := Path(up, x);
    forall i | 0 <= i < |p|
      ensures (i + 1 < |p| ==> up[p[i]] == p[i + 1]) && (i + 1 == |p| ==> up[p[i]] == -1)
    {
      ChainSteps(up, x, |up|, i);
    }
  }

  /** Two walks that meet go on together: the paths from x and y share the
      vertices they have in common as one common tail. */
  lemma PathsMeet(up: seq<int>, x: int, y: int, a: int, b: int)
    requires Acyclic(up) && 0 <= x < |up| && 0 <= y < |up|
    requires 0 <= a < |Path(up, x)| && 0 <= b < |Path(up, y)| && Path(up, x)[a] == Path(up, y)[b]
    ensures Path(up, x)[a..] == Path(up, y)[b..]
    ensures |Path(up, x)| - a == |Path(up, y)| - b
  {
    PathSuffix(up, x, a);
    PathSuffix(up, y, b);
  }

  // ---------- blocks and the parent_bc vector ----------

  /** blk[x] is the block of x: a vertex that is its own block. */
  predicate Blocks(blk: seq<int>) {
    forall x :: 0 <= x < |blk| ==> 0 <= blk[x] < |blk| && blk[blk[x]] == blk[x]
  }

  /** parent_bc: one entry per vertex, each -1 or a vertex. */
  predicate Parents(n: int, pb: seq<int>) {
    |pb| == n && forall x :: 0 <= x < n ==> -1 <= pb[x] < n
  }

  /** get_parent_bc(x): the block that x's block hangs from, or -1. */
  function Up(blk: seq<int>, pb: seq<int>, x: int): (p: int)
    requires Blocks(blk) && Parents(|blk|, pb) && 0 <= x < |blk|
    ensures -1 <= p < |blk| && (p != -1 ==> blk[p] == p)
  {
    var q := pb[blk[x]];
    if q == -1 then -1 else blk[q]
  }

  /** get_parent_bc for every vertex. */
  function Ups(blk: seq<int>, pb: seq<int>): (up: seq<int>)
    requires Blocks(blk) && Parents(|blk|, pb)
    ensures |up| == |blk| && Shaped(up)
    ensures forall x :: 0 <= x < |blk| ==> up[x] == Up(blk, pb, x)
  {
    seq(|blk|, x requires 0 <= x < |blk| => Up(blk, pb, x))
  }

  /** A vertex hangs from what its block hangs from, and only blocks are
      hung from. */
  lemma UpsBlocks(blk: seq<int>, pb: seq<int>, x: int)
    requires Blocks(blk) && Parents(|blk|, pb) && 0 <= x < |blk|
    ensures Ups(blk, pb)[x] == Ups(blk, pb)[blk[x]]
    ensures Ups(blk, pb)[x] != -1 ==> blk[Ups(blk, pb)[x]] == Ups(blk, pb)[x]
  {
  }

  /** The tree of x's block, named by its top. */
  function TreeOf(blk: seq<int>, pb: seq<int>, x: int): (t: int)
    requires Blocks(blk) && Parents(|blk|, pb) && Acyclic(Ups(blk, pb)) && 0 <= x < |blk|
    ensures 0 <= t < |blk|
  {
    TopOf(Ups(blk, pb), blk[x])
  }

  /** A path from a block passes blocks only. */
  lemma PathBlocks(blk: seq<int>, pb: seq<int>, b: int)
    requires Blocks(blk) && Parents(|blk|, pb) && Acyclic(Ups(blk, pb))
    requires 0 <= b < |blk| && blk[b] == b
    ensures var p := Path(Ups(blk, pb), b); forall i :: 0 <= i < |p| ==> blk[p[i]] == p[i]
    ensures blk[TopOf(Ups(blk, pb), b)] == TopOf(Ups(blk, pb), b)
    ensures Ups(blk, pb)[TopOf(Ups(blk, pb), b)] == -1
  {
    var up := Ups(blk, pb);
    var p := Path(up, b);
    PathFacts(up, b);
    forall i | 0 <= i < |p|
      ensures blk[p[i]] == p[i]
    {
      if i > 0 {
        assert up[p[i - 1]] == p[i];
      }
    }
  }

  // ---------- evert ----------

  /** parent_bc once evert has walked path p from its first block: every
      block of p after the first hangs from the one before it. (A step to
      an entry outside pb is skipped; the paths evert walks have none.) */
  function Reversed(pb: seq<int>, p: seq<int>): (r: seq<int>)
    ensures |r| == |pb|
    decreases |p|
  {
    if |p| <= 1 then pb
    else
      var r := Reversed(pb, p[..|p| - 1]);
      if 0 <= p[|p| - 1] < |r| then r[p[|p| - 1] := p[|p| - 2]] else r
  }

  /** parent_edge once evert has walked path p: every block of p after the
      first takes the edge that the one before it hung by. */
  function Handed<E>(pe: seq<E>, p: seq<int>): (r: seq<E>)
    ensures |r| == |pe|
    decreases |p|
  {
    if |p| <= 1 then pe
    else
      var r := Handed(pe, p[..|p| - 1]);
      if 0 <= p[|p| - 1] < |r| && 0 <= p[|p| - 2] < |pe| then r[p[|p| - 1] := pe[p[|p| - 2]]] else r
  }

  /** One more step of the walk appends one update to each. */
  lemma ReversedGrow<E>(pb: seq<int>, pe: seq<E>, p: seq<int>, i: int)
    requires |pe| == |pb| && forall j :: 0 <= j < |p| ==> 0 <= p[j] < |pb|
    requires 0 <= i < |p| - 1
    ensures Reversed(pb, p[..i + 2]) == Reversed(pb, p[..i + 1])[p[i + 1] := p[i]]
    ensures Handed(pe, p[..i + 2]) == Handed(pe, p[..i + 1])[p[i + 1] := pe[p[i]]]
  {
    assert p[..i + 2][..i + 1] == p[..i + 1];
  }

  /** On a path of distinct blocks, the block at i > 0 now hangs from the
      one at i - 1, by the edge that one hung by. */
  lemma {:induction false} ReversedOn<E>(pb: seq<int>, pe: seq<E>, p: seq<int>, i: int)
    requires |pe| == |pb| && forall j :: 0 <= j < |p| ==> 0 <= p[j] < |pb|
    requires Distinct(p) && 0 < i < |p|
    ensures Reversed(pb, p)[p[i]] == p[i - 1] && Handed(pe, p)[p[i]] == pe[p[i - 1]]
    decreases |p|
  {
    if i < |p| - 1 {
      var q := p[..|p| - 1];
      assert Distinct(q);
      ReversedOn(pb, pe, q, i);
    }
  }

  /** Nothing off the path, and not its first block, moves. */
  lemma {:induction false} ReversedOff<E>(pb: seq<int>, pe: seq<E>, p: seq<int>, x: int)
    requires |pe| == |pb| && forall j :: 0 <= j < |p| ==> 0 <= p[j] < |pb|
    requires 0 <= x < |pb| && forall j :: 0 < j < |p| ==> p[j] != x
    ensures Reversed(pb, p)[x] == pb[x] && Handed(pe, p)[x] == pe[x]
    decreases |p|
  {
    if |p| > 1 {
      ReversedOff(pb, pe, p[..|p| - 1], x);
    }
  }

  /** Evert writes only vertices into parent_bc. */
  lemma {:induction false} ReversedParents(pb: seq<int>, p: seq<int>)
    requires Parents(|pb|, pb) && forall j :: 0 <= j < |p| ==> 0 <= p[j] < |pb|
    ensures Parents(|pb|, Reversed(pb, p))
    decreases |p|
  {
    if |p| > 1 {
      ReversedParents(pb, p[..|p| - 1]);
    }
  }

  /** parent_bc after evert(b), with p the path from block b. */
  function Everted(pb: seq<int>, p: seq<int>): (r: seq<int>)
    requires p != [] && forall i :: 0 <= i < |p| ==> 0 <= p[i] < |pb|
    ensures |r| == |pb|
  {
    Reversed(pb, p)[p[0] := -1]
  }

  /** Evert leaves parent_bc well formed. */
  lemma EvertParents(blk: seq<int>, pb: seq<int>, b: int)
    requires Blocks(blk) && Parents(|blk|, pb) && Acyclic(Ups(blk, pb)) && 0 <= b < |blk|
    ensures Parents(|blk|, Everted(pb, Path(Ups(blk, pb), b)))
  {
    ReversedParents(pb, Path(Ups(blk, pb), b));
  }

  /** What get_parent_bc answers after evert(b) on the path from b: b is a
      top, and every later block hangs from the one before it. */
  lemma EvertOn(blk: seq<int>, pb: seq<int>, b: int, i: int)
    requires Blocks(blk) && Parents(|blk|, pb) && Acyclic(Ups(blk, pb))
    requires 0 <= b < |blk| && blk[b] == b && 0 <= i < |Path(Ups(blk, pb), b)|
    ensures var p := Path(Ups(blk, pb), b);
      Parents(|blk|, Everted(pb, p)) &&
      Up(blk, Everted(pb, p), p[i]) == if i == 0 then -1 else p[i - 1]
  {
    var p := Path(Ups(blk, pb), b);
    EvertParents(blk, pb, b);
    PathFacts(Ups(blk, pb), b);
    PathBlocks(blk, pb, b);
    if i > 0 {
      ReversedOn(pb, pb, p, i);
    }
  }

  /** Blocks off the path from b keep their parent. */
  lemma EvertOff(blk: seq<int>, pb: seq<int>, b: int, x: int)
    requires Blocks(blk) && Parents(|blk|, pb) && Acyclic(Ups(blk, pb))
    requires 0 <= b < |blk| && 0 <= x < |blk| && blk[x] !in Path(Ups(blk, pb), b)
    ensures var p := Path(Ups(blk, pb), b);
      Parents(|blk|, Everted(pb, p)) && Up(blk, Everted(pb, p), x) == Up(blk, pb, x)
  {
    EvertParents(blk, pb, b);
    ReversedOff(pb, pb, Path(Ups(blk, pb), b), blk[x]);
  }

  /** Along the path from b, after evert(b) the block at i reaches the top
      within i + 1 steps, and that top is b. */
  lemma {:induction false} EvertPrefix(blk: seq<int>, pb: seq<int>, b: int, i: int)
    requires Blocks(blk) && Parents(|blk|, pb) && Acyclic(Ups(blk, pb))
    requires 0 <= b < |blk| && blk[b] == b && 0 <= i < |Path(Ups(blk, pb), b)|
    ensures var p := Path(Ups(blk, pb), b);
      var pb' := Everted(pb, p);
      Parents(|blk|, pb') && Top(Ups(blk, pb'), p[i], i + 1)
  {
    var p := Path(Ups(blk, pb), b);
    EvertOn(blk, pb, b, i);
    if i > 0 {
      EvertPrefix(blk, pb, b, i - 1);
    }
  }

  /** After evert(b), whatever reached the top within k steps reaches it
      within k + |p| steps. */
  lemma {:induction false} EvertTop(blk: seq<int>, pb: seq<int>, b: int, x: int, k: nat)
    requires Blocks(blk) && Parents(|blk|, pb) && Acyclic(Ups(blk, pb))
    requires 0 <= b < |blk| && blk[b] == b && -1 <= x < |blk| && Top(Ups(blk, pb), x, k)
    ensures var p := Path(Ups(blk, pb), b);
      var pb' := Everted(pb, p);
      Parents(|blk|, pb') && Top(Ups(blk, pb'), x, k + |p|)
    decreases k
  {
    var up := Ups(blk, pb);
    var p := Path(up, b);
    EvertParents(blk, pb, b);
    var pb' := Everted(pb, p);
    var up' := Ups(blk, pb');
    if x != -1 {
      if blk[x] in p {
        var i :| 0 <= i < |p| && p[i] == blk[x];
        EvertPrefix(blk, pb, b, i);
        UpsBlocks(blk, pb', x);
        assert Top(up', x, i + 1);
        ChainFuel(up', x, i + 1, k + |p|);
      } else {
        EvertOff(blk, pb, b, x);
        EvertTop(blk, pb, b, up[x], k - 1);
      }
    }
  }

  /** evert(b) keeps the forest free of cycles. */
  lemma EvertAcyclic(blk: seq<int>, pb: seq<int>, b: int)
    requires Blocks(blk) && Parents(|blk|, pb) && Acyclic(Ups(blk, pb))
    requires 0 <= b < |blk| && blk[b] == b
    ensures Parents(|blk|, Everted(pb, Path(Ups(blk, pb), b)))
    ensures Acyclic(Ups(blk, Everted(pb, Path(Ups(blk, pb), b))))
  {
    var up := Ups(blk, pb);
    var p := Path(up, b);
    EvertParents(blk, pb, b);
    var up' := Ups(blk, Everted(pb, p));
    forall x | 0 <= x < |blk|
      ensures Top(up', x, |up'|)
    {
      EvertTop(blk, pb, b, x, |up|);
      TopWithin(up', x, |up| + |p|);
    }
  }

  /** After evert(b), the blocks on the path from b have top b. */
  lemma {:induction false} EvertPrefixTop(blk: seq<int>, pb: seq<int>, b: int, i: int)
    requires Blocks(blk) && Parents(|blk|, pb) && Acyclic(Ups(blk, pb))
    requires 0 <= b < |blk| && blk[b] == b && 0 <= i < |Path(Ups(blk, pb), b)|
    ensures var p := Path(Ups(blk, pb), b);
      var pb' := Everted(pb, p);
      Parents(|blk|, pb') && Acyclic(Ups(blk, pb')) && TopOf(Ups(blk, pb'), p[i]) == b
  {
    var p := Path(Ups(blk, pb), b);
    PathBlocks(blk, pb, b);
    EvertAcyclic(blk, pb, b);
    EvertOn(blk, pb, b, i);
    var up' := Ups(blk, Everted(pb, p));
    PathStep(up', p[i]);
    if i > 0 {
      EvertPrefixTop(blk, pb, b, i - 1);
    }
  }

  /** After evert(b), the blocks of b's tree have top b and every other
      block keeps its top. */
  lemma {:induction false} EvertTopOf(blk: seq<int>, pb: seq<int>, b: int, x: int)
    requires Blocks(blk) && Parents(|blk|, pb) && Acyclic(Ups(blk, pb))
    requires 0 <= b < |blk| && blk[b] == b && 0 <= x < |blk| && blk[x] == x
    ensures var up := Ups(blk, pb);
      var pb' := Everted(pb, Path(up, b));
      Parents(|blk|, pb') && Acyclic(Ups(blk, pb')) &&
      TopOf(Ups(blk, pb'), x) == if TopOf(up, x) == TopOf(up, b) then b else TopOf(up, x)
    decreases |Path(Ups(blk, pb), x)|
  {
    var up := Ups(blk, pb);
    var p := Path(up, b);
    EvertAcyclic(blk, pb, b);
    var up' := Ups(blk, Everted(pb, p));
    if x in p {
      var i :| 0 <= i < |p| && p[i] == x;
      EvertPrefixTop(blk, pb, b, i);
      PathSuffix(up, b, i);
    } else {
      EvertOff(blk, pb, b, x);
      PathStep(up, x);
      PathStep(up', x);
      PathFacts(up, b);
      if up[x] != -1 {
        EvertTopOf(blk, pb, b, up[x]);
      }
    }
  }

  // ---------- hanging one tree under another ----------

  /** Every vertex of c has the same parent in both forests. */
  predicate Agree(up: seq<int>, up2: seq<int>, c: seq<int>) {
    forall i :: 0 <= i < |c| ==> 0 <= c[i] < |up| && 0 <= c[i] < |up2| && up2[c[i]] == up[c[i]]
  }

  /** A walk whose every vertex has the same parent in both forests is the
      same walk in both. */
  lemma {:induction false} AgreeTop(up: seq<int>, up2: seq<int>, x: int, k: nat)
    requires Shaped(up) && Shaped(up2) && |up2| == |up| && -1 <= x < |up| && Top(up, x, k)
    requires Agree(up, up2, Chain(up, x, k))
    ensures Top(up2, x, k) && Chain(up2, x, k) == Chain(up, x, k)
    decreases k
  {
    if x != -1 {
      var c := Chain(up, x, k);
      assert up2[c[0]] == up[c[0]];
      assert Chain(up, up[x], k - 1) == c[1..];
      AgreeTop(up, up2, up[x], k - 1);
    }
  }

  /** If every vertex of the new forest keeps its parent or reaches the top
      within K steps, a walk of k steps becomes one of at most k + K. */
  lemma {:induction false} Redirected(up: seq<int>, up2: seq<int>, x: int, k: nat, K: nat)
    requires Shaped(up) && Shaped(up2) && |up2| == |up| && -1 <= x < |up| && Top(up, x, k)
    requires forall y :: 0 <= y < |up| ==> up2[y] == up[y] || Top(up2, y, K)
    ensures Top(up2, x, k + K)
    decreases k
  {
    if x != -1 {
      if Top(up2, x, K) {
        ChainFuel(up2, x, K, k + K);
      } else {
        Redirected(up, up2, up[x], k - 1, K);
        TopStep(up2, x, k - 1 + K);
      }
    }
  }

  /** So such a forest has no cycle either. */
  lemma RedirectedAcyclic(up: seq<int>, up2: seq<int>, K: nat)
    requires Acyclic(up) && Shaped(up2) && |up2| == |up|
    requires forall y :: 0 <= y < |up| ==> up2[y] == up[y] || Top(up2, y, K)
    ensures Acyclic(up2)
  {
    forall x | 0 <= x < |up|
      ensures Top(up2, x, |up2|)
    {
      Redirected(up, up2, x, |up|, K);
      TopWithin(up2, x, |up| + K);
    }
  }

  /** The same, for a whole path: both forests give the same top. */
  lemma AgreeTopOf(up: seq<int>, up2: seq<int>, x: int)
    requires Acyclic(up) && Acyclic(up2) && |up2| == |up| && 0 <= x < |up|
    requires Agree(up, up2, Path(up, x))
    ensures Path(up2, x) == Path(up, x) && TopOf(up2, x) == TopOf(up, x)
  {
    AgreeTop(up, up2, x, |up|);
  }

  /** What get_parent_bc answers once top r is hung under block t. */
  lemma HangUp(blk: seq<int>, pb: seq<int>, r: int, t: int, x: int)
    requires Blocks(blk) && Parents(|blk|, pb)
    requires 0 <= r < |blk| && blk[r] == r && 0 <= t < |blk| && blk[t] == t && 0 <= x < |blk|
    ensures Parents(|blk|, pb[r := t])
    ensures Up(blk, pb[r := t], x) == if blk[x] == r then t else Up(blk, pb, x)
  {
  }

  /** If t's tree is not r's, the path from t never passes r. */
  lemma HangAvoids(blk: seq<int>, pb: seq<int>, r: int, t: int)
    requires Blocks(blk) && Parents(|blk|, pb) && Acyclic(Ups(blk, pb))
    requires 0 <= r < |blk| && blk[r] == r && pb[r] == -1 && 0 <= t < |blk| && blk[t] == t
    requires TopOf(Ups(blk, pb), t) != r
    ensures Parents(|blk|, pb[r := t])
    ensures Agree(Ups(blk, pb), Ups(blk, pb[r := t]), Path(Ups(blk, pb), t))
  {
    var up := Ups(blk, pb);
    var p := Path(up, t);
    PathBlocks(blk, pb, t);
    PathStep(up, r);
    forall i | 0 <= i < |p|
      ensures Ups(blk, pb[r := t])[p[i]] == up[p[i]]
    {
      PathSuffix(up, t, i);
      HangUp(blk, pb, r, t, p[i]);
    }
  }

  /** Hanging keeps the forest free of cycles, within |Path(t)| more steps. */
  lemma {:induction false} HangTop(blk: seq<int>, pb: seq<int>, r: int, t: int, x: int, k: nat)
    requires Blocks(blk) && Parents(|blk|, pb) && Acyclic(Ups(blk, pb))
    requires 0 <= r < |blk| && blk[r] == r && pb[r] == -1 && 0 <= t < |blk| && blk[t] == t
    requires TopOf(Ups(blk, pb), t) != r
    requires -1 <= x < |blk| && Top(Ups(blk, pb), x, k)
    ensures Parents(|blk|, pb[r := t])
    ensures Top(Ups(blk, pb[r := t]), x, k + |Path(Ups(blk, pb), t)| + 1)
    decreases k
  {
    var up := Ups(blk, pb);
    HangAvoids(blk, pb, r, t);
    var up2 := Ups(blk, pb[r := t]);
    var m := |Path(up, t)|;
    if x != -1 {
      HangUp(blk, pb, r, t, x);
      if blk[x] == r {
        AgreeTop(up, up2, t, |up|);
        ChainFuel(up2, t, |up|, k + m + |up|);
        ChainShort(up2, t, |up|);
        ChainFuel(up2, t, m, k + m);
      } else {
        HangTop(blk, pb, r, t, up[x], k - 1);
      }
    }
  }

  /** link's hanging of top r under block t of another tree keeps the
      forest free of cycles. */
  lemma HangAcyclic(blk: seq<int>, pb: seq<int>, r: int, t: int)
    requires Blocks(blk) && Parents(|blk|, pb) && Acyclic(Ups(blk, pb))
    requires 0 <= r < |blk| && blk[r] == r && pb[r] == -1 && 0 <= t < |blk| && blk[t] == t
    requires TopOf(Ups(blk, pb), t) != r
    ensures Parents(|blk|, pb[r := t]) && Acyclic(Ups(blk, pb[r := t]))
  {
    var up := Ups(blk, pb);
    HangAvoids(blk, pb, r, t);
    var up2 := Ups(blk, pb[r := t]);
    forall x | 0 <= x < |blk|
      ensures Top(up2, x, |up2|)
    {
      HangTop(blk, pb, r, t, x, |up|);
      TopWithin(up2, x, |up| + |Path(up, t)| + 1);
    }
  }

  /** After hanging, r's tree has t's top, and every other tree keeps its
      top. */
  lemma {:induction false} HangTopOf(blk: seq<int>, pb: seq<int>, r: int, t: int, x: int)
    requires Blocks(blk) && Parents(|blk|, pb) && Acyclic(Ups(blk, pb))
    requires 0 <= r < |blk| && blk[r] == r && pb[r] == -1 && 0 <= t < |blk| && blk[t] == t
    requires TopOf(Ups(blk, pb), t) != r
    requires 0 <= x < |blk| && blk[x] == x
    ensures Parents(|blk|, pb[r := t]) && Acyclic(Ups(blk, pb[r := t]))
    ensures var up := Ups(blk, pb);
      TopOf(Ups(blk, pb[r := t]), x) == if TopOf(up, x) == r then TopOf(up, t) else TopOf(up, x)
    decreases |Path(Ups(blk, pb), x)|
  {
    var up := Ups(blk, pb);
    HangAcyclic(blk, pb, r, t);
    HangAvoids(blk, pb, r, t);
    var up2 := Ups(blk, pb[r := t]);
    HangUp(blk, pb, r, t, x);
    PathStep(up, x);
    PathStep(up2, x);
    if x == r {
      AgreeTopOf(up, up2, t);
    } else if up[x] != -1 {
      HangTopOf(blk, pb, r, t, up[x]);
    }
  }

  // ---------- condensing a cycle ----------

  /** M is a set of blocks whose paths all pass z, and z is one of them. */
  predicate Gathered(blk: seq<int>, pb: seq<int>, M: set<int>, z: int)
    requires Blocks(blk) && Parents(|blk|, pb) && Acyclic(Ups(blk, pb))
  {
    z in M && forall c :: c in M ==> 0 <= c < |blk| && blk[c] == c && z in Path(Ups(blk, pb), c)
  }

  /** blk2 is blk once all blocks of M are merged into block m of M. */
  predicate Merged(blk: seq<int>, blk2: seq<int>, M: set<int>, m: int) {
    |blk2| == |blk| && m in M &&
    forall x :: 0 <= x < |blk| ==> blk2[x] == if blk[x] in M then m else blk[x]
  }

  /** One round of merge's loop: linking block x with the merged block m
      gives both the survivor r, which then stands for M and x. */
  lemma MergeStep(blk0: seq<int>, blk: seq<int>, M: set<int>, m: int, x: int, blk2: seq<int>, r: int)
    requires Blocks(blk0) && Merged(blk0, blk, M, m) && 0 <= x < |blk0| && blk0[x] == x
    requires |blk2| == |blk0| && (r == blk[x] || r == m)
    requires forall y :: 0 <= y < |blk0| ==> blk2[y] == if blk[y] == blk[x] || blk[y] == m then r else blk[y]
    ensures Merged(blk0, blk2, M + {x}, r)
  {
  }

  /** Nothing above z along its path lies in M. */
  lemma AboveGathered(blk: seq<int>, pb: seq<int>, M: set<int>, z: int, j: int)
    requires Blocks(blk) && Parents(|blk|, pb) && Acyclic(Ups(blk, pb)) && Gathered(blk, pb, M, z)
    requires 0 < j < |Path(Ups(blk, pb), z)|
    ensures Path(Ups(blk, pb), z)[j] !in M
  {
    var up := Ups(blk, pb);
    var p := Path(up, z);
    if p[j] in M {
      PathSuffix(up, z, j);
      PathFacts(up, z);
    }
  }

  /** The merged blocks are blocks. */
  lemma MergedBlocks(blk: seq<int>, pb: seq<int>, M: set<int>, z: int, blk2: seq<int>, m: int)
    requires Blocks(blk) && Parents(|blk|, pb) && Acyclic(Ups(blk, pb)) && Gathered(blk, pb, M, z)
    requires Merged(blk, blk2, M, m)
    ensures Blocks(blk2) && Parents(|blk2|, pb[m := Up(blk, pb, z)])
  {
  }

  /** What get_parent_bc answers once the blocks of M are merged into m,
      which takes over z's parent. */
  lemma CondenseUp(blk: seq<int>, pb: seq<int>, M: set<int>, z: int, blk2: seq<int>, m: int, x: int)
    requires Blocks(blk) && Parents(|blk|, pb) && Acyclic(Ups(blk, pb)) && Gathered(blk, pb, M, z)
    requires Merged(blk, blk2, M, m) && 0 <= x < |blk|
    ensures Blocks(blk2) && Parents(|blk2|, pb[m := Up(blk, pb, z)])
    ensures var up := Ups(blk, pb);
      Up(blk2, pb[m := Up(blk, pb, z)], x) ==
        if blk[x] in M then up[z] else if up[x] != -1 && up[x] in M then m else up[x]
  {
    var up := Ups(blk, pb);
    MergedBlocks(blk, pb, M, z, blk2, m);
    PathFacts(up, z);
    if up[z] != -1 {
      AboveGathered(blk, pb, M, z, 1);
    }
  }

  /** The path above z is the same after condensing. */
  lemma CondenseAbove(blk: seq<int>, pb: seq<int>, M: set<int>, z: int, blk2: seq<int>, m: int)
    requires Blocks(blk) && Parents(|blk|, pb) && Acyclic(Ups(blk, pb)) && Gathered(blk, pb, M, z)
    requires Merged(blk, blk2, M, m) && Ups(blk, pb)[z] != -1
    ensures Blocks(blk2) && Parents(|blk2|, pb[m := Up(blk, pb, z)])
    ensures var up := Ups(blk, pb);
      Agree(up, Ups(blk2, pb[m := Up(blk, pb, z)]), Path(up, up[z]))
  {
    var up := Ups(blk, pb);
    MergedBlocks(blk, pb, M, z, blk2, m);
    var up2 := Ups(blk2, pb[m := Up(blk, pb, z)]);
    var p := Path(up, z);
    PathStep(up, z);
    forall i | 1 <= i < |p|
      ensures up2[p[i]] == up[p[i]]
    {
      CondenseAboveAt(blk, pb, M, z, blk2, m, i);
    }
    assert Path(up, up[z]) == p[1..];
  }

  lemma CondenseAboveAt(blk: seq<int>, pb: seq<int>, M: set<int>, z: int, blk2: seq<int>, m: int, i: int)
    requires Blocks(blk) && Parents(|blk|, pb) && Acyclic(Ups(blk, pb)) && Gathered(blk, pb, M, z)
    requires Merged(blk, blk2, M, m) && 1 <= i < |Path(Ups(blk, pb), z)|
    ensures Blocks(blk2) && Parents(|blk2|, pb[m := Up(blk, pb, z)])
    ensures var up := Ups(blk, pb); var p := Path(up, z);
      Ups(blk2, pb[m := Up(blk, pb, z)])[p[i]] == up[p[i]]
  {
    var up := Ups(blk, pb);
    var p := Path(up, z);
    PathFacts(up, z);
    PathBlocks(blk, pb, z);
    AboveGathered(blk, pb, M, z, i);
    CondenseUp(blk, pb, M, z, blk2, m, p[i]);
    if i + 1 < |p| {
      AboveGathered(blk, pb, M, z, i + 1);
    }
  }

  /** Above z, walks reach the top as before. */
  lemma CondenseAboveTop(blk: seq<int>, pb: seq<int>, M: set<int>, z: int, blk2: seq<int>, m: int)
    requires Blocks(blk) && Parents(|blk|, pb) && Acyclic(Ups(blk, pb)) && Gathered(blk, pb, M, z)
    requires Merged(blk, blk2, M, m)
    ensures Blocks(blk2) && Parents(|blk2|, pb[m := Up(blk, pb, z)])
    ensures Top(Ups(blk2, pb[m := Up(blk, pb, z)]), Up(blk, pb, z), |blk|)
  {
    var up := Ups(blk, pb);
    MergedBlocks(blk, pb, M, z, blk2, m);
    if up[z] != -1 {
      CondenseAbove(blk, pb, M, z, blk2, m);
      AgreeTop(up, Ups(blk2, pb[m := Up(blk, pb, z)]), up[z], |blk|);
    }
  }

  /** In the condensed forest, each vertex either keeps its parent or
      reaches the top within |blk| + 2 steps. */
  lemma CondenseGood(blk: seq<int>, pb: seq<int>, M: set<int>, z: int, blk2: seq<int>, m: int, x: int)
    requires Blocks(blk) && Parents(|blk|, pb) && Acyclic(Ups(blk, pb)) && Gathered(blk, pb, M, z)
    requires Merged(blk, blk2, M, m) && 0 <= x < |blk|
    ensures Blocks(blk2) && Parents(|blk2|, pb[m := Up(blk, pb, z)])
    ensures var up2 := Ups(blk2, pb[m := Up(blk, pb, z)]);
      up2[x] == Ups(blk, pb)[x] || Top(up2, x, |blk| + 2)
  {
    var up := Ups(blk, pb);
    MergedBlocks(blk, pb, M, z, blk2, m);
    var up2 := Ups(blk2, pb[m := Up(blk, pb, z)]);
    var n := |blk|;
    CondenseUp(blk, pb, M, z, blk2, m, x);
    if blk[x] in M {
      CondenseAboveTop(blk, pb, M, z, blk2, m);
      TopStep(up2, x, n);
      ChainFuel(up2, x, n + 1, n + 2);
    } else if up[x] != -1 && up[x] in M {
      CondenseAboveTop(blk, pb, M, z, blk2, m);
      CondenseUp(blk, pb, M, z, blk2, m, m);
      TopStep(up2, m, n);
      TopStep(up2, x, n + 1);
    }
  }

  /** Condensing keeps the forest free of cycles. */
  lemma CondenseAcyclic(blk: seq<int>, pb: seq<int>, M: set<int>, z: int, blk2: seq<int>, m: int)
    requires Blocks(blk) && Parents(|blk|, pb) && Acyclic(Ups(blk, pb)) && Gathered(blk, pb, M, z)
    requires Merged(blk, blk2, M, m)
    ensures Blocks(blk2) && Parents(|blk2|, pb[m := Up(blk, pb, z)])
    ensures Acyclic(Ups(blk2, pb[m := Up(blk, pb, z)]))
  {
    var up := Ups(blk, pb);
    MergedBlocks(blk, pb, M, z, blk2, m);
    var up2 := Ups(blk2, pb[m := Up(blk, pb, z)]);
    forall y | 0 <= y < |blk|
      ensures up2[y] == up[y] || Top(up2, y, |blk| + 2)
    {
      CondenseGood(blk, pb, M, z, blk2, m, y);
    }
    RedirectedAcyclic(up, up2, |blk| + 2);
  }

  /** The merged block's top: z's top, or the merged block itself when z
      was a top. */
  lemma CondenseMergedTop(blk: seq<int>, pb: seq<int>, M: set<int>, z: int, blk2: seq<int>, m: int)
    requires Blocks(blk) && Parents(|blk|, pb) && Acyclic(Ups(blk, pb)) && Gathered(blk, pb, M, z)
    requires Merged(blk, blk2, M, m)
    ensures Blocks(blk2) && Parents(|blk2|, pb[m := Up(blk, pb, z)])
    ensures Acyclic(Ups(blk2, pb[m := Up(blk, pb, z)]))
    ensures var t := TopOf(Ups(blk, pb), z);
      TopOf(Ups(blk2, pb[m := Up(blk, pb, z)]), m) == if t == z then m else t
  {
    var up := Ups(blk, pb);
    CondenseAcyclic(blk, pb, M, z, blk2, m);
    var up2 := Ups(blk2, pb[m := Up(blk, pb, z)]);
    CondenseUp(blk, pb, M, z, blk2, m, m);
    PathStep(up, z);
    PathStep(up2, m);
    if up[z] != -1 {
      CondenseAbove(blk, pb, M, z, blk2, m);
      AgreeTopOf(up, up2, up[z]);
      PathFacts(up, z);
      var p := Path(up, z);
      assert p[|p| - 1] != p[0];
    }
  }

  /** After condensing, a block outside M keeps its top, unless that top
      was z, which the merged block replaces. */
  lemma {:induction false} CondenseTopOf(blk: seq<int>, pb: seq<int>, M: set<int>, z: int, blk2: seq<int>, m: int, x: int)
    requires Blocks(blk) && Parents(|blk|, pb) && Acyclic(Ups(blk, pb)) && Gathered(blk, pb, M, z)
    requires Merged(blk, blk2, M, m) && 0 <= x < |blk| && blk[x] == x && x !in M
    ensures Blocks(blk2) && Parents(|blk2|, pb[m := Up(blk, pb, z)])
    ensures Acyclic(Ups(blk2, pb[m := Up(blk, pb, z)]))
    ensures var t := TopOf(Ups(blk, pb), x);
      TopOf(Ups(blk2, pb[m := Up(blk, pb, z)]), x) == if t == z then m else t
    decreases |Path(Ups(blk, pb), x)|
  {
    var up := Ups(blk, pb);
    CondenseAcyclic(blk, pb, M, z, blk2, m);
    var up2 := Ups(blk2, pb[m := Up(blk, pb, z)]);
    CondenseUp(blk, pb, M, z, blk2, m, x);
    PathStep(up, x);
    PathStep(up2, x);
    if up[x] != -1 {
      if up[x] in M {
        CondenseMergedTop(blk, pb, M, z, blk2, m);
        PathSuffixHas(up, up[x], z);
      } else {
        CondenseTopOf(blk, pb, M, z, blk2, m, up[x]);
      }
    }
  }

  /** A vertex of a path has the path's top. */
  lemma PathSuffixHas(up: seq<int>, x: int, z: int)
    requires Acyclic(up) && 0 <= x < |up| && z in Path(up, x)
    ensures 0 <= z < |up| && TopOf(up, z) == TopOf(up, x)
  {
    var i :| 0 <= i < |Path(up, x)| && Path(up, x)[i] == z;
    PathSuffix(up, x, i);
  }

  /** After condensing, every vertex's tree is named by its old top, or by
      the merged block where that top was z. */
  lemma CondenseTree(blk: seq<int>, pb: seq<int>, M: set<int>, z: int, blk2: seq<int>, m: int, y: int)
    requires Blocks(blk) && Parents(|blk|, pb) && Acyclic(Ups(blk, pb)) && Gathered(blk, pb, M, z)
    requires Merged(blk, blk2, M, m) && 0 <= y < |blk|
    ensures Blocks(blk2) && Parents(|blk2|, pb[m := Up(blk, pb, z)])
    ensures Acyclic(Ups(blk2, pb[m := Up(blk, pb, z)]))
    ensures var t := TreeOf(blk, pb, y);
      TreeOf(blk2, pb[m := Up(blk, pb, z)], y) == if t == z then m else t
  {
    CondenseAcyclic(blk, pb, M, z, blk2, m);
    if blk[y] in M {
      CondenseMergedTop(blk, pb, M, z, blk2, m);
      PathSuffixHas(Ups(blk, pb), blk[y], z);
    } else {
      CondenseTopOf(blk, pb, M, z, blk2, m, blk[y]);
    }
  }

  // ---------- lowest common ancestor ----------

  /** The index of the first element of p that is in q, or |p|. */
  function FirstIn(p: seq<int>, q: seq<int>): (i: nat)
    ensures i <= |p| && (i < |p| ==> p[i] in q) && forall j :: 0 <= j < i ==> p[j] !in q
  {
    if p == [] then 0 else if p[0] in q then 0 else 1 + FirstIn(p[1..], q)
  }

  /** The lowest common ancestor of a and b in one tree: the first block on
      a's way up that is also on b's. */
  function Lca(up: seq<int>, a: int, b: int): (c: int)
    requires Acyclic(up) && 0 <= a < |up| && 0 <= b < |up| && TopOf(up, a) == TopOf(up, b)
    ensures c in Path(up, a) && c in Path(up, b)
  {
    var p, q := Path(up, a), Path(up, b);
    assert p[|p| - 1] in q;
    p[FirstIn(p, q)]
  }

  /** Two walks with a common tail from their first meeting point: what
      lies before that point on either is not on the other, and common
      vertices sit equally far from the meeting point on both. */
  lemma TailsMeet(p: seq<int>, q: seq<int>, i: int, j: int)
    requires Distinct(q) && i == FirstIn(p, q) && 0 <= i < |p| && 0 <= j < |q| && p[i..] == q[j..]
    ensures |p| - i == |q| - j
    ensures forall k :: 0 <= k < |p| ==> (p[k] in q <==> k >= i)
    ensures forall k :: 0 <= k < |q| ==> (q[k] in p <==> k >= j)
    ensures forall k, l :: 0 <= k < |p| && 0 <= l < |q| && p[k] == q[l] ==> k - i == l - j
  {
    assert |p[i..]| == |q[j..]|;
    forall k | 0 <= k < |p| && k >= i
      ensures p[k] == q[j + k - i]
    {
      assert p[k] == p[i..][k - i];
    }
    forall k | 0 <= k < |q| && k >= j
      ensures q[k] in p
    {
      assert q[k] == q[j..][k - j] == p[i + k - j];
    }
  }

  /** Where the lowest common ancestor sits on the two paths: the paths
      from a and b share exactly their tails from there. */
  lemma LcaSplit(up: seq<int>, a: int, b: int) returns (i: int, j: int)
    requires Acyclic(up) && 0 <= a < |up| && 0 <= b < |up| && TopOf(up, a) == TopOf(up, b)
    ensures var p, q := Path(up, a), Path(up, b);
      0 <= i < |p| && 0 <= j < |q| && p[i] == Lca(up, a, b) && q[j] == p[i] &&
      i == FirstIn(p, q) && p[i..] == q[j..] && Path(up, p[i]) == p[i..] && Distinct(p) && Distinct(q)
  {
    var p, q := Path(up, a), Path(up, b);
    i := FirstIn(p, q);
    j :| 0 <= j < |q| && q[j] == p[i];
    PathsMeet(up, a, b, i, j);
    PathSuffix(up, a, i);
    PathFacts(up, a);
    PathFacts(up, b);
  }

  /** The common ancestors of a and b are exactly the ancestors of their
      lowest common ancestor: the blocks on the path from it. */
  lemma LcaLowest(up: seq<int>, a: int, b: int, y: int)
    requires Acyclic(up) && 0 <= a < |up| && 0 <= b < |up| && TopOf(up, a) == TopOf(up, b)
    ensures (y in Path(up, a) && y in Path(up, b)) <==> y in Path(up, Lca(up, a, b))
  {
    var i, j := LcaSplit(up, a, b);
    CommonIsTail(Path(up, a), Path(up, b), i, j, y);
  }

  lemma CommonIsTail(p: seq<int>, q: seq<int>, i: int, j: int, y: int)
    requires i == FirstIn(p, q) && 0 <= i < |p| && 0 <= j < |q| && p[i..] == q[j..]
    ensures (y in p && y in q) <==> y in p[i..]
  {
    if y in p && y in q {
      var k :| 0 <= k < |p| && p[k] == y;
      assert k >= i;
      assert y == p[i..][k - i];
    }
    if y in p[i..] {
      var k :| 0 <= k < |p[i..]| && p[i..][k] == y;
      assert y == p[i + k] && y == q[j..][k] && y == q[j + k];
    }
  }

  // ---------- two walkers ----------

  /** p and q (the paths from a and b) first meet at p[m] == q[n]. */
  predicate Meet(p: seq<int>, q: seq<int>, m: int, n: int) {
    Distinct(p) && Distinct(q) && m == FirstIn(p, q) && 0 <= m < |p| && 0 <= n < |q| && p[m..] == q[n..]
  }

  /** Walkers at p[k] and q[l] that have not yet both passed the meeting
      point: either neither has, or one has and the other has not reached it. */
  predicate Pending(m: int, n: int, k: int, l: int) {
    (k <= m && l <= n) || (k > m && l < n) || (k < m && l > n)
  }

  /** The paths from a and b meet where the lowest common ancestor is. */
  lemma LcaMeet(up: seq<int>, a: int, b: int) returns (m: int, n: int)
    requires Acyclic(up) && 0 <= a < |up| && 0 <= b < |up| && TopOf(up, a) == TopOf(up, b)
    ensures Meet(Path(up, a), Path(up, b), m, n) && Path(up, a)[m] == Lca(up, a, b)
  {
    m, n := LcaSplit(up, a, b);
  }

  /** Pending walkers stand on one block exactly at the meeting point. */
  lemma MeetHere(p: seq<int>, q: seq<int>, m: int, n: int, k: int, l: int)
    requires Meet(p, q, m, n) && Pending(m, n, k, l) && 0 <= k < |p| && 0 <= l < |q|
    ensures p[k] == q[l] <==> k == m && l == n
  {
    TailsMeet(p, q, m, n);
    assert p[m] == p[m..][0];
  }

  /** Both walkers at a top stand on one block. */
  lemma MeetAtTop(p: seq<int>, q: seq<int>, m: int, n: int)
    requires Meet(p, q, m, n)
    ensures p[|p| - 1] == q[|q| - 1]
  {
    TailsMeet(p, q, m, n);
    assert p[|p| - 1] == p[m..][|p| - 1 - m];
  }

  /** The first walker steps from p[k] to p[k + 1], where the blocks of
      p[..k + 1] and q[..l] are marked and the second walker stands on
      q[l]: it finds a marked block or the other walker only at the
      meeting point, and otherwise the walk stays pending. */
  lemma WalkerOne(p: seq<int>, q: seq<int>, m: int, n: int, k: int, l: int)
    requires Meet(p, q, m, n) && Pending(m, n, k, l) && 0 <= k < |p| - 1 && 0 <= l < |q| && p[k] != q[l]
    ensures p[k + 1] !in p[..k + 1]
    ensures p[k + 1] in q[..l] || p[k + 1] == q[l] ==> k + 1 == m
    ensures !(p[k + 1] in q[..l] || p[k + 1] == q[l]) ==> Pending(m, n, k + 1, l)
  {
    TailsMeet(p, q, m, n);
    MeetHere(p, q, m, n, k, l);
    if p[k + 1] in q[..l] || p[k + 1] == q[l] {
      var l' :| 0 <= l' <= l && q[l'] == p[k + 1];
      assert p[k + 1] in q;
    } else if k + 1 == m {
      assert p[m] == p[m..][0] == q[n];
    }
  }

  /** The second walker steps from q[l] to q[l + 1], where the blocks of
      p[..k] and q[..l + 1] are marked: it finds a marked block only at
      the meeting point, and otherwise the walk stays pending. */
  lemma WalkerTwo(p: seq<int>, q: seq<int>, m: int, n: int, k: int, l: int)
    requires Meet(p, q, m, n) && Pending(m, n, k, l) && 0 <= k < |p| && 0 <= l < |q| - 1 && p[k] != q[l]
    ensures q[l + 1] !in q[..l + 1]
    ensures q[l + 1] in p[..k] ==> l + 1 == n
    ensures q[l + 1] !in p[..k] ==> Pending(m, n, k, l + 1)
  {
    TailsMeet(p, q, m, n);
    MeetHere(p, q, m, n, k, l);
    if q[l + 1] in p[..k] {
      var k' :| 0 <= k' < k && p[k'] == q[l + 1];
      assert q[l + 1] in p;
    } else if l + 1 == n {
      assert p[m] == p[m..][0] == q[n];
    }
  }

  // ---------- the cycle an edge inside one tree closes ----------

  /** The blocks of p before it first meets q. */
  function Before(p: seq<int>, q: seq<int>): (s: seq<int>)
    ensures |s| == FirstIn(p, q) && forall i :: 0 <= i < |s| ==> s[i] == p[i]
  {
    p[..FirstIn(p, q)]
  }

  /** The elements of s. */
  function Elements(s: seq<int>): (r: set<int>)
    ensures forall x :: x in r <==> x in s
  {
    if s == [] then {} else Elements(s[..|s| - 1]) + {s[|s| - 1]}
  }

  /** The blocks on the tree path between a and b: those below the lowest
      common ancestor on either side, and the ancestor itself. */
  ghost function Cycle(up: seq<int>, a: int, b: int): set<int>
    requires Acyclic(up) && 0 <= a < |up| && 0 <= b < |up| && TopOf(up, a) == TopOf(up, b)
  {
    var p, q := Path(up, a), Path(up, b);
    {Lca(up, a, b)} + Elements(Before(p, q) + Before(q, p))
  }

  /** Seen from q, the paths first meet at the same block. */
  lemma MeetFirst(p: seq<int>, q: seq<int>, m: int, n: int)
    requires Meet(p, q, m, n)
    ensures n == FirstIn(q, p) && q[n] == p[m]
  {
    TailsMeet(p, q, m, n);
    assert p[m] == p[m..][0];
  }

  /** Every block of the cycle is a block whose path passes the lowest
      common ancestor. */
  lemma CycleGathered(blk: seq<int>, pb: seq<int>, a: int, b: int)
    requires Blocks(blk) && Parents(|blk|, pb) && Acyclic(Ups(blk, pb))
    requires 0 <= a < |blk| && 0 <= b < |blk| && blk[a] == a && blk[b] == b
    requires TopOf(Ups(blk, pb), a) == TopOf(Ups(blk, pb), b)
    ensures Gathered(blk, pb, Cycle(Ups(blk, pb), a, b), Lca(Ups(blk, pb), a, b))
  {
    var up := Ups(blk, pb);
    var p, q := Path(up, a), Path(up, b);
    var m, n := LcaMeet(up, a, b);
    MeetFirst(p, q, m, n);
    var z := Lca(up, a, b);
    BeforePasses(blk, pb, a, m);
    BeforePasses(blk, pb, b, n);
    PassesLater(blk, pb, a, m, m);
    CycleParts(up, a, b);
  }

  /** Both ends lie on the cycle. */
  lemma CycleEnds(up: seq<int>, a: int, b: int)
    requires Acyclic(up) && 0 <= a < |up| && 0 <= b < |up| && TopOf(up, a) == TopOf(up, b)
    ensures a in Cycle(up, a, b) && b in Cycle(up, a, b)
  {
    var p, q := Path(up, a), Path(up, b);
    CycleParts(up, a, b);
    var m, n := LcaMeet(up, a, b);
    MeetFirst(p, q, m, n);
    if m > 0 {
      assert a == p[..m][0];
    }
    if n > 0 {
      assert b == q[..n][0];
    } else {
      assert b == q[n];
    }
  }

  /** What the cycle is made of. */
  lemma CycleParts(up: seq<int>, a: int, b: int)
    requires Acyclic(up) && 0 <= a < |up| && 0 <= b < |up| && TopOf(up, a) == TopOf(up, b)
    ensures var p, q := Path(up, a), Path(up, b);
      forall c :: c in Cycle(up, a, b) <==>
        c == Lca(up, a, b) || c in p[..FirstIn(p, q)] || c in q[..FirstIn(q, p)]
  {
  }

  /** The blocks before k on the path from block x are blocks whose own
      paths pass the block at k. */
  lemma BeforePasses(blk: seq<int>, pb: seq<int>, x: int, k: int)
    requires Blocks(blk) && Parents(|blk|, pb) && Acyclic(Ups(blk, pb)) && 0 <= x < |blk| && blk[x] == x
    requires 0 <= k < |Path(Ups(blk, pb), x)|
    ensures var p := Path(Ups(blk, pb), x);
      forall c :: c in p[..k] ==> 0 <= c < |blk| && blk[c] == c && p[k] in Path(Ups(blk, pb), c)
  {
    var p := Path(Ups(blk, pb), x);
    forall c | c in p[..k]
      ensures 0 <= c < |blk| && blk[c] == c && p[k] in Path(Ups(blk, pb), c)
    {
      var i :| 0 <= i < k && p[..k][i] == c;
      PassesLater(blk, pb, x, i, k);
    }
  }

  /** The block at i on the path from block x is a block, and its own path
      passes the block at k >= i. */
  lemma PassesLater(blk: seq<int>, pb: seq<int>, x: int, i: int, k: int)
    requires Blocks(blk) && Parents(|blk|, pb) && Acyclic(Ups(blk, pb)) && 0 <= x < |blk| && blk[x] == x
    requires 0 <= i <= k < |Path(Ups(blk, pb), x)|
    ensures var p := Path(Ups(blk, pb), x);
      0 <= p[i] < |blk| && blk[p[i]] == p[i] && p[k] in Path(Ups(blk, pb), p[i])
  {
    var up := Ups(blk, pb);
    PathBlocks(blk, pb, x);
    PathSuffix(up, x, i);
    assert Path(up, x)[k] == Path(up, x)[i..][k - i];
  }

  /** find_lca as written: each walker, unless at a top, marks the block it
      leaves and steps up, and stops if it lands on a marked block; the walk
      also stops once both walkers stand on one block. The fuel bounds the
      number of rounds. */
  function FindLcaAsWritten(up: seq<int>, u: int, v: int, visited: seq<bool>, fuel: nat): int
    requires Shaped(up) && |visited| == |up| && 0 <= u < |up| && 0 <= v < |up|
    decreases fuel
  {
    if fuel == 0 then -1
    else
      var moveU := up[u] != -1;
      var visited1 := if moveU then visited[u := true] else visited;
      var u1 := if moveU then up[u] else u;
      if moveU && visited1[u1] then u1
      else
        var moveV := up[v] != -1;
        var visited2 := if moveV then visited1[v := true] else visited1;
        var v1 := if moveV then up[v] else v;
        if moveV && visited2[v1] then v1
        else if u1 == v1 then u1
        else FindLcaAsWritten(up, u1, v1, visited2, fuel - 1)
  }

  /** The forest that link builds from the edges (1,0), (2,1), (3,2), (4,1)
      taken in this order: 1 hangs from 0, 2 from 1, 3 from 2 and 4 from 1. */
  function StarForest(): seq<int> {
    [-1, 0, 1, 2, 1]
  }

  /** A concrete forest, walked by hand. */
  lemma StarForestPaths()
    ensures Acyclic(StarForest())
    ensures Path(StarForest(), 3) == [3, 2, 1, 0] && Path(StarForest(), 4) == [4, 1, 0]
  {
    var up := StarForest();
    assert Chain(up, 0, 1) == [0];
    assert Chain(up, 1, 2) == [1, 0];
    assert Chain(up, 2, 3) == [2, 1, 0];
    assert Chain(up, 3, 4) == [3, 2, 1, 0];
    assert Chain(up, 4, 3) == [4, 1, 0];
    ChainFuel(up, 0, 1, 5);
    ChainFuel(up, 1, 2, 5);
    ChainFuel(up, 2, 3, 5);
    ChainFuel(up, 3, 4, 5);
    ChainFuel(up, 4, 3, 5);
  }

  /** On that forest find_lca(3, 4) as written answers 0: walker 4 leaves 1
      in the same round in which walker 3 arrives there, so neither finds
      1 marked. */
  lemma AsWrittenAnswer()
    ensures FindLcaAsWritten(StarForest(), 3, 4, [false, false, false, false, false], 5) == 0
  {
    var up := StarForest();
    var w0 := [false, false, false, false, false];
    var w1 := [false, false, false, true, true];
    var w2 := [false, true, true, true, true];
    assert FindLcaAsWritten(up, 3, 4, w0, 5) == FindLcaAsWritten(up, 2, 1, w1, 4);
    assert FindLcaAsWritten(up, 2, 1, w1, 4) == FindLcaAsWritten(up, 1, 0, w2, 3);
  }

  /** ... while the lowest common ancestor of 3 and 4 is 1. */
  lemma AsWrittenLcaTooHigh()
    ensures Acyclic(StarForest()) && TopOf(StarForest(), 3) == TopOf(StarForest(), 4)
    ensures FindLcaAsWritten(StarForest(), 3, 4, [false, false, false, false, false], 5) == 0
    ensures Lca(StarForest(), 3, 4) == 1
  {
    StarForestPaths();
    AsWrittenAnswer();
    assert FirstIn([3, 2, 1, 0], [4, 1, 0]) == 2;
  }
}
