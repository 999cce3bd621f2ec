/** src/tdist.hpp, struct UnionFind: disjoint sets over 0..size-1 with path
    compression, union by rank and class sizes. A root r stores r + size in
    parent[r]; every other element stores the index of its parent.

    The forest is described by functions on the three vectors, so that the
    facts about it are lemmas on values; the class below holds the vectors
    as fields and its methods are proved against these functions. */
module DisjointSets {

  /** A prefix grows by the next element. */
  lemma PrefixStep(s: seq<int>, i: int)
    requires 0 <= i < |s|
    ensures forall y :: y in s[..i + 1] <==> y in s[..i] || y == s[i]
  {
    assert s[..i + 1] == s[..i] + [s[i]];
  }

  /** The largest entry of s (0 for the empty sequence). */
  function MaxOf(s: seq<int>): (m: int)
    ensures forall i :: 0 <= i < |s| ==> s[i] <= m
  {
    if s == [] then 0
    else
      var m' := MaxOf(s[..|s| - 1]);
      if s[|s| - 1] > m' then s[|s| - 1] else m'
  }

  /** The shape every reachable state has: a root holds its own index plus
      size, a non-root holds an index in range, and ranks are non-negative
      and strictly increase from a child to its parent (union by rank). */
  predicate Ranked(parent: seq<int>, rank: seq<int>, size: int) {
    |parent| == size && |rank| == size &&
    (forall u :: 0 <= u < size ==> rank[u] >= 0) &&
    (forall u :: 0 <= u < size && parent[u] >= size ==> parent[u] == u + size) &&
    (forall u :: 0 <= u < size && parent[u] < size ==> 0 <= parent[u] && rank[u] < rank[parent[u]])
  }

  /** The root reached by following parent links from u. */
  function RootOf(parent: seq<int>, rank: seq<int>, size: int, u: int): (r: int)
    requires Ranked(parent, rank, size) && 0 <= u < size
    ensures 0 <= r < size && parent[r] >= size
    ensures r == u || rank[u] < rank[r]
    decreases MaxOf(rank) - rank[u]
  {
    if parent[u] >= size then u else RootOf(parent, rank, size, parent[u])
  }

  /** The non-root elements passed on the way from u to its root, in order. */
  function PathOf(parent: seq<int>, rank: seq<int>, size: int, u: int): (path: seq<int>)
    requires Ranked(parent, rank, size) && 0 <= u < size
    ensures forall x :: x in path ==>
      0 <= x < size && parent[x] < size &&
      RootOf(parent, rank, size, x) == RootOf(parent, rank, size, u)
    decreases MaxOf(rank) - rank[u]
  {
    if parent[u] >= size then [] else [u] + PathOf(parent, rank, size, parent[u])
  }

  /** The elements whose root is r. */
  ghost function ClassOf(parent: seq<int>, rank: seq<int>, size: int, r: int): set<int>
    requires Ranked(parent, rank, size)
  {
    set x | 0 <= x < size && RootOf(parent, rank, size, x) == r
  }

  /** Every root's class_size entry counts the elements of its class. */
  ghost predicate SizesCounted(parent: seq<int>, rank: seq<int>, size: int, classSize: seq<int>)
    requires Ranked(parent, rank, size)
  {
    |classSize| == size &&
    forall r :: 0 <= r < size && parent[r] >= size ==>
      classSize[r] == |ClassOf(parent, rank, size, r)|
  }

  /** Two forests over the same ranks that agree on every element's root. */
  predicate SameRoots(parent: seq<int>, parent': seq<int>, rank: seq<int>, size: int)
    requires Ranked(parent, rank, size) && Ranked(parent', rank, size)
  {
    forall x :: 0 <= x < size ==> RootOf(parent', rank, size, x) == RootOf(parent, rank, size, x)
  }

  /** The state the constructor builds: every element is a root of rank 0 in
      a class of size one. */
  lemma InitialForest(size: nat, parent: seq<int>, rank: seq<int>, classSize: seq<int>)
    requires |parent| == size && |rank| == size && |classSize| == size
    requires forall i :: 0 <= i < size ==> parent[i] == i + size && rank[i] == 0 && classSize[i] == 1
    ensures Ranked(parent, rank, size)
    ensures forall x :: 0 <= x < size ==> RootOf(parent, rank, size, x) == x
    ensures SizesCounted(parent, rank, size, classSize)
  {
    forall r | 0 <= r < size
      ensures ClassOf(parent, rank, size, r) == {r}
    {
      var c := ClassOf(parent, rank, size, r);
      assert forall x :: x in c ==> x == r;
      assert r in c;
    }
  }

  lemma {:induction false} RedirectAt(parent: seq<int>, rank: seq<int>, size: int, v: int, r: int, x: int)
    requires Ranked(parent, rank, size) && 0 <= v < size && parent[v] < size
    requires r == RootOf(parent, rank, size, v)
    requires Ranked(parent[v := r], rank, size)
    requires 0 <= x < size
    ensures RootOf(parent[v := r], rank, size, x) == RootOf(parent, rank, size, x)
    decreases MaxOf(rank) - rank[x]
  {
    var p' := parent[v := r];
    if x == v {
      assert p'[r] == parent[r];
    } else if parent[x] < size {
      RedirectAt(parent, rank, size, v, r, parent[x]);
    }
  }

  /** Path compression: pointing a non-root straight at its root keeps the
      shape and every element's root. */
  lemma Redirect(parent: seq<int>, rank: seq<int>, size: int, v: int, r: int)
    requires Ranked(parent, rank, size) && 0 <= v < size && parent[v] < size
    requires r == RootOf(parent, rank, size, v)
    ensures Ranked(parent[v := r], rank, size)
    ensures SameRoots(parent, parent[v := r], rank, size)
  {
    forall x | 0 <= x < size
      ensures RootOf(parent[v := r], rank, size, x) == RootOf(parent, rank, size, x)
    {
      RedirectAt(parent, rank, size, v, r, x);
    }
  }

  lemma SameRootsSameClass(parent: seq<int>, parent': seq<int>, rank: seq<int>, size: int, r: int)
    requires Ranked(parent, rank, size) && Ranked(parent', rank, size)
    requires SameRoots(parent, parent', rank, size)
    ensures ClassOf(parent', rank, size, r) == ClassOf(parent, rank, size, r)
  {
  }

  /** Forests with the same roots have the same classes, so the class sizes
      stay counted. */
  lemma SameRootsSameSizes(parent: seq<int>, parent': seq<int>, rank: seq<int>, size: int, classSize: seq<int>)
    requires Ranked(parent, rank, size) && Ranked(parent', rank, size)
    requires SameRoots(parent, parent', rank, size)
    requires SizesCounted(parent, rank, size, classSize)
    ensures SizesCounted(parent', rank, size, classSize)
  {
    forall r | 0 <= r < size && parent'[r] >= size
      ensures classSize[r] == |ClassOf(parent', rank, size, r)|
    {
      assert RootOf(parent', rank, size, r) == r;
      SameRootsSameClass(parent, parent', rank, size, r);
    }
  }

  /** The ranks after link hangs root a under root b. */
  function LinkedRank(rank: seq<int>, a: int, b: int): (rank': seq<int>)
    requires 0 <= a < |rank| && 0 <= b < |rank|
    ensures |rank'| == |rank|
    ensures rank[a] == rank[b] ==> rank' == rank[b := rank[b] + 1]
    ensures rank[a] != rank[b] ==> rank' == rank
  {
    if rank[a] == rank[b] then rank[b := rank[b] + 1] else rank
  }

  lemma {:induction false} LinkRootsAt(parent: seq<int>, rank: seq<int>, size: int, a: int, b: int, x: int)
    requires Ranked(parent, rank, size)
    requires 0 <= a < size && 0 <= b < size && a != b
    requires parent[a] >= size && parent[b] >= size && rank[a] <= rank[b]
    requires Ranked(parent[a := b], LinkedRank(rank, a, b), size)
    requires 0 <= x < size
    ensures RootOf(parent[a := b], LinkedRank(rank, a, b), size, x) ==
      if RootOf(parent, rank, size, x) == a then b else RootOf(parent, rank, size, x)
    decreases MaxOf(rank) - rank[x]
  {
    var p', rank' := parent[a := b], LinkedRank(rank, a, b);
    if x == a {
      assert RootOf(p', rank', size, b) == b;
    } else if parent[x] < size {
      LinkRootsAt(parent, rank, size, a, b, parent[x]);
    }
  }

  /** Hanging root a of no greater rank under root b keeps the shape, moves
      a's class into b's and leaves every other element's root alone. */
  lemma LinkRoots(parent: seq<int>, rank: seq<int>, size: int, a: int, b: int)
    requires Ranked(parent, rank, size)
    requires 0 <= a < size && 0 <= b < size && a != b
    requires parent[a] >= size && parent[b] >= size && rank[a] <= rank[b]
    ensures Ranked(parent[a := b], LinkedRank(rank, a, b), size)
    ensures forall x :: 0 <= x < size ==>
      RootOf(parent[a := b], LinkedRank(rank, a, b), size, x) ==
        if RootOf(parent, rank, size, x) == a then b else RootOf(parent, rank, size, x)
  {
    var p', rank' := parent[a := b], LinkedRank(rank, a, b);
    forall u | 0 <= u < size && p'[u] < size
      ensures 0 <= p'[u] && rank'[u] < rank'[p'[u]]
    {
      if u != a {
        assert rank'[u] == rank[u];
      }
    }
    forall x | 0 <= x < size
      ensures RootOf(p', rank', size, x) == if RootOf(parent, rank, size, x) == a then b else RootOf(parent, rank, size, x)
    {
      LinkRootsAt(parent, rank, size, a, b, x);
    }
  }

  /** After the link, b's class is the union of the two old classes, so its
      size is the sum of theirs; every other class keeps its size. */
  lemma LinkSizes(parent: seq<int>, rank: seq<int>, size: int, classSize: seq<int>, a: int, b: int)
    requires Ranked(parent, rank, size) && SizesCounted(parent, rank, size, classSize)
    requires 0 <= a < size && 0 <= b < size && a != b
    requires parent[a] >= size && parent[b] >= size && rank[a] <= rank[b]
    ensures Ranked(parent[a := b], LinkedRank(rank, a, b), size)
    ensures SizesCounted(parent[a := b], LinkedRank(rank, a, b), size, classSize[b := classSize[b] + classSize[a]])
  {
    var p', rank', cs' := parent[a := b], LinkedRank(rank, a, b), classSize[b := classSize[b] + classSize[a]];
    LinkRoots(parent, rank, size, a, b);
    var ca, cb := ClassOf(parent, rank, size, a), ClassOf(parent, rank, size, b);
    assert ClassOf(p', rank', size, b) == ca + cb;
    assert ca * cb == {};
    forall r | 0 <= r < size && p'[r] >= size
      ensures cs'[r] == |ClassOf(p', rank', size, r)|
    {
      if r != b {
        assert RootOf(parent, rank, size, r) == r;
        assert ClassOf(p', rank', size, r) == ClassOf(parent, rank, size, r);
      }
    }
  }

  /** The root that survives link: the one of greater rank, and v's root
      (the second) on a tie. */
  function Survivor(rank: seq<int>, ru: int, rv: int): int
    requires 0 <= ru < |rank| && 0 <= rv < |rank|
  {
    if rank[ru] > rank[rv] then ru else rv
  }

  /** The root that link hangs under the survivor. */
  function Loser(rank: seq<int>, ru: int, rv: int): int
    requires 0 <= ru < |rank| && 0 <= rv < |rank|
  {
    if rank[ru] > rank[rv] then rv else ru
  }

  /** The outcome of hanging root a under root b: the ranks and class sizes
      link writes, and every element of a's class now has root b while all
      other elements keep theirs. */
  ghost predicate Hung(parent0: seq<int>, rank0: seq<int>, classSize0: seq<int>,
                       parent: seq<int>, rank: seq<int>, classSize: seq<int>, size: int, a: int, b: int)
  {
    Ranked(parent0, rank0, size) && Ranked(parent, rank, size) &&
    0 <= a < size && 0 <= b < size && |classSize0| == size &&
    rank0[a] <= rank0[b] && rank == LinkedRank(rank0, a, b) &&
    classSize == classSize0[b := classSize0[b] + classSize0[a]] &&
    forall x :: 0 <= x < size ==>
      RootOf(parent, rank, size, x) ==
        if RootOf(parent0, rank0, size, x) == a then b else RootOf(parent0, rank0, size, x)
  }

  /** The values link writes give the outcome Hung describes. */
  lemma HangOutcome(parent: seq<int>, rank: seq<int>, size: int, classSize: seq<int>, a: int, b: int)
    requires Ranked(parent, rank, size) && SizesCounted(parent, rank, size, classSize)
    requires 0 <= a < size && 0 <= b < size && a != b
    requires parent[a] >= size && parent[b] >= size && rank[a] <= rank[b]
    ensures Hung(parent, rank, classSize, parent[a := b], LinkedRank(rank, a, b),
                 classSize[b := classSize[b] + classSize[a]], size, a, b)
    ensures SizesCounted(parent[a := b], LinkedRank(rank, a, b), size, classSize[b := classSize[b] + classSize[a]])
  {
    LinkSizes(parent, rank, size, classSize, a, b);
    LinkRoots(parent, rank, size, a, b);
  }

  /** Compressing paths before the link does not change its outcome. */
  lemma HungAfterCompression(parent0: seq<int>, parent1: seq<int>, rank0: seq<int>, classSize0: seq<int>,
                             parent: seq<int>, rank: seq<int>, classSize: seq<int>, size: int, a: int, b: int)
    requires Ranked(parent0, rank0, size) && Ranked(parent1, rank0, size)
    requires SameRoots(parent0, parent1, rank0, size)
    requires Hung(parent1, rank0, classSize0, parent, rank, classSize, size, a, b)
    ensures Hung(parent0, rank0, classSize0, parent, rank, classSize, size, a, b)
  {
  }

  /** The union-find object; parent, rank and class_size are vectors the
      methods rewrite in place. */
  class UnionFind {
    var size: int
    var parent: seq<int>
    var rank: seq<int>
    var classSize: seq<int>

    ghost predicate Valid()
      reads this
    {
      size >= 0 && Ranked(parent, rank, size) && SizesCounted(parent, rank, size, classSize)
    }

    /** UnionFind(size): all elements apart, parent[i] = i + size, rank 0,
        class size 1. */
    constructor (size: int)
      requires size >= 0
      ensures Valid() && this.size == size
      ensures |parent| == size && |rank| == size && |classSize| == size
      ensures forall i :: 0 <= i < size ==> parent[i] == i + size && rank[i] == 0 && classSize[i] == 1
      ensures forall x :: 0 <= x < size ==> RootOf(parent, rank, size, x) == x
    {
      var p := seq(size, _ => 0);
      var i := 0;
      while i < size
        invariant 0 <= i <= size && |p| == size
        invariant forall j :: 0 <= j < i ==> p[j] == j + size
      {
        p := p[i := i + size];
        i := i + 1;
      }
      this.size := size;
      parent := p;
      rank := seq(size, _ => 0);
      classSize := seq(size, _ => 1);
      new;
      InitialForest(size, parent, rank, classSize);
    }

    /** is_root: the stored value is at least size. */
    predicate IsRoot(u: int)
      reads this
      requires Valid() && 0 <= u < size
      ensures IsRoot(u) <==> RootOf(parent, rank, size, u) == u
    {
      parent[u] >= size
    }

    /** root(u): walks to the root, then points every element passed
        straight at it. The forest keeps its roots, ranks and sizes. */
    method Root(u: int) returns (r: int)
      requires Valid() && 0 <= u < size
      modifies this
      ensures Valid() && size == old(size) && rank == old(rank) && classSize == old(classSize)
      ensures r == RootOf(old(parent), rank, size, u)
      ensures SameRoots(old(parent), parent, rank, size)
      ensures forall x :: 0 <= x < size ==>
        parent[x] == if x in PathOf(old(parent), rank, size, u) then r else old(parent[x])
    {
      var v := u;
      var toCompress: seq<int> := [];
      while !IsRoot(v)
        invariant 0 <= v < size
        invariant toCompress + PathOf(parent, rank, size, v) == PathOf(parent, rank, size, u)
        invariant RootOf(parent, rank, size, v) == RootOf(parent, rank, size, u)
        decreases MaxOf(rank) - rank[v]
      {
        assert PathOf(parent, rank, size, v) == [v] + PathOf(parent, rank, size, parent[v]);
        toCompress := toCompress + [v];
        v := parent[v];
      }
      Compress(toCompress, v, u);
      r := v;
    }

    /** The second loop of root(u): every element of the path from u is
        pointed at u's root v. */
    method Compress(toCompress: seq<int>, v: int, ghost u: int)
      requires Valid() && 0 <= u < size
      requires toCompress == PathOf(parent, rank, size, u) && v == RootOf(parent, rank, size, u)
      modifies this
      ensures Valid() && size == old(size) && rank == old(rank) && classSize == old(classSize)
      ensures SameRoots(old(parent), parent, rank, size)
      ensures forall x :: 0 <= x < size ==> parent[x] == if x in toCompress then v else old(parent[x])
    {
      ghost var p0 := parent;
      var i := 0;
      while i < |toCompress|
        invariant 0 <= i <= |toCompress|
        invariant size == old(size) && rank == old(rank) && classSize == old(classSize)
        invariant Ranked(p0, rank, size) && Ranked(parent, rank, size) && SameRoots(p0, parent, rank, size)
        invariant toCompress == PathOf(p0, rank, size, u) && v == RootOf(p0, rank, size, u)
        invariant forall x :: 0 <= x < size ==> parent[x] == if x in toCompress[..i] then v else p0[x]
      {
        var x := toCompress[i];
        assert x in toCompress;
        assert RootOf(parent, rank, size, x) == v;
        Redirect(parent, rank, size, x, v);
        parent := parent[x := v];
        PrefixStep(toCompress, i);
        i := i + 1;
      }
      assert toCompress[..i] == toCompress;
      SameRootsSameSizes(p0, parent, rank, size, classSize);
    }

    /** get_size(u): the number of elements in u's class. */
    method GetSize(u: int) returns (s: int)
      requires Valid() && 0 <= u < size
      modifies this
      ensures Valid() && size == old(size) && rank == old(rank) && classSize == old(classSize)
      ensures SameRoots(old(parent), parent, rank, size)
      ensures s == |ClassOf(old(parent), rank, size, RootOf(old(parent), rank, size, u))|
    {
      ghost var p0 := parent;
      var r := Root(u);
      s := classSize[r];
      SameRootsSameClass(p0, parent, rank, size, r);
    }

    /** label(u): the stored value of u's root minus size, which is the root
        itself because a root always stores its own index plus size. */
    method Label(u: int) returns (l: int)
      requires Valid() && 0 <= u < size
      modifies this
      ensures Valid() && size == old(size) && rank == old(rank) && classSize == old(classSize)
      ensures SameRoots(old(parent), parent, rank, size)
      ensures l == RootOf(old(parent), rank, size, u)
    {
      var r := Root(u);
      l := parent[r] - size;
    }

    /** find(u, v): whether u and v are in the same class. */
    method Find(u: int, v: int) returns (same: bool)
      requires Valid() && 0 <= u < size && 0 <= v < size
      modifies this
      ensures Valid() && size == old(size) && rank == old(rank) && classSize == old(classSize)
      ensures SameRoots(old(parent), parent, rank, size)
      ensures same <==> RootOf(old(parent), rank, size, u) == RootOf(old(parent), rank, size, v)
    {
      ghost var p0 := parent;
      var ru := Root(u);
      var rv := Root(v);
      assert SameRoots(p0, parent, rank, size);
      same := ru == rv;
    }

    /** link(u, v): with one root, nothing but path compression happens and
        that root is returned. Otherwise the root of greater rank (v's on a
        tie) survives: the other root is hung under it, the class sizes add
        up and the rank grows by one exactly on equal ranks. */
    method Link(u: int, v: int) returns (r: int)
      requires Valid() && 0 <= u < size && 0 <= v < size
      modifies this
      ensures Valid() && size == old(size)
      ensures var ru, rv := RootOf(old(parent), old(rank), size, u), RootOf(old(parent), old(rank), size, v);
        ru == rv ==>
          r == ru && rank == old(rank) && classSize == old(classSize) &&
          SameRoots(old(parent), parent, rank, size)
      ensures var ru, rv := RootOf(old(parent), old(rank), size, u), RootOf(old(parent), old(rank), size, v);
        ru != rv ==>
          r == Survivor(old(rank), ru, rv) &&
          Hung(old(parent), old(rank), old(classSize), parent, rank, classSize, size,
               Loser(old(rank), ru, rv), Survivor(old(rank), ru, rv))
    {
      ghost var p0 := parent;
      var ur, vr := Roots(u, v);
      ghost var p1 := parent;
      if ur == vr {
        return ur;
      }
      if rank[ur] > rank[vr] {
        Hang(vr, ur);
        HungAfterCompression(p0, p1, old(rank), old(classSize), parent, rank, classSize, size, vr, ur);
        r := ur;
      } else {
        Hang(ur, vr);
        HungAfterCompression(p0, p1, old(rank), old(classSize), parent, rank, classSize, size, ur, vr);
        r := vr;
      }
    }

    /** The start of link(u, v): the roots of u and v, found (and their paths
        compressed) one after the other. */
    method Roots(u: int, v: int) returns (ur: int, vr: int)
      requires Valid() && 0 <= u < size && 0 <= v < size
      modifies this
      ensures Valid() && size == old(size) && rank == old(rank) && classSize == old(classSize)
      ensures SameRoots(old(parent), parent, rank, size)
      ensures ur == RootOf(old(parent), rank, size, u) && vr == RootOf(old(parent), rank, size, v)
      ensures parent[ur] >= size && parent[vr] >= size
    {
      ghost var p0 := parent;
      ur := Root(u);
      vr := Root(v);
      assert SameRoots(p0, parent, rank, size);
    }

    /** The end of link(u, v): root a, of no greater rank, is hung under
        root b, which takes over a's class size and, on a tie, grows in rank. */
    method Hang(a: int, b: int)
      requires Valid() && 0 <= a < size && 0 <= b < size && a != b
      requires parent[a] >= size && parent[b] >= size && rank[a] <= rank[b]
      modifies this
      ensures Valid() && size == old(size)
      ensures parent == old(parent)[a := b]
      ensures Hung(old(parent), old(rank), old(classSize), parent, rank, classSize, size, a, b)
    {
      HangOutcome(parent, rank, size, classSize, a, b);
      parent := parent[a := b];
      classSize := classSize[b := classSize[b] + classSize[a]];
      if rank[a] == rank[b] {
        rank := rank[b := rank[b] + 1];
      }
    }
  }
}
