/** src/dfs.hpp: the A-ary indexed min-heap of vertices and the Dijkstra
    loop that drives it. The heap's comparison is the lambda the callers
    give it, `dist[a] < dist[b]` over a distance vector owned by the caller;
    each operation therefore takes the current distances as `key`. The
    position map is the caller's std::vector<unsigned>, with the largest
    unsigned value marking a vertex that is not in the heap. */
module Heaps {

  /** not_in_heap: std::numeric_limits<unsigned>::max(). */
  const NotInHeap: int := 0xFFFF_FFFF

  /** The template parameter A: every heap of the program is built with
      A = 4 (src/star_contractions.hpp, src/tdist.hpp, src/paal_glue.hpp). */
  const Arity: int := 4

  /** The index of the parent of position i > 0. */
  function Up(i: int): int
    requires i > 0
  {
    (i - 1) / Arity
  }

  /** Position i's parent is p exactly when i lies in p's block of children
      Arity * p + 1 .. Arity * p + Arity. */
  lemma ChildBlock(i: int, p: int)
    requires i > 0 && p >= 0
    ensures Up(i) == p <==> Arity * p + 1 <= i <= Arity * p + Arity
  {
  }

  /** A parent comes before its children. */
  lemma UpIsBelow(i: int)
    requires i > 0
    ensures 0 <= Up(i) < i
  {
  }

  /** The heap holds vertices of the position map's range, and the position
      map and the data vector are inverse to each other. */
  predicate Indexed(data: seq<int>, pos: seq<int>) {
    (forall i :: 0 <= i < |data| ==> 0 <= data[i] < |pos| && pos[data[i]] == i) &&
    (forall x :: 0 <= x < |pos| && pos[x] != NotInHeap ==> 0 <= pos[x] < |data| && data[pos[x]] == x)
  }

  /** The vertices in the heap. */
  ghost function Members(pos: seq<int>): set<int> {
    set x | 0 <= x < |pos| && pos[x] != NotInHeap
  }

  /** No child is smaller than its parent. */
  predicate Ordered(data: seq<int>, key: seq<int>)
    requires forall i :: 0 <= i < |data| ==> 0 <= data[i] < |key|
  {
    forall i :: 0 < i < |data| ==> key[data[Up(i)]] <= key[data[i]]
  }

  /** Ordered except on the edge from position k to its parent. */
  predicate OrderedBut(data: seq<int>, key: seq<int>, k: int)
    requires forall i :: 0 <= i < |data| ==> 0 <= data[i] < |key|
  {
    forall i :: 0 < i < |data| && i != k ==> key[data[Up(i)]] <= key[data[i]]
  }

  /** Ordered except on the edges from position k to its children. */
  predicate OrderedBelow(data: seq<int>, key: seq<int>, k: int)
    requires forall i :: 0 <= i < |data| ==> 0 <= data[i] < |key|
  {
    forall i :: 0 < i < |data| && Up(i) != k ==> key[data[Up(i)]] <= key[data[i]]
  }

  /** The parent of position k is not above any child of k: the condition
      under which the element at k may be moved past its parent or children
      without breaking another edge. */
  predicate Bridged(data: seq<int>, key: seq<int>, k: int)
    requires forall i :: 0 <= i < |data| ==> 0 <= data[i] < |key|
    requires 0 <= k < |data|
  {
    k > 0 ==> forall i :: 0 < i < |data| && Up(i) == k ==> key[data[Up(k)]] <= key[data[i]]
  }

  /** std::swap of two positions. */
  function Swap(data: seq<int>, i: int, j: int): (d: seq<int>)
    requires 0 <= i < |data| && 0 <= j < |data|
    ensures |d| == |data| && d[i] == data[j] && d[j] == data[i]
    ensures forall k :: 0 <= k < |data| && k != i && k != j ==> d[k] == data[k]
  {
    data[i := data[j]][j := data[i]]
  }

  /** One step of decrease: the element at k, smaller than its parent, is
      swapped with it; the one broken edge moves up to the parent's position. */
  lemma SiftUpStep(data: seq<int>, key: seq<int>, k: int)
    requires forall i :: 0 <= i < |data| ==> 0 <= data[i] < |key|
    requires 0 < k < |data| && OrderedBut(data, key, k) && Bridged(data, key, k)
    requires key[data[k]] < key[data[Up(k)]]
    ensures var d := Swap(data, Up(k), k);
      OrderedBut(d, key, Up(k)) && Bridged(d, key, Up(k))
  {
    var p := Up(k);
    var d := Swap(data, p, k);
    UpIsBelow(k);
    forall i | 0 < i < |d| && i != p
      ensures key[d[Up(i)]] <= key[d[i]]
    {
      UpIsBelow(i);
      if Up(i) == p && i != k {
        assert key[data[p]] <= key[data[i]];
      }
    }
    if p > 0 {
      forall i | 0 < i < |d| && Up(i) == p
        ensures key[d[Up(p)]] <= key[d[i]]
      {
        UpIsBelow(p);
        assert key[data[Up(p)]] <= key[data[p]];
      }
    }
  }

  /** At the start of decrease: a vertex whose key was lowered from an
      ordered heap breaks only the edge to its parent, and bridges it. */
  lemma LoweredKey(data: seq<int>, key0: seq<int>, key: seq<int>, k: int)
    requires |key0| == |key|
    requires forall i :: 0 <= i < |data| ==> 0 <= data[i] < |key|
    requires 0 <= k < |data| && Ordered(data, key0)
    requires key[data[k]] <= key0[data[k]]
    requires forall x :: 0 <= x < |key| && x != data[k] ==> key[x] == key0[x]
    requires forall i :: 0 <= i < |data| && i != k ==> data[i] != data[k]
    ensures OrderedBut(data, key, k) && Bridged(data, key, k)
  {
    forall i | 0 < i < |data| && i != k
      ensures key[data[Up(i)]] <= key[data[i]]
    {
      UpIsBelow(i);
    }
    if k > 0 {
      forall i | 0 < i < |data| && Up(i) == k
        ensures key[data[Up(k)]] <= key[data[i]]
      {
        assert key0[data[Up(k)]] <= key0[data[k]] <= key0[data[i]];
        UpIsBelow(k);
      }
    }
  }

  /** One step of pop's sift-down: the element at k is swapped with its
      least child c, which is smaller; the broken edges move down to c. */
  lemma SiftDownStep(data: seq<int>, key: seq<int>, k: int, c: int)
    requires forall i :: 0 <= i < |data| ==> 0 <= data[i] < |key|
    requires 0 <= k < c < |data| && Up(c) == k
    requires OrderedBelow(data, key, k) && Bridged(data, key, k)
    requires key[data[c]] < key[data[k]]
    requires forall i :: 0 < i < |data| && Up(i) == k ==> key[data[c]] <= key[data[i]]
    ensures var d := Swap(data, k, c);
      OrderedBelow(d, key, c) && Bridged(d, key, c)
  {
    var d := Swap(data, k, c);
    forall i | 0 < i < |d| && Up(i) != c
      ensures key[d[Up(i)]] <= key[d[i]]
    {
      UpIsBelow(i);
      if i == k {
        UpIsBelow(k);
      }
    }
    forall i | 0 < i < |d| && Up(i) == c
      ensures key[d[Up(c)]] <= key[d[i]]
    {
      UpIsBelow(i);
    }
  }

  /** A heap ordered but for an edge that in fact holds is ordered. */
  lemma OrderedWhenEdgeHolds(data: seq<int>, key: seq<int>, k: int)
    requires forall i :: 0 <= i < |data| ==> 0 <= data[i] < |key|
    requires 0 <= k < |data| && OrderedBut(data, key, k)
    requires k > 0 ==> key[data[Up(k)]] <= key[data[k]]
    ensures Ordered(data, key)
  {
  }

  /** The front of an ordered heap is a minimum. */
  lemma {:induction false} FrontIsLeast(data: seq<int>, key: seq<int>, i: int)
    requires forall j :: 0 <= j < |data| ==> 0 <= data[j] < |key|
    requires Ordered(data, key) && 0 <= i < |data|
    ensures key[data[0]] <= key[data[i]]
    decreases i
  {
    if i > 0 {
      UpIsBelow(i);
      FrontIsLeast(data, key, Up(i));
    }
  }

  /** The vertices held are distinct, so there are no more of them than
      entries in the position map. */
  lemma {:induction false} HeldDistinct(data: seq<int>, pos: seq<int>, k: int)
    requires Indexed(data, pos) && 0 <= k <= |data|
    ensures |set i | 0 <= i < k :: data[i]| == k
  {
    if k > 0 {
      HeldDistinct(data, pos, k - 1);
      var s := set i | 0 <= i < k - 1 :: data[i];
      assert data[k - 1] !in s;
      assert (set i | 0 <= i < k :: data[i]) == s + {data[k - 1]};
    }
  }

  /** The positions 0 .. n - 1 as a set. */
  function RangeSet(n: int): (r: set<int>)
    ensures forall x :: x in r <==> 0 <= x < n
    ensures n >= 0 ==> |r| == n
    decreases n
  {
    if n <= 0 then {} else RangeSet(n - 1) + {n - 1}
  }

  /** The heap never holds more vertices than the position map covers. */
  lemma HeapSizeBound(data: seq<int>, pos: seq<int>)
    requires Indexed(data, pos)
    ensures |data| <= |pos|
  {
    HeldDistinct(data, pos, |data|);
    var held, all := set i | 0 <= i < |data| :: data[i], RangeSet(|pos|);
    assert held <= all;
    assert all == held + (all - held);
  }

  /** The heap is indexed, except that the position of x, which sits at k,
      is not yet written: the state inside decrease and pop. */
  predicate IndexedBut(data: seq<int>, pos: seq<int>, x: int, k: int) {
    0 <= k < |data| && data[k] == x &&
    (forall i :: 0 <= i < |data| ==> 0 <= data[i] < |pos|) &&
    (forall i :: 0 <= i < |data| && i != k ==> data[i] != x && pos[data[i]] == i) &&
    (forall y :: 0 <= y < |pos| && y != x && pos[y] != NotInHeap ==> 0 <= pos[y] < |data| && data[pos[y]] == y)
  }

  /** Swapping x at k with its parent y, and recording y's new position,
      keeps the heap indexed but for x, now at the parent's position. */
  lemma MoveUp(data: seq<int>, pos: seq<int>, x: int, k: int)
    requires IndexedBut(data, pos, x, k) && 0 < k < NotInHeap
    ensures var p := Up(k);
      IndexedBut(Swap(data, p, k), pos[data[p] := k], x, p) &&
      SameMembers(pos, pos[data[p] := k])
  {
    UpIsBelow(k);
  }

  /** Swapping x at k with its child y at c, and recording y's new
      position, keeps the heap indexed but for x, now at c. */
  lemma MoveDown(data: seq<int>, pos: seq<int>, x: int, k: int, c: int)
    requires IndexedBut(data, pos, x, k) && k < c < |data| && c < NotInHeap
    ensures IndexedBut(Swap(data, k, c), pos[data[c] := k], x, c)
    ensures SameMembers(pos, pos[data[c] := k])
  {
  }

  /** A heap ordered below k whose element at k is not above its children
      is ordered. */
  lemma OrderedWhenChildrenHold(data: seq<int>, key: seq<int>, k: int)
    requires forall i :: 0 <= i < |data| ==> 0 <= data[i] < |key|
    requires 0 <= k < |data| && OrderedBelow(data, key, k)
    requires forall i :: 0 < i < |data| && Up(i) == k ==> key[data[k]] <= key[data[i]]
    ensures Ordered(data, key)
  {
  }

  /** pop moves the last element to the front and drops the last slot; the
      rest of an ordered heap stays ordered. */
  lemma LastToFront(data: seq<int>, key: seq<int>)
    requires forall i :: 0 <= i < |data| ==> 0 <= data[i] < |key|
    requires |data| >= 2 && Ordered(data, key)
    ensures var d := Swap(data, 0, |data| - 1)[..|data| - 1];
      OrderedBelow(d, key, 0) && Bridged(d, key, 0)
  {
    var d := Swap(data, 0, |data| - 1)[..|data| - 1];
    forall i | 0 < i < |d| && Up(i) != 0
      ensures key[d[Up(i)]] <= key[d[i]]
    {
      UpIsBelow(i);
    }
  }

  /** The indexing right after pop has moved the last element m to the
      front: everything but m's position is right, and the front is no
      longer a member. */
  lemma FrontRemoved(data: seq<int>, pos: seq<int>)
    requires Indexed(data, pos) && 2 <= |data| <= |pos| < NotInHeap
    ensures var d, p := Swap(data, 0, |data| - 1)[..|data| - 1], pos[data[0] := NotInHeap];
      IndexedBut(d, p, data[|data| - 1], 0) && p[data[|data| - 1]] != NotInHeap &&
      Members(p) == Members(pos) - {data[0]}
  {
  }

  /** Whether a vertex is in the heap depends only on its position entry. */
  predicate SameMembers(pos: seq<int>, pos': seq<int>) {
    |pos'| == |pos| &&
    forall y :: 0 <= y < |pos| ==> (pos'[y] == NotInHeap <==> pos[y] == NotInHeap)
  }

  /** Only the keys of the vertices held matter to the heap order. */
  lemma OrderedOnHeld(data: seq<int>, key: seq<int>, key': seq<int>)
    requires |key| == |key'| && forall i :: 0 <= i < |data| ==> 0 <= data[i] < |key|
    requires forall i :: 0 <= i < |data| ==> key'[data[i]] == key[data[i]]
    requires Ordered(data, key)
    ensures Ordered(data, key')
  {
    forall i | 0 < i < |data|
      ensures key'[data[Up(i)]] <= key'[data[i]]
    {
      UpIsBelow(i);
    }
  }

  /** The heap is empty exactly when it holds no vertex. */
  lemma EmptyIffNoMembers(data: seq<int>, pos: seq<int>)
    requires Indexed(data, pos)
    ensures data == [] <==> Members(pos) == {}
  {
    if data != [] {
      assert data[0] in Members(pos);
    }
  }

  /** The indexed heap. The position map is the map member of the source. */
  class Heap {
    var data: seq<int>
    var pos: seq<int>

    ghost predicate Valid()
      reads this
    {
      Indexed(data, pos) && |pos| < NotInHeap
    }

    /** The heap as its users build it: an empty heap whose position map is
        then assigned not_in_heap for every vertex. */
    constructor (vertexCount: int)
      requires 0 <= vertexCount < NotInHeap
      ensures Valid() && data == [] && pos == seq(vertexCount, _ => NotInHeap)
      ensures Members(pos) == {}
    {
      data := [];
      pos := seq(vertexCount, _ => NotInHeap);
    }

    /** empty(): no vertex is in the heap. */
    predicate Empty()
      reads this
      requires Valid()
      ensures Empty() <==> Members(pos) == {}
    {
      EmptyIffNoMembers(data, pos);
      data == []
    }

    /** decrease(x): x, whose key may have dropped below its parent's, moves
        up past every larger parent; afterwards the heap is ordered and holds
        the same vertices. */
    method Decrease(x: int, key: seq<int>)
      requires Valid() && |key| == |pos| && 0 <= x < |pos| && pos[x] != NotInHeap
      requires OrderedBut(data, key, pos[x]) && Bridged(data, key, pos[x])
      modifies this
      ensures SameMembers(old(pos), pos) && |data| == old(|data|)
      ensures Valid() && Ordered(data, key)
    {
      HeapSizeBound(data, pos);
      var index := pos[x];
      while index > 0
        invariant IndexedBut(data, pos, x, index) && |data| <= |pos| < NotInHeap
        invariant |data| == old(|data|) && SameMembers(old(pos), pos)
        invariant OrderedBut(data, key, index) && Bridged(data, key, index)
        decreases index
      {
        var anc := (index - 1) / Arity;
        UpIsBelow(index);
        if !(key[data[index]] < key[data[anc]]) {
          OrderedWhenEdgeHolds(data, key, index);
          pos := pos[x := index];
          return;
        }
        SiftUpStep(data, key, index);
        MoveUp(data, pos, x, index);
        data, pos := Swap(data, anc, index), pos[data[anc] := index];
        index := anc;
      }
      OrderedWhenEdgeHolds(data, key, index);
      pos := pos[x := 0];
    }

    /** push(x): an absent x is appended and then, like a present one whose
        key dropped, moved up; the heap then holds x as well. */
    method Push(x: int, key: seq<int>)
      requires Valid() && |key| == |pos| && 0 <= x < |pos|
      requires pos[x] == NotInHeap ==> Ordered(data, key)
      requires pos[x] != NotInHeap ==> OrderedBut(data, key, pos[x]) && Bridged(data, key, pos[x])
      modifies this
      ensures |pos| == old(|pos|) && Valid() && Ordered(data, key)
      ensures Members(pos) == old(Members(pos)) + {x}
      ensures |data| == if x in old(Members(pos)) then old(|data|) else old(|data|) + 1
    {
      if pos[x] == NotInHeap {
        HeapSizeBound(data, pos);
        data := data + [x];
        pos := pos[x := |data| - 1];
        assert forall i :: 0 < i < |data| && Up(i) == |data| - 1 ==> false by {
          forall i | 0 < i < |data| && Up(i) == |data| - 1 ensures false {
            UpIsBelow(i);
          }
        }
      }
      ghost var before := pos;
      Decrease(x, key);
      assert Members(pos) == Members(before);
    }

    /** pop(): takes out and returns the front, a vertex of least key; the
        last element takes the front's place and moves down. */
    method Pop(key: seq<int>) returns (ret: int)
      requires Valid() && |key| == |pos| && data != [] && Ordered(data, key)
      modifies this
      ensures |pos| == old(|pos|) && Valid() && Ordered(data, key)
      ensures ret in old(Members(pos)) && Members(pos) == old(Members(pos)) - {ret}
      ensures forall y :: y in old(Members(pos)) ==> key[ret] <= key[y]
      ensures |data| == old(|data|) - 1
    {
      ret := data[0];
      forall y | y in Members(pos)
        ensures key[ret] <= key[y]
      {
        FrontIsLeast(data, key, pos[y]);
      }
      HeapSizeBound(data, pos);
      if |data| == 1 {
        pos := pos[ret := NotInHeap];
        data := data[..0];
        assert Members(pos) == old(Members(pos)) - {ret};
        return;
      }
      var last := data[|data| - 1];
      LastToFront(data, key);
      FrontRemoved(data, pos);
      data, pos := Swap(data, 0, |data| - 1)[..|data| - 1], pos[ret := NotInHeap];
      ghost var before := pos;
      SiftDown(key, last);
      assert Members(pos) == Members(before);
    }

    /** The sift-down loop of pop: the element m at the front moves down
        past its least child while that child is smaller. */
    method SiftDown(key: seq<int>, ghost m: int)
      requires |key| == |pos| && IndexedBut(data, pos, m, 0) && |data| <= |pos| < NotInHeap
      requires pos[m] != NotInHeap && OrderedBelow(data, key, 0)
      modifies this
      ensures SameMembers(old(pos), pos) && |data| == old(|data|)
      ensures Valid() && Ordered(data, key)
    {
      var index := 0;
      while true
        invariant IndexedBut(data, pos, m, index) && |data| <= |pos| < NotInHeap
        invariant |data| == old(|data|) && SameMembers(old(pos), pos) && pos[m] != NotInHeap
        invariant OrderedBelow(data, key, index) && Bridged(data, key, index)
        decreases |data| - index
      {
        var minI := MinChild(key, index);
        if minI == index {
          OrderedWhenChildrenHold(data, key, index);
          pos := pos[data[index] := index];
          return;
        }
        SiftDownStep(data, key, index, minI);
        MoveDown(data, pos, m, index, minI);
        data, pos := Swap(data, index, minI), pos[data[minI] := index];
        index := minI;
      }
    }

    /** The inner loop of pop: the first child of index (children
        Arity * index + 1 .. Arity * index + Arity, clipped to the last
        position) whose key is below every earlier candidate's, or index
        itself if no child is smaller. */
    method MinChild(key: seq<int>, index: int) returns (minI: int)
      requires forall i :: 0 <= i < |data| ==> 0 <= data[i] < |key|
      requires 0 <= index < |data|
      ensures minI == index || (index < minI < |data| && Up(minI) == index && key[data[minI]] < key[data[index]])
      ensures key[data[minI]] <= key[data[index]]
      ensures forall i :: 0 < i < |data| && Up(i) == index ==> key[data[minI]] <= key[data[i]]
    {
      minI := index;
      var end := if Arity * index + Arity < |data| - 1 then Arity * index + Arity else |data| - 1;
      var i := Arity * index + 1;
      while i <= end
        invariant Arity * index + 1 <= i && (i <= end + 1 || i == Arity * index + 1)
        invariant minI == index || (Arity * index + 1 <= minI < i && minI <= end && key[data[minI]] < key[data[index]])
        invariant key[data[minI]] <= key[data[index]]
        invariant forall j :: Arity * index + 1 <= j < i ==> key[data[minI]] <= key[data[j]]
      {
        if key[data[i]] < key[data[minI]] {
          minI := i;
        }
        i := i + 1;
      }
      if minI != index {
        ChildBlock(minI, index);
      }
      forall c | 0 < c < |data| && Up(c) == index
        ensures key[data[minI]] <= key[data[c]]
      {
        ChildBlock(c, index);
      }
    }
  }
}
