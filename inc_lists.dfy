/** src/graph.hpp: edges and incidence lists. An EdgeData object is known by
    its identity; here it is an entry of a map from edge numbers to edge
    records, and an Edge is an edge number with the direction flag
    `reverse`. An incidence list is a sequence of Edges whose source is the
    list's vertex, kept sorted by target. */
module Incidence {

  /** std::numeric_limits<int>::max(), the weight of null_edge. */
  const IntMax: int := 0x7FFF_FFFF

  /** EdgeData: removed flag, endpoints, weight and the history of original
      edges (orig_edges) the edge stands for. */
  datatype EdgeData = EdgeData(removed: bool, s: int, t: int, weight: int, history: seq<(int, int)>)

  /** Edge: which EdgeData, and whether it is read from t to s. */
  datatype Edge = Edge(id: int, reverse: bool)

  /** The edge records of a graph, by edge number. */
  type Records = map<int, EdgeData>

  /** null_edge: edge number 0, endpoints -1 and weight INT_MAX. */
  const NullEdge: Edge := Edge(0, false)
  const NullData: EdgeData := EdgeData(false, -1, -1, IntMax, [])

  /** Edge::source(). */
  function Source(D: Records, e: Edge): int
    requires e.id in D
  {
    if e.reverse then D[e.id].t else D[e.id].s
  }

  /** Edge::target(). */
  function Target(D: Records, e: Edge): int
    requires e.id in D
  {
    if e.reverse then D[e.id].s else D[e.id].t
  }

  /** Edge::weight(). */
  function Weight(D: Records, e: Edge): int
    requires e.id in D
  {
    D[e.id].weight
  }

  /** Edge::opposite_dir(): the same EdgeData, the other direction. */
  function OppositeDir(e: Edge): Edge {
    Edge(e.id, !e.reverse)
  }

  /** opposite_dir swaps source and target, keeps the weight and the edge
      (operator== compares EdgeData only), and undoes itself. */
  lemma OppositeSwaps(D: Records, e: Edge)
    requires e.id in D
    ensures Source(D, OppositeDir(e)) == Target(D, e) && Target(D, OppositeDir(e)) == Source(D, e)
    ensures Weight(D, OppositeDir(e)) == Weight(D, e) && OppositeDir(e).id == e.id
    ensures OppositeDir(OppositeDir(e)) == e && OppositeDir(e) != e
  {
  }

  /** Every entry of l has a record. */
  predicate Known(D: Records, l: seq<Edge>) {
    forall i :: 0 <= i < |l| ==> l[i].id in D
  }

  /** The target of every entry is among the targets of the list. */
  lemma TargetsHave(D: Records, l: seq<Edge>)
    requires Known(D, l)
    ensures forall f :: f in l ==> Target(D, f) in Targets(D, l)
  {
    forall f | f in l ensures Target(D, f) in Targets(D, l) {
      var i :| 0 <= i < |l| && l[i] == f;
    }
  }

  /** Targets strictly increase along l. */
  predicate Sorted(D: Records, l: seq<Edge>)
    requires Known(D, l)
  {
    forall i, j :: 0 <= i < j < |l| ==> Target(D, l[i]) < Target(D, l[j])
  }

  /** The targets of l. */
  function Targets(D: Records, l: seq<Edge>): set<int>
    requires Known(D, l)
  {
    set i | 0 <= i < |l| :: Target(D, l[i])
  }

  /** _is_inc_list_sorted: each target is above the previous one, starting
      from -1, so the answer is "strictly sorted with no negative target". */
  method IsIncListSorted(D: Records, l: seq<Edge>) returns (r: bool)
    requires Known(D, l)
    ensures r <==> Sorted(D, l) && forall i :: 0 <= i < |l| ==> Target(D, l[i]) >= 0
  {
    var prev := -1;
    var i := 0;
    while i < |l|
      invariant 0 <= i <= |l|
      invariant prev == if i == 0 then -1 else Target(D, l[i - 1])
      invariant forall a, b :: 0 <= a < b < i ==> Target(D, l[a]) < Target(D, l[b])
      invariant forall a :: 0 <= a < i ==> 0 <= Target(D, l[a])
    {
      if Target(D, l[i]) <= prev {
        return false;
      }
      prev := Target(D, l[i]);
      i := i + 1;
    }
    return true;
  }

  /** The position of the first entry of l with target t, |l| if none. */
  function IndexOfTarget(D: Records, l: seq<Edge>, t: int): (k: int)
    requires Known(D, l)
    ensures 0 <= k <= |l|
    ensures k < |l| ==> Target(D, l[k]) == t
    ensures forall i :: 0 <= i < k ==> Target(D, l[i]) != t
    ensures k == |l| <==> t !in Targets(D, l)
    decreases |l|
  {
    if |l| == 0 then 0
    else if Target(D, l[0]) == t then 0
    else
      var k := 1 + IndexOfTarget(D, l[1..], t);
      assert Targets(D, l) == {Target(D, l[0])} + Targets(D, l[1..]) by {
        forall x | x in Targets(D, l) ensures x in {Target(D, l[0])} + Targets(D, l[1..]) {
          var i :| 0 <= i < |l| && Target(D, l[i]) == x;
          if i > 0 { assert l[1..][i - 1] == l[i]; }
        }
      }
      k
  }

  /** In a sorted list an entry is found by its target. */
  lemma FoundByTarget(D: Records, l: seq<Edge>, i: int)
    requires Known(D, l) && Sorted(D, l) && 0 <= i < |l|
    ensures IndexOfTarget(D, l, Target(D, l[i])) == i
  {
  }

  /** The position before which _ins_sorted inserts an edge of target t:
      the first entry whose target is larger, |l| if none. */
  function InsertionPoint(D: Records, l: seq<Edge>, t: int): (k: int)
    requires Known(D, l)
    ensures 0 <= k <= |l|
    ensures forall i :: 0 <= i < k ==> Target(D, l[i]) <= t
    ensures k < |l| ==> Target(D, l[k]) > t
    decreases |l|
  {
    if |l| == 0 || Target(D, l[0]) > t then 0
    else 1 + InsertionPoint(D, l[1..], t)
  }

  /** l with e inserted at its insertion point. */
  function Inserted(D: Records, l: seq<Edge>, e: Edge): seq<Edge>
    requires Known(D, l) && e.id in D
  {
    var k := InsertionPoint(D, l, Target(D, e));
    l[..k] + [e] + l[k..]
  }

  /** _ins_sorted keeps a sorted list sorted when the target is new, and
      loses no entry. */
  /** The inserted list holds the old entries and e, and is one longer. */
  lemma InsertedMembers(D: Records, l: seq<Edge>, e: Edge)
    requires Known(D, l) && e.id in D
    ensures |Inserted(D, l, e)| == |l| + 1
    ensures forall f :: f in Inserted(D, l, e) <==> f in l || f == e
  {
    var k := InsertionPoint(D, l, Target(D, e));
    assert l == l[..k] + l[k..];
  }

  lemma InsertedSorted(D: Records, l: seq<Edge>, e: Edge)
    requires Known(D, l) && e.id in D
    ensures Known(D, Inserted(D, l, e))
    ensures multiset(Inserted(D, l, e)) == multiset(l) + multiset{e}
    ensures Targets(D, Inserted(D, l, e)) == Targets(D, l) + {Target(D, e)}
    ensures Sorted(D, l) && Target(D, e) !in Targets(D, l) ==> Sorted(D, Inserted(D, l, e))
  {
    var k := InsertionPoint(D, l, Target(D, e));
    assert l == l[..k] + l[k..];
    SpliceTargets(D, l, k, e);
    if Sorted(D, l) && Target(D, e) !in Targets(D, l) {
      SpliceSorted(D, l, k, e);
    }
  }

  /** Putting e at position k adds its target and nothing else. */
  lemma SpliceTargets(D: Records, l: seq<Edge>, k: int, e: Edge)
    requires Known(D, l) && e.id in D && 0 <= k <= |l|
    ensures Known(D, l[..k] + [e] + l[k..])
    ensures Targets(D, l[..k] + [e] + l[k..]) == Targets(D, l) + {Target(D, e)}
  {
    var r := l[..k] + [e] + l[k..];
    assert forall i :: 0 <= i < k ==> r[i] == l[i];
    assert forall i :: k < i < |r| ==> r[i] == l[i - 1];
    forall x | x in Targets(D, r) ensures x in Targets(D, l) + {Target(D, e)} {
      var i :| 0 <= i < |r| && Target(D, r[i]) == x;
      if i < k { assert Target(D, l[i]) == x; }
      else if i > k { assert Target(D, l[i - 1]) == x; }
    }
    forall x | x in Targets(D, l) + {Target(D, e)} ensures x in Targets(D, r) {
      if x == Target(D, e) {
        assert Target(D, r[k]) == x;
      } else {
        var i :| 0 <= i < |l| && Target(D, l[i]) == x;
        if i < k { assert Target(D, r[i]) == x; } else { assert Target(D, r[i + 1]) == x; }
      }
    }
  }

  /** An entry put between smaller and larger targets keeps the order. */
  lemma SpliceSorted(D: Records, l: seq<Edge>, k: int, e: Edge)
    requires Known(D, l) && e.id in D && 0 <= k <= |l| && Sorted(D, l)
    requires forall i :: 0 <= i < k ==> Target(D, l[i]) < Target(D, e)
    requires forall i :: k <= i < |l| ==> Target(D, l[i]) > Target(D, e)
    ensures Known(D, l[..k] + [e] + l[k..]) && Sorted(D, l[..k] + [e] + l[k..])
  {
    var r := l[..k] + [e] + l[k..];
    assert forall i :: 0 <= i < k ==> r[i] == l[i];
    assert forall i :: k < i < |r| ==> r[i] == l[i - 1];
  }

  /** _ins_sorted: walk to the first entry with a larger target and insert
      the edge before it. */
  method InsSorted(D: Records, e: Edge, l: seq<Edge>) returns (r: seq<Edge>)
    requires Known(D, l) && e.id in D
    ensures r == Inserted(D, l, e)
  {
    var t := Target(D, e);
    var i := 0;
    while i < |l|
      invariant 0 <= i <= |l| && InsertionPoint(D, l, t) >= i
    {
      if Target(D, l[i]) > t {
        break;
      }
      i := i + 1;
    }
    InsertionPointIs(D, l, t, i);
    r := l[..i] + [e] + l[i..];
  }

  /** The first index whose target is above t is the insertion point. */
  lemma {:induction false} InsertionPointIs(D: Records, l: seq<Edge>, t: int, i: int)
    requires Known(D, l) && 0 <= i <= |l|
    requires forall j :: 0 <= j < i ==> Target(D, l[j]) <= t
    requires i < |l| ==> Target(D, l[i]) > t
    ensures InsertionPoint(D, l, t) == i
    decreases |l|
  {
    if i > 0 {
      assert forall j :: 0 <= j < i - 1 ==> l[1..][j] == l[j + 1];
      InsertionPointIs(D, l[1..], t, i - 1);
    }
  }

  /** l without its first entry of target t (unchanged if there is none). */
  function Removed(D: Records, l: seq<Edge>, t: int): seq<Edge>
    requires Known(D, l)
  {
    var k := IndexOfTarget(D, l, t);
    if k < |l| then l[..k] + l[k + 1..] else l
  }

  /** _find_and_remove drops exactly the first entry of target t; a sorted
      list stays sorted, and the target is then gone. */
  lemma RemovedSorted(D: Records, l: seq<Edge>, t: int)
    requires Known(D, l)
    ensures Known(D, Removed(D, l, t))
    ensures t in Targets(D, l) ==>
      multiset(Removed(D, l, t)) == multiset(l) - multiset{l[IndexOfTarget(D, l, t)]}
    ensures t !in Targets(D, l) ==> Removed(D, l, t) == l
    ensures Sorted(D, l) ==> Sorted(D, Removed(D, l, t)) && Targets(D, Removed(D, l, t)) == Targets(D, l) - {t}
  {
    var k := IndexOfTarget(D, l, t);
    if k < |l| {
      CutMultiset(l, k);
      if Sorted(D, l) {
        CutSorted(D, l, k);
      }
    }
  }

  /** Cutting out an entry that occurs once leaves all the others. */
  lemma CutOnce<T>(l: seq<T>, k: int)
    requires 0 <= k < |l| && multiset(l)[l[k]] <= 1
    ensures forall f :: f in l[..k] + l[k + 1..] <==> f in l && f != l[k]
  {
    var r := l[..k] + l[k + 1..];
    CutMultiset(l, k);
    forall f ensures f in r <==> f in l && f != l[k] {
      assert f in r <==> multiset(r)[f] > 0;
      assert f in l <==> multiset(l)[f] > 0;
    }
  }

  /** Cutting entry k out of a list removes one occurrence of it. */
  lemma CutMultiset<T>(l: seq<T>, k: int)
    requires 0 <= k < |l|
    ensures multiset(l[..k] + l[k + 1..]) == multiset(l) - multiset{l[k]}
  {
    assert l == l[..k] + [l[k]] + l[k + 1..];
  }

  /** Cutting entry k out of a sorted list keeps it sorted and loses exactly
      that entry's target. */
  lemma CutSorted(D: Records, l: seq<Edge>, k: int)
    requires Known(D, l) && Sorted(D, l) && 0 <= k < |l|
    ensures Known(D, l[..k] + l[k + 1..]) && Sorted(D, l[..k] + l[k + 1..])
    ensures Targets(D, l[..k] + l[k + 1..]) == Targets(D, l) - {Target(D, l[k])}
  {
    var r := l[..k] + l[k + 1..];
    assert forall i :: 0 <= i < k ==> r[i] == l[i];
    assert forall i :: k <= i < |r| ==> r[i] == l[i + 1];
    forall x | x in Targets(D, l) - {Target(D, l[k])} ensures x in Targets(D, r) {
      var i :| 0 <= i < |l| && Target(D, l[i]) == x;
      if i < k { assert Target(D, r[i]) == x; } else { assert Target(D, r[i - 1]) == x; }
    }
    forall x | x in Targets(D, r) ensures x in Targets(D, l) - {Target(D, l[k])} {
      var i :| 0 <= i < |r| && Target(D, r[i]) == x;
      if i < k { assert Target(D, l[i]) == x; } else { assert Target(D, l[i + 1]) == x; }
    }
  }

  /** _find_and_remove on one list: erase the first entry of target t. */
  method FindAndRemove(D: Records, l: seq<Edge>, t: int) returns (r: seq<Edge>)
    requires Known(D, l)
    ensures r == Removed(D, l, t)
  {
    var i := 0;
    while i < |l|
      invariant 0 <= i <= |l| && forall j :: 0 <= j < i ==> Target(D, l[j]) != t
    {
      if Target(D, l[i]) == t {
        IndexOfTargetIs(D, l, t, i);
        return l[..i] + l[i + 1..];
      }
      i := i + 1;
    }
    IndexOfTargetIs(D, l, t, i);
    return l;
  }

  /** The first index whose target is t is the position IndexOfTarget names. */
  lemma {:induction false} IndexOfTargetIs(D: Records, l: seq<Edge>, t: int, i: int)
    requires Known(D, l) && 0 <= i <= |l|
    requires forall j :: 0 <= j < i ==> Target(D, l[j]) != t
    requires i < |l| ==> Target(D, l[i]) == t
    ensures IndexOfTarget(D, l, t) == i
    decreases |l|
  {
    if i > 0 {
      assert forall j :: 0 <= j < i - 1 ==> l[1..][j] == l[j + 1];
      IndexOfTargetIs(D, l[1..], t, i - 1);
    }
  }

  /** A sorted list holds no entry twice, and one entry per target. */
  lemma SortedUnique(D: Records, l: seq<Edge>)
    requires Known(D, l) && Sorted(D, l)
    ensures forall i, j :: 0 <= i < |l| && 0 <= j < |l| && Target(D, l[i]) == Target(D, l[j]) ==> i == j
    ensures forall f :: multiset(l)[f] <= 1
    decreases |l|
  {
    if |l| > 0 {
      assert forall i :: 0 <= i < |l| - 1 ==> l[1..][i] == l[i + 1];
      SortedUnique(D, l[1..]);
      assert l == [l[0]] + l[1..];
      forall i | 0 <= i < |l[1..]| ensures l[1..][i] != l[0] {
        assert l[1..][i] == l[i + 1];
      }
    }
  }

  /** The entries of l that _find_and_remove keeps: all but the one of
      target t, when l is sorted. */
  lemma RemovedMembers(D: Records, l: seq<Edge>, t: int)
    requires Known(D, l) && Sorted(D, l)
    ensures Known(D, Removed(D, l, t))
    ensures forall f :: f in Removed(D, l, t) <==> f in l && Target(D, f) != t
  {
    var k := IndexOfTarget(D, l, t);
    if k < |l| {
      CutMembers(D, l, k);
    }
  }

  /** Cutting entry k out of a sorted list keeps exactly the entries of
      other targets. */
  lemma CutMembers(D: Records, l: seq<Edge>, k: int)
    requires Known(D, l) && Sorted(D, l) && 0 <= k < |l|
    ensures Known(D, l[..k] + l[k + 1..])
    ensures forall f :: f in l[..k] + l[k + 1..] <==> f in l && Target(D, f) != Target(D, l[k])
  {
    SortedUnique(D, l);
    CutOnce(l, k);
    forall f | f in l ensures Target(D, f) == Target(D, l[k]) <==> f == l[k] {
      var i :| 0 <= i < |l| && l[i] == f;
    }
  }

  /** Records D and D' agree on every entry of l. */
  predicate Agree(D: Records, D': Records, l: seq<Edge>) {
    forall i :: 0 <= i < |l| ==> l[i].id in D && l[i].id in D' && D'[l[i].id] == D[l[i].id]
  }

  /** Agreeing records give l the same targets and the same order. */
  lemma AgreeTransfer(D: Records, D': Records, l: seq<Edge>)
    requires Agree(D, D', l)
    ensures Known(D, l) && Known(D', l)
    ensures Targets(D', l) == Targets(D, l)
    ensures Sorted(D, l) <==> Sorted(D', l)
  {
    assert forall i :: 0 <= i < |l| ==> Target(D', l[i]) == Target(D, l[i]);
  }

  /** Records that give every entry of l the same target give l the same
      targets and the same order. */
  lemma SameTargets(D: Records, D': Records, l: seq<Edge>)
    requires Known(D, l) && Known(D', l)
    requires forall i :: 0 <= i < |l| ==> Target(D', l[i]) == Target(D, l[i])
    ensures Targets(D', l) == Targets(D, l)
    ensures Sorted(D, l) <==> Sorted(D', l)
  {
  }

  /** _merge_inc_list as a value: the merged list and the edges appended to
      to_remove. On a shared target the edge of a is kept only when it is
      strictly lighter; otherwise the edge of b is kept. */
  function Merge(D: Records, a: seq<Edge>, b: seq<Edge>): (seq<Edge>, seq<Edge>)
    requires Known(D, a) && Known(D, b)
    decreases |a| + |b|
  {
    if |a| == 0 then (b, [])
    else if |b| == 0 then (a, [])
    else if Target(D, a[0]) == Target(D, b[0]) then
      var r := Merge(D, a[1..], b[1..]);
      if Weight(D, a[0]) < Weight(D, b[0]) then ([a[0]] + r.0, [b[0]] + r.1)
      else ([b[0]] + r.0, [a[0]] + r.1)
    else if Target(D, a[0]) < Target(D, b[0]) then
      var r := Merge(D, a[1..], b);
      ([a[0]] + r.0, r.1)
    else
      var r := Merge(D, a, b[1..]);
      ([b[0]] + r.0, r.1)
  }

  /** Every input entry goes to exactly one of the two outputs. */
  lemma {:induction false} MergeAccount(D: Records, a: seq<Edge>, b: seq<Edge>)
    requires Known(D, a) && Known(D, b)
    ensures Accounted(a, b, Merge(D, a, b))
    decreases |a| + |b|
  {
    if |a| > 0 && |b| > 0 {
      if Target(D, a[0]) == Target(D, b[0]) {
        MergeAccount(D, a[1..], b[1..]);
        var q := Merge(D, a[1..], b[1..]);
        if Weight(D, a[0]) < Weight(D, b[0]) {
          AccountBoth(a, b, a[0], b[0], q);
        } else {
          AccountBoth(a, b, b[0], a[0], q);
        }
      } else if Target(D, a[0]) < Target(D, b[0]) {
        MergeAccount(D, a[1..], b);
        AccountLeft(a, b, Merge(D, a[1..], b));
      } else {
        MergeAccount(D, a, b[1..]);
        AccountRight(a, b, Merge(D, a, b[1..]));
      }
    }
  }

  /** The outputs r hold, between them, exactly the entries of a and b. */
  predicate Accounted(a: seq<Edge>, b: seq<Edge>, r: (seq<Edge>, seq<Edge>)) {
    multiset(r.0) + multiset(r.1) == multiset(a) + multiset(b)
  }

  lemma AccountBoth(a: seq<Edge>, b: seq<Edge>, h: Edge, g: Edge, q: (seq<Edge>, seq<Edge>))
    requires |a| > 0 && |b| > 0 && multiset{h, g} == multiset{a[0], b[0]}
    requires Accounted(a[1..], b[1..], q)
    ensures Accounted(a, b, ([h] + q.0, [g] + q.1))
  {
    assert a == [a[0]] + a[1..];
    assert b == [b[0]] + b[1..];
    calc {
      multiset([h] + q.0) + multiset([g] + q.1);
      multiset{h} + multiset{g} + (multiset(q.0) + multiset(q.1));
      multiset{a[0]} + multiset{b[0]} + (multiset(a[1..]) + multiset(b[1..]));
      multiset(a) + multiset(b);
    }
  }

  lemma AccountLeft(a: seq<Edge>, b: seq<Edge>, q: (seq<Edge>, seq<Edge>))
    requires |a| > 0 && Accounted(a[1..], b, q)
    ensures Accounted(a, b, ([a[0]] + q.0, q.1))
  {
    assert a == [a[0]] + a[1..];
    calc {
      multiset([a[0]] + q.0) + multiset(q.1);
      multiset{a[0]} + (multiset(q.0) + multiset(q.1));
      multiset{a[0]} + multiset(a[1..]) + multiset(b);
    }
  }

  lemma AccountRight(a: seq<Edge>, b: seq<Edge>, q: (seq<Edge>, seq<Edge>))
    requires |b| > 0 && Accounted(a, b[1..], q)
    ensures Accounted(a, b, ([b[0]] + q.0, q.1))
  {
    assert b == [b[0]] + b[1..];
    calc {
      multiset([b[0]] + q.0) + multiset(q.1);
      multiset{b[0]} + (multiset(q.0) + multiset(q.1));
      multiset(a) + (multiset{b[0]} + multiset(b[1..]));
    }
  }

  /** Targets of a list with a head. */
  lemma TargetsCons(D: Records, l: seq<Edge>)
    requires Known(D, l) && |l| > 0
    ensures Targets(D, l) == {Target(D, l[0])} + Targets(D, l[1..])
  {
    forall x | x in Targets(D, l) ensures x in {Target(D, l[0])} + Targets(D, l[1..]) {
      var i :| 0 <= i < |l| && Target(D, l[i]) == x;
      if i > 0 { assert Target(D, l[1..][i - 1]) == x; }
    }
    forall x | x in Targets(D, l[1..]) ensures x in Targets(D, l) {
      var i :| 0 <= i < |l[1..]| && Target(D, l[1..][i]) == x;
      assert Target(D, l[i + 1]) == x;
    }
  }

  /** A sorted list's targets are all at least its head's. */
  lemma SortedTail(D: Records, l: seq<Edge>)
    requires Known(D, l) && Sorted(D, l) && |l| > 0
    ensures Known(D, l[1..]) && Sorted(D, l[1..])
    ensures forall x :: x in Targets(D, l[1..]) ==> Target(D, l[0]) < x
  {
    assert forall i :: 0 <= i < |l| - 1 ==> l[1..][i] == l[i + 1];
  }

  /** What MergeSorted states of one merge. */
  predicate MergedWell(D: Records, a: seq<Edge>, b: seq<Edge>, r: (seq<Edge>, seq<Edge>)) {
    Known(D, a) && Known(D, b) && Known(D, r.0) && Known(D, r.1) &&
    Sorted(D, r.0) &&
    Targets(D, r.0) == Targets(D, a) + Targets(D, b) &&
    Targets(D, r.1) <= Targets(D, a) * Targets(D, b)
  }

  /** The merge of two sorted lists is sorted, holds every target of both,
      and only targets shared by both lists go to to_remove. */
  lemma {:induction false} MergeSorted(D: Records, a: seq<Edge>, b: seq<Edge>)
    requires Known(D, a) && Known(D, b) && Sorted(D, a) && Sorted(D, b)
    ensures MergedWell(D, a, b, Merge(D, a, b))
    decreases |a| + |b|
  {
    if |a| > 0 && |b| > 0 {
      SortedTail(D, a);
      SortedTail(D, b);
      var x, y := Target(D, a[0]), Target(D, b[0]);
      if x == y {
        MergeSorted(D, a[1..], b[1..]);
        MergeSharedStep(D, a, b);
      } else if x < y {
        MergeSorted(D, a[1..], b);
        MergeLeftStep(D, a, b);
      } else {
        MergeSorted(D, a, b[1..]);
        MergeRightStep(D, a, b);
      }
    }
  }

  /** MergeSorted's step when both heads have the same target. */
  lemma MergeSharedStep(D: Records, a: seq<Edge>, b: seq<Edge>)
    requires Known(D, a) && Known(D, b) && Sorted(D, a) && Sorted(D, b)
    requires |a| > 0 && |b| > 0 && Target(D, a[0]) == Target(D, b[0])
    requires MergedWell(D, a[1..], b[1..], Merge(D, a[1..], b[1..]))
    ensures MergedWell(D, a, b, Merge(D, a, b))
  {
    var q := Merge(D, a[1..], b[1..]);
    if Weight(D, a[0]) < Weight(D, b[0]) {
      SharedOutcome(D, a, b, a[0], b[0], q);
    } else {
      SharedOutcome(D, a, b, b[0], a[0], q);
    }
  }

  /** One head h kept and the other, g, removed, both of the shared target. */
  lemma SharedOutcome(D: Records, a: seq<Edge>, b: seq<Edge>, h: Edge, g: Edge, q: (seq<Edge>, seq<Edge>))
    requires Known(D, a) && Known(D, b) && Sorted(D, a) && Sorted(D, b)
    requires |a| > 0 && |b| > 0 && Target(D, a[0]) == Target(D, b[0])
    requires h.id in D && g.id in D && Target(D, h) == Target(D, a[0]) && Target(D, g) == Target(D, a[0])
    requires MergedWell(D, a[1..], b[1..], q)
    ensures MergedWell(D, a, b, ([h] + q.0, [g] + q.1))
  {
    var r := ([h] + q.0, [g] + q.1);
    TargetsCons(D, a);
    TargetsCons(D, b);
    SortedTail(D, a);
    ConsSorted(D, h, q.0);
    TargetsCons(D, r.0);
    TargetsCons(D, r.1);
    assert r.0[1..] == q.0 && r.1[1..] == q.1;
  }

  /** MergeSorted's step when a's head has the smaller target. */
  lemma MergeLeftStep(D: Records, a: seq<Edge>, b: seq<Edge>)
    requires Known(D, a) && Known(D, b) && Sorted(D, a) && Sorted(D, b)
    requires |a| > 0 && |b| > 0 && Target(D, a[0]) < Target(D, b[0])
    requires MergedWell(D, a[1..], b, Merge(D, a[1..], b))
    ensures MergedWell(D, a, b, Merge(D, a, b))
  {
    var r, q := Merge(D, a, b), Merge(D, a[1..], b);
    TargetsCons(D, a);
    TargetsCons(D, b);
    SortedTail(D, a);
    SortedTail(D, b);
    assert r == ([a[0]] + q.0, q.1);
    ConsSorted(D, a[0], q.0);
    TargetsCons(D, r.0);
    assert r.0[1..] == q.0;
    assert Target(D, a[0]) !in Targets(D, b);
  }

  /** MergeSorted's step when b's head has the smaller target. */
  lemma MergeRightStep(D: Records, a: seq<Edge>, b: seq<Edge>)
    requires Known(D, a) && Known(D, b) && Sorted(D, a) && Sorted(D, b)
    requires |a| > 0 && |b| > 0 && Target(D, a[0]) > Target(D, b[0])
    requires MergedWell(D, a, b[1..], Merge(D, a, b[1..]))
    ensures MergedWell(D, a, b, Merge(D, a, b))
  {
    var r, q := Merge(D, a, b), Merge(D, a, b[1..]);
    TargetsCons(D, a);
    TargetsCons(D, b);
    SortedTail(D, a);
    SortedTail(D, b);
    assert r == ([b[0]] + q.0, q.1);
    ConsSorted(D, b[0], q.0);
    TargetsCons(D, r.0);
    assert r.0[1..] == q.0;
    assert Target(D, b[0]) !in Targets(D, a);
  }

  /** A head below every target of a sorted list keeps it sorted. */
  lemma ConsSorted(D: Records, h: Edge, l: seq<Edge>)
    requires h.id in D && Known(D, l) && Sorted(D, l)
    requires forall x :: x in Targets(D, l) ==> Target(D, h) < x
    ensures Known(D, [h] + l) && Sorted(D, [h] + l)
  {
    var r := [h] + l;
    forall i, j | 0 <= i < j < |r| ensures Target(D, r[i]) < Target(D, r[j]) {
      assert r[j] == l[j - 1];
      if i > 0 { assert r[i] == l[i - 1]; }
      else { assert Target(D, l[j - 1]) in Targets(D, l); }
    }
  }

  /** _merge_inc_list: walk both lists in step, then copy the rest of
      whichever is left. */
  method MergeIncList(D: Records, a: seq<Edge>, b: seq<Edge>) returns (result: seq<Edge>, toRemove: seq<Edge>)
    requires Known(D, a) && Known(D, b)
    ensures result == Merge(D, a, b).0 && toRemove == Merge(D, a, b).1
  {
    var i, j;
    result, toRemove, i, j := MergeFronts(D, a, b);
    if i == |a| {
      assert a[i..] == [];
    } else {
      assert b[j..] == [];
    }
    while i < |a|
      invariant i <= |a| && result + a[i..] + b[j..] == Merge(D, a, b).0 && toRemove == Merge(D, a, b).1
    {
      assert a[i..] == [a[i]] + a[i + 1..];
      result := result + [a[i]];
      i := i + 1;
    }
    while j < |b|
      invariant j <= |b| && result + b[j..] == Merge(D, a, b).0 && toRemove == Merge(D, a, b).1
    {
      assert b[j..] == [b[j]] + b[j + 1..];
      result := result + [b[j]];
      j := j + 1;
    }
  }

  /** The first loop of _merge_inc_list, while both lists have entries
      left: it stops at i, j with one of the lists used up. */
  method MergeFronts(D: Records, a: seq<Edge>, b: seq<Edge>) returns (result: seq<Edge>, toRemove: seq<Edge>, i: int, j: int)
    requires Known(D, a) && Known(D, b)
    ensures 0 <= i <= |a| && 0 <= j <= |b| && (i == |a| || j == |b|)
    ensures Known(D, a[i..]) && Known(D, b[j..])
    ensures result + Merge(D, a[i..], b[j..]).0 == Merge(D, a, b).0
    ensures toRemove + Merge(D, a[i..], b[j..]).1 == Merge(D, a, b).1
  {
    i, j := 0, 0;
    result, toRemove := [], [];
    assert a[0..] == a && b[0..] == b;
    ghost var m := Merge(D, a, b);
    while i < |a| && j < |b|
      invariant 0 <= i <= |a| && 0 <= j <= |b| && Known(D, a[i..]) && Known(D, b[j..])
      invariant result + Merge(D, a[i..], b[j..]).0 == m.0
      invariant toRemove + Merge(D, a[i..], b[j..]).1 == m.1
      decreases |a| - i + |b| - j
    {
      var e, f := a[i], b[j];
      MergeUnfold(D, a, b, i, j);
      if Target(D, e) == Target(D, f) {
        ghost var q := Merge(D, a[i + 1..], b[j + 1..]);
        if Weight(D, e) < Weight(D, f) {
          Shift(result, e, q.0, m.0);
          Shift(toRemove, f, q.1, m.1);
          result, toRemove := result + [e], toRemove + [f];
        } else {
          Shift(result, f, q.0, m.0);
          Shift(toRemove, e, q.1, m.1);
          result, toRemove := result + [f], toRemove + [e];
        }
        i, j := i + 1, j + 1;
      } else if Target(D, e) < Target(D, f) {
        ghost var q := Merge(D, a[i + 1..], b[j..]);
        Shift(result, e, q.0, m.0);
        result := result + [e];
        i := i + 1;
      } else {
        ghost var q := Merge(D, a[i..], b[j + 1..]);
        Shift(result, f, q.0, m.0);
        result := result + [f];
        j := j + 1;
      }
    }
  }

  /** Moving the head of the rest onto the output keeps the whole. */
  lemma Shift<T>(done: seq<T>, h: T, rest: seq<T>, whole: seq<T>)
    requires done + ([h] + rest) == whole
    ensures done + [h] + rest == whole
  {
  }

  /** One step of Merge on the suffixes a[i..] and b[j..]. */
  lemma MergeUnfold(D: Records, a: seq<Edge>, b: seq<Edge>, i: int, j: int)
    requires Known(D, a) && Known(D, b) && 0 <= i < |a| && 0 <= j < |b|
    ensures Known(D, a[i..]) && Known(D, b[j..]) && Known(D, a[i + 1..]) && Known(D, b[j + 1..])
    ensures var r := Merge(D, a[i..], b[j..]);
      if Target(D, a[i]) == Target(D, b[j]) then
        var q := Merge(D, a[i + 1..], b[j + 1..]);
        if Weight(D, a[i]) < Weight(D, b[j]) then r == ([a[i]] + q.0, [b[j]] + q.1)
        else r == ([b[j]] + q.0, [a[i]] + q.1)
      else if Target(D, a[i]) < Target(D, b[j]) then
        var q := Merge(D, a[i + 1..], b[j..]);
        r == ([a[i]] + q.0, q.1)
      else
        var q := Merge(D, a[i..], b[j + 1..]);
        r == ([b[j]] + q.0, q.1)
  {
    KnownSuffix(D, a, i);
    KnownSuffix(D, b, j);
    KnownSuffix(D, a, i + 1);
    KnownSuffix(D, b, j + 1);
    assert a[i..][0] == a[i] && a[i..][1..] == a[i + 1..];
    assert b[j..][0] == b[j] && b[j..][1..] == b[j + 1..];
  }

  lemma KnownSuffix(D: Records, l: seq<Edge>, i: int)
    requires Known(D, l) && 0 <= i <= |l|
    ensures Known(D, l[i..])
  {
    assert forall k :: 0 <= k < |l| - i ==> l[i..][k] == l[i + k];
  }

  /** Below the head, the first entry of target x is the tail's. */
  lemma IndexInTail(D: Records, l: seq<Edge>, x: int)
    requires Known(D, l) && |l| > 0 && x in Targets(D, l) && x != Target(D, l[0])
    ensures Known(D, l[1..]) && x in Targets(D, l[1..])
    ensures l[IndexOfTarget(D, l, x)] == l[1..][IndexOfTarget(D, l[1..], x)]
  {
    TargetsCons(D, l);
  }

  /** For a target the two sorted lists share, the merge keeps a's edge
      when it is strictly lighter and b's edge otherwise, and sends the
      other one to to_remove. */
  lemma {:induction false} MergeKeepsLighter(D: Records, a: seq<Edge>, b: seq<Edge>, x: int)
    requires Known(D, a) && Known(D, b) && Sorted(D, a) && Sorted(D, b)
    requires x in Targets(D, a) && x in Targets(D, b)
    ensures var e, f, r := a[IndexOfTarget(D, a, x)], b[IndexOfTarget(D, b, x)], Merge(D, a, b);
      if Weight(D, e) < Weight(D, f) then e in r.0 && f in r.1 else f in r.0 && e in r.1
    decreases |a| + |b|
  {
    var r := Merge(D, a, b);
    var ta, tb := Target(D, a[0]), Target(D, b[0]);
    SortedTail(D, a);
    SortedTail(D, b);
    TargetsCons(D, a);
    TargetsCons(D, b);
    if ta == tb {
      if x != ta {
        IndexInTail(D, a, x);
        IndexInTail(D, b, x);
        MergeKeepsLighter(D, a[1..], b[1..], x);
      }
    } else if ta < tb {
      IndexInTail(D, a, x);
      MergeKeepsLighter(D, a[1..], b, x);
      assert r.0 == [a[0]] + Merge(D, a[1..], b).0;
    } else {
      IndexInTail(D, b, x);
      MergeKeepsLighter(D, a, b[1..], x);
      assert r.0 == [b[0]] + Merge(D, a, b[1..]).0;
    }
  }
}
