/** src/graph.hpp, the representation of the graph as values. The edge
    records live in a map from edge numbers to EdgeData (the EdgeData
    objects of the source, known by their identity); number 0 is the
    record of null_edge. Every vertex has an incidence list of the live
    edges leaving it, strictly sorted by target; edge_list holds each live
    edge once; the terminals are kept as a list, a mask and a counter.
    The lemmas here say how remove_edge and add_edge keep all of it. */
module GraphRep {
  import opened Incidence

  /** A record that stands for an edge of the graph: not null_edge and not
      removed. */
  predicate Live(D: Records, id: int) {
    id in D && id != 0 && !D[id].removed
  }

  /** The entries of l are live edges leaving v. */
  predicate Leaving(D: Records, l: seq<Edge>, v: int) {
    Known(D, l) && forall i :: 0 <= i < |l| ==> Live(D, l[i].id) && Source(D, l[i]) == v
  }

  /** null_edge keeps its record: endpoints -1 and weight INT_MAX. */
  predicate NullKept(D: Records) {
    0 in D && D[0] == NullData
  }

  /** Every live edge joins two different vertices among the first n. */
  ghost predicate Ends(D: Records, n: int) {
    forall id :: Live(D, id) ==> 0 <= D[id].s < n && 0 <= D[id].t < n && D[id].s != D[id].t
  }

  /** The lists of the vertices outside X hold live edges leaving their
      vertex, sorted by target. */
  predicate ListsOk(D: Records, inc: seq<seq<Edge>>, X: set<int>) {
    forall v :: 0 <= v < |inc| && v !in X ==> Leaving(D, inc[v], v) && Sorted(D, inc[v])
  }

  /** Every live edge is listed, in each direction, at its endpoints
      outside X. */
  ghost predicate AllListed(D: Records, inc: seq<seq<Edge>>, X: set<int>)
    requires Ends(D, |inc|)
  {
    forall id :: Live(D, id) ==>
      (D[id].s !in X ==> Edge(id, false) in inc[D[id].s]) &&
      (D[id].t !in X ==> Edge(id, true) in inc[D[id].t])
  }

  /** The incidence lists of the vertices outside X are exactly right. */
  ghost predicate RepBut(D: Records, inc: seq<seq<Edge>>, X: set<int>) {
    NullKept(D) && Ends(D, |inc|) && ListsOk(D, inc, X) && AllListed(D, inc, X)
  }

  /** The incidence lists are exactly right. */
  ghost predicate Rep(D: Records, inc: seq<seq<Edge>>) {
    RepBut(D, inc, {})
  }

  /** Some live edge joins s and t. */
  ghost predicate Joined(D: Records, s: int, t: int) {
    exists id :: Live(D, id) && ((D[id].s == s && D[id].t == t) || (D[id].s == t && D[id].t == s))
  }

  /** A list outside X holds exactly the live edges leaving its vertex. */
  lemma Members(D: Records, inc: seq<seq<Edge>>, X: set<int>, v: int)
    requires RepBut(D, inc, X) && 0 <= v < |inc| && v !in X
    ensures Known(D, inc[v]) && Sorted(D, inc[v])
    ensures forall f :: f in inc[v] <==> Live(D, f.id) && Source(D, f) == v
  {
    forall f ensures f in inc[v] <==> Live(D, f.id) && Source(D, f) == v {
      if f in inc[v] {
        var i :| 0 <= i < |inc[v]| && inc[v][i] == f;
      }
    }
  }

  /** Two entries of one list with the same target are the same entry. */
  lemma OneEntryPerTarget(D: Records, l: seq<Edge>, f: Edge, g: Edge)
    requires Known(D, l) && Sorted(D, l) && f in l && g in l && Target(D, f) == Target(D, g)
    ensures f == g
  {
    SortedUnique(D, l);
    var i :| 0 <= i < |l| && l[i] == f;
    var j :| 0 <= j < |l| && l[j] == g;
  }

  /** With the lists right, a target occurs in s's list exactly when a live
      edge joins s to it, and then the entry there is that edge. */
  lemma JoinedListed(D: Records, inc: seq<seq<Edge>>, s: int, t: int)
    requires Rep(D, inc) && 0 <= s < |inc|
    ensures Known(D, inc[s])
    ensures t in Targets(D, inc[s]) <==> Joined(D, s, t)
    ensures forall id :: Live(D, id) && ((D[id].s == s && D[id].t == t) || (D[id].s == t && D[id].t == s)) ==>
      t in Targets(D, inc[s]) && inc[s][IndexOfTarget(D, inc[s], t)].id == id
  {
    Members(D, inc, {}, s);
    if t in Targets(D, inc[s]) {
      var i :| 0 <= i < |inc[s]| && Target(D, inc[s][i]) == t;
      assert Live(D, inc[s][i].id);
    }
    forall id | Live(D, id) && ((D[id].s == s && D[id].t == t) || (D[id].s == t && D[id].t == s))
      ensures t in Targets(D, inc[s]) && inc[s][IndexOfTarget(D, inc[s], t)].id == id
    {
      var f := Edge(id, D[id].s != s);
      assert f in inc[s];
      var i :| 0 <= i < |inc[s]| && inc[s][i] == f;
      assert Target(D, inc[s][i]) == t;
      OneEntryPerTarget(D, inc[s], f, inc[s][IndexOfTarget(D, inc[s], t)]);
    }
  }

  /** The record of edge id, marked removed as remove_edge does. */
  function Dead(D: Records, id: int): Records
    requires id in D
  {
    D[id := D[id].(removed := true)]
  }

  /** Edge id has a record whose endpoints have lists of known entries. */
  predicate Reaches(D: Records, inc: seq<seq<Edge>>, id: int) {
    id in D && 0 <= D[id].s < |inc| && 0 <= D[id].t < |inc| && Known(D, inc[D[id].s]) && Known(D, inc[D[id].t])
  }

  /** The lists after remove_edge of the live edge id: its entries at both
      endpoints are taken out (_find_and_remove). */
  function Unlinked(D: Records, inc: seq<seq<Edge>>, id: int): seq<seq<Edge>>
    requires Reaches(D, inc, id)
  {
    var s, t := D[id].s, D[id].t;
    inc[s := Removed(D, inc[s], t)][t := Removed(D, inc[t], s)]
  }

  /** One endpoint's list after the removal of edge id from s's side. */
  lemma UnlinkedAt(D: Records, inc: seq<seq<Edge>>, id: int, s: int, t: int)
    requires Rep(D, inc) && Live(D, id) && 0 <= s < |inc|
    requires (D[id].s == s && D[id].t == t) || (D[id].s == t && D[id].t == s)
    ensures Known(D, Removed(D, inc[s], t)) && Sorted(D, Removed(D, inc[s], t))
    ensures |Removed(D, inc[s], t)| == |inc[s]| - 1
    ensures forall f :: f in Removed(D, inc[s], t) <==> f in inc[s] && f.id != id
  {
    JoinedListed(D, inc, s, t);
    Members(D, inc, {}, s);
    RemovedSorted(D, inc[s], t);
    RemovedMembers(D, inc[s], t);
    var k := IndexOfTarget(D, inc[s], t);
    assert |multiset(Removed(D, inc[s], t))| == |multiset(inc[s])| - 1;
    forall f | f in inc[s] ensures Target(D, f) != t <==> f.id != id {
      if f.id == id {
        assert f.reverse == (D[id].s != s);
      }
      if Target(D, f) == t {
        OneEntryPerTarget(D, inc[s], f, inc[s][k]);
      }
    }
  }

  /** remove_edge keeps the lists right, one entry shorter at each end. */
  lemma UnlinkedRep(D: Records, inc: seq<seq<Edge>>, id: int)
    requires Rep(D, inc) && Live(D, id)
    ensures Rep(Dead(D, id), Unlinked(D, inc, id))
    ensures var s, t := D[id].s, D[id].t;
      |Unlinked(D, inc, id)| == |inc| &&
      |Unlinked(D, inc, id)[s]| == |inc[s]| - 1 && |Unlinked(D, inc, id)[t]| == |inc[t]| - 1 &&
      forall v :: 0 <= v < |inc| && v != s && v != t ==> Unlinked(D, inc, id)[v] == inc[v]
  {
    var s, t := D[id].s, D[id].t;
    UnlinkedAt(D, inc, id, s, t);
    UnlinkedAt(D, inc, id, t, s);
    UnlinkedLists(D, inc, id);
    UnlinkedListed(D, inc, id);
  }

  /** After remove_edge every list holds live edges leaving its vertex. */
  lemma UnlinkedLists(D: Records, inc: seq<seq<Edge>>, id: int)
    requires Rep(D, inc) && Live(D, id)
    requires forall f :: f in Unlinked(D, inc, id)[D[id].s] ==> f in inc[D[id].s] && f.id != id
    requires forall f :: f in Unlinked(D, inc, id)[D[id].t] ==> f in inc[D[id].t] && f.id != id
    requires Known(D, Unlinked(D, inc, id)[D[id].s]) && Sorted(D, Unlinked(D, inc, id)[D[id].s])
    requires Known(D, Unlinked(D, inc, id)[D[id].t]) && Sorted(D, Unlinked(D, inc, id)[D[id].t])
    ensures ListsOk(Dead(D, id), Unlinked(D, inc, id), {})
  {
    var D', inc' := Dead(D, id), Unlinked(D, inc, id);
    forall v | 0 <= v < |inc'| ensures Leaving(D', inc'[v], v) && Sorted(D', inc'[v]) {
      if v != D[id].s && v != D[id].t {
        Members(D, inc, {}, v);
      }
      DeadList(D, inc[v], inc'[v], id, v);
    }
  }

  /** A sub-list without edge id keeps its entries and order once id is
      marked removed. */
  lemma DeadList(D: Records, l: seq<Edge>, l': seq<Edge>, id: int, v: int)
    requires id in D && Leaving(D, l, v) && Known(D, l') && Sorted(D, l')
    requires forall f :: f in l' ==> f in l && f.id != id
    ensures Leaving(Dead(D, id), l', v) && Sorted(Dead(D, id), l')
  {
    var D' := Dead(D, id);
    forall i | 0 <= i < |l'| ensures l'[i].id != id && l'[i] in l {
      assert l'[i] in l';
    }
    assert Agree(D, D', l');
    AgreeTransfer(D, D', l');
    forall i | 0 <= i < |l'| ensures Live(D', l'[i].id) && Source(D', l'[i]) == v {
      var j :| 0 <= j < |l| && l[j] == l'[i];
    }
  }

  /** After remove_edge every other live edge is still listed at both ends. */
  lemma UnlinkedListed(D: Records, inc: seq<seq<Edge>>, id: int)
    requires Rep(D, inc) && Live(D, id)
    requires forall f :: f in Unlinked(D, inc, id)[D[id].s] <==> f in inc[D[id].s] && f.id != id
    requires forall f :: f in Unlinked(D, inc, id)[D[id].t] <==> f in inc[D[id].t] && f.id != id
    ensures NullKept(Dead(D, id)) && Ends(Dead(D, id), |Unlinked(D, inc, id)|)
    ensures AllListed(Dead(D, id), Unlinked(D, inc, id), {})
  {
    var D', inc' := Dead(D, id), Unlinked(D, inc, id);
    var s, t := D[id].s, D[id].t;
    forall k | Live(D', k) ensures Edge(k, false) in inc'[D'[k].s] && Edge(k, true) in inc'[D'[k].t] {
      assert D'[k] == D[k] && Live(D, k) && k != id;
      var a, b := D[k].s, D[k].t;
      assert Edge(k, false) in inc[a] && Edge(k, true) in inc[b];
      if a != s && a != t {
        assert inc'[a] == inc[a];
      }
      if b != s && b != t {
        assert inc'[b] == inc[b];
      }
    }
  }

  /** The records with a new edge numbered id from s to t, with an empty
      history, as add_edge creates it. */
  function Born(D: Records, id: int, s: int, t: int, w: int): Records {
    D[id := EdgeData(false, s, t, w, [])]
  }

  /** The lists after add_edge placed the new edge id at both ends
      (_ins_sorted). */
  function Linked(D: Records, inc: seq<seq<Edge>>, id: int): seq<seq<Edge>>
    requires id in D && 0 <= D[id].s < |inc| && 0 <= D[id].t < |inc|
    requires Known(D, inc[D[id].s]) && Known(D, inc[D[id].t])
  {
    var s, t := D[id].s, D[id].t;
    inc[s := Inserted(D, inc[s], Edge(id, false))][t := Inserted(D, inc[t], Edge(id, true))]
  }

  /** A fresh record changes nothing about the existing lists. */
  lemma BornAgrees(D: Records, inc: seq<seq<Edge>>, id: int, s: int, t: int, w: int)
    requires Rep(D, inc) && id !in D
    ensures forall v :: 0 <= v < |inc| ==> Agree(D, Born(D, id, s, t, w), inc[v])
    ensures forall v :: 0 <= v < |inc| ==>
      Known(Born(D, id, s, t, w), inc[v]) && Sorted(Born(D, id, s, t, w), inc[v]) &&
      Targets(Born(D, id, s, t, w), inc[v]) == Targets(D, inc[v])
  {
    forall v | 0 <= v < |inc| ensures Agree(D, Born(D, id, s, t, w), inc[v]) {
      Members(D, inc, {}, v);
    }
    forall v | 0 <= v < |inc| ensures Known(Born(D, id, s, t, w), inc[v]) &&
      Sorted(Born(D, id, s, t, w), inc[v]) && Targets(Born(D, id, s, t, w), inc[v]) == Targets(D, inc[v])
    {
      Members(D, inc, {}, v);
      AgreeTransfer(D, Born(D, id, s, t, w), inc[v]);
    }
  }

  /** add_edge of an edge between two vertices not yet joined keeps the
      lists right, one entry longer at each end. */
  lemma LinkedRep(D: Records, inc: seq<seq<Edge>>, id: int, s: int, t: int, w: int)
    requires Rep(D, inc) && id !in D && id != 0
    requires 0 <= s < |inc| && 0 <= t < |inc| && s != t && !Joined(D, s, t)
    ensures var D' := Born(D, id, s, t, w);
      Known(D', inc[s]) && Known(D', inc[t]) &&
      Rep(D', Linked(D', inc, id)) && |Linked(D', inc, id)| == |inc| &&
      |Linked(D', inc, id)[s]| == |inc[s]| + 1 && |Linked(D', inc, id)[t]| == |inc[t]| + 1 &&
      forall v :: 0 <= v < |inc| && v != s && v != t ==> Linked(D', inc, id)[v] == inc[v]
  {
    var D' := Born(D, id, s, t, w);
    BornAgrees(D, inc, id, s, t, w);
    JoinedListed(D, inc, s, t);
    JoinedListed(D, inc, t, s);
    var inc' := Linked(D', inc, id);
    InsertedSorted(D', inc[s], Edge(id, false));
    InsertedSorted(D', inc[t], Edge(id, true));
    InsertedMembers(D', inc[s], Edge(id, false));
    InsertedMembers(D', inc[t], Edge(id, true));
    LinkedLists(D, inc, id, s, t, w);
    LinkedListed(D, inc, id, s, t, w);
  }

  /** LinkedRep's part about the lists' entries and order. */
  lemma LinkedLists(D: Records, inc: seq<seq<Edge>>, id: int, s: int, t: int, w: int)
    requires Rep(D, inc) && id !in D && id != 0 && 0 <= s < |inc| && 0 <= t < |inc| && s != t
    requires forall v :: 0 <= v < |inc| ==> Agree(D, Born(D, id, s, t, w), inc[v])
    requires var D' := Born(D, id, s, t, w);
      Known(D', inc[s]) && Known(D', inc[t]) &&
      Known(D', Linked(D', inc, id)[s]) && Sorted(D', Linked(D', inc, id)[s]) &&
      Known(D', Linked(D', inc, id)[t]) && Sorted(D', Linked(D', inc, id)[t]) &&
      (forall f :: f in Linked(D', inc, id)[s] <==> f in inc[s] || f == Edge(id, false)) &&
      (forall f :: f in Linked(D', inc, id)[t] <==> f in inc[t] || f == Edge(id, true))
    requires forall v :: 0 <= v < |inc| ==> Known(Born(D, id, s, t, w), inc[v]) && Sorted(Born(D, id, s, t, w), inc[v])
    ensures ListsOk(Born(D, id, s, t, w), Linked(Born(D, id, s, t, w), inc, id), {})
  {
    var D' := Born(D, id, s, t, w);
    var inc' := Linked(D', inc, id);
    forall v | 0 <= v < |inc'| ensures Leaving(D', inc'[v], v) && Sorted(D', inc'[v]) {
      Members(D, inc, {}, v);
      forall i | 0 <= i < |inc'[v]| ensures Live(D', inc'[v][i].id) && Source(D', inc'[v][i]) == v {
        assert inc'[v][i] in inc'[v];
        if inc'[v][i] in inc[v] {
          var j :| 0 <= j < |inc[v]| && inc[v][j] == inc'[v][i];
        }
      }
    }
  }

  /** LinkedRep's part about every live edge being listed. */
  lemma LinkedListed(D: Records, inc: seq<seq<Edge>>, id: int, s: int, t: int, w: int)
    requires Rep(D, inc) && id !in D && id != 0 && 0 <= s < |inc| && 0 <= t < |inc| && s != t
    requires var D' := Born(D, id, s, t, w);
      Known(D', inc[s]) && Known(D', inc[t]) &&
      (forall f :: f in Linked(D', inc, id)[s] <==> f in inc[s] || f == Edge(id, false)) &&
      (forall f :: f in Linked(D', inc, id)[t] <==> f in inc[t] || f == Edge(id, true))
    ensures NullKept(Born(D, id, s, t, w)) && Ends(Born(D, id, s, t, w), |inc|)
    ensures AllListed(Born(D, id, s, t, w), Linked(Born(D, id, s, t, w), inc, id), {})
  {
    var D' := Born(D, id, s, t, w);
    var inc' := Linked(D', inc, id);
    forall k | Live(D', k) ensures Edge(k, false) in inc'[D'[k].s] && Edge(k, true) in inc'[D'[k].t] {
      if k != id {
        assert D'[k] == D[k] && Live(D, k);
      }
    }
  }

  /** The ids of the entries of l. */
  function Ids(l: seq<Edge>): set<int> {
    set i | 0 <= i < |l| :: l[i].id
  }

  /** The id of every entry is among the ids of the list. */
  lemma IdsHave(l: seq<Edge>)
    ensures forall f :: f in l ==> f.id in Ids(l)
  {
    forall f | f in l ensures f.id in Ids(l) {
      var i :| 0 <= i < |l| && l[i] == f;
    }
  }

  /** Two entries of one edge that leave the same vertex are the same entry. */
  lemma SameId(D: Records, f: Edge, g: Edge)
    requires f.id in D && g.id in D && D[f.id].s != D[f.id].t
    ensures f.id == g.id && Source(D, f) == Source(D, g) ==> f == g
  {
  }

  /** edge_list without the entry of edge id (std::list::erase at the
      position the record remembers). */
  function WithoutId(l: seq<Edge>, id: int): (r: seq<Edge>)
    ensures forall f :: f in r <==> f in l && f.id != id
    ensures |r| <= |l|
  {
    if l == [] then []
    else
      var r := WithoutId(l[1..], id);
      assert forall f :: f in l <==> f == l[0] || f in l[1..] by {
        assert l == [l[0]] + l[1..];
      }
      if l[0].id == id then r else [l[0]] + r
  }

  /** No two entries of l belong to one edge: the first entry's edge
      occurs nowhere after it, and so on down the list. */
  predicate DistinctIds(l: seq<Edge>) {
    l == [] || ((forall i :: 1 <= i < |l| ==> l[i].id != l[0].id) && DistinctIds(l[1..]))
  }

  /** The entries after the first keep their ids distinct. */
  lemma DistinctTail(l: seq<Edge>)
    requires DistinctIds(l) && l != []
    ensures DistinctIds(l[1..])
    ensures forall i :: 0 <= i < |l[1..]| ==> l[1..][i].id != l[0].id
  {
    forall i | 0 <= i < |l[1..]| ensures l[1..][i].id != l[0].id {
      assert l[1..][i] == l[i + 1];
    }
  }

  /** Filtering out an id that does not occur changes nothing. */
  lemma {:induction false} WithoutAbsent(l: seq<Edge>, id: int)
    requires forall i :: 0 <= i < |l| ==> l[i].id != id
    ensures WithoutId(l, id) == l
  {
    if l != [] {
      assert forall i :: 0 <= i < |l[1..]| ==> l[1..][i] == l[i + 1];
      WithoutAbsent(l[1..], id);
    }
  }

  /** Filtering out the id of entry k of a list without repeated ids drops
      exactly one entry. */
  lemma {:induction false} WithoutOnce(l: seq<Edge>, id: int, k: int)
    requires DistinctIds(l) && 0 <= k < |l| && l[k].id == id
    ensures |WithoutId(l, id)| == |l| - 1
  {
    DistinctTail(l);
    if k == 0 {
      WithoutAbsent(l[1..], id);
    } else {
      assert l[1..][k - 1] == l[k];
      WithoutOnce(l[1..], id, k - 1);
    }
  }

  /** Filtering keeps the ids distinct. */
  lemma {:induction false} WithoutDistinct(l: seq<Edge>, id: int)
    requires DistinctIds(l)
    ensures DistinctIds(WithoutId(l, id))
  {
    if l != [] {
      DistinctTail(l);
      WithoutDistinct(l[1..], id);
      var r := WithoutId(l[1..], id);
      if l[0].id != id {
        var r' := [l[0]] + r;
        assert r'[1..] == r;
        forall i | 1 <= i < |r'| ensures r'[i].id != r'[0].id {
          assert r'[i] == r[i - 1] && r[i - 1] in r;
          var j :| 0 <= j < |l[1..]| && l[1..][j] == r[i - 1];
        }
      }
    }
  }

  /** edge_list holds every live edge once, forwards. */
  ghost predicate EdgeListed(D: Records, l: seq<Edge>) {
    (forall i :: 0 <= i < |l| ==> !l[i].reverse && Live(D, l[i].id)) &&
    DistinctIds(l) &&
    (forall id :: Live(D, id) ==> Edge(id, false) in l)
  }

  /** Removing edge id from edge_list as remove_edge does keeps it right and
      one entry shorter. */
  lemma DeadListed(D: Records, l: seq<Edge>, id: int)
    requires EdgeListed(D, l) && Live(D, id)
    ensures EdgeListed(Dead(D, id), WithoutId(l, id))
    ensures |WithoutId(l, id)| == |l| - 1
  {
    assert Edge(id, false) in l;
    var k :| 0 <= k < |l| && l[k] == Edge(id, false);
    WithoutOnce(l, id, k);
    WithoutDistinct(l, id);
    var r := WithoutId(l, id);
    forall i | 0 <= i < |r| ensures !r[i].reverse && Live(Dead(D, id), r[i].id) {
      assert r[i] in r;
      var j :| 0 <= j < |l| && l[j] == r[i];
    }
  }

  /** Prepending a new edge as add_edge does keeps edge_list right. */
  lemma BornListed(D: Records, l: seq<Edge>, id: int, s: int, t: int, w: int)
    requires EdgeListed(D, l) && id !in D && id != 0
    ensures EdgeListed(Born(D, id, s, t, w), [Edge(id, false)] + l)
  {
    var l' := [Edge(id, false)] + l;
    forall i | 0 <= i < |l'| ensures !l'[i].reverse && Live(Born(D, id, s, t, w), l'[i].id) {
      if i > 0 { assert l'[i] == l[i - 1]; }
    }
    assert l'[1..] == l;
    forall i | 1 <= i < |l'| ensures l'[i].id != l'[0].id {
      assert l'[i] == l[i - 1];
    }
  }

  /** Records that agree on which edges are live keep edge_list right. */
  lemma LifeListed(D: Records, D': Records, l: seq<Edge>)
    requires EdgeListed(D, l) && forall id :: Live(D, id) <==> Live(D', id)
    ensures EdgeListed(D', l)
  {
  }

  /** Each vertex's degree is the length of its list. */
  ghost predicate Degrees(deg: seq<int>, inc: seq<seq<Edge>>) {
    |deg| == |inc| && forall v :: 0 <= v < |inc| ==> deg[v] == |inc[v]|
  }

  /** remove_edge's degree update matches its list update. */
  lemma UnlinkedDegrees(D: Records, inc: seq<seq<Edge>>, deg: seq<int>, id: int)
    requires Rep(D, inc) && Live(D, id) && Degrees(deg, inc)
    ensures var s, t := D[id].s, D[id].t;
      Degrees(deg[s := deg[s] - 1][t := deg[t] - 1], Unlinked(D, inc, id))
  {
    UnlinkedRep(D, inc, id);
  }

  /** add_edge's degree update matches its list update. */
  lemma LinkedDegrees(D: Records, inc: seq<seq<Edge>>, deg: seq<int>, id: int, s: int, t: int, w: int)
    requires Rep(D, inc) && id !in D && id != 0 && Degrees(deg, inc)
    requires 0 <= s < |inc| && 0 <= t < |inc| && s != t && !Joined(D, s, t)
    ensures Known(Born(D, id, s, t, w), inc[s]) && Known(Born(D, id, s, t, w), inc[t])
    ensures Degrees(deg[s := deg[s] + 1][t := deg[t] + 1], Linked(Born(D, id, s, t, w), inc, id))
  {
    LinkedRep(D, inc, id, s, t, w);
  }

  /** Every record number in use is below the next one to hand out. */
  predicate Fresh(D: Records, next: int) {
    next >= 1 && forall id :: id in D ==> 0 <= id < next
  }

  /** remove_edge keeps the record numbers. */
  lemma DeadFresh(D: Records, id: int, next: int)
    requires Fresh(D, next) && id in D
    ensures Fresh(Dead(D, id), next)
  {
    assert Dead(D, id).Keys == D.Keys;
  }

  /** add_edge hands out next_id and moves past it. */
  lemma BornFresh(D: Records, id: int, s: int, t: int, w: int)
    requires Fresh(D, id)
    ensures Fresh(Born(D, id, s, t, w), id + 1)
  {
    assert Born(D, id, s, t, w).Keys == D.Keys + {id};
  }

  /** The three views of the terminal set agree: the list has no repeats,
      the counter is its length, and the mask marks exactly its members. */
  ghost predicate TerminalsKept(T: seq<int>, mask: seq<bool>, count: int, n: int) {
    |mask| == n && count == |T| &&
    (forall i :: 0 <= i < |T| ==> 0 <= T[i] < n) &&
    NoRepeats(T) &&
    (forall v :: 0 <= v < n ==> (mask[v] <==> v in T))
  }

  /** The summed weights of the edges in ps. */
  function SumWeights(D: Records, ps: seq<Edge>): int
    requires forall i :: 0 <= i < |ps| ==> ps[i].id in D
  {
    if ps == [] then 0 else SumWeights(D, ps[..|ps| - 1]) + D[ps[|ps| - 1].id].weight
  }

  /** The bought edges are known and partial_solution_weight is their
      weight. */
  predicate Bought(D: Records, ps: seq<Edge>, w: int) {
    (forall i :: 0 <= i < |ps| ==> ps[i].id in D) && w == SumWeights(D, ps)
  }

  /** Weights are all the sum reads. */
  lemma {:induction false} WeightsKept(D: Records, D': Records, ps: seq<Edge>)
    requires forall i :: 0 <= i < |ps| ==> ps[i].id in D && ps[i].id in D' && D'[ps[i].id].weight == D[ps[i].id].weight
    ensures SumWeights(D', ps) == SumWeights(D, ps)
  {
    if ps != [] {
      WeightsKept(D, D', ps[..|ps| - 1]);
    }
  }

  /** find_edge(s, t) as a value: the entry of s's list with target t, or
      null_edge. */
  function Found(D: Records, inc: seq<seq<Edge>>, s: int, t: int): Edge
    requires 0 <= s < |inc| && Known(D, inc[s])
  {
    var k := IndexOfTarget(D, inc[s], t);
    if k < |inc[s]| then inc[s][k] else NullEdge
  }

  /** find_edge finds an edge exactly when s and t are joined, and then the
      entry it returns is a live edge from s to t; there is only one. */
  lemma FoundJoined(D: Records, inc: seq<seq<Edge>>, s: int, t: int)
    requires Rep(D, inc) && 0 <= s < |inc|
    ensures Known(D, inc[s])
    ensures Found(D, inc, s, t) == NullEdge <==> !Joined(D, s, t)
    ensures Found(D, inc, s, t) != NullEdge ==> var f := Found(D, inc, s, t);
      f in inc[s] && Live(D, f.id) && Source(D, f) == s && Target(D, f) == t
    ensures forall id :: Live(D, id) && ((D[id].s == s && D[id].t == t) || (D[id].s == t && D[id].t == s)) ==>
      id == Found(D, inc, s, t).id
  {
    JoinedListed(D, inc, s, t);
    Members(D, inc, {}, s);
    var k := IndexOfTarget(D, inc[s], t);
    if k < |inc[s]| {
      assert inc[s][k] in inc[s];
    }
  }

  /** After remove_edge of the edge between s and t, no edge joins them. */
  lemma UnlinkedApart(D: Records, inc: seq<seq<Edge>>, id: int, s: int, t: int)
    requires Rep(D, inc) && Live(D, id) && 0 <= s < |inc|
    requires (D[id].s == s && D[id].t == t) || (D[id].s == t && D[id].t == s)
    ensures !Joined(Dead(D, id), s, t)
  {
    FoundJoined(D, inc, s, t);
  }

  /** Removing an edge changes whether a and b are joined only when it
      joins them. */
  lemma DeadJoined(D: Records, id: int, a: int, b: int)
    requires id in D && !((D[id].s == a && D[id].t == b) || (D[id].s == b && D[id].t == a))
    ensures Joined(Dead(D, id), a, b) <==> Joined(D, a, b)
  {
    if Joined(D, a, b) {
      var k :| Live(D, k) && ((D[k].s == a && D[k].t == b) || (D[k].s == b && D[k].t == a));
      assert Live(Dead(D, id), k);
    }
  }

  /** Two sets of records with the same edges, weights and liveness, that
      differ at most in the histories. */
  predicate SameShape(D: Records, D': Records) {
    D.Keys == D'.Keys &&
    forall id :: id in D ==>
      D'[id].removed == D[id].removed && D'[id].s == D[id].s && D'[id].t == D[id].t && D'[id].weight == D[id].weight
  }

  /** Changing the histories keeps the lists, edge_list and the bought
      weight right. */
  lemma ShapeKept(D: Records, D': Records, inc: seq<seq<Edge>>, l: seq<Edge>, ps: seq<Edge>, w: int)
    requires SameShape(D, D') && NullKept(D')
    requires Rep(D, inc) && EdgeListed(D, l) && Bought(D, ps, w)
    ensures Rep(D', inc) && EdgeListed(D', l) && Bought(D', ps, w)
  {
    forall v | 0 <= v < |inc| ensures Leaving(D', inc[v], v) && Sorted(D', inc[v]) {
      Members(D, inc, {}, v);
      SameTargets(D, D', inc[v]);
    }
    WeightsKept(D, D', ps);
  }

  /** A representation right everywhere is right outside any X. */
  lemma RepButMore(D: Records, inc: seq<seq<Edge>>, X: set<int>)
    requires Rep(D, inc)
    ensures RepBut(D, inc, X)
  {
  }

  /** terminals.erase(std::find(terminals.begin(), terminals.end(), v)):
      the list without the first occurrence of v. */
  function RemoveValue(T: seq<int>, v: int): seq<int> {
    if T == [] then []
    else if T[0] == v then T[1..]
    else [T[0]] + RemoveValue(T[1..], v)
  }

  /** No value occurs twice in T. */
  predicate NoRepeats(T: seq<int>) {
    forall i, j :: 0 <= i < j < |T| ==> T[i] != T[j]
  }

  /** Erasing the first v leaves the others and all but one v. */
  lemma {:induction false} RemoveValueCount(T: seq<int>, v: int)
    ensures v in T ==> multiset(RemoveValue(T, v)) == multiset(T) - multiset{v}
    ensures v !in T ==> RemoveValue(T, v) == T
  {
    if T != [] {
      assert T == [T[0]] + T[1..];
      RemoveValueCount(T[1..], v);
      if T[0] != v {
        assert multiset([T[0]] + RemoveValue(T[1..], v)) == multiset{T[0]} + multiset(RemoveValue(T[1..], v));
      }
    }
  }

  /** In a list without repeats, erasing v leaves exactly the others, still
      without repeats, one shorter. */
  lemma RemoveValueKeeps(T: seq<int>, v: int)
    requires NoRepeats(T) && v in T
    ensures |RemoveValue(T, v)| == |T| - 1
    ensures forall x :: x in RemoveValue(T, v) <==> x in T && x != v
    ensures NoRepeats(RemoveValue(T, v))
  {
    RemoveValueCount(T, v);
    var r := RemoveValue(T, v);
    assert |multiset(r)| == |multiset(T)| - 1;
    CountOnce(T);
    forall x ensures x in r <==> x in T && x != v {
      assert x in r <==> multiset(r)[x] > 0;
      assert x in T <==> multiset(T)[x] > 0;
    }
    OnceNoRepeats(r);
  }

  /** A list with every value at most once has no repeats. */
  lemma OnceNoRepeats(r: seq<int>)
    requires forall x :: multiset(r)[x] <= 1
    ensures NoRepeats(r)
  {
    forall i, j | 0 <= i < j < |r| ensures r[i] != r[j] {
      var a := r[..j];
      assert r == a + r[j..] && r[j..] == [r[j]] + r[j + 1..];
      assert r[i] in a by {
        assert a[i] == r[i];
      }
      assert multiset(r)[r[j]] >= multiset(a)[r[j]] + 1;
    }
  }

  /** A list without repeats has every value at most once. */
  lemma {:induction false} CountOnce(T: seq<int>)
    requires NoRepeats(T)
    ensures forall x :: multiset(T)[x] <= 1
  {
    if T != [] {
      assert T == [T[0]] + T[1..];
      assert NoRepeats(T[1..]) by {
        forall i, j | 0 <= i < j < |T[1..]| ensures T[1..][i] != T[1..][j] {
          assert T[1..][i] == T[i + 1] && T[1..][j] == T[j + 1];
        }
      }
      CountOnce(T[1..]);
      forall i | 0 <= i < |T[1..]| ensures T[1..][i] != T[0] {
        assert T[1..][i] == T[i + 1];
      }
    }
  }
}
