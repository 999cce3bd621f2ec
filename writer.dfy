/** src/write.hpp: count_edges and graph_to_file, which print a graph in
    the PACE 2018 instance format. Each vertex i scans its incidence list
    and prints the entries whose smaller end is i, once per bigger end, ids
    shifted to 1-based; the `processed` vector of the source is the value
    Picked below, and the printed file is InstanceText.Layout of the rows
    and terminals the loops produce. */
module Writer {
  import opened Text
  import opened Verifier
  import opened Incidence
  import opened GraphRep
  import opened Graphs
  import opened InstanceText

  /** MIN(source, target) of an entry. */
  function Lo(D: Records, e: Edge): int
    requires e.id in D
  {
    if Source(D, e) < Target(D, e) then Source(D, e) else Target(D, e)
  }

  /** MAX(source, target) of an entry. */
  function Hi(D: Records, e: Edge): int
    requires e.id in D
  {
    if Source(D, e) > Target(D, e) then Source(D, e) else Target(D, e)
  }

  /** Vertex i counts (and prints) entry e when i is its smaller end and
      its bigger end is not yet in `processed`. */
  predicate Takes(D: Records, e: Edge, i: int, processed: seq<int>)
    requires e.id in D
  {
    Lo(D, e) == i && Hi(D, e) !in processed
  }

  /** The `processed` vector once the entries l of vertex i's list are
      scanned: i itself, then the bigger end of every entry taken. */
  function Picked(D: Records, l: seq<Edge>, i: int): (p: seq<int>)
    requires Known(D, l)
    ensures |p| >= 1 && p[0] == i
  {
    if l == [] then [i]
    else
      var p := Picked(D, l[..|l| - 1], i);
      var e := l[|l| - 1];
      if Takes(D, e, i, p) then p + [Hi(D, e)] else p
  }

  /** edge_weight after the loop over `full` (src/write.hpp:62-70): the
      weight w, lowered to every smaller weight of an entry of l with ends
      lo and hi. */
  function MinWeight(D: Records, l: seq<Edge>, lo: int, hi: int, w: int): int
    requires Known(D, l)
  {
    if l == [] then w
    else
      var m := MinWeight(D, l[..|l| - 1], lo, hi, w);
      var f := l[|l| - 1];
      if Lo(D, f) == lo && Hi(D, f) == hi && Weight(D, f) < m then Weight(D, f) else m
  }

  /** The E rows vertex i prints while scanning the entries l of its list
      `full`, with the printed (1-based) ids. */
  function RowsOf(D: Records, l: seq<Edge>, i: int, full: seq<Edge>): seq<Row>
    requires Known(D, l) && Known(D, full)
  {
    if l == [] then []
    else
      var e := l[|l| - 1];
      var rs := RowsOf(D, l[..|l| - 1], i, full);
      if Takes(D, e, i, Picked(D, l[..|l| - 1], i)) then
        rs + [Row(i + 1, Hi(D, e) + 1, MinWeight(D, full, i, Hi(D, e), Weight(D, e)))]
      else rs
  }

  /** The lists of the first k vertices have records. */
  predicate ListsKnown(D: Records, inc: seq<seq<Edge>>, k: int) {
    0 <= k <= |inc| && forall v :: 0 <= v < k ==> Known(D, inc[v])
  }

  /** The E rows of the first k vertices, in the order they are printed. */
  function AllRows(D: Records, inc: seq<seq<Edge>>, k: int): seq<Row>
    requires ListsKnown(D, inc, k)
  {
    if k == 0 then [] else AllRows(D, inc, k - 1) + RowsOf(D, inc[k - 1], k - 1, inc[k - 1])
  }

  /** number_of_edges after the first k vertices. */
  function EdgeCount(D: Records, inc: seq<seq<Edge>>, k: int): int
    requires ListsKnown(D, inc, k)
  {
    if k == 0 then 0 else EdgeCount(D, inc, k - 1) + (|Picked(D, inc[k - 1], k - 1)| - 1)
  }

  /** The T ids printed for the first k vertices: vertex_map[i] of every
      vertex whose mask bit is set, in increasing order. */
  function Marks(mask: seq<bool>, k: int): seq<int>
    requires 0 <= k <= |mask|
  {
    if k == 0 then [] else Marks(mask, k - 1) + (if mask[k - 1] then [k] else [])
  }

  /** What graph_to_file reads of g without going out of bounds or
      through a missing record: a list per vertex, a mask bit per vertex,
      and for every entry a vertex prints, a bigger end below vertex_count. */
  predicate Printable(g: GraphState) {
    0 < g.vertexCount && ListsKnown(g.data, g.inc, g.vertexCount) && g.vertexCount <= |g.terminalMask| &&
    forall v, k :: 0 <= v < g.vertexCount && 0 <= k < |g.inc[v]| && Lo(g.data, g.inc[v][k]) == v ==>
      Hi(g.data, g.inc[v][k]) < g.vertexCount
  }

  /** The file graph_to_file writes. */
  function WrittenFile(g: GraphState): seq<string>
    requires Printable(g)
  {
    Layout(g.vertexCount, EdgeCount(g.data, g.inc, g.vertexCount), AllRows(g.data, g.inc, g.vertexCount),
           g.terminalCount, Marks(g.terminalMask, g.vertexCount))
  }

  /** The inner loop of count_edges (src/write.hpp:22-31) for vertex i. */
  method CountVertex(D: Records, l: seq<Edge>, i: int) returns (c: int)
    requires Known(D, l)
    ensures c == |Picked(D, l, i)| - 1
  {
    var processed := [i];
    c := 0;
    for k := 0 to |l|
      invariant processed == Picked(D, l[..k], i) && c == |processed| - 1
    {
      assert l[..k + 1][..k] == l[..k];
      var e := l[k];
      var smaller := if Source(D, e) < Target(D, e) then Source(D, e) else Target(D, e);
      var bigger := if Source(D, e) > Target(D, e) then Source(D, e) else Target(D, e);
      if smaller == i && bigger !in processed {
        processed := processed + [bigger];
        c := c + 1;
      }
    }
    assert l[..|l|] == l;
  }

  /** count_edges (src/write.hpp:18-34). */
  method CountEdges(g: GraphState) returns (count: int)
    requires ListsKnown(g.data, g.inc, g.vertexCount)
    ensures count == EdgeCount(g.data, g.inc, g.vertexCount)
  {
    count := 0;
    for i := 0 to g.vertexCount
      invariant count == EdgeCount(g.data, g.inc, i)
    {
      var c := CountVertex(g.data, g.inc[i], i);
      count := count + c;
    }
  }

  /** vertex_map (src/write.hpp:38-46): vertex i is printed as i + 1. */
  method VertexMap(n: int) returns (m: seq<int>)
    requires n >= 0
    ensures |m| == n && forall i :: 0 <= i < n ==> m[i] == i + 1
  {
    m := [];
    for i := 0 to n
      invariant |m| == i && forall j :: 0 <= j < i ==> m[j] == j + 1
    {
      m := m + [i + 1];
    }
  }

  /** The weight loop of src/write.hpp:62-70 over the list l. */
  method LowestWeight(D: Records, l: seq<Edge>, lo: int, hi: int, w: int) returns (m: int)
    requires Known(D, l)
    ensures m == MinWeight(D, l, lo, hi, w)
  {
    m := w;
    for k := 0 to |l|
      invariant m == MinWeight(D, l[..k], lo, hi, w)
    {
      assert l[..k + 1][..k] == l[..k];
      var f := l[k];
      var smaller := if Source(D, f) < Target(D, f) then Source(D, f) else Target(D, f);
      var bigger := if Source(D, f) > Target(D, f) then Source(D, f) else Target(D, f);
      if smaller == lo && bigger == hi && Weight(D, f) < m {
        m := Weight(D, f);
      }
    }
    assert l[..|l|] == l;
  }

  lemma EdgeTextsAppend(a: seq<Row>, b: seq<Row>)
    ensures EdgeTexts(a + b) == EdgeTexts(a) + EdgeTexts(b)
  {
    MapAppend(EdgeText, a, b);
  }

  lemma EdgeTextsPush(a: seq<Row>, r: Row)
    ensures EdgeTexts(a + [r]) == EdgeTexts(a) + [EdgeText(r)]
  {
    MapPush(EdgeText, a, r);
  }

  lemma TermTextsPush(a: seq<int>, t: int)
    ensures TermTexts(a + [t]) == TermTexts(a) + [TermText(t)]
  {
    MapPush(TermText, a, t);
  }

  /** The entries of `full` that vertex i prints have bigger ends mapped by m. */
  predicate MapsPrinted(D: Records, full: seq<Edge>, i: int, m: seq<int>)
    requires Known(D, full)
  {
    0 <= i < |m| && m[i] == i + 1 &&
    forall k :: 0 <= k < |full| && Lo(D, full[k]) == i ==> 0 <= Hi(D, full[k]) < |m| && m[Hi(D, full[k])] == Hi(D, full[k]) + 1
  }

  /** Picked and RowsOf over one more entry of the list. */
  lemma ScanStep(D: Records, full: seq<Edge>, k: int, i: int, p: seq<int>)
    requires Known(D, full) && 0 <= k < |full| && p == Picked(D, full[..k], i)
    ensures Takes(D, full[k], i, p) ==>
      (Picked(D, full[..k + 1], i) == p + [Hi(D, full[k])] &&
       RowsOf(D, full[..k + 1], i, full) ==
       RowsOf(D, full[..k], i, full) + [Row(i + 1, Hi(D, full[k]) + 1, MinWeight(D, full, i, Hi(D, full[k]), Weight(D, full[k])))])
    ensures !Takes(D, full[k], i, p) ==>
      (Picked(D, full[..k + 1], i) == p && RowsOf(D, full[..k + 1], i, full) == RowsOf(D, full[..k], i, full))
  {
    assert full[..k + 1][..k] == full[..k];
  }

  /** The E lines vertex i prints (src/write.hpp:55-73). */
  method VertexLines(D: Records, full: seq<Edge>, i: int, m: seq<int>) returns (lines: seq<string>)
    requires Known(D, full) && MapsPrinted(D, full, i, m)
    ensures lines == EdgeTexts(RowsOf(D, full, i, full))
  {
    var processed := [i];
    lines := [];
    for k := 0 to |full|
      invariant processed == Picked(D, full[..k], i)
      invariant lines == EdgeTexts(RowsOf(D, full[..k], i, full))
    {
      ScanStep(D, full, k, i, processed);
      var e := full[k];
      var smaller := if Source(D, e) < Target(D, e) then Source(D, e) else Target(D, e);
      var bigger := if Source(D, e) > Target(D, e) then Source(D, e) else Target(D, e);
      if smaller == i && bigger !in processed {
        processed := processed + [bigger];
        var w := LowestWeight(D, full, smaller, bigger, Weight(D, e));
        var row := Row(m[smaller], m[bigger], w);
        assert row == Row(i + 1, Hi(D, e) + 1, MinWeight(D, full, i, Hi(D, e), Weight(D, e)));
        EdgeTextsPush(RowsOf(D, full[..k], i, full), row);
        lines := lines + [EdgeText(row)];
      }
    }
    assert full[..|full|] == full;
  }

  /** graph_to_file (src/write.hpp:36-87): the lines written to `out`. */
  method GraphToFile(g: GraphState) returns (out: seq<string>)
    requires Printable(g)
    ensures out == WrittenFile(g)
  {
    var n := g.vertexCount;
    var m := VertexMap(n);
    var count := CountEdges(g);
    var head := GraphHead(m[n - 1], count);
    var body := EdgeLines(g, m);
    var mid := TerminalHead(g.terminalCount);
    var terms := TerminalLines(g.terminalMask, n, m);
    out := head + body + mid + terms + FileTail();
  }

  /** The loop of src/write.hpp:52-74: the E lines of every vertex in turn. */
  method EdgeLines(g: GraphState, m: seq<int>) returns (body: seq<string>)
    requires Printable(g)
    requires |m| == g.vertexCount && forall j :: 0 <= j < g.vertexCount ==> m[j] == j + 1
    ensures body == EdgeTexts(AllRows(g.data, g.inc, g.vertexCount))
  {
    body := [];
    for i := 0 to g.vertexCount
      invariant body == EdgeTexts(AllRows(g.data, g.inc, i))
    {
      body := AddVertexLines(g, m, i, body);
    }
  }

  /** One round of that loop: vertex i's E lines follow those before. */
  method AddVertexLines(g: GraphState, m: seq<int>, i: int, body: seq<string>) returns (body': seq<string>)
    requires Printable(g) && 0 <= i < g.vertexCount
    requires |m| == g.vertexCount && forall j :: 0 <= j < g.vertexCount ==> m[j] == j + 1
    requires body == EdgeTexts(AllRows(g.data, g.inc, i))
    ensures body' == EdgeTexts(AllRows(g.data, g.inc, i + 1))
  {
    PrintableMaps(g, m, i);
    var lines := VertexLines(g.data, g.inc[i], i, m);
    AllTextsStep(g.data, g.inc, i);
    body' := body + lines;
  }

  /** The E lines of the first i + 1 vertices: those of the first i, then
      vertex i's. */
  lemma AllTextsStep(D: Records, inc: seq<seq<Edge>>, i: int)
    requires 0 <= i && ListsKnown(D, inc, i + 1)
    ensures EdgeTexts(AllRows(D, inc, i + 1)) == EdgeTexts(AllRows(D, inc, i)) + EdgeTexts(RowsOf(D, inc[i], i, inc[i]))
  {
    EdgeTextsAppend(AllRows(D, inc, i), RowsOf(D, inc[i], i, inc[i]));
  }

  lemma PrintableMaps(g: GraphState, m: seq<int>, i: int)
    requires Printable(g) && 0 <= i < g.vertexCount
    requires |m| == g.vertexCount && forall j :: 0 <= j < g.vertexCount ==> m[j] == j + 1
    ensures Known(g.data, g.inc[i]) && MapsPrinted(g.data, g.inc[i], i, m)
  {
  }

  /** The T lines (src/write.hpp:79-83). */
  method TerminalLines(mask: seq<bool>, n: int, m: seq<int>) returns (lines: seq<string>)
    requires 0 <= n <= |mask| && |m| == n && forall i :: 0 <= i < n ==> m[i] == i + 1
    ensures lines == TermTexts(Marks(mask, n))
  {
    lines := [];
    for i := 0 to n
      invariant lines == TermTexts(Marks(mask, i))
    {
      if mask[i] {
        TermTextsPush(Marks(mask, i), i + 1);
        lines := lines + [TermText(m[i])];
      } else {
        assert Marks(mask, i + 1) == Marks(mask, i);
      }
    }
  }

  /** Some entry of l has smaller end i and bigger end x. */
  ghost predicate Printed(D: Records, l: seq<Edge>, i: int, x: int)
    requires Known(D, l)
  {
    exists k :: 0 <= k < |l| && Lo(D, l[k]) == i && Hi(D, l[k]) == x
  }

  lemma PrintedStep(D: Records, l: seq<Edge>, i: int)
    requires Known(D, l) && l != []
    ensures forall x :: Printed(D, l, i, x) <==>
      Printed(D, l[..|l| - 1], i, x) || (Lo(D, l[|l| - 1]) == i && Hi(D, l[|l| - 1]) == x)
  {
    var q := l[..|l| - 1];
    forall x
      ensures Printed(D, l, i, x) <==> Printed(D, q, i, x) || (Lo(D, l[|l| - 1]) == i && Hi(D, l[|l| - 1]) == x)
    {
      if Printed(D, l, i, x) {
        var k :| 0 <= k < |l| && Lo(D, l[k]) == i && Hi(D, l[k]) == x;
        if k < |q| {
          assert q[k] == l[k];
        }
      }
      if Printed(D, q, i, x) {
        var k :| 0 <= k < |q| && Lo(D, q[k]) == i && Hi(D, q[k]) == x;
        assert l[k] == q[k];
      }
    }
  }

  /** One more distinct value keeps a list free of repeats. */
  lemma AppendFresh(p: seq<int>, h: int)
    requires NoRepeats(p) && h !in p
    ensures NoRepeats(p + [h])
  {
    var q := p + [h];
    forall a, b | 0 <= a < b < |q|
      ensures q[a] != q[b]
    {
      assert q[a] == p[a];
      if b < |p| {
        assert q[b] == p[b];
      }
    }
  }

  /** `processed` never holds a value twice, and besides i it holds exactly
      the bigger ends of the entries whose smaller end is i. So a vertex
      prints one line per neighbour above it, and none for a loop. */
  lemma {:induction false} PickedShape(D: Records, l: seq<Edge>, i: int)
    requires Known(D, l)
    ensures NoRepeats(Picked(D, l, i))
    ensures forall x :: x in Picked(D, l, i)[1..] <==> x != i && Printed(D, l, i, x)
    decreases |l|
  {
    if l != [] {
      var q := l[..|l| - 1];
      var e := l[|l| - 1];
      var p := Picked(D, q, i);
      PickedShape(D, q, i);
      PrintedStep(D, l, i);
      if Takes(D, e, i, p) {
        AppendFresh(p, Hi(D, e));
        assert (p + [Hi(D, e)])[1..] == p[1..] + [Hi(D, e)];
      } else {
        assert Lo(D, e) == i ==> Hi(D, e) == i || Hi(D, e) in p[1..] by {
          assert p == [p[0]] + p[1..];
        }
      }
    }
  }

  /** An entry of l joins lo and hi. */
  predicate Parallel(D: Records, l: seq<Edge>, k: int, lo: int, hi: int)
    requires Known(D, l) && 0 <= k < |l|
  {
    Lo(D, l[k]) == lo && Hi(D, l[k]) == hi
  }

  /** w is the least weight of the entries of l joining lo and hi, and one
      of them has it. */
  ghost predicate LeastWeight(D: Records, l: seq<Edge>, lo: int, hi: int, w: int)
    requires Known(D, l)
  {
    (forall k :: 0 <= k < |l| && Parallel(D, l, k, lo, hi) ==> w <= Weight(D, l[k])) &&
    exists k :: 0 <= k < |l| && Parallel(D, l, k, lo, hi) && Weight(D, l[k]) == w
  }

  /** The weight loop keeps the least of w and the weights of the entries
      joining lo and hi, and that least value is w or one of those weights. */
  lemma {:induction false} MinWeightBounds(D: Records, l: seq<Edge>, lo: int, hi: int, w: int)
    requires Known(D, l)
    ensures MinWeight(D, l, lo, hi, w) <= w
    ensures forall k :: 0 <= k < |l| && Parallel(D, l, k, lo, hi) ==> MinWeight(D, l, lo, hi, w) <= Weight(D, l[k])
    ensures MinWeight(D, l, lo, hi, w) == w ||
      exists k :: 0 <= k < |l| && Parallel(D, l, k, lo, hi) && Weight(D, l[k]) == MinWeight(D, l, lo, hi, w)
    decreases |l|
  {
    if l != [] {
      var q := l[..|l| - 1];
      MinWeightBounds(D, q, lo, hi, w);
      forall k | 0 <= k < |q|
        ensures Parallel(D, l, k, lo, hi) == Parallel(D, q, k, lo, hi) && l[k] == q[k]
      {
      }
    }
  }

  /** The weight printed for the entry k of `full` is the least weight of
      the entries of `full` with the same ends. */
  lemma RowWeight(D: Records, full: seq<Edge>, k: int, lo: int, hi: int)
    requires Known(D, full) && 0 <= k < |full| && Parallel(D, full, k, lo, hi)
    ensures LeastWeight(D, full, lo, hi, MinWeight(D, full, lo, hi, Weight(D, full[k])))
  {
    MinWeightBounds(D, full, lo, hi, Weight(D, full[k]));
  }

  /** The rows vertex i prints after the first n entries of its list: one
      per value Picked adds, in the same order, from i + 1 to that value
      plus one, with the least weight between the two. */
  lemma {:induction false} RowsShape(D: Records, full: seq<Edge>, n: int, i: int)
    requires Known(D, full) && 0 <= n <= |full|
    ensures |RowsOf(D, full[..n], i, full)| == |Picked(D, full[..n], i)| - 1
    ensures forall j :: 0 <= j < |RowsOf(D, full[..n], i, full)| ==>
      RowsOf(D, full[..n], i, full)[j].u == i + 1 &&
      RowsOf(D, full[..n], i, full)[j].v == Picked(D, full[..n], i)[j + 1] + 1 &&
      LeastWeight(D, full, i, Picked(D, full[..n], i)[j + 1], RowsOf(D, full[..n], i, full)[j].w)
    decreases n
  {
    if n > 0 {
      var k := n - 1;
      RowsShape(D, full, k, i);
      var p := Picked(D, full[..k], i);
      ScanStep(D, full, k, i, p);
      if Takes(D, full[k], i, p) {
        RowWeight(D, full, k, i, Hi(D, full[k]));
      }
    }
  }

  /** Row r, printed by vertex i with list l, stands for an entry of l from
      i to a bigger vertex, ids 1-based, with the least weight between them. */
  ghost predicate Describes(D: Records, l: seq<Edge>, i: int, r: Row)
    requires Known(D, l)
  {
    r.u == i + 1 && r.u < r.v && Printed(D, l, i, r.v - 1) && LeastWeight(D, l, i, r.v - 1, r.w)
  }

  /** The rows of one vertex: as many as count_edges counts for it, each
      describing an entry. */
  lemma VertexRows(D: Records, l: seq<Edge>, i: int)
    requires Known(D, l)
    ensures |RowsOf(D, l, i, l)| == |Picked(D, l, i)| - 1
    ensures forall j :: 0 <= j < |RowsOf(D, l, i, l)| ==> Describes(D, l, i, RowsOf(D, l, i, l)[j])
  {
    assert l[..|l|] == l;
    RowsShape(D, l, |l|, i);
    PickedShape(D, l, i);
    var R, P := RowsOf(D, l, i, l), Picked(D, l, i);
    forall j | 0 <= j < |R|
      ensures Describes(D, l, i, R[j])
    {
      assert P[1..][j] == P[j + 1];
    }
  }

  /** No bigger end gets two rows of one vertex. */
  lemma VertexRowsDistinct(D: Records, l: seq<Edge>, i: int)
    requires Known(D, l)
    ensures forall a, b :: 0 <= a < b < |RowsOf(D, l, i, l)| ==> RowsOf(D, l, i, l)[a].v != RowsOf(D, l, i, l)[b].v
  {
    assert l[..|l|] == l;
    RowsShape(D, l, |l|, i);
    PickedShape(D, l, i);
  }

  /** Every bigger end of an entry from i gets a row of vertex i. */
  lemma VertexRowsComplete(D: Records, l: seq<Edge>, i: int)
    requires Known(D, l)
    ensures forall x :: x != i && Printed(D, l, i, x) ==>
      exists j :: 0 <= j < |RowsOf(D, l, i, l)| && RowsOf(D, l, i, l)[j].u == i + 1 && RowsOf(D, l, i, l)[j].v == x + 1
  {
    assert l[..|l|] == l;
    RowsShape(D, l, |l|, i);
    PickedShape(D, l, i);
    var R, P := RowsOf(D, l, i, l), Picked(D, l, i);
    forall x | x != i && Printed(D, l, i, x)
      ensures exists j :: 0 <= j < |R| && R[j].u == i + 1 && R[j].v == x + 1
    {
      var m :| 0 <= m < |P[1..]| && P[1..][m] == x;
      assert R[m].u == i + 1 && R[m].v == x + 1;
    }
  }

  /** The "Edges" header counts the E lines: count_edges and the printing
      loop take the same entries. */
  lemma {:induction false} AllRowsCount(D: Records, inc: seq<seq<Edge>>, k: int)
    requires ListsKnown(D, inc, k)
    ensures |AllRows(D, inc, k)| == EdgeCount(D, inc, k)
    decreases k
  {
    if k > 0 {
      AllRowsCount(D, inc, k - 1);
      VertexRows(D, inc[k - 1], k - 1);
    }
  }

  /** Every row of the first k vertices is printed by one of them, vertex
      u - 1, and describes an entry of its list. */
  lemma {:induction false} AllDescribed(D: Records, inc: seq<seq<Edge>>, k: int)
    requires ListsKnown(D, inc, k)
    ensures forall j :: 0 <= j < |AllRows(D, inc, k)| ==>
      1 <= AllRows(D, inc, k)[j].u <= k &&
      Describes(D, inc[AllRows(D, inc, k)[j].u - 1], AllRows(D, inc, k)[j].u - 1, AllRows(D, inc, k)[j])
    decreases k
  {
    if k > 0 {
      AllDescribed(D, inc, k - 1);
      VertexRows(D, inc[k - 1], k - 1);
      var A: seq<Row> := AllRows(D, inc, k - 1);
      var B: seq<Row> := RowsOf(D, inc[k - 1], k - 1, inc[k - 1]);
      forall j | 0 <= j < |A + B|
        ensures 1 <= (A + B)[j].u <= k && Describes(D, inc[(A + B)[j].u - 1], (A + B)[j].u - 1, (A + B)[j])
      {
        if j < |A| {
          assert (A + B)[j] == A[j];
        } else {
          assert (A + B)[j] == B[j - |A|];
        }
      }
    }
  }

  /** Every entry from a vertex v < k to a bigger vertex x gets a row. */
  lemma {:induction false} AllComplete(D: Records, inc: seq<seq<Edge>>, k: int)
    requires ListsKnown(D, inc, k)
    ensures forall v, x :: 0 <= v < k && x != v && Printed(D, inc[v], v, x) ==>
      exists j :: 0 <= j < |AllRows(D, inc, k)| && AllRows(D, inc, k)[j].u == v + 1 && AllRows(D, inc, k)[j].v == x + 1
    decreases k
  {
    if k > 0 {
      AllComplete(D, inc, k - 1);
      VertexRowsComplete(D, inc[k - 1], k - 1);
      var A: seq<Row> := AllRows(D, inc, k - 1);
      var B: seq<Row> := RowsOf(D, inc[k - 1], k - 1, inc[k - 1]);
      assert AllRows(D, inc, k) == A + B;
      forall v, x | 0 <= v < k && x != v && Printed(D, inc[v], v, x)
        ensures exists j :: 0 <= j < |A + B| && (A + B)[j].u == v + 1 && (A + B)[j].v == x + 1
      {
        if v < k - 1 {
          var j :| 0 <= j < |A| && A[j].u == v + 1 && A[j].v == x + 1;
          assert (A + B)[j] == A[j];
        } else {
          assert v == k - 1;
          var j :| 0 <= j < |B| && B[j].u == k && B[j].v == x + 1;
          assert (A + B)[|A| + j] == B[j];
        }
      }
    }
  }

  /** No two rows print the same pair. */
  lemma {:induction false} AllDistinct(D: Records, inc: seq<seq<Edge>>, k: int)
    requires ListsKnown(D, inc, k)
    ensures forall a, b :: 0 <= a < b < |AllRows(D, inc, k)| ==>
      AllRows(D, inc, k)[a].u != AllRows(D, inc, k)[b].u || AllRows(D, inc, k)[a].v != AllRows(D, inc, k)[b].v
    decreases k
  {
    if k > 0 {
      AllDistinct(D, inc, k - 1);
      AllDescribed(D, inc, k - 1);
      VertexRows(D, inc[k - 1], k - 1);
      VertexRowsDistinct(D, inc[k - 1], k - 1);
      var A: seq<Row> := AllRows(D, inc, k - 1);
      var B: seq<Row> := RowsOf(D, inc[k - 1], k - 1, inc[k - 1]);
      forall a, b | 0 <= a < b < |A + B|
        ensures (A + B)[a].u != (A + B)[b].u || (A + B)[a].v != (A + B)[b].v
      {
        if b < |A| {
          assert (A + B)[a] == A[a] && (A + B)[b] == A[b];
        } else if a < |A| {
          assert (A + B)[a] == A[a] && (A + B)[b] == B[b - |A|];
        } else {
          assert (A + B)[a] == B[a - |A|] && (A + B)[b] == B[b - |A|];
        }
      }
    }
  }

  /** The T ids are increasing, and they are the vertices among the first k
      whose mask bit is set, 1-based. */
  lemma {:induction false} MarksShape(mask: seq<bool>, k: int)
    requires 0 <= k <= |mask|
    ensures forall x :: x in Marks(mask, k) <==> 1 <= x <= k && mask[x - 1]
    ensures forall a, b :: 0 <= a < b < |Marks(mask, k)| ==> Marks(mask, k)[a] < Marks(mask, k)[b]
    decreases k
  {
    if k > 0 {
      MarksShape(mask, k - 1);
      var M := Marks(mask, k - 1);
      if mask[k - 1] {
        forall a, b | 0 <= a < b < |M + [k]|
          ensures (M + [k])[a] < (M + [k])[b]
        {
          assert (M + [k])[a] == M[a];
          if b < |M| {
            assert (M + [k])[b] == M[b];
          } else {
            assert M[a] in M;
          }
        }
      }
    }
  }

  /** Two lists without repeats holding the same values have the same length. */
  lemma SameSize(a: seq<int>, b: seq<int>)
    requires NoRepeats(a) && NoRepeats(b) && forall x :: x in a <==> x in b
    ensures |a| == |b|
  {
    CountOnce(a);
    CountOnce(b);
    forall x
      ensures multiset(a)[x] == multiset(b)[x]
    {
      assert x in a <==> x in multiset(a);
      assert x in b <==> x in multiset(b);
    }
    assert multiset(a) == multiset(b);
    assert |a| == |multiset(a)| && |b| == |multiset(b)|;
  }

  /** The "Terminals" header counts the T lines, and the terminals the
      verifier reads from them are the graph's terminals, in increasing
      order. */
  lemma MarksCount(T: seq<int>, mask: seq<bool>, count: int, n: int)
    requires TerminalsKept(T, mask, count, n)
    ensures |Marks(mask, n)| == count
    ensures forall x :: x in TermIds(Marks(mask, n)) <==> x in T
    ensures forall a, b :: 0 <= a < b < |Marks(mask, n)| ==> TermIds(Marks(mask, n))[a] < TermIds(Marks(mask, n))[b]
  {
    MarksShape(mask, n);
    var M := Marks(mask, n);
    var Z := TermIds(M);
    forall x
      ensures x in Z <==> x in T
    {
      if x in Z {
        var a :| 0 <= a < |Z| && Z[a] == x;
        assert M[a] in M;
      }
      if x in T {
        assert x + 1 in M;
        var a :| 0 <= a < |M| && M[a] == x + 1;
        assert Z[a] == x;
      }
    }
    assert NoRepeats(Z) by {
      forall a, b | 0 <= a < b < |Z|
        ensures Z[a] != Z[b]
      {
        assert M[a] < M[b];
      }
    }
    SameSize(Z, T);
  }

  /** A consistent graph with a vertex can be printed. */
  lemma ConsistentPrintable(g: GraphState)
    requires Consistent(g) && 0 < g.vertexCount
    ensures Printable(g)
  {
    forall v, k | 0 <= v < g.vertexCount && 0 <= k < |g.inc[v]|
      ensures g.inc[v][k].id in g.data && Hi(g.data, g.inc[v][k]) < g.vertexCount
    {
      assert Leaving(g.data, g.inc[v], v);
      assert Live(g.data, g.inc[v][k].id);
    }
  }

  /** Both ids of every row are vertices of the graph, 1-based. */
  lemma AllRowsOk(g: GraphState)
    requires Printable(g)
    ensures RowsOk(AllRows(g.data, g.inc, g.vertexCount), g.vertexCount, true)
  {
    var rows := AllRows(g.data, g.inc, g.vertexCount);
    AllDescribed(g.data, g.inc, g.vertexCount);
    forall j | 0 <= j < |rows|
      ensures IdOk(rows[j].u - 1, g.vertexCount, true) && IdOk(rows[j].v - 1, g.vertexCount, true)
    {
      var i := rows[j].u - 1;
      assert Printed(g.data, g.inc[i], i, rows[j].v - 1);
      var k :| 0 <= k < |g.inc[i]| && Lo(g.data, g.inc[i][k]) == i && Hi(g.data, g.inc[i][k]) == rows[j].v - 1;
    }
  }

  /** Round trip: the verifier reads the file graph_to_file writes for a
      consistent graph back as the graph's vertex count, one weight per
      printed row, and the graph's terminals. */
  lemma WrittenFileReads(g: GraphState)
    requires Consistent(g) && 0 < g.vertexCount
    ensures Printable(g)
    ensures ParseInstance(WrittenFile(g)) ==
      Ok(Instance(g.vertexCount, RowsMap(AllRows(g.data, g.inc, g.vertexCount)), TermIds(Marks(g.terminalMask, g.vertexCount))))
  {
    ConsistentPrintable(g);
    var n := g.vertexCount;
    var rows := AllRows(g.data, g.inc, n);
    var terms := Marks(g.terminalMask, n);
    AllRowsCount(g.data, g.inc, n);
    MarksCount(g.terminals, g.terminalMask, g.terminalCount, n);
    AllRowsOk(g);
    MarksShape(g.terminalMask, n);
    assert TermsOk(terms, n, true) by {
      forall i | 0 <= i < |terms|
        ensures 0 <= terms[i] - 1 < n
      {
        assert terms[i] in terms;
      }
    }
    LayoutReads(n, rows, terms, true);
  }

  /** w is the least weight of the live edges joining s and t, and one of
      them has it. */
  ghost predicate LeastEdge(D: Records, s: int, t: int, w: int) {
    (forall id :: Graphs.Joins(D, id, s, t) ==> w <= D[id].weight) &&
    exists id :: Graphs.Joins(D, id, s, t) && D[id].weight == w
  }

  /** Correct incidence lists have records. */
  lemma RepKnown(D: Records, inc: seq<seq<Edge>>)
    requires Rep(D, inc)
    ensures ListsKnown(D, inc, |inc|)
  {
    forall v | 0 <= v < |inc|
      ensures Known(D, inc[v])
    {
      assert Leaving(D, inc[v], v);
    }
  }

  /** With correct incidence lists, an entry of v's list from v up to x is
      a live edge between v and x, and every such edge is one. */
  lemma PrintedJoined(D: Records, inc: seq<seq<Edge>>, v: int, x: int)
    requires Rep(D, inc) && 0 <= v < |inc| && v < x
    ensures Known(D, inc[v])
    ensures Printed(D, inc[v], v, x) <==> Joined(D, v, x)
    ensures forall w :: LeastWeight(D, inc[v], v, x, w) ==> LeastEdge(D, v, x, w)
  {
    var l := inc[v];
    JoinedListed(D, inc, v, x);
    assert Leaving(D, l, v);
    if Printed(D, l, v, x) {
      var k :| 0 <= k < |l| && Lo(D, l[k]) == v && Hi(D, l[k]) == x;
      assert Target(D, l[k]) == x;
    }
    if Joined(D, v, x) {
      var k := IndexOfTarget(D, l, x);
      assert Lo(D, l[k]) == v && Hi(D, l[k]) == x;
    }
    forall w | LeastWeight(D, l, v, x, w)
      ensures LeastEdge(D, v, x, w)
    {
      var k :| 0 <= k < |l| && Parallel(D, l, k, v, x) && Weight(D, l[k]) == w;
      assert Graphs.Joins(D, l[k].id, v, x);
      forall id | Graphs.Joins(D, id, v, x)
        ensures w <= D[id].weight
      {
        var k0 := IndexOfTarget(D, l, x);
        assert l[k0].id == id && Parallel(D, l, k0, v, x);
      }
    }
  }

  /** Some row prints the pair (u, v). */
  predicate HasRow(rows: seq<Row>, u: int, v: int) {
    exists j :: 0 <= j < |rows| && rows[j].u == u && rows[j].v == v
  }

  /** Row r is a pair of the first n vertices, smaller id first, 1-based,
      joined by a live edge, with the least weight of the live edges
      joining them. */
  ghost predicate EdgeRow(D: Records, n: int, r: Row) {
    1 <= r.u < r.v <= n && LeastEdge(D, r.u - 1, r.v - 1, r.w)
  }

  /** Every E line of correct incidence lists is an EdgeRow. */
  lemma RowsJoined(D: Records, inc: seq<seq<Edge>>)
    requires Rep(D, inc)
    ensures ListsKnown(D, inc, |inc|)
    ensures forall j :: 0 <= j < |AllRows(D, inc, |inc|)| ==> EdgeRow(D, |inc|, AllRows(D, inc, |inc|)[j])
  {
    RepKnown(D, inc);
    var rows := AllRows(D, inc, |inc|);
    AllDescribed(D, inc, |inc|);
    forall j | 0 <= j < |rows|
      ensures EdgeRow(D, |inc|, rows[j])
    {
      RowJoined(D, inc, rows[j]);
    }
  }

  /** One row of RowsJoined. */
  lemma RowJoined(D: Records, inc: seq<seq<Edge>>, r: Row)
    requires Rep(D, inc) && 1 <= r.u <= |inc| && Known(D, inc[r.u - 1]) && Describes(D, inc[r.u - 1], r.u - 1, r)
    ensures EdgeRow(D, |inc|, r)
  {
    PrintedJoined(D, inc, r.u - 1, r.v - 1);
    var id :| Live(D, id) && ((D[id].s == r.u - 1 && D[id].t == r.v - 1) || (D[id].s == r.v - 1 && D[id].t == r.u - 1));
  }

  /** Every pair of vertices joined by a live edge gets an E line. */
  lemma JoinedRows(D: Records, inc: seq<seq<Edge>>)
    requires Rep(D, inc)
    ensures ListsKnown(D, inc, |inc|)
    ensures forall s, t :: 0 <= s < t < |inc| && Joined(D, s, t) ==> HasRow(AllRows(D, inc, |inc|), s + 1, t + 1)
  {
    RepKnown(D, inc);
    AllComplete(D, inc, |inc|);
    forall s, t | 0 <= s < t < |inc| && Joined(D, s, t)
      ensures HasRow(AllRows(D, inc, |inc|), s + 1, t + 1)
    {
      PrintedJoined(D, inc, s, t);
      assert t != s && Printed(D, inc[s], s, t);
    }
  }
}
