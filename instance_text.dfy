/** The PACE 2018 instance layout as graph_to_file (write.hpp) prints it, and
    what the verifier's instance parser reads back from it. */
module InstanceText {
  import opened Text
  import opened Verifier

  /** One printed "E u v w" line: file ids (1-based) and the weight. */
  datatype Row = Row(u: int, v: int, w: int)

  /** A keyword line such as "SECTION Graph\n" or "END\n". */
  function Line(kw: string): string {
    kw + "\n"
  }

  /** A "%s %d\n" header line such as "Nodes 5\n". */
  function HeaderLine(kw: string, i: int): string {
    kw + " " + IntToString(i) + "\n"
  }

  /** "E %d %d %d\n". */
  function EdgeText(r: Row): string {
    "E " + IntToString(r.u) + " " + IntToString(r.v) + " " + IntToString(r.w) + "\n"
  }

  /** "T %d\n". */
  function TermText(t: int): string {
    "T " + IntToString(t) + "\n"
  }

  function EdgeTexts(rows: seq<Row>): (r: seq<string>)
    ensures |r| == |rows| && forall i :: 0 <= i < |rows| ==> r[i] == EdgeText(rows[i])
  {
    Map(EdgeText, rows)
  }

  function TermTexts(terms: seq<int>): (r: seq<string>)
    ensures |r| == |terms| && forall i :: 0 <= i < |terms| ==> r[i] == TermText(terms[i])
  {
    Map(TermText, terms)
  }

  /** The three lines before the edge lines. */
  function GraphHead(nodes: int, m: int): (r: seq<string>)
    ensures |r| == 3 && r[0] == Line("SECTION Graph") && r[1] == HeaderLine("Nodes", nodes) && r[2] == HeaderLine("Edges", m)
  {
    [Line("SECTION Graph"), HeaderLine("Nodes", nodes), HeaderLine("Edges", m)]
  }

  /** The four lines between the edge lines and the terminal lines. */
  function TerminalHead(t: int): (r: seq<string>)
    ensures |r| == 4 && r[0] == Line("END") && r[1] == "\n" && r[2] == Line("SECTION Terminals") && r[3] == HeaderLine("Terminals", t)
  {
    [Line("END"), "\n", Line("SECTION Terminals"), HeaderLine("Terminals", t)]
  }

  /** The three lines after the terminal lines. */
  function FileTail(): (r: seq<string>)
    ensures |r| == 3 && r[0] == Line("END") && r[1] == "\n" && r[2] == Line("EOF")
  {
    [Line("END"), "\n", Line("EOF")]
  }

  /** The instance file: the graph section with the given node count, edge
      count header and edge lines, then the terminal section with the given
      terminal count header and terminal lines, then "EOF". */
  function Layout(nodes: int, m: int, rows: seq<Row>, t: int, terms: seq<int>): (r: seq<string>)
    ensures |r| == |rows| + |terms| + 10
  {
    GraphHead(nodes, m) + EdgeTexts(rows) + TerminalHead(t) + TermTexts(terms) + FileTail()
  }

  /** The weight map the verifier builds from the edge lines, in order. */
  function RowsMap(rows: seq<Row>): map<Key, int> {
    if rows == [] then map[]
    else
      var r := rows[|rows| - 1];
      RowsMap(rows[..|rows| - 1])[KeyOf(r.u - 1, r.v - 1) := r.w]
  }

  /** The terminal list the verifier builds: 0-indexed. */
  function TermIds(terms: seq<int>): (r: seq<int>)
    ensures |r| == |terms| && forall i :: 0 <= i < |terms| ==> r[i] == terms[i] - 1
  {
    seq(|terms|, i requires 0 <= i < |terms| => terms[i] - 1)
  }

  /** Both ids of every row pass the verifier's range check. */
  predicate RowsOk(rows: seq<Row>, n: int, strict: bool) {
    forall i :: 0 <= i < |rows| ==> IdOk(rows[i].u - 1, n, strict) && IdOk(rows[i].v - 1, n, strict)
  }

  predicate TermsOk(terms: seq<int>, n: int, strict: bool) {
    forall i :: 0 <= i < |terms| ==> !strict || 0 <= terms[i] - 1 < n
  }

  /** The lines at..at+2 are "END", a blank line and `next`, once stripped. */
  predicate Break(lines: seq<string>, at: nat, next: string) {
    at + 3 <= |lines| && Strip(LineAt(lines, at)) == "END" && Strip(LineAt(lines, at + 1)) == "" && Strip(LineAt(lines, at + 2)) == next
  }

  /** One edge line read: its weight is recorded under its key, and reading
      goes on from line `next` with `rest` lines left. */
  lemma EdgeStep(lines: seq<string>, at: nat, next: nat, count: nat, rest: nat, n: int, strict: bool,
                 acc: map<Key, int>, acc': map<Key, int>, e: EdgeFields)
    requires next == at + 1 && rest == count - 1 && count > 0
    requires EdgeLine(LineAt(lines, at), n, strict) == Some(e) && acc' == acc[KeyOf(e.u, e.v) := e.w]
    ensures EdgesFrom(lines, at, count, n, strict, acc) == EdgesFrom(lines, next, rest, n, strict, acc')
  {
  }

  /** One terminal line read: its id is appended. */
  lemma TermStep(lines: seq<string>, at: nat, next: nat, count: nat, rest: nat, n: int, strict: bool,
                 acc: seq<int>, acc': seq<int>, i: int)
    requires next == at + 1 && rest == count - 1 && count > 0
    requires TerminalLine(LineAt(lines, at), n, strict) == Some(i) && acc' == acc + [i]
    ensures TerminalsFrom(lines, at, count, n, strict, acc) == TerminalsFrom(lines, next, rest, n, strict, acc')
  {
  }

  lemma RowsMapStep(rows: seq<Row>, k: nat)
    requires k < |rows|
    ensures RowsMap(rows[..k + 1]) == RowsMap(rows[..k])[KeyOf(rows[k].u - 1, rows[k].v - 1) := rows[k].w]
  {
    assert rows[..k + 1][..k] == rows[..k];
  }

  lemma TermIdsStep(terms: seq<int>, k: nat)
    requires k < |terms|
    ensures TermIds(terms[..k]) + [terms[k] - 1] == TermIds(terms[..k + 1])
  {
  }

  /** Reading the k-th edge line adds the k-th row to the map. */
  lemma EdgesBackStep(lines: seq<string>, at: nat, k: nat, rows: seq<Row>, n: int, strict: bool)
    requires k < |rows|
    requires EdgeLine(LineAt(lines, at + k), n, strict) == Some(EdgeFields(rows[k].u - 1, rows[k].v - 1, rows[k].w))
    ensures EdgesFrom(lines, at + k, |rows| - k, n, strict, RowsMap(rows[..k])) ==
            EdgesFrom(lines, at + (k + 1), |rows| - (k + 1), n, strict, RowsMap(rows[..k + 1]))
  {
    var r := rows[k];
    RowsMapStep(rows, k);
    EdgeStep(lines, at + k, at + (k + 1), |rows| - k, |rows| - (k + 1), n, strict,
             RowsMap(rows[..k]), RowsMap(rows[..k + 1]), EdgeFields(r.u - 1, r.v - 1, r.w));
  }

  /** Reading the edge lines from the k-th on. */
  lemma {:induction false} EdgesReadBack(lines: seq<string>, at: nat, k: nat, rows: seq<Row>, n: int, strict: bool)
    requires k <= |rows| && at + |rows| <= |lines|
    requires forall j {:trigger EdgeLine(LineAt(lines, j), n, strict)} :: at <= j < at + |rows| ==>
      EdgeLine(LineAt(lines, j), n, strict) == Some(EdgeFields(rows[j - at].u - 1, rows[j - at].v - 1, rows[j - at].w))
    ensures EdgesFrom(lines, at + k, |rows| - k, n, strict, RowsMap(rows[..k])) == Ok(RowsMap(rows))
    decreases |rows| - k
  {
    if k < |rows| {
      assert EdgeLine(LineAt(lines, at + k), n, strict) == Some(EdgeFields(rows[k].u - 1, rows[k].v - 1, rows[k].w)) by {
        assert (at + k) - at == k;
      }
      EdgesBackStep(lines, at, k, rows, n, strict);
      EdgesReadBack(lines, at, k + 1, rows, n, strict);
    } else {
      assert rows[..k] == rows;
    }
  }

  /** Reading the k-th terminal line appends the k-th id. */
  lemma TermsBackStep(lines: seq<string>, at: nat, k: nat, terms: seq<int>, n: int, strict: bool)
    requires k < |terms| && TerminalLine(LineAt(lines, at + k), n, strict) == Some(terms[k] - 1)
    ensures TerminalsFrom(lines, at + k, |terms| - k, n, strict, TermIds(terms[..k])) ==
            TerminalsFrom(lines, at + (k + 1), |terms| - (k + 1), n, strict, TermIds(terms[..k + 1]))
  {
    TermIdsStep(terms, k);
    TermStep(lines, at + k, at + (k + 1), |terms| - k, |terms| - (k + 1), n, strict,
             TermIds(terms[..k]), TermIds(terms[..k + 1]), terms[k] - 1);
  }

  /** Reading the terminal lines from the k-th on. */
  lemma {:induction false} TermsReadBack(lines: seq<string>, at: nat, k: nat, terms: seq<int>, n: int, strict: bool)
    requires k <= |terms| && at + |terms| <= |lines|
    requires forall j {:trigger TerminalLine(LineAt(lines, j), n, strict)} :: at <= j < at + |terms| ==> TerminalLine(LineAt(lines, j), n, strict) == Some(terms[j - at] - 1)
    ensures TerminalsFrom(lines, at + k, |terms| - k, n, strict, TermIds(terms[..k])) == Ok(TermIds(terms))
    decreases |terms| - k
  {
    if k < |terms| {
      assert TerminalLine(LineAt(lines, at + k), n, strict) == Some(terms[k] - 1) by {
        assert (at + k) - at == k;
      }
      TermsBackStep(lines, at, k, terms, n, strict);
      TermsReadBack(lines, at, k + 1, terms, n, strict);
    } else {
      assert terms[..k] == terms;
    }
  }

  /** Reading all terminal lines from `at` on. */
  lemma TermsReadAll(lines: seq<string>, at: nat, terms: seq<int>, n: int, strict: bool)
    requires at + |terms| <= |lines|
    requires forall j {:trigger TerminalLine(LineAt(lines, j), n, strict)} :: at <= j < at + |terms| ==> TerminalLine(LineAt(lines, j), n, strict) == Some(terms[j - at] - 1)
    ensures TerminalsFrom(lines, at, |terms|, n, strict, []) == Ok(TermIds(terms))
  {
    TermsReadBack(lines, at, 0, terms, n, strict);
    assert TermIds(terms[..0]) == [];
  }

  /** The line-level facts of the terminal section, from its count line. */
  ghost predicate TermsLaid(lines: seq<string>, at: nat, terms: seq<int>, n: int, strict: bool) {
    at + 4 + |terms| <= |lines| &&
    Header(LineAt(lines, at), "Terminals") == Some(|terms|) &&
    (forall j {:trigger TerminalLine(LineAt(lines, j), n, strict)} :: at + 1 <= j < at + 1 + |terms| ==> TerminalLine(LineAt(lines, j), n, strict) == Some(terms[j - (at + 1)] - 1)) &&
    Break(lines, at + 1 + |terms|, "EOF")
  }

  /** The line-level facts of the edge lines. */
  ghost predicate EdgesLaid(lines: seq<string>, rows: seq<Row>, n: int, strict: bool) {
    3 + |rows| <= |lines| &&
    forall j {:trigger EdgeLine(LineAt(lines, j), n, strict)} :: 3 <= j < 3 + |rows| ==>
      EdgeLine(LineAt(lines, j), n, strict) == Some(EdgeFields(rows[j - 3].u - 1, rows[j - 3].v - 1, rows[j - 3].w))
  }

  /** The line-level facts of a laid-out instance file. */
  ghost predicate Laid(lines: seq<string>, nodes: int, rows: seq<Row>, terms: seq<int>, strict: bool) {
    |lines| == |rows| + |terms| + 10 &&
    Strip(LineAt(lines, 0)) == "SECTION Graph" &&
    Header(LineAt(lines, 1), "Nodes") == Some(nodes) &&
    Header(LineAt(lines, 2), "Edges") == Some(|rows|) &&
    EdgesLaid(lines, rows, nodes, strict) &&
    Break(lines, 3 + |rows|, "SECTION Terminals") &&
    TermsLaid(lines, 6 + |rows|, terms, nodes, strict)
  }

  lemma BreakPasses(lines: seq<string>, at: nat, next: string)
    requires Break(lines, at, next)
    ensures SectionBreak(lines, at, next) == None
  {
  }

  /** The terminal list is read when its count line, its t lines and the
      closing lines all are. */
  lemma TerminalListOk(lines: seq<string>, at: nat, t: nat, ts: seq<int>, n: int, strict: bool, edges: map<Key, int>)
    requires Header(LineAt(lines, at), "Terminals") == Some(t)
    requires TerminalsFrom(lines, at + 1, t, n, strict, []) == Ok(ts)
    requires SectionBreak(lines, at + 1 + t, "EOF") == None
    ensures TerminalList(lines, at, n, strict, edges) == Ok(Instance(n, edges, ts))
  {
    assert TerminalsCounted(lines, at, t, n, strict, edges) == Ok(Instance(n, edges, ts));
  }

  /** All terminal lines of a laid-out file are read back. */
  lemma TermLinesRead(lines: seq<string>, at: nat, terms: seq<int>, n: int, strict: bool)
    requires TermsLaid(lines, at, terms, n, strict)
    ensures TerminalsFrom(lines, at + 1, |terms|, n, strict, []) == Ok(TermIds(terms))
  {
    TermsReadAll(lines, at + 1, terms, n, strict);
  }

  /** The terminal list of a laid-out file, from its count line, is read back. */
  lemma TermsLaidRead(lines: seq<string>, at: nat, terms: seq<int>, n: int, strict: bool, edges: map<Key, int>)
    requires TermsLaid(lines, at, terms, n, strict)
    ensures TerminalList(lines, at, n, strict, edges) == Ok(Instance(n, edges, TermIds(terms)))
  {
    TermLinesRead(lines, at, terms, n, strict);
    BreakPasses(lines, at + 1 + |terms|, "EOF");
    TerminalListOk(lines, at, |terms|, TermIds(terms), n, strict, edges);
  }

  /** The terminal section of a laid-out file, whose count line is line c,
      is read back. */
  lemma TerminalPartReads(lines: seq<string>, at: nat, c: nat, n: int, strict: bool, edges: map<Key, int>, r: Instance)
    requires c == at + 3
    requires Break(lines, at, "SECTION Terminals") && TerminalList(lines, c, n, strict, edges) == Ok(r)
    ensures TerminalSection(lines, at, n, strict, edges) == Ok(r)
  {
    BreakPasses(lines, at, "SECTION Terminals");
  }

  /** All edge lines of a laid-out file are read back. */
  lemma EdgeLinesRead(lines: seq<string>, rows: seq<Row>, n: int, strict: bool)
    requires EdgesLaid(lines, rows, n, strict)
    ensures EdgesFrom(lines, 3, |rows|, n, strict, map[]) == Ok(RowsMap(rows))
  {
    EdgesReadBack(lines, 3, 0, rows, n, strict);
    assert RowsMap(rows[..0]) == map[];
  }

  /** The part of a laid-out file after its "Edges" line is read back. */
  lemma EdgeSectionReads(lines: seq<string>, nodes: int, rows: seq<Row>, terms: seq<int>, strict: bool, at: nat, c: nat)
    requires at == 3 + |rows| && c == 6 + |rows|
    requires EdgesLaid(lines, rows, nodes, strict)
    requires Break(lines, at, "SECTION Terminals") && TermsLaid(lines, c, terms, nodes, strict)
    ensures EdgeSection(lines, nodes, |rows|, strict) == Ok(Instance(nodes, RowsMap(rows), TermIds(terms)))
  {
    EdgeLinesRead(lines, rows, nodes, strict);
    TermsLaidRead(lines, c, terms, nodes, strict, RowsMap(rows));
    TerminalPartReads(lines, at, c, nodes, strict, RowsMap(rows), Instance(nodes, RowsMap(rows), TermIds(terms)));
  }

  /** The part of a laid-out file after its "Nodes" line is read back. */
  lemma GraphSectionReads(lines: seq<string>, nodes: int, rows: seq<Row>, terms: seq<int>, strict: bool)
    requires Header(LineAt(lines, 2), "Edges") == Some(|rows|)
    requires EdgeSection(lines, nodes, |rows|, strict) == Ok(Instance(nodes, RowsMap(rows), TermIds(terms)))
    ensures GraphSection(lines, nodes, strict) == Ok(Instance(nodes, RowsMap(rows), TermIds(terms)))
  {
  }

  /** A laid-out file is read back as its node count, rows and terminals. */
  lemma LaidReads(lines: seq<string>, nodes: int, rows: seq<Row>, terms: seq<int>, strict: bool)
    requires Laid(lines, nodes, rows, terms, strict)
    ensures ParseInstanceWith(lines, strict) == Ok(Instance(nodes, RowsMap(rows), TermIds(terms)))
  {
    EdgeSectionReads(lines, nodes, rows, terms, strict, 3 + |rows|, 6 + |rows|);
    GraphSectionReads(lines, nodes, rows, terms, strict);
  }

  /** The keyword lines strip to their keyword. */
  lemma GraphKeywords()
    ensures Strip(Line("SECTION Graph")) == "SECTION Graph" && Strip(Line("SECTION Terminals")) == "SECTION Terminals"
  {
    StripLine("SECTION Graph");
    StripLine("SECTION Terminals");
  }

  lemma BreakKeywords()
    ensures Strip(Line("END")) == "END" && Strip(Line("EOF")) == "EOF" && Strip("\n") == ""
  {
    StripLine("END");
    StripLine("EOF");
    StripLine("");
    assert [] + "\n" == "\n";
  }

  /** The header lines are read back as their counts. */
  lemma NodesLine(nodes: int)
    ensures Header(HeaderLine("Nodes", nodes), "Nodes") == Some(nodes)
  {
    var kw := "Nodes";
    forall i | 0 <= i < |kw|
      ensures !IsSpace(kw[i])
    {
    }
    HeaderText(kw, nodes);
  }

  lemma EdgesLine(m: int)
    ensures Header(HeaderLine("Edges", m), "Edges") == Some(m)
  {
    var kw := "Edges";
    forall i | 0 <= i < |kw|
      ensures !IsSpace(kw[i])
    {
    }
    HeaderText(kw, m);
  }

  lemma TerminalsLine(t: int)
    ensures Header(HeaderLine("Terminals", t), "Terminals") == Some(t)
  {
    var kw := "Terminals";
    forall i | 0 <= i < |kw|
      ensures !IsSpace(kw[i])
    {
    }
    HeaderText(kw, t);
  }

  /** A printed edge row is read back, ids shifted to 0-indexed. */
  lemma EdgeTextReads(r: Row, n: int, strict: bool)
    requires IdOk(r.u - 1, n, strict) && IdOk(r.v - 1, n, strict)
    ensures EdgeLine(EdgeText(r), n, strict) == Some(EdgeFields(r.u - 1, r.v - 1, r.w))
  {
    EdgeLineText(r.u, r.v, r.w, n, strict);
  }

  /** A printed terminal is read back, shifted to 0-indexed. */
  lemma TermTextReads(t: int, n: int, strict: bool)
    requires !strict || 0 <= t - 1 < n
    ensures TerminalLine(TermText(t), n, strict) == Some(t - 1)
  {
    TerminalLineText(t, n, strict);
  }

  /** The lines at..at+2 of L are "END", a blank line and `next`. */
  ghost predicate BreakLined(L: seq<string>, at: nat, next: string) {
    at + 3 <= |L| && L[at] == Line("END") && L[at + 1] == "\n" && L[at + 2] == Line(next)
  }

  /** The terminal count line at `at`, the terminal lines and the end. */
  ghost predicate TermsLined(L: seq<string>, at: nat, terms: seq<int>) {
    at + 4 + |terms| <= |L| && L[at] == HeaderLine("Terminals", |terms|) &&
    (forall i {:trigger terms[i]} :: 0 <= i < |terms| ==> L[at + 1 + i] == TermText(terms[i])) &&
    BreakLined(L, at + 1 + |terms|, "EOF")
  }

  ghost predicate EdgesLined(L: seq<string>, rows: seq<Row>) {
    3 + |rows| <= |L| && forall i {:trigger rows[i]} :: 0 <= i < |rows| ==> L[3 + i] == EdgeText(rows[i])
  }

  /** The lines of a layout, in the shape of Laid. */
  ghost predicate Lined(L: seq<string>, nodes: int, rows: seq<Row>, terms: seq<int>) {
    |L| == |rows| + |terms| + 10 &&
    L[0] == Line("SECTION Graph") && L[1] == HeaderLine("Nodes", nodes) && L[2] == HeaderLine("Edges", |rows|) &&
    EdgesLined(L, rows) && BreakLined(L, 3 + |rows|, "SECTION Terminals") && TermsLined(L, 6 + |rows|, terms)
  }

  /** The three lines of C at the end of P + T + C. */
  lemma EndRegion<X>(L: seq<X>, P: seq<X>, T: seq<X>, C: seq<X>, e: nat)
    requires L == P + T + C && e == |P| + |T| && |C| == 3
    ensures L[e] == C[0] && L[e + 1] == C[1] && L[e + 2] == C[2]
  {
  }

  /** The lines of T in the middle of P + T + C. */
  lemma MidRegion<X>(L: seq<X>, P: seq<X>, T: seq<X>, C: seq<X>, at: nat)
    requires L == P + T + C && |P| == at
    ensures forall i {:trigger T[i]} :: 0 <= i < |T| ==> L[at + i] == T[i]
  {
  }

  /** The terminal lines of P + TermTexts(terms) + C. */
  lemma TermRegion(L: seq<string>, P: seq<string>, C: seq<string>, at: nat, terms: seq<int>)
    requires L == P + TermTexts(terms) + C && |P| == at + 1
    ensures forall i {:trigger terms[i]} :: 0 <= i < |terms| ==> L[at + 1 + i] == TermText(terms[i])
  {
    var T := TermTexts(terms);
    MidRegion(L, P, T, C, at + 1);
    forall i | 0 <= i < |terms| ensures L[at + 1 + i] == TermText(terms[i]) {
      assert L[at + 1 + i] == T[i];
    }
  }

  /** The part of a layout from the terminal count line on. */
  lemma TailLined(L: seq<string>, P: seq<string>, at: nat, terms: seq<int>)
    requires L == P + TermTexts(terms) + FileTail() && |P| == at + 1 && P[at] == HeaderLine("Terminals", |terms|)
    ensures TermsLined(L, at, terms)
  {
    TermRegion(L, P, FileTail(), at, terms);
    EndRegion(L, P, TermTexts(terms), FileTail(), at + 1 + |terms|);
  }

  /** The part of a layout before the terminal lines. */
  /** The elements of H + E + B, part by part. */
  lemma Parts<X>(P: seq<X>, H: seq<X>, E: seq<X>, B: seq<X>)
    requires P == H + E + B
    ensures |P| == |H| + |E| + |B|
    ensures forall k {:trigger H[k]} :: 0 <= k < |H| ==> P[k] == H[k]
    ensures forall i {:trigger E[i]} :: 0 <= i < |E| ==> P[|H| + i] == E[i]
    ensures forall k {:trigger B[k]} :: 0 <= k < |B| ==> P[|H| + |E| + k] == B[k]
  {
  }

  /** The i-th element of the middle part of the first part of L. */
  lemma MidOfPrefix<X>(L: seq<X>, P: seq<X>, T: seq<X>, C: seq<X>, H: seq<X>, E: seq<X>, B: seq<X>, i: nat)
    requires L == P + T + C && P == H + E + B && i < |E|
    ensures L[|H| + i] == E[i]
  {
    Parts(L, P, T, C);
    Parts(P, H, E, B);
  }

  lemma PrefixLined(L: seq<string>, P: seq<string>, T: seq<string>, C: seq<string>, nodes: int, rows: seq<Row>, t: int)
    requires L == P + T + C && P == GraphHead(nodes, |rows|) + EdgeTexts(rows) + TerminalHead(t)
    ensures |P| == 7 + |rows| && P[6 + |rows|] == HeaderLine("Terminals", t)
    ensures L[0] == Line("SECTION Graph") && L[1] == HeaderLine("Nodes", nodes) && L[2] == HeaderLine("Edges", |rows|)
    ensures EdgesLined(L, rows) && BreakLined(L, 3 + |rows|, "SECTION Terminals")
  {
    var H, E, B := GraphHead(nodes, |rows|), EdgeTexts(rows), TerminalHead(t);
    Parts(L, P, T, C);
    Parts(P, H, E, B);
    forall i | 0 <= i < |rows|
      ensures L[3 + i] == EdgeText(rows[i])
    {
      MidOfPrefix(L, P, T, C, H, E, B, i);
    }
    var b := 3 + |rows|;
    assert L[0] == P[0] == H[0] && L[1] == P[1] == H[1] && L[2] == P[2] == H[2];
    assert L[b] == P[b] == B[0] && L[b + 1] == P[b + 1] == B[1] && L[b + 2] == P[b + 2] == B[2];
    assert P[b + 3] == B[3];
  }

  lemma LayoutLined(L: seq<string>, nodes: int, rows: seq<Row>, terms: seq<int>)
    requires L == Layout(nodes, |rows|, rows, |terms|, terms)
    ensures Lined(L, nodes, rows, terms)
  {
    var P := GraphHead(nodes, |rows|) + EdgeTexts(rows) + TerminalHead(|terms|);
    PrefixLined(L, P, TermTexts(terms), FileTail(), nodes, rows, |terms|);
    TailLined(L, P, 6 + |rows|, terms);
  }

  lemma HeadLaid(L: seq<string>, nodes: int, m: int)
    requires 3 <= |L| && L[0] == Line("SECTION Graph") && L[1] == HeaderLine("Nodes", nodes) && L[2] == HeaderLine("Edges", m)
    ensures Strip(LineAt(L, 0)) == "SECTION Graph" && Header(LineAt(L, 1), "Nodes") == Some(nodes) && Header(LineAt(L, 2), "Edges") == Some(m)
  {
    GraphKeywords();
    NodesLine(nodes);
    EdgesLine(m);
  }

  lemma BreakLaid(L: seq<string>, at: nat, next: string)
    requires BreakLined(L, at, next) && Strip(Line(next)) == next
    ensures Break(L, at, next)
  {
    BreakKeywords();
  }

  lemma RowsLaid(L: seq<string>, rows: seq<Row>, n: int, strict: bool)
    requires EdgesLined(L, rows) && RowsOk(rows, n, strict)
    ensures EdgesLaid(L, rows, n, strict)
  {
    forall j | 3 <= j < 3 + |rows|
      ensures EdgeLine(LineAt(L, j), n, strict) == Some(EdgeFields(rows[j - 3].u - 1, rows[j - 3].v - 1, rows[j - 3].w))
    {
      RowLaid(L, rows, n, strict, j);
    }
  }

  lemma RowLaid(L: seq<string>, rows: seq<Row>, n: int, strict: bool, j: int)
    requires EdgesLined(L, rows) && RowsOk(rows, n, strict) && 3 <= j < 3 + |rows|
    ensures EdgeLine(LineAt(L, j), n, strict) == Some(EdgeFields(rows[j - 3].u - 1, rows[j - 3].v - 1, rows[j - 3].w))
  {
    var r := rows[j - 3];
    assert L[3 + (j - 3)] == EdgeText(r);
    assert LineAt(L, j) == EdgeText(r);
    assert IdOk(r.u - 1, n, strict) && IdOk(r.v - 1, n, strict);
    LineReads(LineAt(L, j), r, n, strict);
  }

  /** A line holding the text of a row in range reads as that row. */
  lemma LineReads(line: string, r: Row, n: int, strict: bool)
    requires line == EdgeText(r) && IdOk(r.u - 1, n, strict) && IdOk(r.v - 1, n, strict)
    ensures EdgeLine(line, n, strict) == Some(EdgeFields(r.u - 1, r.v - 1, r.w))
  {
    EdgeTextReads(r, n, strict);
  }

  /** The terminal line at index j of such a layout reads as its terminal. */
  lemma TermLaid(L: seq<string>, at: nat, terms: seq<int>, n: int, strict: bool, j: int)
    requires TermsLined(L, at, terms) && TermsOk(terms, n, strict) && at + 1 <= j < at + 1 + |terms|
    ensures TerminalLine(LineAt(L, j), n, strict) == Some(terms[j - (at + 1)] - 1)
  {
    var t := terms[j - (at + 1)];
    assert L[at + 1 + (j - (at + 1))] == TermText(t);
    TermTextReads(t, n, strict);
  }

  lemma TermsLaidOf(L: seq<string>, at: nat, terms: seq<int>, n: int, strict: bool)
    requires TermsLined(L, at, terms) && TermsOk(terms, n, strict)
    ensures TermsLaid(L, at, terms, n, strict)
  {
    TerminalsLine(|terms|);
    forall j | at + 1 <= j < at + 1 + |terms|
      ensures TerminalLine(LineAt(L, j), n, strict) == Some(terms[j - (at + 1)] - 1)
    {
      TermLaid(L, at, terms, n, strict, j);
    }
    BreakKeywords();
    BreakLaid(L, at + 1 + |terms|, "EOF");
  }

  /** Lines of that shape, with rows and terminals that pass the range
      check, have the line-level shape the verifier reads. */
  lemma LinedLaid(L: seq<string>, nodes: int, rows: seq<Row>, terms: seq<int>, strict: bool)
    requires Lined(L, nodes, rows, terms)
    requires RowsOk(rows, nodes, strict) && TermsOk(terms, nodes, strict)
    ensures Laid(L, nodes, rows, terms, strict)
  {
    HeadLaid(L, nodes, |rows|);
    RowsLaid(L, rows, nodes, strict);
    GraphKeywords();
    BreakLaid(L, 3 + |rows|, "SECTION Terminals");
    TermsLaidOf(L, 6 + |rows|, terms, nodes, strict);
  }

  /** Round trip: a printed instance is read back as its node count, the
      weight map of its rows and its terminals, all 0-indexed. */
  lemma LayoutReads(nodes: int, rows: seq<Row>, terms: seq<int>, strict: bool)
    requires RowsOk(rows, nodes, strict) && TermsOk(terms, nodes, strict)
    ensures ParseInstanceWith(Layout(nodes, |rows|, rows, |terms|, terms), strict) == Ok(Instance(nodes, RowsMap(rows), TermIds(terms)))
  {
    var L := Layout(nodes, |rows|, rows, |terms|, terms);
    LayoutLined(L, nodes, rows, terms);
    LinedLaid(L, nodes, rows, terms, strict);
    LaidReads(L, nodes, rows, terms, strict);
  }

  /** The instance with one node, the edge "E 0 1 1" and the terminal "T 0":
      file id 0 is not a node of a 1-node graph. */
  function IdZeroFile(): seq<string> {
    Layout(1, 1, [Row(0, 1, 1)], 1, [0])
  }

  /** The instance the verifier as written reads from that file. */
  function IdZeroInstance(): Instance {
    Instance(1, map[(-1, 0) := 1], [-1])
  }

  lemma IdZeroOutOfRange()
    ensures !KeysInRange(IdZeroInstance()) && !TerminalsInRange(IdZeroInstance())
  {
    assert (-1, 0) in IdZeroInstance().edges;
    assert IdZeroInstance().terminals[0] == -1;
  }

  lemma IdZeroRows()
    ensures RowsOk([Row(0, 1, 1)], 1, false) && TermsOk([0], 1, false)
    ensures RowsMap([Row(0, 1, 1)]) == map[(-1, 0) := 1] && TermIds([0]) == [-1]
  {
    var rows := [Row(0, 1, 1)];
    assert rows[..0] == [];
  }

  /** As written, the verifier accepts it: the edge is recorded under the
      key (-1, 0) and the terminal as -1, both outside 0..n-1. */
  lemma AsWrittenAcceptsIdZero()
    ensures ParseInstanceAsWritten(IdZeroFile()) == Ok(IdZeroInstance())
    ensures !KeysInRange(IdZeroInstance()) && !TerminalsInRange(IdZeroInstance())
  {
    IdZeroRows();
    LayoutReads(1, [Row(0, 1, 1)], [0], false);
    IdZeroOutOfRange();
  }

  /** A one-node file whose first edge line fails the range check is
      refused at that line. */
  lemma RejectedAtEdge(L: seq<string>)
    requires Strip(LineAt(L, 0)) == "SECTION Graph" && Header(LineAt(L, 1), "Nodes") == Some(1)
    requires Header(LineAt(L, 2), "Edges") == Some(1) && EdgeLine(LineAt(L, 3), 1, true) == None
    ensures ParseInstance(L) == Err(FormatError(InstanceFile, 4))
  {
  }

  /** With ids restricted to 1..n, the same file is refused at its line 4,
      the edge line. */
  lemma StrictRejectsIdZero()
    ensures ParseInstance(IdZeroFile()) == Err(FormatError(InstanceFile, 4))
  {
    var L := IdZeroFile();
    LayoutLined(L, 1, [Row(0, 1, 1)], [0]);
    LinedRejected(L);
  }

  /** Any file of that shape is refused there. */
  lemma LinedRejected(L: seq<string>)
    requires Lined(L, 1, [Row(0, 1, 1)], [0])
    ensures ParseInstance(L) == Err(FormatError(InstanceFile, 4))
  {
    HeadLaid(L, 1, 1);
    EdgeLineText(0, 1, 1, 1, true);
    var rows := [Row(0, 1, 1)];
    assert L[3 + 0] == EdgeText(rows[0]);
    assert LineAt(L, 3) == EdgeText(Row(0, 1, 1));
    assert !IdOk(0 - 1, 1, true);
    assert EdgeLine(LineAt(L, 3), 1, true) == None;
    RejectedAtEdge(L);
  }
}
