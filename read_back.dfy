/** What the solver's reader (read.hpp) makes of a file laid out as
    graph_to_file (write.hpp) prints it: the vertex count plus one, one
    add_edge call per E line with the printed ids and weight, and one
    mark_terminal call per T line. */
module ReadBack {
  import opened Text
  import opened Scan
  import opened Reader
  import IT = InstanceText

  /** Values a C int holds. */
  predicate Int32(i: int) {
    -U32 / 2 <= i < U32 / 2
  }

  predicate RowsFit(rows: seq<IT.Row>) {
    forall i :: 0 <= i < |rows| ==> Int32(rows[i].u) && Int32(rows[i].v) && Int32(rows[i].w)
  }

  predicate TermsFit(terms: seq<int>) {
    forall i :: 0 <= i < |terms| ==> Int32(terms[i])
  }

  /** The add_edge(u, v, w, u, v) call of each row. */
  function CallsOf(rows: seq<IT.Row>): (r: seq<Call>)
    ensures |r| == |rows| && forall i :: 0 <= i < |rows| ==> r[i] == Call(rows[i].u, rows[i].v, rows[i].w)
  {
    seq(|rows|, i requires 0 <= i < |rows| => Call(rows[i].u, rows[i].v, rows[i].w))
  }

  /** An E line is no "END\n", and "%*c %u %u %u" reads its three values
      back through unsigned int. */
  lemma EdgeTextRead(r: IT.Row, vars: Vars)
    requires Int32(r.u) && Int32(r.v) && Int32(r.w) && Words(vars)
    ensures IT.EdgeText(r) != EndLine
    ensures LineVars(vars, IT.EdgeText(r)) == Vars(Unsigned(r.u), Unsigned(r.v), Unsigned(r.w))
    ensures CallOf(Vars(Unsigned(r.u), Unsigned(r.v), Unsigned(r.w))) == Call(r.u, r.v, r.w)
  {
    assert IT.EdgeText(r)[1] == ' ';
    assert "E " == ['E'] + " ";
    ScanThreePrinted('E', r.u, r.v, r.w);
    ToIntUnsigned(r.u);
    ToIntUnsigned(r.v);
    ToIntUnsigned(r.w);
  }

  /** A T line is no "END\n", and "%*c %u" reads its value back. */
  lemma TermTextRead(t: int, terminal: nat)
    requires Int32(t) && terminal < U32
    ensures IT.TermText(t) != EndLine
    ensures LineTerminal(terminal, IT.TermText(t)) == Unsigned(t)
    ensures ToInt(Unsigned(t)) == t
  {
    assert IT.TermText(t)[1] == ' ';
    assert "T " == ['T'] + " ";
    ScanOnePrinted('T', t);
    ToIntUnsigned(t);
  }

  lemma TakeStep<X>(s: seq<X>, k: nat)
    requires k < |s|
    ensures s[..k + 1] == s[..k] + [s[k]]
  {
  }

  lemma CallsOfStep(rows: seq<IT.Row>, k: nat)
    requires k < |rows|
    ensures CallsOf(rows[..k]) + [Call(rows[k].u, rows[k].v, rows[k].w)] == CallsOf(rows[..k + 1])
  {
  }

  /** The lines from `at` on are the E lines of the rows. */
  predicate EdgeLinesAt(lines: seq<string>, at: nat, rows: seq<IT.Row>) {
    at + |rows| <= |lines| && forall i {:trigger rows[i]} :: 0 <= i < |rows| ==> lines[at + i] == IT.EdgeText(rows[i])
  }

  /** The lines from `at` on are the T lines of the terminals. */
  predicate TermLinesAt(lines: seq<string>, at: nat, terms: seq<int>) {
    at + |terms| <= |lines| && forall i {:trigger terms[i]} :: 0 <= i < |terms| ==> lines[at + i] == IT.TermText(terms[i])
  }

  /** One E line read: the call of its row. */
  lemma EdgeRowStep(lines: seq<string>, at: nat, rows: seq<IT.Row>, k: nat, x: Vars, e: LoopScan)
    requires RowsFit(rows) && EdgeLinesAt(lines, at, rows) && k < |rows|
    requires Words(x) && e.cur.at == at + k && EdgeCalls(x, e.scanned) == CallsOf(rows[..k])
    ensures LoopLine(lines, e).cur.at == at + k + 1 && EdgeCalls(x, LoopLine(lines, e).scanned) == CallsOf(rows[..k + 1])
  {
    var r := rows[k];
    EdgeTextRead(r, VarsAfter(x, e.scanned));
    assert LoopLine(lines, e).scanned == e.scanned + [IT.EdgeText(r)];
    EdgeCallsStep(x, e.scanned, IT.EdgeText(r));
    CallsOfStep(rows, k);
  }

  /** The edge pass over the E lines of the rows from the k-th on: one call
      per row, in order, and the cursor past them. */
  lemma {:induction false} EdgesReadRows(lines: seq<string>, at: nat, rows: seq<IT.Row>, k: nat, left: nat, x: Vars, e: LoopScan)
    requires RowsFit(rows) && EdgeLinesAt(lines, at, rows) && k + left == |rows|
    requires Words(x) && e.cur.at == at + k && EdgeCalls(x, e.scanned) == CallsOf(rows[..k])
    ensures LoopRead(lines, e, left).cur.at == at + |rows|
    ensures EdgeCalls(x, LoopRead(lines, e, left).scanned) == CallsOf(rows)
    decreases left
  {
    if left > 0 {
      EdgeRowStep(lines, at, rows, k, x, e);
      EdgesReadRows(lines, at, rows, k + 1, left - 1, x, LoopLine(lines, e));
    } else {
      assert rows[..k] == rows;
    }
  }

  /** The edge pass over all E lines, from the line after the edge count. */
  lemma EdgeSection(lines: seq<string>, rows: seq<IT.Row>, c: Cursor, vars: Vars)
    requires RowsFit(rows) && EdgeLinesAt(lines, 3, rows) && c.at == 3 && Words(vars)
    ensures var f := LoopRead(lines, LoopScan(c, []), |rows|);
      f.cur.at == 3 + |rows| && EdgeCalls(vars, f.scanned) == CallsOf(rows)
  {
    assert rows[..0] == [];
    EdgesReadRows(lines, 3, rows, 0, |rows|, vars, LoopScan(c, []));
  }

  /** One T line read: the mark of its terminal. */
  lemma TermRowStep(lines: seq<string>, at: nat, terms: seq<int>, k: nat, t0: nat, s: LoopScan)
    requires TermsFit(terms) && TermLinesAt(lines, at, terms) && k < |terms|
    requires t0 < U32 && s.cur.at == at + k && TermMarks(t0, s.scanned) == terms[..k]
    ensures LoopLine(lines, s).cur.at == at + k + 1 && TermMarks(t0, LoopLine(lines, s).scanned) == terms[..k + 1]
  {
    var t := terms[k];
    TermTextRead(t, TermAfter(t0, s.scanned));
    assert LoopLine(lines, s).scanned == s.scanned + [IT.TermText(t)];
    TermMarksStep(t0, s.scanned, IT.TermText(t));
    TakeStep(terms, k);
  }

  /** The terminal loop over the T lines from the k-th on: one mark each. */
  lemma {:induction false} TermsReadRows(lines: seq<string>, at: nat, terms: seq<int>, k: nat, left: nat, t0: nat, s: LoopScan)
    requires TermsFit(terms) && TermLinesAt(lines, at, terms) && k + left == |terms|
    requires t0 < U32 && s.cur.at == at + k && TermMarks(t0, s.scanned) == terms[..k]
    ensures TermMarks(t0, LoopRead(lines, s, left).scanned) == terms
    decreases left
  {
    if left > 0 {
      TermRowStep(lines, at, terms, k, t0, s);
      TermsReadRows(lines, at, terms, k + 1, left - 1, t0, LoopLine(lines, s));
    } else {
      assert terms[..k] == terms;
    }
  }

  /** Past the edge lines: "END", a blank line, then the section line. */
  lemma SeekTerminals(lines: seq<string>, at: nat, c: Cursor)
    requires IT.BreakLined(lines, at, "SECTION Terminals") && c.at == at
    ensures Seek(lines, Fgets(lines, c)) == Some(Cursor(at + 3, TerminalsStart))
  {
    assert IT.Line("END") == EndLine && IT.Line("SECTION Terminals") == TerminalsStart;
    assert EndLine != TerminalsStart && "\n" != TerminalsStart;
    var d1 := Fgets(lines, c);
    assert d1 == Cursor(at + 1, EndLine);
    var d2 := Fgets(lines, d1);
    assert d2 == Cursor(at + 2, "\n");
    var d3 := Fgets(lines, d2);
    assert d3 == Cursor(at + 3, TerminalsStart);
    assert Seek(lines, d3) == Some(d3);
    assert Seek(lines, d2) == Seek(lines, d3);
    assert Seek(lines, d1) == Seek(lines, d2);
  }

  /** read_terminals once the skip loop has stopped at d and the count has
      been read. */
  lemma SectionFrom(lines: seq<string>, c: Cursor, d: Cursor, count0: nat, term0: nat, terms: seq<int>)
    requires count0 < U32 && term0 < U32
    requires Seek(lines, Fgets(lines, c)) == Some(d) && Assign([count0], ScanAfterWord(Fgets(lines, d).buff))[0] == |terms|
    requires TermMarks(term0, LoopRead(lines, LoopScan(Fgets(lines, d), []), |terms|).scanned) == terms
    ensures MarksOf(term0, TerminalSection(lines, c, count0)) == Some(terms)
  {
  }

  /** graph_from_file once the two count lines have been read. */
  lemma FileFrom(lines: seq<string>, x: Unset, nvert: nat, nedges: nat)
    requires UnsetOk(x) && |lines| >= 3
    requires Assign([0], ScanAfterWord(lines[1]))[0] == nvert && Assign([0], ScanAfterWord(lines[2]))[0] == nedges
    ensures FileRead(lines, x) == ReadFrom(lines, x, Cursor(3, lines[2]), nvert, nedges)
  {
  }

  /** The lines of a laid-out file, with the E and T lines given one after
      the other. */
  ghost predicate Shaped(lines: seq<string>, nodes: int, rows: seq<IT.Row>, terms: seq<int>) {
    |lines| == |rows| + |terms| + 10 &&
    lines[1] == IT.HeaderLine("Nodes", nodes) && lines[2] == IT.HeaderLine("Edges", |rows|) &&
    EdgeLinesAt(lines, 3, rows) && IT.BreakLined(lines, 3 + |rows|, "SECTION Terminals") &&
    lines[6 + |rows|] == IT.HeaderLine("Terminals", |terms|) && TermLinesAt(lines, 7 + |rows|, terms)
  }

  lemma LinedShaped(lines: seq<string>, nodes: int, rows: seq<IT.Row>, terms: seq<int>)
    requires IT.Lined(lines, nodes, rows, terms)
    ensures Shaped(lines, nodes, rows, terms)
  {
    forall i | 0 <= i < |terms| ensures lines[7 + |rows| + i] == IT.TermText(terms[i]) {
      assert 7 + |rows| + i == 6 + |rows| + 1 + i;
    }
  }

  /** The terminal section of a laid-out file. */
  lemma TerminalSectionRead(lines: seq<string>, at: nat, c: Cursor, terms: seq<int>, x: Unset)
    requires UnsetOk(x) && TermsFit(terms) && |terms| < U32 / 2 && c.at == at
    requires IT.BreakLined(lines, at, "SECTION Terminals")
    requires at + 3 < |lines| && lines[at + 3] == IT.HeaderLine("Terminals", |terms|) && TermLinesAt(lines, at + 4, terms)
    ensures MarksOf(x.terminal, TerminalSection(lines, c, x.count)) == Some(terms)
  {
    SeekTerminals(lines, at, c);
    var h := Fgets(lines, Cursor(at + 3, TerminalsStart));
    assert h == Cursor(at + 4, IT.HeaderLine("Terminals", |terms|));
    PlainKeyword("Terminals");
    ScanHeaderPrinted("Terminals", |terms|);
    assert terms[..0] == [];
    TermsReadRows(lines, at + 4, terms, 0, |terms|, x.terminal, LoopScan(h, []));
    SectionFrom(lines, c, Cursor(at + 3, TerminalsStart), x.count, x.terminal, terms);
  }

  /** nvert + 1 computed in unsigned int and read back as an int, for a
      count that leaves room for it. */
  lemma SmallSum(nodes: int)
    requires 0 <= nodes < U32 / 2 - 1
    ensures (nodes + 1) % U32 == nodes + 1 && ToInt((nodes + 1) % U32) == nodes + 1
  {
  }

  /** The keywords of the count lines hold no whitespace. */
  lemma PlainKeyword(kw: string)
    requires kw == "Nodes" || kw == "Edges" || kw == "Terminals"
    ensures kw != [] && NoSpace(kw)
  {
    forall i | 0 <= i < |kw| ensures !IsSpace(kw[i]) {
      assert 'A' <= kw[i] <= 'z';
    }
  }

  /** A "%s %d" line read back through "%*s %u". */
  lemma CountRead(line: string, kw: string, i: int)
    requires kw != [] && NoSpace(kw) && 0 <= i < U32 / 2 && line == IT.HeaderLine(kw, i)
    ensures Assign([0], ScanAfterWord(line))[0] == i
  {
    ScanHeaderPrinted(kw, i);
  }

  /** The two count lines of a printed file read back as the counts. */
  lemma CountsRead(lines: seq<string>, nodes: int, nedges: int)
    requires |lines| >= 3 && 0 <= nodes < U32 / 2 && 0 <= nedges < U32 / 2
    requires lines[1] == IT.HeaderLine("Nodes", nodes) && lines[2] == IT.HeaderLine("Edges", nedges)
    ensures Assign([0], ScanAfterWord(lines[1]))[0] == nodes && Assign([0], ScanAfterWord(lines[2]))[0] == nedges
  {
    PlainKeyword("Nodes");
    CountRead(lines[1], "Nodes", nodes);
    PlainKeyword("Edges");
    CountRead(lines[2], "Edges", nedges);
  }

  /** graph_from_file's result once its three parts are known. */
  lemma ReadingOf(lines: seq<string>, nodes: int, rows: seq<IT.Row>, terms: seq<int>, x: Unset)
    requires UnsetOk(x) && 0 <= nodes < U32 / 2 - 1 && |lines| >= 3
    requires Assign([0], ScanAfterWord(lines[1]))[0] == nodes && Assign([0], ScanAfterWord(lines[2]))[0] == |rows|
    requires var f := LoopRead(lines, LoopScan(Cursor(3, lines[2]), []), |rows|);
      EdgeCalls(x.vars, f.scanned) == CallsOf(rows) && MarksOf(x.terminal, TerminalSection(lines, f.cur, x.count)) == Some(terms)
    ensures var r := FileRead(lines, x);
      r.n == nodes + 1 && r.calls == CallsOf(rows) && r.marks == Some(terms)
  {
    FileFrom(lines, x, nodes, |rows|);
    SmallSum(nodes);
  }

  /** Any lines of the printed shape are read as that shape says. */
  lemma ShapedRead(lines: seq<string>, nodes: int, rows: seq<IT.Row>, terms: seq<int>, x: Unset)
    requires UnsetOk(x) && 0 <= nodes < U32 / 2 - 1
    requires RowsFit(rows) && TermsFit(terms) && |rows| < U32 / 2 && |terms| < U32 / 2
    requires Shaped(lines, nodes, rows, terms)
    ensures var r := FileRead(lines, x);
      r.n == nodes + 1 && r.calls == CallsOf(rows) && r.marks == Some(terms)
  {
    CountsRead(lines, nodes, |rows|);
    EdgeSection(lines, rows, Cursor(3, lines[2]), x.vars);
    var f := LoopRead(lines, LoopScan(Cursor(3, lines[2]), []), |rows|);
    TerminalSectionRead(lines, 3 + |rows|, f.cur, terms, x);
    ReadingOf(lines, nodes, rows, terms, x);
  }

  /** A file graph_to_file prints is read back: nvert + 1 vertices, the
      add_edge calls of its E lines in order, the marks of its T lines in
      order, whatever the variables held before. */
  lemma LayoutRead(nodes: int, rows: seq<IT.Row>, terms: seq<int>, x: Unset)
    requires UnsetOk(x) && 0 <= nodes < U32 / 2 - 1
    requires RowsFit(rows) && TermsFit(terms) && |rows| < U32 / 2 && |terms| < U32 / 2
    ensures var r := FileRead(IT.Layout(nodes, |rows|, rows, |terms|, terms), x);
      r.n == nodes + 1 && r.calls == CallsOf(rows) && r.marks == Some(terms)
  {
    var lines := IT.Layout(nodes, |rows|, rows, |terms|, terms);
    IT.LayoutLined(lines, nodes, rows, terms);
    LinedShaped(lines, nodes, rows, terms);
    ShapedRead(lines, nodes, rows, terms, x);
  }
}
