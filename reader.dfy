/** src/read.hpp: the solver's lenient reader of an instance file. The file
    is the sequence of lines fgets returns; every read goes through one
    shared buffer, which fgets leaves as it was once the file is exhausted.
    Nothing but "END\n" and "SECTION Terminals\n" is compared, the keywords
    of the header lines are skipped unread, and the graph is built by
    add_edge and mark_terminal calls on a Graph object. */
module Reader {
  import opened Text
  import opened Scan
  import opened Graphs
  import opened GraphOps
  import opened GraphObject

  const EndLine: string := "END\n"
  const TerminalsStart: string := "SECTION Terminals\n"

  /** The position in the file and the shared buffer. */
  datatype Cursor = Cursor(at: nat, buff: string)

  /** fgets(buff, ...): the next line, or, at the end of the file, the
      buffer as it was. */
  function Fgets(lines: seq<string>, c: Cursor): Cursor {
    if c.at < |lines| then Cursor(c.at + 1, lines[c.at]) else c
  }

  // The counted loops of read_edges and read_terminals

  /** One of the two counted loops so far: the cursor and the lines it
      handed to sscanf, in order (every line it read but "END\n"). What the
      scans assign follows from those lines alone. */
  datatype LoopScan = LoopScan(cur: Cursor, scanned: seq<string>)

  /** One iteration: fgets, then "END\n" is skipped and any other line is
      scanned. */
  function LoopLine(lines: seq<string>, s: LoopScan): (r: LoopScan)
    ensures r.cur == Fgets(lines, s.cur) && s.scanned <= r.scanned
    ensures r.scanned == if r.cur.buff == EndLine then s.scanned else s.scanned + [r.cur.buff]
  {
    var c := Fgets(lines, s.cur);
    if c.buff == EndLine then LoopScan(c, s.scanned) else LoopScan(c, s.scanned + [c.buff])
  }

  /** The loop with k iterations left to run. */
  function LoopRead(lines: seq<string>, s: LoopScan, k: nat): LoopScan
    decreases k
  {
    if k == 0 then s else LoopRead(lines, LoopLine(lines, s), k - 1)
  }

  // What the edge loop's scans do

  /** A call add_edge(s, t, w, s, t). */
  datatype Call = Call(s: int, t: int, w: int)

  /** The unsigned int variables u, v and weight. */
  datatype Vars = Vars(u: nat, v: nat, w: nat)

  /** Values unsigned ints can hold. */
  predicate Words(x: Vars) {
    x.u < U32 && x.v < U32 && x.w < U32
  }

  /** u, v and weight after "%*c %u %u %u" of one line: the values the scan
      converted, in order, and the old values of the variables it did not
      reach. */
  function LineVars(x: Vars, line: string): (r: Vars)
    requires Words(x)
    ensures Words(r)
  {
    var got := ScanAfterChar(line, 3);
    Vars(if |got| > 0 then got[0] else x.u, if |got| > 1 then got[1] else x.v, if |got| > 2 then got[2] else x.w)
  }

  /** The call add_edge(u, v, weight, u, v), the unsigned values passed as
      ints. */
  function CallOf(vars: Vars): Call
    requires Words(vars)
  {
    Call(ToInt(vars.u), ToInt(vars.v), ToInt(vars.w))
  }

  /** u, v and weight after the scans of the lines, from the values x. */
  function VarsAfter(x: Vars, ls: seq<string>): (r: Vars)
    requires Words(x)
    ensures Words(r)
    decreases |ls|
  {
    if ls == [] then x else LineVars(VarsAfter(x, ls[..|ls| - 1]), ls[|ls| - 1])
  }

  /** The add_edge calls of the scanned lines: each with u, v and weight as
      the scan of its line leaves them. */
  function EdgeCalls(x: Vars, ls: seq<string>): (r: seq<Call>)
    requires Words(x)
    ensures |r| == |ls|
    decreases |ls|
  {
    if ls == [] then [] else EdgeCalls(x, ls[..|ls| - 1]) + [CallOf(VarsAfter(x, ls))]
  }

  // What the terminal loop's scans do

  /** terminal after "%*c %u" of one line. */
  function LineTerminal(t: nat, line: string): (r: nat)
    requires t < U32
    ensures r < U32
  {
    var got := ScanAfterChar(line, 1);
    if |got| > 0 then got[0] else t
  }

  /** terminal after the scans of the lines, from the value t0. */
  function TermAfter(t0: nat, ls: seq<string>): (r: nat)
    requires t0 < U32
    ensures r < U32
    decreases |ls|
  {
    if ls == [] then t0 else LineTerminal(TermAfter(t0, ls[..|ls| - 1]), ls[|ls| - 1])
  }

  /** The mark_terminal calls of the scanned lines, each of terminal as the
      scan of its line leaves it. */
  function TermMarks(t0: nat, ls: seq<string>): (r: seq<int>)
    requires t0 < U32
    ensures |r| == |ls|
    decreases |ls|
  {
    if ls == [] then [] else TermMarks(t0, ls[..|ls| - 1]) + [ToInt(TermAfter(t0, ls))]
  }

  // The file

  /** The skip loop of read_terminals from the line in the buffer on: the
      cursor once the buffer holds "SECTION Terminals\n", or None when the
      file ends first, where the source loops for ever. */
  function Seek(lines: seq<string>, d: Cursor): Option<Cursor>
    decreases |lines| - d.at
  {
    if d.buff == TerminalsStart then Some(d)
    else if d.at >= |lines| then None
    else Seek(lines, Fgets(lines, d))
  }

  /** read_terminals from cursor c, with nterminals holding count0 before
      it is assigned: the terminal loop, or None when the skip loop does not
      end. */
  function TerminalSection(lines: seq<string>, c: Cursor, count0: nat): Option<LoopScan>
    requires count0 < U32
  {
    match Seek(lines, Fgets(lines, c))
    case None => None
    case Some(d) =>
      var h := Fgets(lines, d);
      var count := Assign([count0], ScanAfterWord(h.buff))[0];
      Some(LoopRead(lines, LoopScan(h, []), count))
  }

  /** The values graph_from_file's variables hold before they are first
      assigned: the buffer, u, v and weight, nterminals and terminal. */
  datatype Unset = Unset(buff: string, vars: Vars, count: nat, terminal: nat)

  predicate UnsetOk(x: Unset) {
    Words(x.vars) && x.count < U32 && x.terminal < U32
  }

  /** What graph_from_file does: the vertex count of the graph, the
      add_edge calls and the mark_terminal calls (None when the skip loop
      does not end). */
  datatype Reading = Reading(n: int, calls: seq<Call>, marks: Option<seq<int>>)

  /** The marks of the terminal section, if it ends. */
  function MarksOf(t0: nat, t: Option<LoopScan>): Option<seq<int>>
    requires t0 < U32
  {
    match t
    case None => None
    case Some(s) => Some(TermMarks(t0, s.scanned))
  }

  /** graph_from_file: line one is read and not looked at; lines two and
      three give nvert and nedges through "%*s %u" (0 when the scan fails);
      the graph has nvert + 1 vertices, computed in unsigned int. */
  function FileRead(lines: seq<string>, x: Unset): Reading
    requires UnsetOk(x)
  {
    var c1 := Fgets(lines, Cursor(0, x.buff));
    var c2 := Fgets(lines, c1);
    var nvert := Assign([0], ScanAfterWord(c2.buff))[0];
    var c3 := Fgets(lines, c2);
    var nedges := Assign([0], ScanAfterWord(c3.buff))[0];
    ReadFrom(lines, x, c3, nvert, nedges)
  }

  /** graph_from_file once nvert and nedges are read, with the cursor on
      the edge count line. */
  function ReadFrom(lines: seq<string>, x: Unset, c3: Cursor, nvert: nat, nedges: nat): Reading
    requires UnsetOk(x)
  {
    var e := LoopRead(lines, LoopScan(c3, []), nedges);
    Reading(ToInt((nvert + 1) % U32), EdgeCalls(x.vars, e.scanned), MarksOf(x.terminal, TerminalSection(lines, e.cur, x.count)))
  }

  /** Calls add_edge accepts: both ends are vertices, and they differ (the
      assert(s != t) of add_edge). */
  predicate Legal(n: int, calls: seq<Call>) {
    forall i :: 0 <= i < |calls| ==> 0 <= calls[i].s < n && 0 <= calls[i].t < n && calls[i].s != calls[i].t
  }

  predicate InRange(n: int, marks: seq<int>) {
    forall i :: 0 <= i < |marks| ==> 0 <= marks[i] < n
  }

  /** add_edge with a history keeps the vertices and the terminals. */
  lemma AddingWithKeeps(g: GraphState, s: int, t: int, w: int, h: seq<(int, int)>)
    requires Consistent(g) && 0 <= s < g.vertexCount && 0 <= t < g.vertexCount && s != t
    ensures AddingWith(g, s, t, w, h).0.vertexCount == g.vertexCount
    ensures Untouched(g, AddingWith(g, s, t, w, h).0)
  {
    AddingOk(g, s, t, w);
    AddingKeeps(g, s, t, w);
    AddingUntouched(g, s, t, w);
  }

  /** The graph after the calls, made one after the other. */
  function AddAll(g: GraphState, calls: seq<Call>): (r: GraphState)
    requires Consistent(g) && Legal(g.vertexCount, calls)
    ensures Consistent(r) && r.vertexCount == g.vertexCount && Untouched(g, r)
    decreases |calls|
  {
    if calls == [] then g
    else
      var p := AddAll(g, calls[..|calls| - 1]);
      var c := calls[|calls| - 1];
      AddingWithOk(p, c.s, c.t, c.w, [(c.s, c.t)]);
      AddingWithKeeps(p, c.s, c.t, c.w, [(c.s, c.t)]);
      AddingWith(p, c.s, c.t, c.w, [(c.s, c.t)]).0
  }

  /** The graph after mark_terminal of each value, in order. */
  function MarkAll(g: GraphState, marks: seq<int>): (r: GraphState)
    requires Consistent(g) && InRange(g.vertexCount, marks)
    ensures Consistent(r) && r.vertexCount == g.vertexCount
    ensures forall x :: x in r.terminals <==> x in g.terminals || x in marks
    decreases |marks|
  {
    if marks == [] then g
    else
      var p := MarkAll(g, marks[..|marks| - 1]);
      assert marks == marks[..|marks| - 1] + [marks[|marks| - 1]];
      Marked(p, marks[|marks| - 1])
  }

  /** A reading the source performs without undefined behaviour and to
      the end: a vertex count that fits an int, every add_edge and
      mark_terminal call on a vertex, and a terminal section (the skip loop
      found "SECTION Terminals"). */
  predicate Sound(r: Reading) {
    r.n >= 0 && Legal(r.n, r.calls) && r.marks.Some? && InRange(r.n, r.marks.value)
  }

  /** The graph a sound reading builds. */
  function BuiltOf(r: Reading): GraphState
    requires Sound(r)
  {
    MarkAll(AddAll(Initial(r.n), r.calls), r.marks.value)
  }

  /** A file the source reads without undefined behaviour and to the end. */
  predicate Readable(lines: seq<string>, x: Unset) {
    UnsetOk(x) && Sound(FileRead(lines, x))
  }

  /** The graph graph_from_file builds from a readable file. */
  function Built(lines: seq<string>, x: Unset): (g: GraphState)
    requires Readable(lines, x)
  {
    BuiltOf(FileRead(lines, x))
  }

  // Steps of the loops

  /** The lines scanned so far come first among those of the whole loop. */
  lemma {:induction false} LoopGrow(lines: seq<string>, s: LoopScan, k: nat)
    ensures s.scanned <= LoopRead(lines, s, k).scanned
    decreases k
  {
    if k > 0 {
      var s' := LoopLine(lines, s);
      LoopGrow(lines, s', k - 1);
      assert LoopRead(lines, s, k) == LoopRead(lines, s', k - 1);
      PrefixTrans(s.scanned, s'.scanned, LoopRead(lines, s', k - 1).scanned);
    }
  }

  /** One iteration toward the scan the loop ends in. */
  lemma {:induction false} LoopNext(lines: seq<string>, s: LoopScan, k: nat, last: LoopScan)
    requires k > 0 && LoopRead(lines, s, k) == last
    ensures LoopRead(lines, LoopLine(lines, s), k - 1) == last && LoopLine(lines, s).scanned <= last.scanned
  {
    LoopUnfold(lines, s, k);
    LoopGrow(lines, LoopLine(lines, s), k - 1);
  }

  lemma LoopUnfold(lines: seq<string>, s: LoopScan, k: nat)
    requires k > 0
    ensures LoopRead(lines, s, k) == LoopRead(lines, LoopLine(lines, s), k - 1)
  {
  }

  lemma PrefixTrans<X>(a: seq<X>, b: seq<X>, c: seq<X>)
    requires a <= b && b <= c
    ensures a <= c
  {
    assert c[..|b|][..|a|] == c[..|a|];
  }

  /** Scanning one more line: its call comes after those of the others. */
  lemma EdgeCallsStep(x: Vars, ls: seq<string>, l: string)
    requires Words(x)
    ensures VarsAfter(x, ls + [l]) == LineVars(VarsAfter(x, ls), l)
    ensures EdgeCalls(x, ls + [l]) == EdgeCalls(x, ls) + [CallOf(VarsAfter(x, ls + [l]))]
  {
    assert (ls + [l])[..|ls|] == ls;
  }

  /** The calls of the lines scanned first come first. */
  lemma {:induction false} EdgeCallsPrefix(x: Vars, a: seq<string>, b: seq<string>)
    requires Words(x) && a <= b
    ensures EdgeCalls(x, a) <= EdgeCalls(x, b)
    decreases |b|
  {
    if |a| < |b| {
      var p := b[..|b| - 1];
      assert a <= p;
      assert b == p + [b[|b| - 1]];
      EdgeCallsStep(x, p, b[|b| - 1]);
      EdgeCallsPrefix(x, a, p);
      PrefixTrans(EdgeCalls(x, a), EdgeCalls(x, p), EdgeCalls(x, b));
    } else {
      assert a == b;
    }
  }

  lemma TermMarksStep(t0: nat, ls: seq<string>, l: string)
    requires t0 < U32
    ensures TermAfter(t0, ls + [l]) == LineTerminal(TermAfter(t0, ls), l)
    ensures TermMarks(t0, ls + [l]) == TermMarks(t0, ls) + [ToInt(TermAfter(t0, ls + [l]))]
  {
    assert (ls + [l])[..|ls|] == ls;
  }

  lemma {:induction false} TermMarksPrefix(t0: nat, a: seq<string>, b: seq<string>)
    requires t0 < U32 && a <= b
    ensures TermMarks(t0, a) <= TermMarks(t0, b)
    decreases |b|
  {
    if |a| < |b| {
      var p := b[..|b| - 1];
      assert a <= p;
      assert b == p + [b[|b| - 1]];
      TermMarksStep(t0, p, b[|b| - 1]);
      TermMarksPrefix(t0, a, p);
      PrefixTrans(TermMarks(t0, a), TermMarks(t0, p), TermMarks(t0, b));
    } else {
      assert a == b;
    }
  }

  lemma LegalPrefix(n: int, a: seq<Call>, b: seq<Call>)
    requires a <= b && Legal(n, b)
    ensures Legal(n, a)
  {
    forall i | 0 <= i < |a|
      ensures 0 <= a[i].s < n && 0 <= a[i].t < n && a[i].s != a[i].t
    {
      assert a[i] == b[i];
    }
  }

  lemma InRangePrefix(n: int, a: seq<int>, b: seq<int>)
    requires a <= b && InRange(n, b)
    ensures InRange(n, a)
  {
    forall i | 0 <= i < |a| ensures 0 <= a[i] < n {
      assert a[i] == b[i];
    }
  }

  lemma AddAllStep(g: GraphState, calls: seq<Call>, c: Call)
    requires Consistent(g) && Legal(g.vertexCount, calls + [c])
    ensures Legal(g.vertexCount, calls)
    ensures AddAll(g, calls + [c]) == AddingWith(AddAll(g, calls), c.s, c.t, c.w, [(c.s, c.t)]).0
  {
    LegalPrefix(g.vertexCount, calls, calls + [c]);
    assert (calls + [c])[..|calls|] == calls;
  }

  lemma MarkAllStep(g: GraphState, marks: seq<int>, x: int)
    requires Consistent(g) && InRange(g.vertexCount, marks + [x])
    ensures InRange(g.vertexCount, marks) && 0 <= x < g.vertexCount
    ensures MarkAll(g, marks + [x]) == Marked(MarkAll(g, marks), x)
  {
    assert (marks + [x])[..|marks|] == marks;
    assert (marks + [x])[|marks|] == x;
    forall i | 0 <= i < |marks| ensures 0 <= marks[i] < g.vertexCount {
      assert marks[i] == (marks + [x])[i];
    }
  }

  // The reader

  /** One iteration of read_edges on the graph g0, with x the values of u,
      v and weight before the loop and seen the lines scanned so far. */
  method ReadEdgeLine(g: Graph, lines: seq<string>, c: Cursor, vs: Vars, ghost x: Vars, ghost seen: seq<string>, ghost g0: GraphState)
    returns (c': Cursor, vs': Vars)
    requires g.Valid() && Consistent(g0) && Words(x) && vs == VarsAfter(x, seen)
    requires Legal(g0.vertexCount, EdgeCalls(x, LoopLine(lines, LoopScan(c, seen)).scanned))
    requires Legal(g0.vertexCount, EdgeCalls(x, seen)) && g.st == AddAll(g0, EdgeCalls(x, seen))
    modifies g
    ensures var r := LoopLine(lines, LoopScan(c, seen));
      r.cur == c' && vs' == VarsAfter(x, r.scanned) && g.st == AddAll(g0, EdgeCalls(x, r.scanned))
    ensures g.Valid()
  {
    c', vs' := Fgets(lines, c), vs;
    if c'.buff != EndLine {
      vs' := LineVars(vs, c'.buff);
      EdgeCallsStep(x, seen, c'.buff);
      var s, t, w := ToInt(vs'.u), ToInt(vs'.v), ToInt(vs'.w);
      AddAllStep(g0, EdgeCalls(x, seen), Call(s, t, w));
      var _ := g.AddEdgeWithOrigin(s, t, w, s, t);
    }
  }

  /** read_edges(fin, g, nedges, buff, ...), given the cursor and the
      values of u, v and weight: g takes the add_edge calls of the edge
      pass, in order. */
  method ReadEdges(g: Graph, lines: seq<string>, nedges: nat, cur: Cursor, vars: Vars)
    returns (c: Cursor, vs: Vars)
    requires g.Valid() && Words(vars)
    requires Legal(g.st.vertexCount, EdgeCalls(vars, LoopRead(lines, LoopScan(cur, []), nedges).scanned))
    modifies g
    ensures var r := LoopRead(lines, LoopScan(cur, []), nedges);
      r.cur == c && vs == VarsAfter(vars, r.scanned) && g.st == AddAll(old(g.st), EdgeCalls(vars, r.scanned))
    ensures g.Valid()
  {
    ghost var g0 := g.st;
    ghost var last := LoopRead(lines, LoopScan(cur, []), nedges);
    ghost var s := LoopScan(cur, []);
    c, vs := cur, vars;
    var i := 0;
    while i < nedges
      invariant 0 <= i <= nedges && LoopRead(lines, s, nedges - i) == last
      invariant c == s.cur && vs == VarsAfter(vars, s.scanned)
      invariant g.Valid() && Legal(g0.vertexCount, EdgeCalls(vars, s.scanned)) && g.st == AddAll(g0, EdgeCalls(vars, s.scanned))
    {
      LoopNext(lines, s, nedges - i, last);
      EdgeCallsPrefix(vars, LoopLine(lines, s).scanned, last.scanned);
      LegalPrefix(g0.vertexCount, EdgeCalls(vars, LoopLine(lines, s).scanned), EdgeCalls(vars, last.scanned));
      c, vs := ReadEdgeLine(g, lines, c, vs, vars, s.scanned, g0);
      s := LoopLine(lines, s);
      i := i + 1;
    }
  }

  /** The skip loop of read_terminals. */
  method SkipToTerminals(lines: seq<string>, cur: Cursor) returns (c: Cursor)
    requires Seek(lines, Fgets(lines, cur)).Some?
    ensures Seek(lines, Fgets(lines, cur)) == Some(c)
  {
    c := Fgets(lines, cur);
    while c.buff != TerminalsStart
      invariant Seek(lines, c) == Seek(lines, Fgets(lines, cur))
      decreases |lines| - c.at
    {
      c := Fgets(lines, c);
    }
  }

  /** One iteration of the terminal loop on the graph g0, with t0 the value
      of terminal before the loop and seen the lines scanned so far. */
  method MarkTerminalLine(g: Graph, lines: seq<string>, c: Cursor, terminal: nat, ghost t0: nat, ghost seen: seq<string>, ghost g0: GraphState)
    returns (c': Cursor, terminal': nat)
    requires g.Valid() && Consistent(g0) && t0 < U32 && terminal == TermAfter(t0, seen)
    requires InRange(g0.vertexCount, TermMarks(t0, LoopLine(lines, LoopScan(c, seen)).scanned))
    requires InRange(g0.vertexCount, TermMarks(t0, seen)) && g.st == MarkAll(g0, TermMarks(t0, seen))
    modifies g
    ensures var r := LoopLine(lines, LoopScan(c, seen));
      r.cur == c' && terminal' == TermAfter(t0, r.scanned) && g.st == MarkAll(g0, TermMarks(t0, r.scanned))
    ensures g.Valid()
  {
    c', terminal' := Fgets(lines, c), terminal;
    if c'.buff != EndLine {
      terminal' := LineTerminal(terminal, c'.buff);
      TermMarksStep(t0, seen, c'.buff);
      var v := ToInt(terminal');
      MarkAllStep(g0, TermMarks(t0, seen), v);
      g.MarkTerminal(v);
    }
  }

  /** The counted loop of read_terminals. */
  method MarkTerminals(g: Graph, lines: seq<string>, count: nat, h: Cursor, term0: nat)
    returns (c: Cursor, terminal: nat)
    requires g.Valid() && term0 < U32
    requires InRange(g.st.vertexCount, TermMarks(term0, LoopRead(lines, LoopScan(h, []), count).scanned))
    modifies g
    ensures var r := LoopRead(lines, LoopScan(h, []), count);
      r.cur == c && terminal == TermAfter(term0, r.scanned) && g.st == MarkAll(old(g.st), TermMarks(term0, r.scanned))
    ensures g.Valid()
  {
    ghost var g0 := g.st;
    ghost var last := LoopRead(lines, LoopScan(h, []), count);
    ghost var s := LoopScan(h, []);
    c, terminal := h, term0;
    var i := 0;
    while i < count
      invariant 0 <= i <= count && LoopRead(lines, s, count - i) == last
      invariant c == s.cur && terminal == TermAfter(term0, s.scanned)
      invariant g.Valid() && InRange(g0.vertexCount, TermMarks(term0, s.scanned)) && g.st == MarkAll(g0, TermMarks(term0, s.scanned))
    {
      LoopNext(lines, s, count - i, last);
      TermMarksPrefix(term0, LoopLine(lines, s).scanned, last.scanned);
      InRangePrefix(g0.vertexCount, TermMarks(term0, LoopLine(lines, s).scanned), TermMarks(term0, last.scanned));
      c, terminal := MarkTerminalLine(g, lines, c, terminal, term0, s.scanned, g0);
      s := LoopLine(lines, s);
      i := i + 1;
    }
  }

  /** read_terminals(fin, g, buff, ...), given the cursor and the values of
      nterminals and terminal: skip to "SECTION Terminals", read the count,
      then mark the terminals of that many lines. */
  method ReadTerminals(g: Graph, lines: seq<string>, cur: Cursor, count0: nat, term0: nat)
    returns (c: Cursor, terminal: nat)
    requires g.Valid() && count0 < U32 && term0 < U32
    requires TerminalSection(lines, cur, count0).Some?
    requires InRange(g.st.vertexCount, TermMarks(term0, TerminalSection(lines, cur, count0).value.scanned))
    modifies g
    ensures var r := TerminalSection(lines, cur, count0).value;
      r.cur == c && terminal == TermAfter(term0, r.scanned) && g.st == MarkAll(old(g.st), TermMarks(term0, r.scanned))
    ensures g.Valid()
  {
    var d := SkipToTerminals(lines, cur);
    var h := Fgets(lines, d);
    var count := Assign([count0], ScanAfterWord(h.buff))[0];
    c, terminal := MarkTerminals(g, lines, count, h, term0);
  }

  /** graph_from_file(fin), given the values the variables hold before they
      are assigned. */
  method GraphFromFile(lines: seq<string>, x: Unset) returns (g: Graph)
    requires Readable(lines, x)
    ensures g.Valid() && g.st == Built(lines, x)
  {
    var c1 := Fgets(lines, Cursor(0, x.buff));
    var c2 := Fgets(lines, c1);
    var nvert := Assign([0], ScanAfterWord(c2.buff))[0];
    var c3 := Fgets(lines, c2);
    var nedges := Assign([0], ScanAfterWord(c3.buff))[0];
    assert FileRead(lines, x) == ReadFrom(lines, x, c3, nvert, nedges);
    g := BuildGraph(lines, x, c3, nvert, nedges);
  }

  /** The rest of graph_from_file: the graph of nvert + 1 vertices, then
      the two passes. */
  method BuildGraph(lines: seq<string>, x: Unset, c3: Cursor, nvert: nat, nedges: nat) returns (g: Graph)
    requires UnsetOk(x) && Sound(ReadFrom(lines, x, c3, nvert, nedges))
    ensures g.Valid() && g.st == BuiltOf(ReadFrom(lines, x, c3, nvert, nedges))
  {
    ghost var r := ReadFrom(lines, x, c3, nvert, nedges);
    ghost var e := LoopRead(lines, LoopScan(c3, []), nedges);
    assert r.n == ToInt((nvert + 1) % U32) && r.calls == EdgeCalls(x.vars, e.scanned);
    g := new Graph(ToInt((nvert + 1) % U32));
    var c4, vs := ReadEdges(g, lines, nedges, c3, x.vars);
    ghost var t := TerminalSection(lines, c4, x.count);
    assert r.marks == MarksOf(x.terminal, t) && t.Some?;
    ghost var g2 := g.st;
    assert g2 == AddAll(Initial(r.n), r.calls) && g2.vertexCount == r.n;
    var c5, terminal := ReadTerminals(g, lines, c4, x.count, x.terminal);
  }

  // Properties of the reader

  /** The lines that are not "END\n", in order. */
  function Kept(ls: seq<string>): (r: seq<string>)
    ensures |r| <= |ls|
  {
    if ls == [] then [] else (if ls[0] == EndLine then [] else [ls[0]]) + Kept(ls[1..])
  }

  /** The k lines from `at` on that are not "END\n", in order. */
  function KeptAt(lines: seq<string>, at: nat, k: nat): seq<string>
    requires at + k <= |lines|
    decreases k
  {
    if k == 0 then [] else (if lines[at] == EndLine then [] else [lines[at]]) + KeptAt(lines, at + 1, k - 1)
  }

  lemma {:induction false} KeptSlice(lines: seq<string>, at: nat, k: nat)
    requires at + k <= |lines|
    ensures KeptAt(lines, at, k) == Kept(lines[at..at + k])
    decreases k
  {
    if k == 0 {
      assert lines[at..at] == [];
    } else {
      KeptSlice(lines, at + 1, k - 1);
      assert lines[at..at + k][1..] == lines[at + 1..at + k];
    }
  }

  lemma Append3<X>(a: seq<X>, b: seq<X>, c: seq<X>)
    ensures a + b + c == a + (b + c)
  {
  }

  /** The loop consumes exactly its k lines while the file lasts. */
  lemma {:induction false} LoopCursor(lines: seq<string>, s: LoopScan, k: nat)
    requires s.cur.at + k <= |lines|
    ensures LoopRead(lines, s, k).cur.at == s.cur.at + k
    ensures k > 0 ==> LoopRead(lines, s, k).cur.buff == lines[s.cur.at + k - 1]
    decreases k
  {
    if k > 0 {
      LoopCursor(lines, LoopLine(lines, s), k - 1);
    }
  }

  /** The loop scans exactly those of its k lines that are not "END\n". */
  lemma {:induction false} LoopKept(lines: seq<string>, s: LoopScan, k: nat)
    requires s.cur.at + k <= |lines|
    ensures LoopRead(lines, s, k).scanned == s.scanned + KeptAt(lines, s.cur.at, k)
    decreases k
  {
    if k > 0 {
      var s' := LoopLine(lines, s);
      LoopKept(lines, s', k - 1);
      var rest := KeptAt(lines, s.cur.at + 1, k - 1);
      if lines[s.cur.at] == EndLine {
        assert KeptAt(lines, s.cur.at, k) == [] + rest;
      } else {
        assert KeptAt(lines, s.cur.at, k) == [lines[s.cur.at]] + rest;
        Append3(s.scanned, [lines[s.cur.at]], rest);
      }
    }
  }

  /** read_edges and the terminal loop read exactly their k lines while the
      file lasts, and scan the ones that are not "END\n": one add_edge or
      mark_terminal call each. */
  lemma LoopCounted(lines: seq<string>, s: LoopScan, k: nat)
    requires s.cur.at + k <= |lines|
    ensures LoopRead(lines, s, k).cur.at == s.cur.at + k
    ensures k > 0 ==> LoopRead(lines, s, k).cur.buff == lines[s.cur.at + k - 1]
    ensures LoopRead(lines, s, k).scanned == s.scanned + Kept(lines[s.cur.at..s.cur.at + k])
  {
    LoopCursor(lines, s, k);
    LoopKept(lines, s, k);
    KeptSlice(lines, s.cur.at, k);
  }

  /** The skip loop stops at the first "SECTION Terminals\n", starting with
      the line in the buffer. */
  lemma {:induction false} SeekFirst(lines: seq<string>, d: Cursor)
    ensures Seek(lines, d).Some? ==> Seek(lines, d).value.buff == TerminalsStart
    ensures d.buff == TerminalsStart ==> Seek(lines, d) == Some(d)
    ensures Seek(lines, d).Some? && d.buff != TerminalsStart ==>
      var f := Seek(lines, d).value;
      d.at < f.at <= |lines| && f == Cursor(f.at, lines[f.at - 1]) &&
      forall i :: d.at <= i < f.at - 1 ==> lines[i] != TerminalsStart
    decreases |lines| - d.at
  {
    if d.buff != TerminalsStart && d.at < |lines| {
      SeekFirst(lines, Fgets(lines, d));
    }
  }

  /** The skip loop never ends exactly when neither the buffer nor any
      line ahead is "SECTION Terminals\n". */
  lemma {:induction false} SeekNone(lines: seq<string>, d: Cursor)
    ensures Seek(lines, d).None? <==>
      d.buff != TerminalsStart && forall i :: d.at <= i < |lines| ==> lines[i] != TerminalsStart
    decreases |lines| - d.at
  {
    if d.buff != TerminalsStart && d.at < |lines| {
      SeekNone(lines, Fgets(lines, d));
      assert lines[d.at] == Fgets(lines, d).buff;
    }
  }

  /** mark_terminal of a listed terminal changes nothing. */
  lemma MarkedTerminal(g: GraphState, v: int)
    requires Consistent(g) && 0 <= v < g.vertexCount && v in g.terminals
    ensures Marked(g, v) == g
  {
  }

  /** A terminal listed twice is marked once: repeating a mark changes
      nothing. */
  lemma MarkRepeat(g: GraphState, marks: seq<int>, x: int)
    requires Consistent(g) && InRange(g.vertexCount, marks + [x]) && x in marks
    ensures InRange(g.vertexCount, marks)
    ensures MarkAll(g, marks + [x]) == MarkAll(g, marks)
  {
    MarkAllStep(g, marks, x);
    MarkedTerminal(MarkAll(g, marks), x);
  }

  /** The marked vertices that were not terminals before. */
  function Fresh(T: seq<int>, marks: seq<int>): set<int> {
    set y | y in marks && y !in T
  }

  lemma FreshStep(T: seq<int>, p: seq<int>, x: int)
    ensures |Fresh(T, p + [x])| == |Fresh(T, p)| + if x in T || x in p then 0 else 1
  {
    if x in T || x in p {
      assert Fresh(T, p + [x]) == Fresh(T, p);
    } else {
      assert Fresh(T, p + [x]) == Fresh(T, p) + {x};
    }
  }

  /** The terminal count after the marks: the terminals already there and
      every distinct new vertex, each counted once. */
  lemma {:induction false} MarkAllCount(g: GraphState, marks: seq<int>)
    requires Consistent(g) && InRange(g.vertexCount, marks)
    ensures MarkAll(g, marks).terminalCount == g.terminalCount + |Fresh(g.terminals, marks)|
    decreases |marks|
  {
    if marks == [] {
      assert Fresh(g.terminals, marks) == {};
    } else {
      var p := marks[..|marks| - 1];
      var x := marks[|marks| - 1];
      assert marks == p + [x];
      MarkAllStep(g, p, x);
      MarkAllCount(g, p);
      FreshStep(g.terminals, p, x);
    }
  }

  /** Cursors from line `from` on see the same file when the lines from
      there on are the same. */
  predicate AgreeFrom(a: seq<string>, b: seq<string>, from: nat) {
    |a| == |b| && forall i :: from <= i < |a| ==> a[i] == b[i]
  }

  lemma {:induction false} LoopAgree(a: seq<string>, b: seq<string>, from: nat, s: LoopScan, k: nat)
    requires AgreeFrom(a, b, from) && s.cur.at >= from
    ensures LoopRead(a, s, k) == LoopRead(b, s, k) && LoopRead(a, s, k).cur.at >= from
    decreases k
  {
    if k > 0 {
      assert LoopLine(a, s) == LoopLine(b, s);
      LoopAgree(a, b, from, LoopLine(a, s), k - 1);
    }
  }

  lemma {:induction false} SeekAgree(a: seq<string>, b: seq<string>, from: nat, d: Cursor)
    requires AgreeFrom(a, b, from) && d.at >= from
    ensures Seek(a, d) == Seek(b, d) && (Seek(a, d).Some? ==> Seek(a, d).value.at >= from)
    decreases |a| - d.at
  {
    if d.buff != TerminalsStart && d.at < |a| {
      SeekAgree(a, b, from, Fgets(a, d));
    }
  }

  lemma SectionAgree(a: seq<string>, b: seq<string>, c: Cursor, count0: nat)
    requires AgreeFrom(a, b, 1) && c.at >= 1 && count0 < U32
    ensures TerminalSection(a, c, count0) == TerminalSection(b, c, count0)
  {
    SeekAgree(a, b, 1, Fgets(a, c));
    match Seek(a, Fgets(a, c))
    case None =>
    case Some(d) =>
      var h := Fgets(a, d);
      var count := Assign([count0], ScanAfterWord(h.buff))[0];
      LoopAgree(a, b, 1, LoopScan(h, []), count);
  }

  /** Two files that differ at most in their first line read alike. */
  lemma FileAgree(a: seq<string>, b: seq<string>, x: Unset)
    requires UnsetOk(x) && |a| >= 2 && AgreeFrom(a, b, 1)
    ensures FileRead(a, x) == FileRead(b, x)
  {
    var c0 := Cursor(0, x.buff);
    var c2 := Fgets(a, Fgets(a, c0));
    assert c2 == Fgets(b, Fgets(b, c0)) && c2.at == 2;
    var c3 := Fgets(a, c2);
    assert c3 == Fgets(b, c2);
    var nedges := Assign([0], ScanAfterWord(c3.buff))[0];
    var e := LoopScan(c3, []);
    LoopAgree(a, b, 1, e, nedges);
    SectionAgree(a, b, LoopRead(a, e, nedges).cur, x.count);
  }
}
