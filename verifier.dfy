/** verifier.py: the validity checker of a PACE 2018 Steiner tree solution.
    It reads an instance file and a solution file, given here as the lines
    Python's readline() and readlines() return, and ends in one verdict: the
    first assertion that fails, or acceptance. Node ids are 1-indexed in the
    files and 0-indexed inside; verdicts carry the 0-indexed ids. */
module Verifier {
  import opened Text
  import opened SolutionTree

  datatype FileKind = InstanceFile | SolutionFile

  /** Why a run of verifier.py stops short of "Seems fine!". Errors raised
      while reading a file (a failed format assertion, a bad unpacking, int()
      of a non-number, an index outside a list) are FormatError with the
      1-based line number. */
  datatype Failure =
    | FormatError(file: FileKind, line: nat)
    | UnknownEdge(u: int, v: int)
    | DuplicateEdge(u: int, v: int)
    | CostMismatch(declared: int, computed: int)
    | MalformedClaim(index: nat)
    | NoTerminals
    | CycleFound(node: int, neighbour: int)
    | Unreachable(terminal: int, root: int)

  /** How a run of verifier.py ends. */
  datatype Verdict = Accepted | Rejected(failure: Failure)

  datatype Result<T> = Ok(value: T) | Err(failure: Failure)

  type Key = (int, int)

  /** The canonical key (min(u,v), max(u,v)) under which an edge is stored. */
  function KeyOf(u: int, v: int): (k: Key)
    ensures k.0 <= k.1 && {k.0, k.1} == {u, v}
  {
    if u <= v then (u, v) else (v, u)
  }

  /** The instance: node count, edge weights by canonical key, terminals. */
  datatype Instance = Instance(n: int, edges: map<Key, int>, terminals: seq<int>)

  /** What readline() returns for the i-th line: "" past the end of file. */
  function LineAt(lines: seq<string>, i: nat): string {
    if i < |lines| then lines[i] else ""
  }

  /** `s, x = line.split(); assert s == kw; int(x)`. */
  function Header(line: string, kw: string): Option<int> {
    var t := Split(line);
    if |t| == 2 && t[0] == kw then ParseInt(t[1]) else None
  }

  /** range(m) runs max(m, 0) times. */
  function NonNegative(m: int): nat {
    if m < 0 then 0 else m
  }

  /** An index accepted by a list of length n. Python also accepts
      -n <= i < 0, counting from the end; the strict check keeps to 0 <= i < n. */
  predicate IdOk(i: int, n: int, strict: bool) {
    if strict then 0 <= i < n else -n <= i < n
  }

  datatype EdgeFields = EdgeFields(u: int, v: int, w: int)

  /** verifier.py:28-33 on one line: four tokens "E u v w", ids shifted to
      0-indexed, both usable as indexes of the adjacency list `graph`. */
  function EdgeLine(line: string, n: int, strict: bool): Option<EdgeFields> {
    var t := Split(line);
    if |t| == 4 && t[0] == "E" then
      match (ParseInt(t[1]), ParseInt(t[2]), ParseInt(t[3]))
      case (Some(u), Some(v), Some(w)) =>
        if IdOk(u - 1, n, strict) && IdOk(v - 1, n, strict) then Some(EdgeFields(u - 1, v - 1, w)) else None
      case _ => None
    else None
  }

  /** verifier.py:42-45 on one line: "T i", shifted to 0-indexed. The source
      does not check the range; the strict check does. */
  function TerminalLine(line: string, n: int, strict: bool): Option<int> {
    match Header(line, "T")
    case Some(i) => if !strict || IdOk(i - 1, n, true) then Some(i - 1) else None
    case None => None
  }

  /** The edge loop of verifier.py:27-33 over count lines from index at,
      recording each weight under its canonical key. */
  function EdgesFrom(lines: seq<string>, at: nat, count: nat, n: int, strict: bool, acc: map<Key, int>): Result<map<Key, int>>
    decreases count
  {
    if count == 0 then Ok(acc)
    else match EdgeLine(LineAt(lines, at), n, strict)
      case None => Err(FormatError(InstanceFile, at + 1))
      case Some(e) => EdgesFrom(lines, at + 1, count - 1, n, strict, acc[KeyOf(e.u, e.v) := e.w])
  }

  /** The terminal loop of verifier.py:41-45. */
  function TerminalsFrom(lines: seq<string>, at: nat, count: nat, n: int, strict: bool, acc: seq<int>): Result<seq<int>>
    decreases count
  {
    if count == 0 then Ok(acc)
    else match TerminalLine(LineAt(lines, at), n, strict)
      case None => Err(FormatError(InstanceFile, at + 1))
      case Some(i) => TerminalsFrom(lines, at + 1, count - 1, n, strict, acc + [i])
  }

  /** verifier.py:35-37 and 47-49: "END", a blank line and then the line
      next, from index at; the 1-based number of the first line that differs. */
  function SectionBreak(lines: seq<string>, at: nat, next: string): Option<nat> {
    if Strip(LineAt(lines, at)) != "END" then Some(at + 1)
    else if Strip(LineAt(lines, at + 1)) != "" then Some(at + 2)
    else if Strip(LineAt(lines, at + 2)) != next then Some(at + 3)
    else None
  }

  /** verifier.py:35-49, from the index of the line after the last edge line. */
  function TerminalSection(lines: seq<string>, at: nat, n: int, strict: bool, edges: map<Key, int>): Result<Instance> {
    match SectionBreak(lines, at, "SECTION Terminals")
    case Some(line) => Err(FormatError(InstanceFile, line))
    case None => TerminalList(lines, at + 3, n, strict, edges)
  }

  /** verifier.py:38-49, from the index of the "Terminals" line. */
  function TerminalList(lines: seq<string>, at: nat, n: int, strict: bool, edges: map<Key, int>): Result<Instance> {
    match Header(LineAt(lines, at), "Terminals")
    case None => Err(FormatError(InstanceFile, at + 1))
    case Some(t) => TerminalsCounted(lines, at, NonNegative(t), n, strict, edges)
  }

  /** verifier.py:41-49, once the "Terminals" line at index at has given t. */
  function TerminalsCounted(lines: seq<string>, at: nat, t: nat, n: int, strict: bool, edges: map<Key, int>): Result<Instance> {
    match TerminalsFrom(lines, at + 1, t, n, strict, [])
    case Err(e) => Err(e)
    case Ok(terminals) =>
      match SectionBreak(lines, at + 1 + t, "EOF")
      case Some(line) => Err(FormatError(InstanceFile, line))
      case None => Ok(Instance(n, edges, terminals))
  }

  /** verifier.py:16-49, with the given range check on node ids. */
  function ParseInstanceWith(lines: seq<string>, strict: bool): Result<Instance> {
    if Strip(LineAt(lines, 0)) != "SECTION Graph" then Err(FormatError(InstanceFile, 1))
    else match Header(LineAt(lines, 1), "Nodes")
      case None => Err(FormatError(InstanceFile, 2))
      case Some(n) => GraphSection(lines, n, strict)
  }

  /** verifier.py:22-49, once the node count n is read. */
  function GraphSection(lines: seq<string>, n: int, strict: bool): Result<Instance> {
    match Header(LineAt(lines, 2), "Edges")
    case None => Err(FormatError(InstanceFile, 3))
    case Some(m) => EdgeSection(lines, n, NonNegative(m), strict)
  }

  /** verifier.py:27-49, once the edge count m is read. */
  function EdgeSection(lines: seq<string>, n: int, m: nat, strict: bool): Result<Instance> {
    match EdgesFrom(lines, 3, m, n, strict, map[])
    case Err(e) => Err(e)
    case Ok(edges) => TerminalSection(lines, 3 + m, n, strict, edges)
  }

  /** The instance parser as written: an id is only as constrained as a
      Python list index, so file id 0 (index -1) names the last node. */
  function ParseInstanceAsWritten(lines: seq<string>): Result<Instance> {
    ParseInstanceWith(lines, false)
  }

  /** The instance parser with file ids restricted to 1..n. */
  function ParseInstance(lines: seq<string>): Result<Instance> {
    ParseInstanceWith(lines, true)
  }

  /** verifier.py:16-49 executed step by step. */
  method ReadInstance(lines: seq<string>) returns (r: Result<Instance>)
    ensures r == ParseInstance(lines)
  {
    if Strip(LineAt(lines, 0)) != "SECTION Graph" {
      return Err(FormatError(InstanceFile, 1));
    }
    var nodes := Header(LineAt(lines, 1), "Nodes");
    if nodes.None? {
      return Err(FormatError(InstanceFile, 2));
    }
    r := ReadGraphSection(lines, nodes.value);
  }

  /** verifier.py:22-49. */
  method ReadGraphSection(lines: seq<string>, n: int) returns (r: Result<Instance>)
    ensures r == GraphSection(lines, n, true)
  {
    var edgeCount := Header(LineAt(lines, 2), "Edges");
    if edgeCount.None? {
      return Err(FormatError(InstanceFile, 3));
    }
    r := ReadEdgeSection(lines, n, NonNegative(edgeCount.value));
  }

  /** verifier.py:27-49. */
  method ReadEdgeSection(lines: seq<string>, n: int, m: nat) returns (r: Result<Instance>)
    ensures r == EdgeSection(lines, n, m, true)
  {
    var edges := ReadEdges(lines, m, n);
    if edges.Err? {
      return Err(edges.failure);
    }
    r := ReadTerminalSection(lines, 3 + m, n, edges.value);
  }

  /** verifier.py:27-33: the m edge lines after the three header lines. */
  method ReadEdges(lines: seq<string>, m: nat, n: int) returns (r: Result<map<Key, int>>)
    ensures r == EdgesFrom(lines, 3, m, n, true, map[])
  {
    var alledges: map<Key, int> := map[];
    var at, left := 3, m;
    while left > 0
      invariant EdgesFrom(lines, 3, m, n, true, map[]) == EdgesFrom(lines, at, left, n, true, alledges)
    {
      var e := EdgeLine(LineAt(lines, at), n, true);
      EdgesFromNext(lines, at, left, n, true, alledges);
      if e.None? {
        return Err(FormatError(InstanceFile, at + 1));
      }
      alledges := alledges[KeyOf(e.value.u, e.value.v) := e.value.w];
      at, left := at + 1, left - 1;
    }
    return Ok(alledges);
  }

  /** verifier.py:35-49. */
  method ReadTerminalSection(lines: seq<string>, at: nat, n: int, edges: map<Key, int>) returns (r: Result<Instance>)
    ensures r == TerminalSection(lines, at, n, true, edges)
  {
    var broken := SectionBreak(lines, at, "SECTION Terminals");
    if broken.Some? {
      return Err(FormatError(InstanceFile, broken.value));
    }
    r := ReadTerminalList(lines, at + 3, n, edges);
  }

  /** verifier.py:38-49. */
  method ReadTerminalList(lines: seq<string>, at: nat, n: int, edges: map<Key, int>) returns (r: Result<Instance>)
    ensures r == TerminalList(lines, at, n, true, edges)
  {
    var termCount := Header(LineAt(lines, at), "Terminals");
    if termCount.None? {
      return Err(FormatError(InstanceFile, at + 1));
    }
    r := ReadCounted(lines, at, NonNegative(termCount.value), n, edges);
  }

  /** verifier.py:41-49. */
  method ReadCounted(lines: seq<string>, at: nat, t: nat, n: int, edges: map<Key, int>) returns (r: Result<Instance>)
    ensures r == TerminalsCounted(lines, at, t, n, true, edges)
  {
    var terminals := ReadTerminals(lines, at + 1, t, n);
    if terminals.Err? {
      return Err(terminals.failure);
    }
    var broken := SectionBreak(lines, at + 1 + t, "EOF");
    if broken.Some? {
      return Err(FormatError(InstanceFile, broken.value));
    }
    return Ok(Instance(n, edges, terminals.value));
  }

  /** verifier.py:41-45: the t terminal lines from index at. */
  method ReadTerminals(lines: seq<string>, at: nat, t: nat, n: int) returns (r: Result<seq<int>>)
    ensures r == TerminalsFrom(lines, at, t, n, true, [])
  {
    var terminals: seq<int> := [];
    var line, left := at, t;
    while left > 0
      invariant TerminalsFrom(lines, at, t, n, true, []) == TerminalsFrom(lines, line, left, n, true, terminals)
    {
      var i := TerminalLine(LineAt(lines, line), n, true);
      TerminalsFromNext(lines, line, left, n, true, terminals);
      if i.None? {
        return Err(FormatError(InstanceFile, line + 1));
      }
      terminals := terminals + [i.value];
      line, left := line + 1, left - 1;
    }
    return Ok(terminals);
  }

  /** A malformed terminal line is reported by its line number; a
      well-formed one moves the reading on to the next line. */
  lemma TerminalsFromNext(lines: seq<string>, at: nat, count: nat, n: int, strict: bool, acc: seq<int>)
    requires count > 0
    ensures TerminalLine(LineAt(lines, at), n, strict).None? ==>
      TerminalsFrom(lines, at, count, n, strict, acc) == Err(FormatError(InstanceFile, at + 1))
    ensures TerminalLine(LineAt(lines, at), n, strict).Some? ==>
      TerminalsFrom(lines, at, count, n, strict, acc) ==
      TerminalsFrom(lines, at + 1, count - 1, n, strict, acc + [TerminalLine(LineAt(lines, at), n, strict).value])
  {
  }

  /** The claimed solution: the declared VALUE and, per non-blank line after
      it, the 0-indexed ids on that line. */
  datatype Solution = Solution(declared: int, claims: seq<seq<int>>)

  /** `map(lambda x: int(x)-1, tokens)`. */
  function ParseIds(tokens: seq<string>): (r: Option<seq<int>>)
    ensures r.Some? ==> |r.value| == |tokens|
  {
    if tokens == [] then Some([])
    else match (ParseInt(tokens[0]), ParseIds(tokens[1..]))
      case (Some(x), Some(rest)) => Some([x - 1] + rest)
      case _ => None
  }

  /** The list comprehension of verifier.py:60 over the lines from index at. */
  function ClaimsFrom(lines: seq<string>, at: nat): (r: Result<seq<seq<int>>>)
    ensures r.Ok? ==> forall i :: 0 <= i < |r.value| ==> r.value[i] != []
    decreases |lines| - at
  {
    if at >= |lines| then Ok([])
    else if Strip(lines[at]) == "" then ClaimsFrom(lines, at + 1)
    else
      SplitOfNonBlank(lines[at]);
      match ParseIds(Split(lines[at]))
      case None => Err(FormatError(SolutionFile, at + 1))
      case Some(ids) =>
        match ClaimsFrom(lines, at + 1)
        case Err(e) => Err(e)
        case Ok(rest) => Ok([ids] + rest)
  }

  /** verifier.py:56-60. */
  function ParseSolution(lines: seq<string>): Result<Solution> {
    match Header(LineAt(lines, 0), "VALUE")
    case None => Err(FormatError(SolutionFile, 1))
    case Some(v) =>
      match ClaimsFrom(lines, 1)
      case Err(e) => Err(e)
      case Ok(claims) => Ok(Solution(v, claims))
  }

  function Min(s: seq<int>): (r: int)
    requires s != []
    ensures r in s && forall x :: x in s ==> r <= x
  {
    if |s| == 1 then s[0]
    else
      assert forall x :: x in s ==> x == s[0] || x in s[1..];
      var m := Min(s[1..]);
      if s[0] <= m then s[0] else m
  }

  function Max(s: seq<int>): (r: int)
    requires s != []
    ensures r in s && forall x :: x in s ==> x <= r
  {
    if |s| == 1 then s[0]
    else
      assert forall x :: x in s ==> x == s[0] || x in s[1..];
      var m := Max(s[1..]);
      if s[0] >= m then s[0] else m
  }

  /** `(min(e), max(e))`. */
  function ClaimKey(c: seq<int>): Key
    requires c != []
  {
    (Min(c), Max(c))
  }

  predicate NonEmpty(claims: seq<seq<int>>) {
    forall i :: 0 <= i < |claims| ==> claims[i] != []
  }

  /** The checks of verifier.py:61-64 from claim i on, seen holding the keys
      of the claims before i: the first claim whose key is not an instance
      edge, or repeats an earlier key. */
  function FirstBadClaim(claims: seq<seq<int>>, edges: map<Key, int>, i: nat, seen: set<Key>): Option<Failure>
    requires i <= |claims| && NonEmpty(claims)
    decreases |claims| - i
  {
    if i == |claims| then None
    else
      var k := ClaimKey(claims[i]);
      if k !in edges then Some(UnknownEdge(k.0, k.1))
      else if k in seen then Some(DuplicateEdge(k.0, k.1))
      else FirstBadClaim(claims, edges, i + 1, seen + {k})
  }

  predicate KeysKnown(claims: seq<seq<int>>, edges: map<Key, int>)
    requires NonEmpty(claims)
  {
    forall i :: 0 <= i < |claims| ==> ClaimKey(claims[i]) in edges
  }

  /** Each claim once its weight is appended (verifier.py:65). */
  function Extended(claims: seq<seq<int>>, edges: map<Key, int>): (rows: seq<seq<int>>)
    requires NonEmpty(claims) && KeysKnown(claims, edges)
  {
    seq(|claims|, i requires 0 <= i < |claims| => claims[i] + [edges[ClaimKey(claims[i])]])
  }

  /** `sum(x[2] for x in rows[i:])`: a row shorter than three raises. */
  function ThirdSum(rows: seq<seq<int>>, i: nat): Result<int>
    decreases |rows| - i
  {
    if i >= |rows| then Ok(0)
    else if |rows[i]| < 3 then Err(MalformedClaim(i))
    else match ThirdSum(rows, i + 1)
      case Err(e) => Err(e)
      case Ok(s) => Ok(rows[i][2] + s)
  }

  /** `for u, v, w in rows[i:]`: the first row that does not unpack. */
  function FirstNotTriple(rows: seq<seq<int>>, i: nat): Option<nat>
    decreases |rows| - i
  {
    if i >= |rows| then None
    else if |rows[i]| != 3 then Some(i)
    else FirstNotTriple(rows, i + 1)
  }

  predicate AllTriples(rows: seq<seq<int>>) {
    forall i :: 0 <= i < |rows| ==> |rows[i]| == 3
  }

  function Pairs(rows: seq<seq<int>>): (ps: seq<(int, int)>)
    requires AllTriples(rows)
    ensures |ps| == |rows|
  {
    seq(|rows|, i requires 0 <= i < |rows| => (rows[i][0], rows[i][1]))
  }

  /** The part of verifier.py:56-73 that does not depend on the traversal. */
  function Precheck(instance: Instance, lines: seq<string>): Result<seq<(int, int)>> {
    match ParseSolution(lines)
    case Err(e) => Err(e)
    case Ok(sol) =>
      match FirstBadClaim(sol.claims, instance.edges, 0, {})
      case Some(e) => Err(e)
      case None =>
        FirstBadClaimNone(sol.claims, instance.edges, 0, {});
        var rows := Extended(sol.claims, instance.edges);
        match ThirdSum(rows, 0)
        case Err(e) => Err(e)
        case Ok(total) =>
          if total != sol.declared then Err(CostMismatch(sol.declared, total))
          else match FirstNotTriple(rows, 0)
            case Some(i) => Err(MalformedClaim(i))
            case None =>
              FirstNotTripleNone(rows, 0);
              Ok(Pairs(rows))
  }

  /** FirstBadClaim finds nothing exactly when every key from claim i on is
      an instance edge, is not in seen and is not repeated. */
  lemma {:induction false} FirstBadClaimNone(claims: seq<seq<int>>, edges: map<Key, int>, i: nat, seen: set<Key>)
    requires i <= |claims| && NonEmpty(claims)
    ensures FirstBadClaim(claims, edges, i, seen).None? <==>
      && (forall k :: i <= k < |claims| ==> ClaimKey(claims[k]) in edges && ClaimKey(claims[k]) !in seen)
      && (forall k, l :: i <= k < l < |claims| ==> ClaimKey(claims[k]) != ClaimKey(claims[l]))
    ensures FirstBadClaim(claims, edges, i, seen).None? && i == 0 ==> KeysKnown(claims, edges)
    decreases |claims| - i
  {
    if i < |claims| {
      FirstBadClaimNone(claims, edges, i + 1, seen + {ClaimKey(claims[i])});
    }
  }

  lemma {:induction false} FirstNotTripleNone(rows: seq<seq<int>>, i: nat)
    ensures FirstNotTriple(rows, i).None? <==> forall k :: i <= k < |rows| ==> |rows[k]| == 3
    decreases |rows| - i
  {
    if i < |rows| {
      FirstNotTripleNone(rows, i + 1);
    }
  }

  /** Every key of the edge map lies within the nodes 0..n-1. */
  predicate KeysInRange(inst: Instance) {
    forall k :: k in inst.edges ==> 0 <= k.0 <= k.1 < inst.n
  }

  predicate TerminalsInRange(inst: Instance) {
    forall i :: 0 <= i < |inst.terminals| ==> 0 <= inst.terminals[i] < inst.n
  }

  lemma {:induction false} EdgesFromInRange(lines: seq<string>, at: nat, count: nat, n: int, acc: map<Key, int>)
    requires forall k :: k in acc ==> 0 <= k.0 <= k.1 < n
    ensures EdgesFrom(lines, at, count, n, true, acc).Ok? ==>
      forall k :: k in EdgesFrom(lines, at, count, n, true, acc).value ==> 0 <= k.0 <= k.1 < n
    decreases count
  {
    if count > 0 {
      match EdgeLine(LineAt(lines, at), n, true)
      case None =>
      case Some(e) => EdgesFromInRange(lines, at + 1, count - 1, n, acc[KeyOf(e.u, e.v) := e.w]);
    }
  }

  lemma {:induction false} TerminalsFromInRange(lines: seq<string>, at: nat, count: nat, n: int, acc: seq<int>)
    requires forall i :: 0 <= i < |acc| ==> 0 <= acc[i] < n
    ensures TerminalsFrom(lines, at, count, n, true, acc).Ok? ==>
      forall i :: 0 <= i < |TerminalsFrom(lines, at, count, n, true, acc).value| ==>
        0 <= TerminalsFrom(lines, at, count, n, true, acc).value[i] < n
    decreases count
  {
    if count > 0 {
      match TerminalLine(LineAt(lines, at), n, true)
      case None =>
      case Some(i) => TerminalsFromInRange(lines, at + 1, count - 1, n, acc + [i]);
    }
  }

  /** With ids restricted to 1..n, every parsed edge key and every terminal
      is a node 0..n-1. */
  lemma ParseInstanceInRange(lines: seq<string>)
    requires ParseInstance(lines).Ok?
    ensures KeysInRange(ParseInstance(lines).value) && TerminalsInRange(ParseInstance(lines).value)
  {
    var n := Header(LineAt(lines, 1), "Nodes").value;
    assert ParseInstance(lines) == GraphSection(lines, n, true);
    var m := NonNegative(Header(LineAt(lines, 2), "Edges").value);
    assert GraphSection(lines, n, true) == EdgeSection(lines, n, m, true);
    EdgeSectionInRange(lines, n, m);
  }

  /** The part after the "Edges" line. */
  lemma EdgeSectionInRange(lines: seq<string>, n: int, m: nat)
    requires EdgeSection(lines, n, m, true).Ok?
    ensures KeysInRange(EdgeSection(lines, n, m, true).value)
    ensures TerminalsInRange(EdgeSection(lines, n, m, true).value)
  {
    EdgesFromInRange(lines, 3, m, n, map[]);
    SectionInRange(lines, 3 + m, n, EdgesFrom(lines, 3, m, n, true, map[]).value);
  }

  /** The terminal section read after edges with keys of nodes 0..n-1. */
  lemma SectionInRange(lines: seq<string>, at: nat, n: int, edges: map<Key, int>)
    requires forall k :: k in edges ==> 0 <= k.0 <= k.1 < n
    requires TerminalSection(lines, at, n, true, edges).Ok?
    ensures KeysInRange(TerminalSection(lines, at, n, true, edges).value)
    ensures TerminalsInRange(TerminalSection(lines, at, n, true, edges).value)
  {
    var t := NonNegative(Header(LineAt(lines, at + 3), "Terminals").value);
    assert TerminalSection(lines, at, n, true, edges) == TerminalsCounted(lines, at + 3, t, n, true, edges);
    CountedInRange(lines, at + 3, t, n, edges);
  }

  /** The terminals after the "Terminals" line, read after such edges. */
  lemma CountedInRange(lines: seq<string>, at: nat, t: nat, n: int, edges: map<Key, int>)
    requires forall k :: k in edges ==> 0 <= k.0 <= k.1 < n
    requires TerminalsCounted(lines, at, t, n, true, edges).Ok?
    ensures KeysInRange(TerminalsCounted(lines, at, t, n, true, edges).value)
    ensures TerminalsInRange(TerminalsCounted(lines, at, t, n, true, edges).value)
  {
    TerminalsFromInRange(lines, at + 1, t, n, []);
  }

  /** The canonical key of the i-th line read as an edge line. */
  function LineKey(lines: seq<string>, i: nat, n: int, strict: bool): (k: Option<Key>)
    ensures k.Some? ==> EdgeLine(LineAt(lines, i), n, strict).Some?
  {
    match EdgeLine(LineAt(lines, i), n, strict)
    case None => None
    case Some(e) => Some(KeyOf(e.u, e.v))
  }

  /** A key is recorded exactly when some edge line from at on has it, or it
      was recorded before. */
  lemma {:induction false} EdgesFromKeys(lines: seq<string>, at: nat, count: nat, n: int, strict: bool, acc: map<Key, int>, k: Key)
    requires EdgesFrom(lines, at, count, n, strict, acc).Ok?
    ensures k in EdgesFrom(lines, at, count, n, strict, acc).value <==>
      k in acc || exists j :: at <= j < at + count && LineKey(lines, j, n, strict) == Some(k)
    decreases count
  {
    if count > 0 {
      var e := EdgeLine(LineAt(lines, at), n, strict).value;
      var acc' := acc[KeyOf(e.u, e.v) := e.w];
      EdgesFromKeys(lines, at + 1, count - 1, n, strict, acc', k);
      assert k in acc' <==> k in acc || LineKey(lines, at, n, strict) == Some(k);
      if exists j :: at <= j < at + count && LineKey(lines, j, n, strict) == Some(k) {
        var j :| at <= j < at + count && LineKey(lines, j, n, strict) == Some(k);
        if j > at {
          assert at + 1 <= j < at + 1 + (count - 1);
        }
      }
    }
  }

  /** A malformed edge line is reported by its line number; a well-formed
      one moves the reading on to the next line. */
  lemma EdgesFromNext(lines: seq<string>, at: nat, count: nat, n: int, strict: bool, acc: map<Key, int>)
    requires count > 0
    ensures EdgeLine(LineAt(lines, at), n, strict).None? ==>
      EdgesFrom(lines, at, count, n, strict, acc) == Err(FormatError(InstanceFile, at + 1))
    ensures EdgeLine(LineAt(lines, at), n, strict).Some? ==> var e := EdgeLine(LineAt(lines, at), n, strict).value;
      EdgesFrom(lines, at, count, n, strict, acc) == EdgesFrom(lines, at + 1, count - 1, n, strict, acc[KeyOf(e.u, e.v) := e.w])
  {
  }

  /** One edge line read: its fields, and the key it records. */
  lemma EdgesFromStep(lines: seq<string>, at: nat, count: nat, n: int, strict: bool, acc: map<Key, int>)
    returns (e: EdgeFields)
    requires count > 0 && EdgesFrom(lines, at, count, n, strict, acc).Ok?
    ensures EdgeLine(LineAt(lines, at), n, strict) == Some(e)
    ensures LineKey(lines, at, n, strict) == Some(KeyOf(e.u, e.v))
    ensures EdgesFrom(lines, at, count, n, strict, acc) == EdgesFrom(lines, at + 1, count - 1, n, strict, acc[KeyOf(e.u, e.v) := e.w])
  {
    e := EdgeLine(LineAt(lines, at), n, strict).value;
  }

  /** The count edge lines from at on, each parsed. */
  function ParsedLines(lines: seq<string>, at: nat, count: nat, n: int, strict: bool): (ps: seq<Option<EdgeFields>>)
    ensures |ps| == count && forall i :: 0 <= i < count ==> ps[i] == EdgeLine(LineAt(lines, at + i), n, strict)
  {
    seq(count, i requires 0 <= i < count => EdgeLine(LineAt(lines, at + i), n, strict))
  }

  /** The edge loop over lines already parsed; the first of them is line at. */
  function FoldEdges(ps: seq<Option<EdgeFields>>, at: nat, acc: map<Key, int>): Result<map<Key, int>>
    decreases |ps|
  {
    if ps == [] then Ok(acc)
    else match ps[0]
      case None => Err(FormatError(InstanceFile, at + 1))
      case Some(e) => FoldEdges(ps[1..], at + 1, acc[KeyOf(e.u, e.v) := e.w])
  }

  /** Reading the lines is folding their parses. */
  lemma {:induction false} EdgesFromFold(lines: seq<string>, at: nat, count: nat, n: int, strict: bool, acc: map<Key, int>)
    ensures EdgesFrom(lines, at, count, n, strict, acc) == FoldEdges(ParsedLines(lines, at, count, n, strict), at, acc)
    decreases count
  {
    if count > 0 {
      ParsedTail(lines, at, count, n, strict);
      EdgesFromNext(lines, at, count, n, strict, acc);
      var e := EdgeLine(LineAt(lines, at), n, strict);
      if e.Some? {
        EdgesFromFold(lines, at + 1, count - 1, n, strict, acc[KeyOf(e.value.u, e.value.v) := e.value.w]);
      }
    }
  }

  /** The parses of the lines from at on are that of line at, then those
      from at + 1 on. */
  lemma ParsedTail(lines: seq<string>, at: nat, count: nat, n: int, strict: bool)
    requires count > 0
    ensures ParsedLines(lines, at, count, n, strict) ==
      [EdgeLine(LineAt(lines, at), n, strict)] + ParsedLines(lines, at + 1, count - 1, n, strict)
  {
    var ps := ParsedLines(lines, at, count, n, strict);
    var qs := ParsedLines(lines, at + 1, count - 1, n, strict);
    forall i | 1 <= i < count
      ensures ps[i] == qs[i - 1]
    {
      assert at + i == at + 1 + (i - 1);
    }
    assert ps == [ps[0]] + qs;
  }

  /** A key no parse has keeps its weight through the fold. */
  lemma {:induction false} FoldKeeps(ps: seq<Option<EdgeFields>>, at: nat, acc: map<Key, int>, k: Key)
    requires FoldEdges(ps, at, acc).Ok? && k in acc
    requires forall i :: 0 <= i < |ps| && ps[i].Some? ==> KeyOf(ps[i].value.u, ps[i].value.v) != k
    ensures k in FoldEdges(ps, at, acc).value && FoldEdges(ps, at, acc).value[k] == acc[k]
    decreases |ps|
  {
    if ps != [] {
      var e := ps[0].value;
      assert forall i :: 0 <= i < |ps| - 1 ==> ps[1..][i] == ps[i + 1];
      FoldKeeps(ps[1..], at + 1, acc[KeyOf(e.u, e.v) := e.w], k);
    }
  }

  /** The fold stores for k the weight of f, the last parse with key k. */
  lemma {:induction false} FoldLast(ps: seq<Option<EdgeFields>>, at: nat, acc: map<Key, int>, k: Key, j: nat, f: EdgeFields)
    requires FoldEdges(ps, at, acc).Ok?
    requires j < |ps| && ps[j] == Some(f) && KeyOf(f.u, f.v) == k
    requires forall i :: j < i < |ps| && ps[i].Some? ==> KeyOf(ps[i].value.u, ps[i].value.v) != k
    ensures k in FoldEdges(ps, at, acc).value && FoldEdges(ps, at, acc).value[k] == f.w
    decreases |ps|
  {
    var e := ps[0].value;
    assert forall i :: 0 <= i < |ps| - 1 ==> ps[1..][i] == ps[i + 1];
    if j > 0 {
      FoldLast(ps[1..], at + 1, acc[KeyOf(e.u, e.v) := e.w], k, j - 1, f);
    } else {
      FoldKeeps(ps[1..], at + 1, acc[k := f.w], k);
    }
  }

  /** The weight recorded for a key is that of the last edge line with it. */
  lemma EdgesFromLastWins(lines: seq<string>, at: nat, count: nat, n: int, strict: bool, acc: map<Key, int>, k: Key, j: nat)
    requires EdgesFrom(lines, at, count, n, strict, acc).Ok?
    requires at <= j < at + count && LineKey(lines, j, n, strict) == Some(k)
    requires forall l :: j < l < at + count ==> LineKey(lines, l, n, strict) != Some(k)
    ensures k in EdgesFrom(lines, at, count, n, strict, acc).value
    ensures EdgesFrom(lines, at, count, n, strict, acc).value[k] == EdgeLine(LineAt(lines, j), n, strict).value.w
  {
    EdgesFromFold(lines, at, count, n, strict, acc);
    var f := ParsedLast(lines, at, count, n, strict, k, j);
    FoldLast(ParsedLines(lines, at, count, n, strict), at, acc, k, j - at, f);
  }

  /** The parses of the lines: line j has key k and fields f, and no later
      line has key k. */
  lemma ParsedLast(lines: seq<string>, at: nat, count: nat, n: int, strict: bool, k: Key, j: nat) returns (f: EdgeFields)
    requires at <= j < at + count && LineKey(lines, j, n, strict) == Some(k)
    requires forall l :: j < l < at + count ==> LineKey(lines, l, n, strict) != Some(k)
    ensures var ps := ParsedLines(lines, at, count, n, strict);
      ps[j - at] == Some(f) && KeyOf(f.u, f.v) == k && f == EdgeLine(LineAt(lines, j), n, strict).value &&
      forall i :: j - at < i < |ps| && ps[i].Some? ==> KeyOf(ps[i].value.u, ps[i].value.v) != k
  {
    f := EdgeLine(LineAt(lines, j), n, strict).value;
    var ps := ParsedLines(lines, at, count, n, strict);
    forall i | j - at < i < count && ps[i].Some?
      ensures KeyOf(ps[i].value.u, ps[i].value.v) != k
    {
      assert LineKey(lines, at + i, n, strict) != Some(k);
    }
  }

  /** A key no edge line from at on has keeps its recorded weight. */
  lemma {:induction false} EdgesFromKeeps(lines: seq<string>, at: nat, count: nat, n: int, strict: bool, acc: map<Key, int>, k: Key)
    requires EdgesFrom(lines, at, count, n, strict, acc).Ok? && k in acc
    requires forall l :: at <= l < at + count ==> LineKey(lines, l, n, strict) != Some(k)
    ensures k in EdgesFrom(lines, at, count, n, strict, acc).value
    ensures EdgesFrom(lines, at, count, n, strict, acc).value[k] == acc[k]
    decreases count
  {
    if count > 0 {
      var e := EdgesFromStep(lines, at, count, n, strict, acc);
      assert LineKey(lines, at, n, strict) != Some(k);
      EdgesFromKeeps(lines, at + 1, count - 1, n, strict, acc[KeyOf(e.u, e.v) := e.w], k);
    }
  }

  /** Every claim names exactly two nodes, so that it unpacks with its weight
      as `u, v, w`. */
  predicate TwoIds(claims: seq<seq<int>>) {
    forall i :: 0 <= i < |claims| ==> |claims[i]| == 2
  }

  /** The sum of the instance weights of claims i.. (the reference for the
      sum of verifier.py:68). */
  function ClaimWeights(claims: seq<seq<int>>, edges: map<Key, int>, i: nat): int
    requires NonEmpty(claims) && KeysKnown(claims, edges)
    decreases |claims| - i
  {
    if i >= |claims| then 0 else edges[ClaimKey(claims[i])] + ClaimWeights(claims, edges, i + 1)
  }

  /** For two-node claims the sum over the third entries of the extended rows
      is the sum of the claimed edges' weights. */
  lemma {:induction false} ThirdSumOfTwoIds(claims: seq<seq<int>>, edges: map<Key, int>, i: nat)
    requires NonEmpty(claims) && KeysKnown(claims, edges) && TwoIds(claims)
    ensures ThirdSum(Extended(claims, edges), i) == Ok(ClaimWeights(claims, edges, i))
    decreases |claims| - i
  {
    if i < |claims| {
      ThirdSumOfTwoIds(claims, edges, i + 1);
    }
  }

  /** A claim "a b" has the canonical key of the pair (a, b). */
  lemma ClaimKeyOfTwo(c: seq<int>)
    requires |c| == 2
    ensures ClaimKey(c) == KeyOf(c[0], c[1])
  {
    assert c[1..] == [c[1]];
  }

  /** What a solution must satisfy for verifier.py:56-73 to pass against an
      instance: every claim is a pair of nodes, its canonical key is an
      instance edge, no key is claimed twice, and the declared value is the
      total weight of the claimed edges. */
  predicate Acceptable(instance: Instance, sol: Solution) {
    && NonEmpty(sol.claims)
    && TwoIds(sol.claims)
    && KeysKnown(sol.claims, instance.edges)
    && (forall i, j :: 0 <= i < j < |sol.claims| ==> ClaimKey(sol.claims[i]) != ClaimKey(sol.claims[j]))
    && ClaimWeights(sol.claims, instance.edges, 0) == sol.declared
  }

  /** The claimed node pairs, in file order. */
  function ClaimPairs(claims: seq<seq<int>>): (ps: seq<(int, int)>)
    requires TwoIds(claims)
    ensures |ps| == |claims|
  {
    seq(|claims|, i requires 0 <= i < |claims| => (claims[i][0], claims[i][1]))
  }

  /** The solution checks pass exactly on an acceptable solution, and then
      hand on the claimed pairs. */
  lemma PrecheckAccepts(instance: Instance, lines: seq<string>)
    ensures Precheck(instance, lines).Ok? <==>
      ParseSolution(lines).Ok? && Acceptable(instance, ParseSolution(lines).value)
    ensures Precheck(instance, lines).Ok? ==>
      Precheck(instance, lines).value == ClaimPairs(ParseSolution(lines).value.claims)
  {
    match ParseSolution(lines)
    case Err(_) =>
    case Ok(sol) =>
      var claims := sol.claims;
      assert NonEmpty(claims) by {
        assert ClaimsFrom(lines, 1).Ok?;
      }
      FirstBadClaimNone(claims, instance.edges, 0, {});
      if FirstBadClaim(claims, instance.edges, 0, {}).None? {
        var rows := Extended(claims, instance.edges);
        FirstNotTripleNone(rows, 0);
        if TwoIds(claims) {
          ThirdSumOfTwoIds(claims, instance.edges, 0);
          assert AllTriples(rows);
          if Precheck(instance, lines).Ok? {
            assert Pairs(rows) == ClaimPairs(claims);
          }
        } else {
          var i :| 0 <= i < |claims| && |claims[i]| != 2;
          NotTwoIdsRejected(claims, instance.edges, sol.declared, i);
        }
      }
  }

  /** A claim with one node, or with three or more, makes the sum or the
      unpacking fail. */
  lemma NotTwoIdsRejected(claims: seq<seq<int>>, edges: map<Key, int>, declared: int, i: nat)
    requires NonEmpty(claims) && KeysKnown(claims, edges) && i < |claims| && |claims[i]| != 2
    ensures var rows := Extended(claims, edges);
      ThirdSum(rows, 0).Err? || ThirdSum(rows, 0).value != declared || FirstNotTriple(rows, 0).Some?
  {
    var rows := Extended(claims, edges);
    FirstNotTripleNone(rows, 0);
    assert |rows[i]| != 3;
  }

  /** Every pair names nodes 0..n-1. */
  predicate PairsIn(n: nat, pairs: seq<(int, int)>) {
    forall i :: 0 <= i < |pairs| ==> 0 <= pairs[i].0 < n && 0 <= pairs[i].1 < n
  }

  /** No two pairs have the same canonical key. */
  predicate DistinctKeys(pairs: seq<(int, int)>) {
    forall i, j :: 0 <= i < j < |pairs| ==> KeyOf(pairs[i].0, pairs[i].1) != KeyOf(pairs[j].0, pairs[j].1)
  }

  /** Some pair joins u and x, in either orientation. */
  predicate Joins(pairs: seq<(int, int)>, u: int, x: int) {
    exists i :: 0 <= i < |pairs| && (pairs[i] == (u, x) || pairs[i] == (x, u))
  }

  /** sgraph of verifier.py:70-73 without the weights: for each pair (u, v)
      in order, v is appended to u's list and then u to v's. */
  function SolutionGraph(n: nat, pairs: seq<(int, int)>): (g: seq<seq<int>>)
    requires PairsIn(n, pairs)
    ensures |g| == n
    decreases |pairs|
  {
    if pairs == [] then seq(n, _ => [])
    else
      var g := SolutionGraph(n, pairs[..|pairs| - 1]);
      var (u, v) := pairs[|pairs| - 1];
      var g' := g[u := g[u] + [v]];
      g'[v := g'[v] + [u]]
  }

  /** A list keeps Simple's condition at node u when x is appended and x is
      new or is u itself. */
  lemma AppendKeepsSimple(s: seq<int>, u: int, x: int)
    requires forall i, j :: 0 <= i < j < |s| && s[i] == s[j] ==> s[i] == u
    requires x !in s || x == u
    ensures forall i, j :: 0 <= i < j < |s + [x]| && (s + [x])[i] == (s + [x])[j] ==> (s + [x])[i] == u
  {
  }

  /** The solution graph lists x at u exactly when a pair joins them. */
  lemma {:induction false} SolutionGraphJoins(n: nat, pairs: seq<(int, int)>)
    requires PairsIn(n, pairs)
    ensures WellFormed(SolutionGraph(n, pairs))
    ensures forall u, x :: 0 <= u < n ==> (x in SolutionGraph(n, pairs)[u] <==> Joins(pairs, u, x))
    decreases |pairs|
  {
    var g' := SolutionGraph(n, pairs);
    if pairs == [] {
      forall u, x | 0 <= u < n
        ensures x in g'[u] <==> Joins(pairs, u, x)
      {
      }
    } else {
      var ps := pairs[..|pairs| - 1];
      var (a, b) := pairs[|pairs| - 1];
      SolutionGraphJoins(n, ps);
      var g := SolutionGraph(n, ps);
      var g1 := g[a := g[a] + [b]];
      assert g' == g1[b := g1[b] + [a]];
      forall u, x | 0 <= u < n
        ensures x in g'[u] <==> Joins(pairs, u, x)
      {
        if Joins(pairs, u, x) {
          var i :| 0 <= i < |pairs| && (pairs[i] == (u, x) || pairs[i] == (x, u));
          if i < |ps| {
            assert ps[i] == pairs[i];
            assert Joins(ps, u, x);
          }
        }
        if Joins(ps, u, x) {
          var i :| 0 <= i < |ps| && (ps[i] == (u, x) || ps[i] == (x, u));
          assert pairs[i] == ps[i];
        }
        assert pairs[|pairs| - 1] == (a, b);
      }
    }
  }

  /** The solution graph of pairs with distinct keys is simple: a node can
      only repeat in its own list, from a self-loop. */
  lemma {:induction false} SolutionGraphSimple(n: nat, pairs: seq<(int, int)>)
    requires PairsIn(n, pairs) && DistinctKeys(pairs)
    ensures Simple(SolutionGraph(n, pairs))
    decreases |pairs|
  {
    if pairs != [] {
      var ps := pairs[..|pairs| - 1];
      var (a, b) := pairs[|pairs| - 1];
      assert DistinctKeys(ps) by {
        forall i, j | 0 <= i < j < |ps| ensures KeyOf(ps[i].0, ps[i].1) != KeyOf(ps[j].0, ps[j].1) {
          assert ps[i] == pairs[i] && ps[j] == pairs[j];
        }
      }
      SolutionGraphSimple(n, ps);
      SolutionGraphJoins(n, ps);
      var g := SolutionGraph(n, ps);
      var g1 := g[a := g[a] + [b]];
      assert SolutionGraph(n, pairs) == g1[b := g1[b] + [a]];
      if a != b {
        FreshPair(ps, pairs, a, b);
        FreshPair(ps, pairs, b, a);
      }
      AppendKeepsSimple(g[a], a, b);
      AppendKeepsSimple(g1[b], b, a);
    }
  }

  /** The last pair (a, b) of pairs with distinct keys does not join a and b
      among the pairs before it. */
  lemma FreshPair(ps: seq<(int, int)>, pairs: seq<(int, int)>, a: int, b: int)
    requires pairs != [] && ps == pairs[..|pairs| - 1] && DistinctKeys(pairs)
    requires pairs[|pairs| - 1] == (a, b) || pairs[|pairs| - 1] == (b, a)
    ensures !Joins(ps, a, b)
  {
    var last := pairs[|pairs| - 1];
    forall i | 0 <= i < |ps|
      ensures ps[i] != (a, b) && ps[i] != (b, a)
    {
      assert pairs[i] == ps[i];
      assert KeyOf(ps[i].0, ps[i].1) != KeyOf(last.0, last.1);
    }
  }

  /** verifier.py:61-65: each claim in turn must name an instance edge not
      claimed before, and then has that edge's weight appended in place. */
  method CheckClaims(claims: seq<seq<int>>, edges: map<Key, int>) returns (bad: Option<Failure>, rows: seq<seq<int>>)
    requires NonEmpty(claims)
    ensures bad == FirstBadClaim(claims, edges, 0, {})
    ensures bad.None? ==> KeysKnown(claims, edges) && rows == Extended(claims, edges)
  {
    var seenedges: set<Key> := {};
    rows := claims;
    var i := 0;
    while i < |claims|
      invariant 0 <= i <= |claims| && |rows| == |claims|
      invariant FirstBadClaim(claims, edges, 0, {}) == FirstBadClaim(claims, edges, i, seenedges)
      invariant forall j :: 0 <= j < i ==> ClaimKey(claims[j]) in edges
      invariant forall j :: 0 <= j < i ==> rows[j] == claims[j] + [edges[ClaimKey(claims[j])]]
      invariant forall j :: i <= j < |claims| ==> rows[j] == claims[j]
    {
      var k := (Min(rows[i]), Max(rows[i]));
      if k !in edges {
        return Some(UnknownEdge(k.0, k.1)), rows;
      }
      if k in seenedges {
        return Some(DuplicateEdge(k.0, k.1)), rows;
      }
      seenedges := seenedges + {k};
      rows := rows[i := rows[i] + [edges[k]]];
      i := i + 1;
    }
    return None, rows;
  }

  /** verifier.py:70-73: unpacks each row as `u, v, w` and adds v to u's list
      and u to v's; a row of another length stops the loop. */
  method BuildSolutionGraph(rows: seq<seq<int>>, n: nat) returns (r: Result<seq<seq<int>>>)
    requires forall i :: 0 <= i < |rows| && |rows[i]| == 3 ==> 0 <= rows[i][0] < n && 0 <= rows[i][1] < n
    ensures FirstNotTriple(rows, 0).Some? ==> r == Err(MalformedClaim(FirstNotTriple(rows, 0).value))
    ensures FirstNotTriple(rows, 0).None? ==> AllTriples(rows) && r == Ok(SolutionGraph(n, Pairs(rows)))
  {
    var sgraph: seq<seq<int>> := seq(n, _ => []);
    var k := 0;
    while k < |rows|
      invariant 0 <= k <= |rows|
      invariant FirstNotTriple(rows, 0) == FirstNotTriple(rows, k)
      invariant AllTriples(rows[..k])
      invariant sgraph == SolutionGraph(n, Pairs(rows[..k]))
    {
      if |rows[k]| != 3 {
        return Err(MalformedClaim(k));
      }
      var u, v := rows[k][0], rows[k][1];
      sgraph := sgraph[u := sgraph[u] + [v]];
      sgraph := sgraph[v := sgraph[v] + [u]];
      assert Pairs(rows[..k + 1])[..k] == Pairs(rows[..k]);
      k := k + 1;
    }
    FirstNotTripleNone(rows, 0);
    assert rows[..k] == rows;
    return Ok(sgraph);
  }

  /** Every terminal is reachable from the first one. */
  ghost predicate AllReachable(g: seq<seq<int>>, terminals: seq<int>)
    requires terminals != []
  {
    forall i :: 0 <= i < |terminals| ==> Reachable(g, terminals[0], terminals[i])
  }

  /** The verdicts verifier.py:77-97 can end in, and what each one means
      about the solution graph g. */
  ghost predicate Judged(g: seq<seq<int>>, terminals: seq<int>, v: Verdict) {
    && (terminals == [] <==> v == Rejected(NoTerminals))
    && (v.Rejected? ==> v.failure.NoTerminals? || v.failure.CycleFound? || v.failure.Unreachable?)
    && (terminals != [] ==>
         var root := terminals[0];
         && (v == Accepted ==> IsTreeComponent(g, root) && AllReachable(g, terminals))
         && (Simple(g) && IsTreeComponent(g, root) && AllReachable(g, terminals) ==> v == Accepted)
         && (v.Rejected? && v.failure.CycleFound? ==>
              var c := v.failure;
              && 0 <= c.node < |g| && c.neighbour in g[c.node]
              && Reachable(g, root, c.node) && Reachable(g, root, c.neighbour)
              && (Simple(g) ==> !IsTreeComponent(g, root)))
         && (v.Rejected? && v.failure.Unreachable? ==>
              var u := v.failure;
              && u.root == root && IsTreeComponent(g, root)
              && exists k :: 0 <= k < |terminals| && terminals[k] == u.terminal && !Reachable(g, root, u.terminal)
                   && forall j :: 0 <= j < k ==> Reachable(g, root, terminals[j])))
  }

  /** verifier.py:77-97: the exploration from the first terminal, then the
      check that every terminal was reached. */
  method Traverse(g: seq<seq<int>>, terminals: seq<int>) returns (v: Verdict)
    requires WellFormed(g)
    requires forall i :: 0 <= i < |terminals| ==> 0 <= terminals[i] < |g|
    ensures Judged(g, terminals, v)
  {
    if terminals == [] {
      return Rejected(NoTerminals);
    }
    var root := terminals[0];
    var outcome, parent, ord := Explore(g, root);
    if outcome.Cycle? {
      return Rejected(CycleFound(outcome.node, outcome.neighbour));
    }
    var k := 0;
    while k < |terminals|
      invariant 0 <= k <= |terminals|
      invariant forall j :: 0 <= j < k ==> Reachable(g, root, terminals[j])
    {
      if parent[terminals[k]] == Unvisited {
        return Rejected(Unreachable(terminals[k], root));
      }
      k := k + 1;
    }
    return Accepted;
  }

  /** When "Seems fine!" is the right outcome: the instance and the solution
      are well formed, the solution is acceptable for the instance, and in
      the graph of the claimed edges the component of the first terminal is a
      tree that contains every terminal. */
  ghost predicate Valid(instLines: seq<string>, solLines: seq<string>) {
    && ParseInstance(instLines).Ok?
    && ParseSolution(solLines).Ok?
    && var instance := ParseInstance(instLines).value;
       var sol := ParseSolution(solLines).value;
       && Acceptable(instance, sol)
       && PairsIn(NonNegative(instance.n), ClaimPairs(sol.claims))
       && var g := SolutionGraph(NonNegative(instance.n), ClaimPairs(sol.claims));
          && instance.terminals != []
          && IsTreeComponent(g, instance.terminals[0])
          && AllReachable(g, instance.terminals)
  }

  /** The pairs handed on by the solution checks have distinct keys. */
  lemma PrecheckDistinct(instance: Instance, lines: seq<string>)
    requires Precheck(instance, lines).Ok?
    ensures DistinctKeys(Precheck(instance, lines).value)
  {
    PrecheckAccepts(instance, lines);
    var claims := ParseSolution(lines).value.claims;
    var pairs := Precheck(instance, lines).value;
    forall i, j | 0 <= i < j < |pairs|
      ensures KeyOf(pairs[i].0, pairs[i].1) != KeyOf(pairs[j].0, pairs[j].1)
    {
      ClaimKeyOfTwo(claims[i]);
      ClaimKeyOfTwo(claims[j]);
    }
  }

  /** verifier.py:56-97 on a parsed instance: the solution checks, the
      solution graph and the traversal. */
  method Judge(instance: Instance, solLines: seq<string>) returns (v: Verdict)
    requires KeysInRange(instance) && TerminalsInRange(instance)
    ensures match Precheck(instance, solLines)
      case Err(e) => v == Rejected(e)
      case Ok(pairs) =>
        PairsIn(NonNegative(instance.n), pairs) &&
        Judged(SolutionGraph(NonNegative(instance.n), pairs), instance.terminals, v)
  {
    var n := NonNegative(instance.n);
    var sol := ParseSolution(solLines);
    if sol.Err? {
      return Rejected(sol.failure);
    }
    assert NonEmpty(sol.value.claims) by {
      assert ClaimsFrom(solLines, 1).Ok?;
    }
    var bad, sedges := CheckClaims(sol.value.claims, instance.edges);
    if bad.Some? {
      return Rejected(bad.value);
    }
    FirstBadClaimNone(sol.value.claims, instance.edges, 0, {});
    var total := ThirdSum(sedges, 0);
    if total.Err? {
      return Rejected(total.failure);
    }
    if total.value != sol.value.declared {
      return Rejected(CostMismatch(sol.value.declared, total.value));
    }
    ExtendedInRange(instance, sol.value.claims);
    var sgraph := BuildSolutionGraph(sedges, n);
    if sgraph.Err? {
      return Rejected(sgraph.failure);
    }
    FirstNotTripleNone(sedges, 0);
    SolutionGraphJoins(n, Pairs(sedges));
    v := Traverse(sgraph.value, instance.terminals);
  }

  /** The verdicts of the traversal agree with Valid: acceptance exactly on a
      valid pair of files. */
  lemma AcceptedIffValid(instLines: seq<string>, solLines: seq<string>, v: Verdict)
    requires ParseInstance(instLines).Ok?
    requires var instance := ParseInstance(instLines).value;
      match Precheck(instance, solLines)
      case Err(e) => v == Rejected(e)
      case Ok(pairs) =>
        PairsIn(NonNegative(instance.n), pairs) &&
        Judged(SolutionGraph(NonNegative(instance.n), pairs), instance.terminals, v)
    ensures v == Accepted <==> Valid(instLines, solLines)
  {
    var instance := ParseInstance(instLines).value;
    PrecheckAccepts(instance, solLines);
    match Precheck(instance, solLines)
    case Err(e) =>
    case Ok(pairs) =>
      PrecheckDistinct(instance, solLines);
      SolutionGraphJoins(NonNegative(instance.n), pairs);
      SolutionGraphSimple(NonNegative(instance.n), pairs);
  }

  /** The whole of verifier.py: a verdict on an instance and a solution,
      both given as their lines. */
  method Validate(instLines: seq<string>, solLines: seq<string>) returns (v: Verdict)
    ensures ParseInstance(instLines).Err? ==> v == Rejected(ParseInstance(instLines).failure)
    ensures ParseInstance(instLines).Ok? ==>
      var instance := ParseInstance(instLines).value;
      && KeysInRange(instance) && TerminalsInRange(instance)
      && match Precheck(instance, solLines)
         case Err(e) => v == Rejected(e)
         case Ok(pairs) =>
           PairsIn(NonNegative(instance.n), pairs) &&
           Judged(SolutionGraph(NonNegative(instance.n), pairs), instance.terminals, v)
    ensures v == Accepted <==> Valid(instLines, solLines)
  {
    var read := ReadInstance(instLines);
    if read.Err? {
      return Rejected(read.failure);
    }
    ParseInstanceInRange(instLines);
    v := Judge(read.value, solLines);
    AcceptedIffValid(instLines, solLines, v);
  }

  /** The extended rows of known claims that unpack as `u, v, w` name nodes
      of the instance. */
  lemma ExtendedInRange(instance: Instance, claims: seq<seq<int>>)
    requires KeysInRange(instance) && NonEmpty(claims) && KeysKnown(claims, instance.edges)
    ensures var rows := Extended(claims, instance.edges);
      forall i :: 0 <= i < |rows| && |rows[i]| == 3 ==>
        0 <= rows[i][0] < NonNegative(instance.n) && 0 <= rows[i][1] < NonNegative(instance.n)
  {
    var rows := Extended(claims, instance.edges);
    forall i | 0 <= i < |rows| && |rows[i]| == 3
      ensures 0 <= rows[i][0] < NonNegative(instance.n) && 0 <= rows[i][1] < NonNegative(instance.n)
    {
      ClaimKeyOfTwo(claims[i]);
      assert ClaimKey(claims[i]) in instance.edges;
    }
  }

  /** A header line "kw i" as "%s %d" prints it is read back as i. */
  lemma HeaderText(kw: string, i: int)
    requires kw != [] && NoSpace(kw)
    ensures Header(kw + " " + IntToString(i) + "\n", kw) == Some(i)
  {
    SplitTwo(kw, IntToString(i));
    IntToStringParses(i);
  }

  /** An edge line "E u v w" as "%d" prints its numbers is read back as the
      0-indexed ids u-1, v-1 and the weight w, if both ids pass the check. */
  lemma EdgeLineText(u: int, v: int, w: int, n: int, strict: bool)
    ensures EdgeLine("E " + IntToString(u) + " " + IntToString(v) + " " + IntToString(w) + "\n", n, strict) ==
      if IdOk(u - 1, n, strict) && IdOk(v - 1, n, strict) then Some(EdgeFields(u - 1, v - 1, w)) else None
  {
    SplitFour("E", IntToString(u), IntToString(v), IntToString(w),
      "E " + IntToString(u) + " " + IntToString(v) + " " + IntToString(w) + "\n");
    assert "E " + IntToString(u) == "E" + " " + IntToString(u);
    IntToStringParses(u);
    IntToStringParses(v);
    IntToStringParses(w);
  }

  /** A terminal line "T i" is read back as the 0-indexed id i-1. */
  lemma TerminalLineText(i: int, n: int, strict: bool)
    ensures TerminalLine("T " + IntToString(i) + "\n", n, strict) ==
      if !strict || 0 <= i - 1 < n then Some(i - 1) else None
  {
    HeaderText("T", i);
    assert "T " + IntToString(i) == "T" + " " + IntToString(i);
  }
}
