/** print_solution and Edge::print (graph.hpp): the solution file the solver
    writes, and the proof that the verifier's reader gets back from it the
    value and the original edges of every bought edge. */
module SolutionOutput {
  import opened Text
  import opened Verifier
  import opened Incidence
  import opened GraphRep
  import opened Graphs
  import opened GraphObject

  /** One "%d %d\n" line of Edge::print. */
  function PairLine(p: (int, int)): string {
    IntToString(p.0) + " " + IntToString(p.1) + "\n"
  }

  /** The lines Edge::print writes for a list of original edges. */
  function PairLines(h: seq<(int, int)>): (r: seq<string>)
    ensures |r| == |h| && forall i :: 0 <= i < |h| ==> r[i] == PairLine(h[i])
  {
    Map(PairLine, h)
  }

  /** The original edges of the bought edges, in the order they were bought. */
  function Origins(D: Records, ps: seq<Edge>): (r: seq<(int, int)>)
    requires forall i :: 0 <= i < |ps| ==> ps[i].id in D
  {
    if ps == [] then [] else Origins(D, ps[..|ps| - 1]) + D[ps[|ps| - 1].id].history
  }

  /** The "VALUE %d\n" line. */
  function ValueLine(value: int): string {
    "VALUE" + " " + IntToString(value) + "\n"
  }

  /** The whole solution file: the value line, then every original edge. */
  function SolutionText(value: int, pairs: seq<(int, int)>): seq<string> {
    [ValueLine(value)] + PairLines(pairs)
  }

  /** What the verifier should read from the pairs: each as 0-indexed ids. */
  function PairClaims(pairs: seq<(int, int)>): (r: seq<seq<int>>)
    ensures |r| == |pairs| && forall i :: 0 <= i < |pairs| ==> r[i] == Claim(pairs[i])
  {
    Map(Claim, pairs)
  }

  /** A pair as the 0-indexed ids the verifier reads it as. */
  function Claim(p: (int, int)): seq<int> {
    [p.0 - 1, p.1 - 1]
  }

  lemma PairLinesAppend(a: seq<(int, int)>, b: seq<(int, int)>)
    ensures PairLines(a + b) == PairLines(a) + PairLines(b)
  {
    MapAppend(PairLine, a, b);
  }

  lemma PairLinesPush(a: seq<(int, int)>, p: (int, int))
    ensures PairLines(a + [p]) == PairLines(a) + [PairLine(p)]
  {
    MapPush(PairLine, a, p);
  }

  lemma TwoIds(a: string, b: string, x: int, y: int)
    requires ParseInt(a) == Some(x) && ParseInt(b) == Some(y)
    ensures ParseIds([a, b]) == Some([x - 1, y - 1])
  {
    var t1 := [b];
    assert t1[1..] == [] && ParseIds(t1[1..]) == Some([]);
    assert [y - 1] + [] == [y - 1];
    assert ParseIds(t1) == Some([y - 1]);
    var t2 := [a, b];
    assert t2[1..] == t1;
    assert [x - 1] + [y - 1] == [x - 1, y - 1];
  }

  /** A printed pair line is not blank and reads back as the pair minus one. */
  lemma PairLineReads(p: (int, int))
    ensures Strip(PairLine(p)) != ""
    ensures ParseIds(Split(PairLine(p))) == Some(Claim(p))
  {
    var a, b := IntToString(p.0), IntToString(p.1);
    SplitTwo(a, b);
    assert PairLine(p) == (a + " " + b) + "\n";
    StripLine(a + " " + b);
    IntToStringParses(p.0);
    IntToStringParses(p.1);
    TwoIds(a, b, p.0, p.1);
  }

  /** Reading claim lines from position `at` on. */
  lemma {:induction false} ClaimsOfLines(lines: seq<string>, at: nat, claims: seq<seq<int>>)
    requires 1 <= at <= |lines| && |lines| == |claims| + 1
    requires forall i :: 1 <= i < |lines| ==>
      Strip(lines[i]) != "" && ParseIds(Split(lines[i])) == Some(claims[i - 1])
    ensures ClaimsFrom(lines, at) == Ok(claims[at - 1..])
    decreases |lines| - at
  {
    if at < |lines| {
      ClaimsOfLines(lines, at + 1, claims);
      assert claims[at - 1..] == [claims[at - 1]] + claims[at..];
    }
  }

  /** Line i >= 1 of a printed solution is read back as claim i - 1. */
  lemma TextLineReads(value: int, pairs: seq<(int, int)>, i: nat)
    requires 1 <= i <= |pairs|
    ensures Strip(SolutionText(value, pairs)[i]) != ""
    ensures ParseIds(Split(SolutionText(value, pairs)[i])) == Some(PairClaims(pairs)[i - 1])
  {
    var body := PairLines(pairs);
    ConsAt(ValueLine(value), body, i);
    assert body[i - 1] == PairLine(pairs[i - 1]);
    assert PairClaims(pairs)[i - 1] == Claim(pairs[i - 1]);
    PairLineReads(pairs[i - 1]);
  }

  lemma ValueKeyword()
    ensures "VALUE" != [] && NoSpace("VALUE")
  {
    var kw := "VALUE";
    forall i | 0 <= i < |kw|
      ensures !IsSpace(kw[i])
    {
    }
  }

  /** Round trip: the verifier reads a printed solution back as its value
      and the original edges, 0-indexed, in the order they were printed. */
  lemma SolutionReadsBack(value: int, pairs: seq<(int, int)>)
    ensures ParseSolution(SolutionText(value, pairs)) == Ok(Solution(value, PairClaims(pairs)))
  {
    var lines := SolutionText(value, pairs);
    var claims := PairClaims(pairs);
    forall i | 1 <= i < |lines|
      ensures Strip(lines[i]) != "" && ParseIds(Split(lines[i])) == Some(claims[i - 1])
    {
      TextLineReads(value, pairs, i);
    }
    ClaimsOfLines(lines, 1, claims);
    assert claims[0..] == claims;
    ValueKeyword();
    HeaderText("VALUE", value);
    assert LineAt(lines, 0) == ValueLine(value);
  }

  /** Edge::print: one line per original edge of e's record. */
  method PrintEdge(D: Records, e: Edge) returns (out: seq<string>)
    requires e.id in D
    ensures out == PairLines(D[e.id].history)
  {
    var h := D[e.id].history;
    out := [];
    for i := 0 to |h|
      invariant out == PairLines(h[..i])
    {
      assert h[..i + 1] == h[..i] + [h[i]];
      PairLinesPush(h[..i], h[i]);
      out := out + [PairLine(h[i])];
    }
    assert h[..|h|] == h;
  }

  /** Origins over one more bought edge. */
  lemma OriginsStep(D: Records, ps: seq<Edge>, i: nat)
    requires i < |ps| && forall j :: 0 <= j < |ps| ==> ps[j].id in D
    ensures Origins(D, ps[..i + 1]) == Origins(D, ps[..i]) + D[ps[i].id].history
  {
    assert ps[..i + 1][..i] == ps[..i];
  }

  /** The loop of print_solution over the bought edges `ps`. */
  method PrintBought(value: int, D: Records, ps: seq<Edge>) returns (out: seq<string>)
    requires forall j :: 0 <= j < |ps| ==> ps[j].id in D
    ensures out == SolutionText(value, Origins(D, ps))
  {
    var body := [];
    var i := 0;
    while i < |ps|
      invariant 0 <= i <= |ps|
      invariant body == PairLines(Origins(D, ps[..i]))
    {
      var lines := PrintEdge(D, ps[i]);
      OriginsStep(D, ps, i);
      PairLinesAppend(Origins(D, ps[..i]), D[ps[i].id].history);
      body := body + lines;
      i := i + 1;
    }
    assert ps[..i] == ps;
    out := [ValueLine(value)] + body;
  }

  /** print_solution: the value line, then Edge::print of every bought edge. */
  method PrintSolution(g: Graph) returns (out: seq<string>)
    requires g.Valid()
    ensures out == SolutionText(g.st.partialSolutionWeight, Origins(g.st.data, g.st.partialSolution))
  {
    assert Bought(g.st.data, g.st.partialSolution, g.st.partialSolutionWeight);
    out := PrintBought(g.st.partialSolutionWeight, g.st.data, g.st.partialSolution);
  }

  /** What the solver writes is what the verifier reads: the declared value
      is the weight of the bought edges, and the claimed edges are their
      original edges. */
  lemma PrintedSolutionReads(g: GraphState)
    requires Consistent(g)
    ensures ParseSolution(SolutionText(g.partialSolutionWeight, Origins(g.data, g.partialSolution))) ==
      Ok(Solution(SumWeights(g.data, g.partialSolution), PairClaims(Origins(g.data, g.partialSolution))))
  {
    assert Bought(g.data, g.partialSolution, g.partialSolutionWeight);
    SolutionReadsBack(g.partialSolutionWeight, Origins(g.data, g.partialSolution));
  }
}
