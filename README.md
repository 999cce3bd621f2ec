# PACE 2018 Steiner tree: a verified model of the validator and the solver's data structures

This project models the parts of a PACE 2018 (Track A/B Steiner tree) code base that decide something precisely. It covers:

- the solution validator `verifier.py`;
- the mutable graph of the C++ solver (`src/graph.hpp`);
- its union-find and incremental bridge-connected components (`src/tdist.hpp`);
- the indexed heap and Dijkstra loop (`src/dfs.hpp`);
- the `Ratio` arithmetic of the star contractions (`src/star_contractions.hpp`);
- the instance writer and the lenient instance reader (`src/write.hpp`, `src/read.hpp`);
- the reduction heuristics (`src/heuristics.hpp`);
- the results-table parser and `fill_best` of `get_results.py`.

The files and the code they model:

- **Validator** (`verifier.dfy`, `solution_tree.dfy`, `text.dfy`).
  - Files are sequences of lines, as Python's `readline()` returns them.
  - The strict instance parse, the solution parse and the claim checks are functions with loop methods proved equal to them.
  - The stack traversal is a `while` loop over a `parent` array.
  - `Validate` returns one `Verdict`. `AcceptedIffValid` proves that the validator accepts exactly when the solution is valid: every claimed edge exists once, the value is the sum of their weights, and the component of the first terminal in the solution graph is a tree containing every terminal.
- **Graph** (`inc_lists.dfy`, `graph_rep.dfy`, `graph.dfy`, `graph_ops.dfy`, `contraction.dfy`, `graph_moves.dfy`, `graph_class.dfy`).
  - The graph is a class whose one field is the whole `GraphState`: edge records by id, sorted incidence lists, degrees, edge list, terminal list, mask and count, partial solution and its weight.
  - Every method is proved against a function or predicate on `GraphState`. The lemmas beside it state what the source promises: sortedness, the lighter parallel edge, counts, and the effects of contraction.
- **Union-find and bridge-connected components** (`union_find.dfy`, `forest.dfy`, `bridges.dfy`): classes over `seq` fields, with `evert`, `find_lca` and `link` proved against the block forest of `forest.dfy`.
- **Heap and Dijkstra** (`heap.dfy`, `dijkstra.dfy`): the A-ary indexed heap with its position map, and the relaxation loop over arrays.
- **Ratios** (`ratio.dfy`): `Ratio` as a datatype, its operators as functions, and `examine_vertex` as a method of a class holding the ratio.
- **Writer and reader** (`instance_text.dfy`, `writer.dfy`, `scan.dfy`, `reader.dfy`, `read_back.dfy`, `solution_output.dfy`).
  - The output is a line sequence.
  - `sscanf` is modelled on `%u` with 32-bit wrap-around.
  - The round trips are proved: written instance read by the validator, written layout read by the C++ reader, printed solution read by the validator.
- **Heuristics** (`heuristics.dfy`): the loops of `handle_small_degrees` and `shortest_edge_between_terminals` over the graph class. Each is specified by the trace of states it passes through.
- **Results** (`results.dfy`): the HTML-callback state machine as a class whose state is a function of the events seen, and `fill_best` as loops proved to compute the column minimum and tie count.
  - `fill_best` returns the exception it would raise: `StopIteration` for a table without rows, `KeyError` for a missing column, `TypeError` for a text cell compared with a number.
- **Whitespace** (`text.dfy`): `str.isspace()`, `strip()` and `split()` use Python's whole whitespace set. That is the ASCII spaces and `\x1c`-`\x1f`, plus `\x85`, the no-break space `\xa0`, and the other Unicode space separators. So an `&nbsp;` cell counts as blank.

Reading of the sources:

- `e->weight()` at `src/write.hpp:62` and `:67` is read as the weight of the edge `e`. The graph in `src/graph.hpp` gives a value `Edge` with `weight()`.
- Edge identity replaces the comparison of `EdgeData*` pointers.

## Model

| member | source | states |
|---|---|---|
| Verifier.KeyOf | verifier.py:30-31 | the key is ordered and holds exactly the two ends, so both orientations of an edge share one key |
| Verifier.ReadInstance | verifier.py:17-49 | the loop-driven reader returns exactly the strict instance parse: every header, section keyword, blank line and count in order, or a FormatError with the line |
| Verifier.ReadEdges | verifier.py:26-33 | the counted E-line loop yields the edge map of the parse, or the first failing line |
| Verifier.ReadTerminals | verifier.py:38-45 | the counted T-line loop yields the terminal list of the parse, or the first failing line |
| Verifier.ReadGraphSection | verifier.py:17-24 | the Nodes/Edges headers are read as the parse reads them |
| Verifier.ReadEdgeSection | verifier.py:26-37 | the edge lines followed by END and a blank line are read as the parse reads them |
| Verifier.ReadTerminalSection | verifier.py:37-40 | SECTION Terminals and the Terminals header are read as the parse reads them |
| Verifier.ReadTerminalList | verifier.py:41-49 | the terminals followed by END, a blank line and EOF are read as the parse reads them |
| Verifier.ReadCounted | verifier.py:41-49 | the counted terminal section with its trailer gives the parse's result |
| Verifier.EdgesFromKeys | verifier.py:27-31 | a key is in the edge map iff some E line of the section gives that canonical key |
| Verifier.EdgesFromLastWins | verifier.py:31 | for a repeated key the weight of the last E line with that key is stored |
| Verifier.EdgesFromKeeps | verifier.py:31 | a key no later line mentions keeps its weight |
| Verifier.ParseInstanceInRange | verifier.py:30-44 | with the strict id check, every stored key and terminal is a node index 0..n-1 |
| Verifier.FirstBadClaimNone | verifier.py:61-64 | no claim is rejected iff every claimed key is an instance edge, none was seen before and no two claims share a key, (u,v) and (v,u) included |
| Verifier.FirstNotTripleNone | verifier.py:71 | unpacking into u, v, w fails for no row iff every row has three fields |
| Verifier.CheckClaims | verifier.py:61-65 | the loop reports the first nonexistent or duplicate claim in file order; otherwise every row is extended by its instance weight |
| Verifier.ThirdSumOfTwoIds | verifier.py:65-68 | for two-id claims the summed third fields are exactly the instance weights of the claimed edges |
| Verifier.PrecheckAccepts | verifier.py:56-71 | the solution checks pass iff the solution parses and is acceptable: known, distinct claims of two ids whose weights sum to VALUE; the pairs handed on are the claims |
| Verifier.NotTwoIdsRejected | verifier.py:60-71 | a claim line without exactly two ids always fails one of the checks |
| Verifier.ClaimPairs | verifier.py:60 | one pair per claim line |
| Verifier.SolutionGraphJoins | verifier.py:70-73 | x is in the adjacency of u iff some claimed pair joins u and x |
| Verifier.SolutionGraphSimple | verifier.py:70-73 | pairs with distinct keys give a graph without parallel edges or loops |
| Verifier.BuildSolutionGraph | verifier.py:70-73 | a row that is not a triple gives MalformedClaim at its index; otherwise the adjacency lists of the claimed pairs |
| Verifier.Traverse | verifier.py:77-97 | no terminals is rejected; acceptance means the first terminal's component is a tree reaching every terminal, and for a simple graph the converse; a cycle names a reached node and neighbour; an unreachable verdict names the first unreached terminal |
| Verifier.Judge | verifier.py:61-97 | a failed solution check is the verdict; otherwise the traversal verdict on the solution graph |
| Verifier.AcceptedIffValid | verifier.py:17-99 | "Seems fine!" is reached iff instance and solution are well formed, the solution is acceptable, and the first terminal's component is a tree holding every terminal |
| Verifier.Validate | verifier.py:17-99 | an instance parse error is the verdict; otherwise the judged verdict of the solution, with keys and terminals in range |
| Verifier.HeaderText | verifier.py:19-24 | a printed "kw i" header line reads back as i |
| Verifier.EdgeLineText | verifier.py:28-30 | a printed E line reads back as its ids shifted to 0-indexed and its weight, or fails the id check |
| Verifier.TerminalLineText | verifier.py:42-44 | a printed T line reads back as its id shifted to 0-indexed, or fails the id check |
| SolutionTree.Explore | verifier.py:77-94 | the stack walk marks only nodes reachable from the root with a parent forest; on Tree it marks exactly the reachable nodes; on Cycle it names a marked node whose marked neighbour is not its parent; on a simple graph Tree iff the root's component is a tree |
| SolutionTree.ScanNode | verifier.py:82-94 | scanning one popped node's neighbours skips the arrival parent, marks and pushes unvisited ones, and stops at the first other visited one |
| SolutionTree.MarkedIffReachable | verifier.py:96-97 | once the walk ends without a cycle, a node has parent >= -1 iff it is reachable from the first terminal |
| SolutionTree.CycleRefutesTree | verifier.py:88-94 | a visited neighbour other than the parent means the component is not a tree (simple graphs) |
| SolutionTree.LabellingAgrees | verifier.py:77-87 | a node once labelled keeps its label: parents are never reset |
| Text.IntToStringParses | verifier.py:21 | int() of a printed integer gives it back |
| Text.SplitFour | verifier.py:28 | split() of a four-word line gives the four words |
| Text.StripLine | verifier.py:17 | strip() removes the line break of a keyword line |
| InstanceText.LayoutReads | verifier.py:17-49 | the section layout written with any rows and terminals in range parses back to exactly those rows (as a key map) and terminals |
| InstanceText.AsWrittenAcceptsIdZero | verifier.py:30-31 | the parser as written accepts an edge with file id 0 and stores an out-of-range key |
| InstanceText.StrictRejectsIdZero | verifier.py:30-31 | the id-checked parser rejects that file at the E line |
| Incidence.OppositeSwaps | src/graph.hpp:134-176 | opposite_dir swaps source and target, keeps weight and identity, and is an involution |
| Incidence.IsIncListSorted | src/graph.hpp:255-265 | true iff the targets strictly increase and are not negative |
| Incidence.InsertedSorted | src/graph.hpp:267-280 | insertion adds exactly e (multiset), adds its target, and keeps a strictly sorted list sorted when the target is new |
| Incidence.InsSorted | src/graph.hpp:267-280 | the loop inserts before the first entry with a larger target |
| Incidence.InsertionPointIs | src/graph.hpp:271-276 | the insertion point is the first index whose target exceeds t |
| Incidence.RemovedSorted | src/graph.hpp:340-348 | removing target t drops exactly that one entry, or nothing when t is absent, and keeps the list sorted |
| Incidence.FindAndRemove | src/graph.hpp:340-348 | the loop removes the first entry with target t |
| Incidence.SortedUnique | src/graph.hpp:255-265 | a strictly sorted list has one entry per target and no repeated edge |
| Incidence.MergeIncList | src/graph.hpp:375-421 | the loop produces the merged list and the to_remove list of the merge |
| Incidence.MergeSorted | src/graph.hpp:375-421 | merging two strictly sorted lists gives a strictly sorted list whose targets are the union |
| Incidence.MergeKeepsLighter | src/graph.hpp:388-398 | for a shared target a's edge is kept only if strictly lighter, b's edge on a tie, and the other goes to to_remove |
| Incidence.MergeAccount | src/graph.hpp:375-421 | every input entry ends in exactly one of the two outputs |
| GraphRep.FoundJoined | src/graph.hpp:245-253 | the lookup returns null_edge iff s and t are not joined, and otherwise the one live s-t entry |
| GraphRep.JoinedListed | src/graph.hpp:245-253 | t is a target in s's list iff s and t are joined by a live edge |
| GraphRep.RemoveValueKeeps | src/graph.hpp:235-242 | erasing v from the terminal list removes exactly v and keeps it without repeats |
| Graphs.Initial | src/graph.hpp:188-205 | a new graph has n vertices, no edges, no terminals, empty lists and an empty partial solution |
| Graphs.Marked | src/graph.hpp:226-233 | marking adds v to the terminal set, sets its mask bit, raises the count only if v was not a terminal, and changes nothing else |
| Graphs.Unmarked | src/graph.hpp:235-242 | unmarking removes v, clears its mask bit, lowers the count only if v was a terminal, and changes nothing else |
| Graphs.MarkIdempotent | src/graph.hpp:226-242 | marking twice is marking once, likewise unmarking, and unmarking undoes a mark |
| Graphs.RemovingOk | src/graph.hpp:351-371 | removal keeps the graph consistent: lists sorted, degrees equal list lengths, edge count equal to the edge list |
| Graphs.RemovingEffect | src/graph.hpp:351-371 | removing a live edge kills it, unjoins its ends, lowers both degrees and the edge count by one |
| Graphs.Removing | src/graph.hpp:352-354 | removing a removed edge changes nothing |
| Graphs.AddingOk | src/graph.hpp:284-322 | adding keeps the graph consistent and returns a live s-t edge |
| Graphs.AddingUnique | src/graph.hpp:284-322 | afterwards exactly one edge joins s and t |
| Graphs.AddingWeight | src/graph.hpp:288-298 | an existing edge is kept iff strictly lighter than w; the s-t weight becomes min(old, w) |
| Graphs.OneJoining | src/graph.hpp:245-253 | in a consistent graph at most one live edge joins two vertices |
| GraphOps.AddingCounts | src/graph.hpp:312-319 | a new edge raises both degrees and the edge count by one; a replacement leaves them unchanged |
| GraphOps.AddingWithOk | src/graph.hpp:324-338 | adding with a history keeps the graph consistent and leaves one s-t edge |
| GraphOps.AddingWithEffect | src/graph.hpp:324-338 | the history is recorded on the new edge; a kept lighter edge keeps its own history, or takes the new one when it had none |
| GraphOps.BuyingOk | src/graph.hpp:535-545 | buying keeps the graph consistent |
| GraphOps.BuyingEffect | src/graph.hpp:535-545 | buying appends the edge to the partial solution, adds its weight, and contracts it; the partial weight stays the sum of the bought weights |
| GraphOps.SuppressedShape | src/graph.hpp:547-573 | suppression empties v's list, kills both its edges, and adjusts the degrees of its neighbours by whether they were joined |
| GraphOps.SuppressedJoin | src/graph.hpp:547-573 | afterwards one edge joins the two neighbours, with the lighter of the old edge and the two-edge path |
| GraphOps.SuppressedHistory | src/graph.hpp:558-570 | an s-t edge that already had a history keeps it; otherwise it takes e's history followed by f's and those two are cleared; no other record changes |
| GraphMoves.ContractEffect | src/graph.hpp:488-533 | after contracting, t has an empty list and degree 0, no live edge touches t, s's degree equals its merged list length, a terminal end survives as s, and t is unmarked when both ends were terminals |
| GraphMoves.ContractsUnique | src/graph.hpp:488-533 | the contraction's outcome is determined by the graph and the edge |
| GraphObject.Graph.constructor | src/graph.hpp:188-205 | the object starts as the initial graph on n vertices |
| GraphObject.Graph.IsTerminal | src/graph.hpp:222 | true iff v is in the terminal list |
| GraphObject.Graph.MarkTerminal | src/graph.hpp:226-233 | the new state is the marked state |
| GraphObject.Graph.UnmarkTerminal | src/graph.hpp:235-242 | the new state is the unmarked state |
| GraphObject.Graph.FindEdge | src/graph.hpp:245-253 | null_edge iff s and t are not joined; otherwise the live s-t entry of s's list |
| GraphObject.Graph.RemoveEdge | src/graph.hpp:351-371 | the new state is the removal's state |
| GraphObject.Graph.AddEdge | src/graph.hpp:284-322 | the new state and edge are the addition's |
| GraphObject.Graph.AddEdgeWithHistory | src/graph.hpp:324-330 | the new state and edge are the addition with that history |
| GraphObject.Graph.AddEdgeWithOrigin | src/graph.hpp:332-338 | the new state and edge are the addition with the one original pair |
| GraphObject.Graph.ChangeEdgeTarget | src/graph.hpp:430-485 | the edge's far end becomes nt, its entry leaves its place in the source's list and is put back where nt belongs by sorted insertion, and nothing else changes |
| GraphObject.Graph.ContractEdge | src/graph.hpp:488-533 | a removed edge changes nothing; otherwise the state is the contraction of the edge |
| GraphObject.Graph.BuyEdge | src/graph.hpp:535-545 | returns false and changes nothing on a removed edge; otherwise returns true and the state is the bought one |
| GraphObject.Graph.SuppressVertex | src/graph.hpp:547-573 | the new state is the suppression of v |
| GraphObject.Graph.MergeEnds | src/graph.hpp:497-520 | s's list becomes the merge of both lists, t's list is emptied, and the entries lost to the merge are removed |
| DisjointSets.InitialForest | src/tdist.hpp:32-41 | parent[i] = i + size, rank 0 and size 1 make every element its own root |
| DisjointSets.Redirect | src/tdist.hpp:53-55 | pointing a node at its root changes no element's root |
| DisjointSets.LinkRoots | src/tdist.hpp:79-90 | hanging root a under b sends exactly a's class to b |
| DisjointSets.LinkSizes | src/tdist.hpp:79-90 | the survivor's class size becomes the sum and the forest stays well ranked |
| DisjointSets.UnionFind.constructor | src/tdist.hpp:32-41 | every element is its own root with parent i + size, rank 0 and class size 1 |
| DisjointSets.UnionFind.IsRoot | src/tdist.hpp:43-45 | true iff u is its own root |
| DisjointSets.UnionFind.Root | src/tdist.hpp:47-57 | returns u's root, keeps every root, and points every node of the walked path at it |
| DisjointSets.UnionFind.Compress | src/tdist.hpp:53-55 | the listed path nodes point at the root and no root changes |
| DisjointSets.UnionFind.GetSize | src/tdist.hpp:59-61 | the number of elements in u's class |
| DisjointSets.UnionFind.Label | src/tdist.hpp:63-65 | the label is u's root |
| DisjointSets.UnionFind.Find | src/tdist.hpp:68-70 | true iff u and v have the same root |
| DisjointSets.UnionFind.Link | src/tdist.hpp:72-91 | equal roots: returns it and changes no rank or size; otherwise the root of no greater rank hangs under the other, whose size becomes the sum and whose rank grows only on a tie |
| BlockForest.EvertAcyclic | src/tdist.hpp:306-325 | reversing the path to the root keeps the block forest acyclic |
| BlockForest.EvertOn | src/tdist.hpp:306-325 | after evert each block on the path points at the one before it and the everted block has parent -1 |
| BlockForest.EvertTopOf | src/tdist.hpp:306-325 | evert makes the block the root of its own tree and changes no other tree's root |
| BlockForest.HangAcyclic | src/tdist.hpp:207-214 | hanging a tree root under a block of another tree keeps the forest acyclic |
| BlockForest.CondenseAcyclic | src/tdist.hpp:225-247 | merging the blocks of the cycle into one that hangs where the LCA hung keeps the forest acyclic |
| BlockForest.LcaSplit | src/tdist.hpp:253-304 | the LCA is where the two root paths first meet, and the paths agree above it |
| BlockForest.LcaLowest | src/tdist.hpp:253-304 | a block lies on both root paths iff it lies on the LCA's root path |
| BlockForest.AsWrittenLcaTooHigh | src/tdist.hpp:257-281 | on the forest 1→0, 2→1, 3→2, 4→1 the walk as written returns 0 for blocks 3 and 4, whose LCA is 1 |
| Bridges.ComponentIsTree | src/tdist.hpp:177-179 | two elements share a component label iff their blocks lie in one tree |
| Bridges.BridgeComponents.constructor | src/tdist.hpp:119-128 | every element is its own block and component, with parent -1 and null_edge |
| Bridges.BridgeComponents.GetParentEdge | src/tdist.hpp:165-167 | the parent edge of u's block |
| Bridges.BridgeComponents.GetParentBc | src/tdist.hpp:169-175 | the block that u's block hangs from, or -1 |
| Bridges.BridgeComponents.ComponentLabel | src/tdist.hpp:158-163 | the component label of u's block |
| Bridges.BridgeComponents.SameComponent | src/tdist.hpp:177-179 | true iff u and v are in one component, which is one tree of the block forest |
| Bridges.BridgeComponents.SameBlock | src/tdist.hpp:181-183 | true iff u and v are in one bridge-connected block |
| Bridges.BridgeComponents.Evert | src/tdist.hpp:306-325 | parent blocks and edges are reversed along the path from u's block to the root, which then has parent -1 and null_edge |
| Bridges.BridgeComponents.FindLca | src/tdist.hpp:253-304 | returns the lowest common ancestor of two blocks of one tree, and leaves the forest and the visited marks as they were |
| Bridges.BridgeComponents.Link | src/tdist.hpp:185-251 | same block: no edges and nothing changes; different components: the components merge and the smaller one's everted tree hangs by e; same tree: the parent edges below the LCA are returned and the cycle's blocks merge into one hanging where the LCA hung |
| Bridges.BridgeComponents.Condense | src/tdist.hpp:217-247 | the two blocks end in one block and the outcome is the condensed forest |
| Heaps.ChildBlock | src/dfs.hpp:86-102 | the children of p are exactly the indices A*p+1 .. A*p+A |
| Heaps.FrontIsLeast | src/dfs.hpp:74-84 | in heap order the front has the least key |
| Heaps.EmptyIffNoMembers | src/dfs.hpp:121 | data is empty iff no element is mapped into the heap |
| Heaps.Heap.constructor | src/dfs.hpp:56-64 | empty data and every element not_in_heap |
| Heaps.Heap.Empty | src/dfs.hpp:121 | true iff the heap holds no element |
| Heaps.Heap.Push | src/dfs.hpp:66-72 | the element joins the members, data grows only when it was absent, and heap order holds |
| Heaps.Heap.Decrease | src/dfs.hpp:105-119 | sifting up restores heap order with the same members |
| Heaps.Heap.Pop | src/dfs.hpp:74-103 | returns a member of least key, removes it, shrinks data by one and keeps heap order |
| Heaps.Heap.SiftDown | src/dfs.hpp:86-102 | sifting the moved element down restores heap order with the same members |
| Heaps.Heap.MinChild | src/dfs.hpp:88-96 | the index itself or a child of strictly smaller key, and no child is smaller |
| ShortestPaths.Dijkstra | src/dfs.hpp:134-152 | the heap ends empty; no distance went up; a predecessor changes only with its distance; every held or improved vertex is relaxed, and every improved vertex has a tight arc from its predecessor |
| ShortestPaths.Improve | src/dfs.hpp:142-146 | on strict improvement dist[u] and pred[u] are set and u is pushed |
| ShortestPaths.WalkBound | src/dfs.hpp:134-152 | after the loop no walk from a settled vertex beats the distance it leaves |
| Ratios.Work | src/star_contractions.hpp:26-33 | 0 for no terminals, otherwise terminal_count - 1 |
| Ratios.OrderIsQuotientOrder | src/star_contractions.hpp:35-37 | cross-multiplied < and == are the order and equality of weight/work |
| Ratios.ScalarIsQuotientOrder | src/star_contractions.hpp:38-47 | r < x and r > x compare weight/work with x |
| Ratios.Trichotomy | src/star_contractions.hpp:35-73 | exactly one of a < b, a == b, b < a |
| Ratios.DerivedOperators | src/star_contractions.hpp:42-61 | > swaps the operands of <, <= and >= negate > and < |
| Ratios.Add | src/star_contractions.hpp:63-69 | the sum's work is the product of the works |
| Ratios.AddIsQuotientSum | src/star_contractions.hpp:63-69 | the sum's weight/work is the sum of the two quotients |
| Ratios.Infinite | src/star_contractions.hpp:246-250 | inf_ratio has work 0 |
| Ratios.BelowInfinite | src/star_contractions.hpp:287-290 | r < inf_ratio iff r has positive work, and nothing is below r from inf_ratio |
| Ratios.Join | src/star_contractions.hpp:89-94 | a terminal at distance d adds one terminal and d to the weight |
| Ratios.JoinImproves | src/star_contractions.hpp:83-95 | adding the terminal lowers the ratio iff the stop test fails |
| Ratios.RatioCounter.ExamineVertex | src/star_contractions.hpp:83-95 | stops iff work >= 1 and ratio <= dist; otherwise a terminal joins the ratio and a non-terminal leaves it |
| Writer.CountVertex | src/write.hpp:21-31 | the number of distinct bigger ends of vertex i's pairs with i as the smaller end |
| Writer.CountEdges | src/write.hpp:18-34 | the count equals the number of E lines the writer emits |
| Writer.AllRowsCount | src/write.hpp:49-60 | the Edges header equals the number of E rows |
| Writer.AllDistinct | src/write.hpp:55-61 | no unordered pair is written twice |
| Writer.RowsJoined | src/write.hpp:52-74 | every E row names two joined vertices, 1-indexed, with the least weight between them |
| Writer.JoinedRows | src/write.hpp:52-74 | every joined pair of vertices has an E row |
| Writer.MinWeightBounds | src/write.hpp:62-70 | the row weight is at most every parallel entry's weight and is one of them |
| Writer.RowWeight | src/write.hpp:62-70 | the weight written is the least among the parallel entries in the list |
| Writer.VertexMap | src/write.hpp:41-46 | output ids are i + 1 |
| Writer.LowestWeight | src/write.hpp:63-70 | the inner loop computes the least parallel weight |
| Writer.VertexLines | src/write.hpp:55-73 | the E lines of vertex i, in list order |
| Writer.TerminalLines | src/write.hpp:79-83 | one T line per mask-true vertex, in increasing order |
| Writer.MarksShape | src/write.hpp:79-83 | the T ids are exactly the mask-true vertices plus one, increasing |
| Writer.MarksCount | src/write.hpp:78-83 | the Terminals header equals the number of T lines, and they name exactly the terminals |
| Writer.GraphToFile | src/write.hpp:36-87 | the output is the section layout with the rows and terminals above |
| Writer.WrittenFileReads | src/write.hpp:36-87 | the validator's strict parse of the written file gives the vertex count, the written rows as edges and the terminals |
| Scan.ToIntUnsigned | src/read.hpp:23 | a value stored through %u into unsigned and read back as int is unchanged in the 32-bit range |
| Scan.ScanPrinted | src/read.hpp:23 | %u reads a printed integer as its 32-bit unsigned image |
| Scan.KeywordIgnored | src/read.hpp:60 | %*s skips any first word, so the header keyword is not checked |
| Scan.ScanHeaderPrinted | src/read.hpp:58-62 | "%*s %u" reads the number of a printed header line |
| Scan.ScanThreePrinted | src/read.hpp:23 | "%*c %u %u %u" reads the three numbers of a printed E line |
| Reader.LoopCounted | src/read.hpp:19-26 | a counted loop consumes exactly that many lines and scans those that are not END |
| Reader.SeekFirst | src/read.hpp:35-39 | the skip loop stops at the first SECTION Terminals line |
| Reader.SeekNone | src/read.hpp:35-39 | the skip loop finds nothing iff no later line is SECTION Terminals |
| Reader.MarkRepeat | src/read.hpp:44-50 | a repeated T line leaves the graph as it was |
| Reader.MarkAllCount | src/read.hpp:44-50 | the terminal count grows by the number of distinct new terminals |
| Reader.FileAgree | src/read.hpp:58 | the first line does not matter |
| Reader.ReadEdges | src/read.hpp:15-27 | the graph becomes the old graph with add_edge(u, v, w, u, v) applied for each scanned E line |
| Reader.SkipToTerminals | src/read.hpp:35-39 | the cursor stops on the SECTION Terminals line |
| Reader.MarkTerminals | src/read.hpp:44-50 | the graph becomes the old graph with each scanned terminal marked |
| Reader.ReadTerminals | src/read.hpp:29-51 | the terminal section is found, counted and read into the marks |
| Reader.BuildGraph | src/read.hpp:64-67 | the graph has nvert + 1 vertices and the edges and marks read |
| Reader.GraphFromFile | src/read.hpp:53-73 | the graph is the one the file describes to the lenient reader |
| ReadBack.EdgeTextRead | src/read.hpp:22-24 | a written E line is not END and scans as add_edge of its three numbers |
| ReadBack.TermTextRead | src/read.hpp:46-48 | a written T line is not END and scans as its terminal |
| ReadBack.LayoutRead | src/read.hpp:53-73 | the layout the writer produces reads back with nodes + 1 vertices, one add_edge per row, and the terminals marked |
| SolutionOutput.PrintEdge | src/graph.hpp:749-755 | one line per original pair of the edge |
| SolutionOutput.PrintBought | src/graph.hpp:749-755 | a VALUE line, then the original pairs of every bought edge |
| SolutionOutput.PrintSolution | src/graph.hpp:749-755 | the output is the solution text of the partial solution and its weight |
| SolutionOutput.SolutionReadsBack | verifier.py:56-60 | the validator parses a printed solution back to its value and pairs |
| SolutionOutput.PrintedSolutionReads | src/graph.hpp:749-755 | the printed solution parses with VALUE equal to the sum of the bought weights |
| Heuristics.CheapestLeast | src/heuristics.hpp:26-34 | the result is the first incident edge of strictly least weight, or null_edge (weight INT_MAX) when no edge is lighter than INT_MAX |
| Heuristics.CheapestIn | src/heuristics.hpp:28-32 | the loop keeps the running minimum |
| Heuristics.CheapestEdgeFrom | src/heuristics.hpp:26-34 | the cheapest edge of v's list |
| Heuristics.SmallStepEffect | src/heuristics.hpp:12-22 | a degree-1 terminal buys its edge, a degree-1 non-terminal removes it, a degree-2 non-terminal is suppressed, anything else is left alone |
| Heuristics.SmallStepsBought | src/heuristics.hpp:10-24 | the partial solution only grows, by the edges bought along the way |
| Heuristics.HandleSmallDegrees | src/heuristics.hpp:10-24 | the run is one small step per vertex in index order |
| Heuristics.CandidatesAre | src/heuristics.hpp:43-50 | the candidates are exactly the cheapest edges of terminals whose other end is a terminal |
| Heuristics.TerminalCandidates | src/heuristics.hpp:43-50 | the candidate list, or failure when a terminal has no edge |
| Heuristics.ChosenBuy | src/heuristics.hpp:53-57 | buying a candidate with both ends unaffected marks both ends |
| Heuristics.TakenApart | src/heuristics.hpp:52-58 | any two bought candidates share no endpoint |
| Heuristics.BuyApart | src/heuristics.hpp:52-58 | the buying loop follows the affected-vertex rule from an all-false mask |
| Heuristics.ShortestEdgeBetweenTerminals | src/heuristics.hpp:36-59 | one terminal: nothing changes; a terminal without edge: aborted and unchanged; otherwise the candidates are bought vertex-disjointly |
| Heuristics.RunAllHeuristics | src/heuristics.hpp:62-65 | the small-degree run, then the terminal-edge buying on its result |
| Results.HeadWord | get_results.py:127 | the text before the first space or no-break space |
| Results.KeyOf | get_results.py:128-131 | an int key iff int() accepts the word, with int()'s value |
| Results.CellOf | get_results.py:134-137 | an int column holds a number or None, any other the text with Python's whitespace (`\xa0` included) stripped |
| Results.SanitizeCommas | get_results.py:38-44 | thousands separators do not change the value |
| Results.SanitizeDecimal | get_results.py:38-44 | a printed integer sanitizes to itself |
| Results.StoreRows | get_results.py:120 | storing under an existing name replaces that row in place; a new name appends a row |
| Results.Table.constructor | get_results.py:19-22 | no keys and no rows |
| Results.StartTag | get_results.py:110-114 | the parse state stays sound |
| Results.EndTag | get_results.py:116-122 | the parse state stays sound |
| Results.Data | get_results.py:125-143 | the parse state stays sound |
| Results.NoBreakSpace | get_results.py:125-143 | a datum of one no-break space (`&nbsp;`) is whitespace to isspace() and leaves the parse state as it was; a no-break space after a number is stripped before the number is read |
| Results.StateMoves | get_results.py:110-118 | thead gives THEAD, tbody gives TBODY, /tbody gives OUTSIDE, any other event keeps the state |
| Results.OutsideIgnores | get_results.py:116-143 | outside the table, data and /tr change nothing |
| Results.TextsRead | get_results.py:133-143 | in the body each non-blank datum is stored under the next key and advances the position |
| Results.RowCommitted | get_results.py:119-122 | /tr stores the row under its User value and resets the position |
| Results.TableParser.constructor | get_results.py:101-107 | state OUTSIDE, position 0, empty row and table |
| Results.TableParser.HandleStarttag | get_results.py:110-114 | the new state is StartTag of the old |
| Results.TableParser.HandleEndtag | get_results.py:116-122 | the new state is EndTag of the old |
| Results.TableParser.HandleData | get_results.py:125-143 | the new state is Data of the old |
| Results.TableParser.BodyData | get_results.py:133-143 | a body datum is stored as Data prescribes |
| Results.MinOfLeast | get_results.py:198-206 | the minimum is at most every number in the column and is one of them; inf iff the column has no number |
| Results.ScanFinds | get_results.py:198-206 | the running scan ends with the minimum and the number of rows at it |
| Results.BestCounted | get_results.py:198-206 | the count is 0 iff the best stays inf iff the column has no number |
| Results.AddRow | get_results.py:199-206 | one row updates every column by the tie/improvement step, or gives the KeyError or TypeError of its first unusable cell |
| Results.BestOf | get_results.py:189-206 | every column's best is its minimum and its count the rows at it, or the exception of the first unusable cell in table order |
| Results.FirstRow | get_results.py:193-196 | the first row's columns 1 to 100, or the first of them it lacks |
| Results.FaultIs | get_results.py:183-210 | fill_best raises nothing iff the table has a row and every row holds each column 1 to 100 as a number or None; StopIteration iff there are no rows; otherwise the error names the first unusable cell, with the first row's missing columns first |
| Results.FillBest | get_results.py:183-210 | on success: first is the first row's values, and best and best_count are each column's minimum and tie count. Otherwise it returns the exception of `Fault` and leaves the table unchanged |

## Left out

- Verifier.Validate: it uses the id-checked parser. `verifier.py` stores an E-line id of 0 under a negative key and never rejects it. It also stores T-line ids of 0 or above n, which index `parent` with Python's wrap-around or raise IndexError only after the solution checks. `Validate` reports these as a FormatError at parse time instead; see the first finding. The as-written parser is `Verifier.ParseInstanceAsWritten`.
- Text.ParseInt: `int()` is modelled on ASCII digits with sign and surrounding whitespace. Underscores between digits and non-ASCII decimal digits are not modelled.
- ShortestPaths.Dijkstra: it assumes non-negative weights, which PACE edge weights are. `src/dfs.hpp:134-152` takes any weight. With a negative weight it can push a popped vertex again, and it can loop forever on a negative cycle. The termination measure relies on the assumption.
- Integer width: C++ `int`/`long long` and Python ints are unbounded integers here. Overflow of `dist[v] + w`, of the Ratio cross products and of weight sums is not modelled. The one exception is the 32-bit `%u` of `sscanf`, which is modelled explicitly.
- Results.Sanitize: `float()` is modelled on plain decimals with an optional sign and point. Exponents, `inf`, `nan` and underscores are not modelled.
- The cycle printout of `verifier.py:89-93` is left out. Only the Cycle verdict with the offending node and neighbour is modelled, because the printed walk can run past the root.
- Argument parsing and file I/O of `verifier.py:4-16` and `:56` are left out. Files are given as line sequences.
- Boost adaptors (`src/graph.hpp:576-746`), `print_graph`, the copy constructor and debug output are left out. They are library glue and diagnostics.
- `save_orig_graph` (`src/read.hpp:69`) is not part of this model: it is not defined in the graph shown.
- `fclose` and `FILE*` handling are left out. The reader and writer work on line sequences, and `fgets` past the end keeps the buffer.
- The `std::rotate` mechanics of `_change_edge_target` are captured by their effect: the entry is retargeted and the lists stay sorted.
- Edge order by `EdgeData*` pointer is replaced by edge identity.
- The DFS wrapper (`src/dfs.hpp:9-53`) and the visitor callbacks of Dijkstra are left out. The callbacks do not alter the search.
- The solver loop of `src/star_contractions.hpp:160-344` (`find_best_ratio_at`, `find_star`, `contract_star`, `contract_till_the_bitter_end`) is left out. It depends on Boost Dijkstra, timers and signals.
- The `EarlyTerminate` exception of `examine_vertex` is modelled as the returned `stop` flag.
- `test_edge`, `terminal_distance_test` and the print functions of `src/tdist.hpp:130-156` and `:361-467` are left out. They use members absent from the graph shown.
- The clearing loop of `find_lca` (`src/tdist.hpp:285-302`) is modelled by its effect: all marks cleared.
- The assert at `src/heuristics.hpp:45` is modelled as the `aborted` result, with the graph unchanged.
- Python exceptions in the table parser set `raised`, after which the state no longer changes.
- The `attrs` parameter of `handle_starttag` is left out: the parser ignores it.
- The networking of `get_results.py` (`fetch_my_runs`, `CsrfParser`, `urlopen`), `calc_loss` and the printed report are left out. They are I/O and float reporting.
- `paal_glue.hpp`, the drivers and tests, `parameterTuning/main.py`, `utils/gr2nx.py` and `conn_test.py` are left out. They are drivers, subprocess control and networkx wrappers.

## Findings

| source | as written | input that shows it | evidently intended | confidence | as-written member | corrected member |
|---|---|---|---|---|---|---|
| verifier.py:30-31 | E-line ids are shifted to 0-indexed with no range check, so id 0 is stored under key (-1, 0) and the file is accepted | the instance `IdZeroFile` with one node and the line "E 0 1 1" | ids outside 1..n are a format error | not executed | InstanceText.AsWrittenAcceptsIdZero | InstanceText.StrictRejectsIdZero |
| src/tdist.hpp:257-281 | a block is marked only when a walker leaves it, and in each round the first walker tests its new block before the second walker leaves, so a meeting where the first walker arrives at the block the second is leaving is missed and both walk on to the root | parents 1→0, 2→1, 3→2, 4→1: find_lca(3, 4) returns 0 | the lowest common ancestor, 1 | not executed | BlockForest.AsWrittenLcaTooHigh | Bridges.BridgeComponents.FindLca |
