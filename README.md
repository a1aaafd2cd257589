# topo: a directed-graph container with a topological sort

Package `topo` keeps a directed graph as a map from node identifier (a
string) to a node. Each node owns its ordered list of outgoing edges, and
repeated edges are kept. The package offers:

- construction, empty or from a map;
- lookups, and the identifiers listed in ascending order;
- putting (creating or resetting) and removing nodes, where removal also
  drops every edge that points to the node;
- connecting two nodes, which creates missing endpoints and ignores
  self-loops;
- `Sort`, Kahn's topological sort driven by a stack, which either returns
  an order or reports the sorted identifiers of the nodes a cycle blocks.

The types and operations follow `topo.go`:

- `Topo.Node` and `Topo.Graph` are classes whose methods update their
  fields in place. The ghost field `Graph.Edges` is the abstract value
  (`map<string, seq<string>>`) that the contracts speak of.
- `Graph.Valid()` ties each node object to its identifier and to its edge
  list in `Edges`.
- Loops in the source are loops in the model, each with its invariants:
  `removeIfContains`, `Connected`, the key collection in `Nodes`,
  `RemoveNode`'s disconnect loop, and the four loops of `Sort`.
- Iteration over a Go map has no fixed order, so it is modelled as an
  arbitrary choice (`var k :| k in rest`). The properties hold for every
  iteration order.
- `sort.Slice` is modelled by `Strings.SortStrings`, an insertion sort
  proved to return a sorted permutation.

Module layout:

| file | module | contents |
|---|---|---|
| collections.dfy | `Collections` | repetition-free sequences and finite-set cardinality |
| strings.dfy | `Strings` | the code-point string order (Go's byte order on UTF-8), sorted listings, insertion sort |
| digraph.dfy | `Digraph` | adjacency maps: paths, cycles, in-degrees, topological orders |
| kahn.dfy | `Kahn` | the invariant of the sort's worklist loop and its step lemmas |
| topo.dfy | `Topo` | the `node` and `graph` types and every operation of `topo.go` except `String()` |
| scenarios.dfy | `Scenarios` | the two scenarios of `topo_test.go`, proved for the model |

The in-degree loop's guard tests `node.id` where `c` was evidently meant
(`topo.go:159`). The caller has just entered `node.id` into the map, so
the guard never fires: every edge takes the increment at line 162. A
missing Go map key reads as 0, so each count is still the true number of
edges. `Topo.CountTargets` keeps the guard as written, and its contract
proves that the result is the occurrence count. Because no input gives a
wrong result, this is not listed under Findings.

## Model

| member | source | states |
|---|---|---|
| Topo.WithoutCounts | topo.go:222-234 | filtering drops every occurrence of the needle and keeps every other element exactly as often as before |
| Topo.WithoutMembership | topo.go:222-234 | after filtering, the needle is absent, and any other string is present exactly when it was present before |
| Topo.WithoutIdempotent | topo.go:222-234 | filtering a list twice by the same needle is the same as filtering it once |
| Topo.RemoveIfContains | topo.go:222-234 | the loop builds the haystack with every occurrence of the needle left out, the rest in their original order |
| Topo.Node.Connect | topo.go:14-20 | the node's edge list becomes its old list with the target appended; duplicates are kept |
| Topo.Node.Disconnect | topo.go:26-28 | the edge list becomes the old list without the target; the target is no longer in it, and every other target is still there exactly when it was before |
| Topo.Node.Connections | topo.go:22-24 | returns the node's own edge list, as `Connect` and `Disconnect` leave it |
| Topo.Node.Connected | topo.go:30-38 | the scan returns true exactly when the target occurs in the node's edge list |
| Topo.Graph.constructor | topo.go:52-54 | a new graph has no nodes |
| Topo.Graph.FromMap | topo.go:56-68 | the graph holds one node per key of the map, with the list the map gives it |
| Topo.Graph.GetNode | topo.go:74-81 | the flag is true exactly when the identifier is a node; the list is that node's edge list, and empty otherwise |
| Topo.Graph.Contains | topo.go:142-145 | true exactly when the identifier is a node |
| Topo.Graph.Nodes | topo.go:83-98 | every identifier of the graph is listed exactly once, nothing else is listed, and the listing is strictly ascending |
| Strings.SortStrings | topo.go:90-95 | the sorted sequence is ascending and a permutation of its input |
| Strings.SortStringsDistinct | topo.go:83-98 | sorting a repetition-free listing gives a strictly ascending one with the same elements |
| Strings.StrictlySortedUnique | topo.go:83-98 | two strictly ascending listings of the same elements are equal, so the listing of a key set is unique |
| Strings.Less | topo.go:94 | the strict order `<` never holds between equal strings |
| Strings.LessIsLexicographic | topo.go:201-203 | `Less(a, b)` holds exactly when `a` is a proper prefix of `b` or has the smaller character at the first position where they differ, which is Go's `<` on strings |
| Strings.LessTotal | topo.go:94 | any two different strings are ordered by `<`, one way or the other |
| Strings.LessTransitive | topo.go:94 | the string order is transitive |
| Topo.Graph.PutNode | topo.go:100-102 | the identifier is a node with an empty edge list, even if it had edges before; every other node keeps its list |
| Topo.Graph.PutNodes | topo.go:104-108 | the nodes become the old nodes plus the given identifiers; each given identifier has an empty list; every other node keeps its list |
| Topo.RemovedEdges | topo.go:110-123 | after a removal the keys are the old keys minus the identifier; no remaining list mentions it; each remaining list is its old list filtered by the identifier |
| Topo.RemovedEdgesClosed | topo.go:110-123 | removing a node from a graph whose edges all end at nodes leaves such a graph |
| Topo.Graph.RemoveNode | topo.go:110-123 | returns true exactly when the identifier was a node; if it was absent, nothing changes; otherwise the graph becomes RemovedEdges of the old graph |
| Topo.Graph.DisconnectAll | topo.go:115-118 | visiting the nodes in ascending order and disconnecting each one keeps the key set and filters every list by the identifier |
| Topo.Graph.DisconnectEach | topo.go:115-118 | disconnecting the nodes of a repetition-free listing filters exactly the listed nodes' lists by the identifier and leaves every other list unchanged |
| Topo.Graph.DisconnectAt | topo.go:116-117 | disconnecting the node filed under one key changes that key's list only |
| Topo.ConnectedEdges | topo.go:125-140 | after connecting src to dst (src != dst), both are nodes; src's list is its old list, or the empty list, plus dst; a new dst has an empty list; every other list is unchanged |
| Topo.ConnectedEdgesClosed | topo.go:125-140 | connecting two nodes keeps every edge ending at a node |
| Topo.Graph.Connect | topo.go:125-140 | a self-loop changes nothing and creates no node; otherwise the graph becomes ConnectedEdges of the old graph |
| Topo.Graph.ConnectAt | topo.go:138-139 | appending to the node filed under one key changes that key's list only |
| Topo.Graph.InboundConnections | topo.go:150-165 | the counts have the graph's keys, and each node's count is its in-degree: the number of its occurrences across all edge lists |
| Topo.Graph.CountInbound | topo.go:152-165 | the counting loop over a listing of every node once gives each node its in-degree and files no other key |
| Topo.Graph.CountNode | topo.go:153-164 | one node's pass files the node (0 unless already counted) and its targets, and adds to each string's count the number of times it occurs in the node's list |
| Topo.CountTargets | topo.go:158-164 | the inner counting loop, with its guard as written, adds to each target's count the number of times it occurs in the node's list |
| Topo.InboundStep | topo.go:152-165 | counting one more node's edges turns the counts over the nodes visited so far into the counts over that set plus the new node |
| Digraph.InDegreeFromRemove | topo.go:152-165 | an in-degree summed over a set of nodes does not depend on the order the nodes are taken in |
| Digraph.InDegreeFromZero | topo.go:168-172 | an in-degree is zero exactly when no node of the set has an edge to the node |
| Topo.SeedStack | topo.go:167-173 | the stack holds exactly the nodes with in-degree 0, those are marked -1, the other counts are unchanged, and the loop invariant of the sort holds |
| Kahn.Seeded | topo.go:167-173 | the nodes without incoming edges, on the stack and marked, establish the sort's loop invariant |
| Topo.Graph.Drain | topo.go:175-191 | popping until the stack is empty keeps the loop invariant: the output has no repeats, no back edges, and only nodes whose predecessors are all emitted; every other count is the in-degree from the unemitted nodes |
| Kahn.Popped | topo.go:177-178 | popping the top of the stack starts the visit of that node's successors with the invariant in place |
| Topo.Release | topo.go:182-188 | decrementing every successor of the popped node pushes exactly those whose count reaches 0, and keeps the inner invariant |
| Topo.ReleaseEdge | topo.go:183-187 | one decrement keeps the inner invariant one edge further: the successor is pushed and marked -1 when its count reaches 0, and is otherwise left with the lowered count |
| Kahn.VisitedTarget | topo.go:182-183 | a successor being visited has not been emitted or stacked, and its count is at least 1 |
| Kahn.VisitedPush | topo.go:184-186 | a successor whose count drops to 0 has no other unemitted predecessor and is pushed |
| Kahn.VisitedKeep | topo.go:183-184 | a successor whose count stays positive keeps the count of its remaining incoming edges |
| Kahn.Emitted | topo.go:190 | appending the popped node, after all its successors are visited, restores the loop invariant and shrinks the set of unemitted nodes |
| Kahn.EmittedCounts | topo.go:182-190 | once the popped node is emitted, every waiting count equals the in-degree from the nodes still unemitted |
| Kahn.EmittedPredecessors | topo.go:182-190 | every emitted or stacked node has all its predecessors emitted |
| Kahn.EmittedOrder | topo.go:190 | the emitted node has no edge back to an emitted node or to itself |
| Kahn.Drained | topo.go:193-208 | with the stack empty, the output is a topological order when it holds every node; that happens exactly when the graph is acyclic; a count is positive exactly for the nodes on or below a cycle |
| Kahn.DrainedBelowCycle | topo.go:193-199 | with the stack empty, a node was not emitted exactly when it lies on a cycle or is reachable from one |
| Kahn.Complete | topo.go:193-208 | an emitted sequence without repeats or back edges that is as long as the graph is a topological order, and the graph is acyclic |
| Kahn.Incomplete | topo.go:193-205 | if fewer nodes were emitted than the graph holds, the graph has a cycle and some node was never emitted |
| Digraph.TopologicalOrderAcyclic | topo.go:193-208 | a graph with a topological order has no cycle |
| Digraph.NotBelowCycle | topo.go:195-197 | a node emitted with all its predecessors emitted before it is not reachable from a cycle |
| Digraph.EveryPredecessorInside | topo.go:195-197 | if every node of a non-empty set has a predecessor in the set, each of them lies on or below a cycle |
| Collections.DistinctMisses | topo.go:193 | a repetition-free listing inside a set whose length differs from the set's size misses some element of the set |
| Collections.DistinctCovers | topo.go:193 | a repetition-free listing inside a set and as long as the set lists all of it |
| Topo.CollectUnresolved | topo.go:194-203 | the report lists, strictly ascending and each once, exactly the identifiers whose count is still positive |
| Topo.Report | topo.go:193-208 | the result is an order exactly when the graph is acyclic, and then a topological order; otherwise the report is non-empty, ascending, and lists exactly the nodes on or below a cycle |
| Topo.Graph.Sort | topo.go:147-209 | on a graph whose edges all end at nodes, the sort succeeds exactly when the graph is acyclic, with a topological order; otherwise it reports, non-empty and ascending, exactly the nodes on or below a cycle; the graph is not modified |
| Scenarios.Populated | topo_test.go:11-15 | after putting a, b and then c, d, e, f, the graph's nodes are exactly a to f |
| Scenarios.RemovedTwice | topo_test.go:22-25 | removing c succeeds the first time and fails the second; afterwards the nodes are a, b, d, e, f |
| Scenarios.RemovingC | topo_test.go:22-26 | removing c from a graph on a to f leaves exactly the nodes a, b, d, e, f |
| Scenarios.Membership | topo_test.go:10-28 | the listing is a..f, the first removal of c succeeds and the second fails, and the listing afterwards is a, b, d, e, f |
| Scenarios.ChainOrder | topo_test.go:31-39 | a, c, b is the one and only topological order of {a: [b, c], b: [], c: [b]} |
| Scenarios.SortChain | topo_test.go:30-40 | sorting {a: [b, c], b: [], c: [b]} returns the order a, c, b |
| Scenarios.LoopedCyclic | topo_test.go:43-48 | {a: [b, c], b: [], c: [b, d], d: [a]} has a cycle |
| Scenarios.LoopedBelowCycle | topo_test.go:43-52 | every node of that graph lies on or below the cycle a, c, d |
| Scenarios.LoopedReport | topo_test.go:50-52 | a sorted report of exactly the nodes of that graph on or below a cycle is a, b, c, d |
| Scenarios.SortLooped | topo_test.go:42-54 | sorting that graph reports the cycle with the identifiers a, b, c, d |

## Left out

- Topo.Graph.Sort: requires that every edge ends at a node (`Closed(Edges)`). Through `GraphFromMap`, an edge can name a missing node, and the model represents neither of the two things Go does then. The missing target is counted like a node (`topo.go:158-164`). If its count drops to 0, Go pops it and dereferences a nil node (`topo.go:180-182`), which panics. If its count never drops to 0, Go reports it in the cycle error as if it were a node (`topo.go:195-197`). For example, `{a: [b, x], b: [a]}` reports `[a, b, x]`. Either way such a graph never sorts successfully: an edge whose target is never popped has a source that is never emitted, so fewer nodes are emitted than the graph holds.
- Topo.Graph.InboundConnections: carries the same precondition as `Sort`, whose first step it is. On a graph with an edge to a missing node, Go also files the missing target with a count of its own (`topo.go:158-164`), which the model does not represent.
- Topo.Graph.GetNode: returns an empty list for a missing node, where Go returns a nil slice. The package itself replaces a nil slice by an empty one (`topo.go:15-17`, `topo.go:60-62`), and nothing in it behaves differently on the two.
- `String()` (`topo.go:211-220`) is left out. It renders text with `fmt.Sprintf` for debugging and has no contract beyond its formatting.
- The error is returned as `CycleDetected(ids)` with the sorted identifiers. The formatted message that `fmt.Errorf` and `strings.Join` produce is not modelled (`topo.go:205`).
- The `Graph` interface and the `fmt.Stringer` wiring (`topo.go:40-50`) are not modelled. The model's members are the methods of the concrete `graph` type.
- Slice aliasing is not modelled. `GraphFromMap` adopts the caller's slices, and `GetNode` hands out the node's own slice. The model stores immutable sequences.
- The concrete order of Go map iteration is not modelled. `GraphFromMap`, `Nodes`, the stack seeding and the cycle collection each pick an arbitrary key at every step, so the sort's output is proved for every seeding order.
- The inner loop of `Sort` (`topo.go:183-187`) is written as "compute the lowered count, then store -1 or the lowered count". This has the same effect as Go's decrement followed by the test.
- String order: Go compares strings byte by byte, and the model compares characters. The two agree on well-formed UTF-8.
- Concurrency: the container has none and guarantees none.
- Go's `int` width is not modelled. Counts are unbounded integers, and an in-degree never approaches the machine width for a graph that fits in memory.
- The test harness (`testify`) is not modelled. The two tests appear as the members of `Scenarios`.
