# Graph rewriting engine: rule derivation, matching, rule application

This project models the graph-grammar rewriting core of `core/src/graph_rewrite.cpp` in Dafny
and proves properties of the model. The engine works on index-based directed multigraphs:
nodes and edges are stored in sequences, an edge names its head and tail by node position, and
subgraphs are sets of node and edge positions. An edge runs from its tail to its head: `Edge(1, 0, _)`
is the edge from node 0 to node 1. It has three operations:

- **Rule derivation** (`createRuleFromGraph`). A graph that carries two subgraphs, "L" and "R",
  is split into a rule: a left-hand side (LHS), a right-hand side (RHS) and a "common"
  interface graph, with the index translations from common to LHS and RHS. Nodes in both sides
  are common. Edges pair up through equal non-empty labels. Malformed input is reported as one
  of six error kinds.
- **Matching** (`findMatches`). An explicit backtracking stack enumerates every assignment of
  target nodes to pattern nodes that respects node labels and finds a target edge for every
  pattern edge. Each match records every parallel target edge realising each pattern edge.
- **Rule application** (`applyRule`). The result graph is built from the target's untouched
  nodes and edges, one copy of the target node and edges under each common node and edge, and
  the nodes and edges the RHS creates. Two index tables translate endpoints; -1 marks a node
  with no copy.

Modules:

- `Wrappers`: `Option`, `Result`.
- `Graphs`: the graph vocabulary.
- `Selection`: order-preserving selection of kept positions and the index tables that go with
  it.
- `RuleDerivation`, `Matching`, `SearchMeasure` (the matcher's termination measure) and
  `Rewriting`.

Each loop of the source is a `method` with a `while`/`for` loop, proved against a specification
function. Lemmas state the properties of those functions.

Behaviour followed as written, where a plain reading of the engine's intent might differ:

- **Matches need not be injective.** Two pattern nodes may map to the same target node.
- **Edge labels are not compared by the matcher.**
- **Common edges carry endpoints 0/0.** The order of common edges comes from hash-map
  iteration, so the model leaves it unspecified: the next label is an arbitrary unvisited one.
- **Created edges on preserved nodes lose that endpoint.** A created RHS edge with an endpoint
  on an RHS node that a common node maps to gets endpoint -1, because the RHS table is filled
  only for created nodes. `Rewriting.KeptEndpointDropped` works a case: the target is A→B, and
  the rule deletes A, keeps B, and creates C with an edge B→C. The result is nodes B, C with a
  single edge whose head is 1 (C) and whose tail is -1.
  - A description of the engine that expects the edge B→C there disagrees with the code; the
    model follows the code.
- **RHS edges under a common edge are never read.** Application copies the target edges under
  a common edge and skips the RHS edges the common edges map to, so their endpoints do not
  matter. Rule derivation does produce such edges with a -1 endpoint: an "R" edge whose tail is
  a node only in "L", paired by its label with an "L" edge. `Rewriting.CommonRhsEdgeUnread`
  shows a rule derived this way applying.
- **Dangling edges are kept.** A kept target edge on a deleted node gets endpoint -1, and
  nothing checks for dangling edges.
- **Non-injective matches under common nodes.** When two common nodes sit on the same target
  node, that node is copied twice and its table entry points at the later copy
  (`Rewriting.LastIndexOf`).

## Model

| member | source | states |
|---|---|---|
| `RuleDerivation.FindSubgraph` | core/src/graph_rewrite.cpp:14-19 | the result is the position of the first subgraph with the given name, or None exactly when no subgraph has it |
| `RuleDerivation.CreateRuleFromGraph` | core/src/graph_rewrite.cpp:10-121 | succeeds exactly when both sides exist, every node is in a side and no edge is faulty; a failure is the error the engine reports first (missing side, first node in neither side, first faulty edge with LHS-duplicate, RHS-duplicate, both-sides and neither-side checked in that order); on success the rule is the one the graph describes (`RuleFrom`) |
| `RuleDerivation.SplitNodes` | core/src/graph_rewrite.cpp:26-54 | stops at the first node in neither side; otherwise LHS, RHS and common nodes are the graph nodes of each side in order, the common-to-side tables point at each common node's copies, and the graph-to-side tables hold each node's local position or -1 |
| `RuleDerivation.AddToSide` | core/src/graph_rewrite.cpp:66-79 | the edge is appended with endpoints translated, and a repeat is reported exactly when its non-empty label was already used by an earlier edge of that side |
| `RuleDerivation.SplitEdges` | core/src/graph_rewrite.cpp:60-103 | reports the first faulty edge with its error; otherwise each side's edges are the graph's edges of that side in order with translated endpoints, and each side's label index maps every non-empty label to the edge carrying it |
| `RuleDerivation.PairLabels` | core/src/graph_rewrite.cpp:105-118 | one common edge per label in both indexes and no other, labels distinct, each common edge the bogus 0/0 edge with that label, each mapping entry the singleton list of the LHS or RHS edge with that label |
| `RuleDerivation.DerivationErrorUnique` | core/src/graph_rewrite.cpp:20-102 | the reported error is determined by the graph: two errors satisfying the reporting order are equal |
| `RuleDerivation.DuplicateLabelRejected` | core/src/graph_rewrite.cpp:71-92 | two edges of one side with the same non-empty label make derivation fail |
| `RuleDerivation.CommonNodesAgree` | core/src/graph_rewrite.cpp:44-48 | the common graph and both common-to-side node tables have the same length, and `lhs.nodes[toLhs[k]] == common.nodes[k] == rhs.nodes[toRhs[k]]` |
| `RuleDerivation.SidesTraceBack` | core/src/graph_rewrite.cpp:32-84 | every LHS/RHS node and edge at position k is a graph node/edge of that side whose local index is k (edges with translated endpoints) |
| `RuleDerivation.SideEdgeEndpoints` | core/src/graph_rewrite.cpp:66-84 | a side's copy of an edge keeps its attributes; an endpoint inside the side points at a copy of the same node, an endpoint outside the side becomes -1 |
| `RuleDerivation.SideLabelsUnique` | core/src/graph_rewrite.cpp:71-92 | when no side edge repeats an earlier non-empty label, the side's edges carry pairwise distinct non-empty labels |
| `RuleDerivation.DerivedLabelsUnique` | core/src/graph_rewrite.cpp:61-93 | a derived rule's LHS edges carry pairwise distinct non-empty labels, and so do its RHS edges |
| `RuleDerivation.PartitionCounts` | core/src/graph_rewrite.cpp:32-103 | `|lhs.nodes| + |rhs.nodes| == |graph.nodes| + |common.nodes|` and `|lhs.edges| + |rhs.edges| == |graph.edges|` |
| `Selection.Visit` | core/src/graph_rewrite.cpp:36-38 | one copy-loop step: the element is appended and base plus its new position recorded exactly when its position is kept, keeping placed elements equal to the selection so far |
| `Matching.Realizers` | core/src/graph_rewrite.cpp:203-208 | every listed id names an edge from the given tail to the given head, and the ids ascend strictly |
| `Matching.RealizersComplete` | core/src/graph_rewrite.cpp:203-208 | every edge from the given tail to the given head is listed |
| `Matching.RealizersNonEmpty` | core/src/graph_rewrite.cpp:164-168 | the list is non-empty exactly when such an edge exists |
| `Matching.EdgeImagesNonEmpty` | core/src/graph_rewrite.cpp:194-209 | for a match, every pattern edge has at least one realising target edge |
| `Matching.ExtendConsistent` | core/src/graph_rewrite.cpp:149-190 | extending a consistent prefix by one candidate stays consistent exactly when the label fits and every pattern edge closed by the new node has a target counterpart |
| `Matching.SearchEdge` | core/src/graph_rewrite.cpp:164-168 | finds an edge from tail to head exactly when one exists |
| `Matching.IncidentEdgesPresent` | core/src/graph_rewrite.cpp:158-186 | true exactly when every pattern edge between the new node and an earlier-or-equal node has a target edge between their images |
| `Matching.CollectRealizers` | core/src/graph_rewrite.cpp:203-208 | the collected ids are the ascending list of edges from tail to head |
| `Matching.CollectEdgeImages` | core/src/graph_rewrite.cpp:196-209 | the edge mapping is, per pattern edge, the ascending list of its realising target edges |
| `Matching.StartSearch` | core/src/graph_rewrite.cpp:129 | the initial stack satisfies the search invariant |
| `Matching.RejectStep` | core/src/graph_rewrite.cpp:149-190 | rejecting a candidate that does not fit keeps the search invariant, since no match starts with that prefix |
| `Matching.RecordStep` | core/src/graph_rewrite.cpp:194-210 | recording a complete consistent assignment keeps the search invariant: the results stay sound, sorted and complete up to the cursor |
| `Matching.DescendStep` | core/src/graph_rewrite.cpp:211-216 | pushing a frame for the next pattern node keeps the search invariant |
| `Matching.BacktrackStep` | core/src/graph_rewrite.cpp:139-146 | popping an exhausted frame and moving the parent's cursor on keeps the search invariant |
| `Matching.FinishStep` | core/src/graph_rewrite.cpp:139-146 | popping the last exhausted frame leaves results that are sound and complete |
| `Matching.FindMatches` | core/src/graph_rewrite.cpp:123-220 | every result is a match with its full edge mapping; results are in strictly increasing lexicographic order, so each appears once; every match is among them; an empty target gives no results |
| `SearchMeasure.PotentialAdvance` | core/src/graph_rewrite.cpp:152-156 | moving the top cursor on lowers the termination measure |
| `SearchMeasure.PotentialDescend` | core/src/graph_rewrite.cpp:211-216 | pushing a frame with cursor 0 lowers the measure |
| `SearchMeasure.PotentialBacktrack` | core/src/graph_rewrite.cpp:139-146 | popping an exhausted frame and advancing its parent lowers the measure |
| `SearchMeasure.PotentialNonnegative` | core/src/graph_rewrite.cpp:132 | the measure never goes below zero, so the loop terminates |
| `Rewriting.CollectIds` | core/src/graph_rewrite.cpp:259-263 | the set is the union of all the lists |
| `Rewriting.CopyKeptNodes` | core/src/graph_rewrite.cpp:233-238 | appends the nodes whose positions are not dropped, in order, and the table sends each kept position to its copy and every other position to -1 |
| `Rewriting.CopyPreservedNodes` | core/src/graph_rewrite.cpp:240-246 | appends one copy of the target node under each common node and points that node's table entry at its last copy |
| `Rewriting.CopyKeptEdges` | core/src/graph_rewrite.cpp:264-271 | appends the edges whose positions are not dropped, in order, with endpoints translated through the table; only the kept edges need endpoints in the table, since the dropped ones are never read |
| `Rewriting.CopyPreservedEdges` | core/src/graph_rewrite.cpp:273-285 | appends, common edge by common edge, every target edge realising its LHS edge, with endpoints translated |
| `Rewriting.ApplyRule` | core/src/graph_rewrite.cpp:222-302 | the result is `Rewritten`: nodes are context, then preserved target nodes, then created RHS nodes; edges are unclaimed target edges, then target edges under common edges, then created RHS edges; no subgraphs. It needs in-range endpoints only on the edges it copies (`Applicable`) |
| `Rewriting.NodeCount` | core/src/graph_rewrite.cpp:231-257 | `|result.nodes| == |target.nodes| - |image(nodeMapping)| + |common.nodes| + |rhs.nodes| - |image(commonToRhs)|` |
| `Rewriting.EdgeCount` | core/src/graph_rewrite.cpp:259-299 | `|result.edges| == |target.edges| - |union(edgeMapping)| + (target edges under common edges) + |rhs.edges| - |union(commonToRhs edges)|` |
| `Rewriting.TargetNodeFate` | core/src/graph_rewrite.cpp:227-246 | a target node's entry is -1 exactly when the match covers it and no common node sits on it; otherwise it points into the context part (node outside the match) or the preserved part (node under a common node) |
| `Rewriting.TargetNodeCopied` | core/src/graph_rewrite.cpp:233-246 | the result node a target node's entry points at is a copy of that target node |
| `Rewriting.TargetToResultInjective` | core/src/graph_rewrite.cpp:233-246 | no two target nodes share a result node |
| `Rewriting.RhsNodeFate` | core/src/graph_rewrite.cpp:248-257 | an RHS node's entry is -1 exactly when a common node maps to it; otherwise it points after the context and preserved nodes, at a copy of that RHS node |
| `Rewriting.ContextEdgeFate` | core/src/graph_rewrite.cpp:264-271 | an unclaimed target edge is kept at its rank among unclaimed edges with its attributes, its endpoints translated by the target table |
| `Rewriting.PreservedEdgeFate` | core/src/graph_rewrite.cpp:273-285 | each edge copied for a common edge is a target edge the match claims (never also a context edge), kept with attributes and endpoints translated |
| `Rewriting.CreatedEdgeFate` | core/src/graph_rewrite.cpp:287-299 | a created RHS edge follows the target's edges with its attributes; an endpoint is -1 exactly when it sits on an RHS node a common node maps to, and otherwise points at a copy of that RHS node |
| `Rewriting.UnionSource` | core/src/graph_rewrite.cpp:260-263 | every id of the union comes from one of the lists |
| `Rewriting.CreatedEdgeAt` | core/src/graph_rewrite.cpp:287-299 | an RHS edge no common edge maps to sits in the created edges at its rank among such edges, with its endpoints translated by the RHS table |
| `Rewriting.ExampleNodes` | core/src/graph_rewrite.cpp:227-257 | for target A→B, with A deleted, B kept and C created: no context node, B preserved, C created, target table [-1, 0], RHS table [-1, 1] |
| `Rewriting.KeptEndpointDropped` | core/src/graph_rewrite.cpp:287-299 | for target A→B, with A deleted, B kept and B→C created, the result is nodes [B, C] and the single edge with head 1 and tail -1 |
| `Rewriting.LabelledDerivable` | core/src/graph_rewrite.cpp:20-103 | a graph with A→B in "L" (with A and B) and an equally labelled A→B in "R" (with B only) is accepted by rule derivation |
| `Rewriting.LabelledRuleDerived` | core/src/graph_rewrite.cpp:10-121 | the rule derived from that graph keeps A→B through a common edge, and the RHS partner of that edge has tail -1 |
| `Rewriting.LabelledNodes` | core/src/graph_rewrite.cpp:227-257 | applying that rule to A→B: its RHS is not well formed yet it applies; no context node, B preserved, nothing created, target table [-1, 0] |
| `Rewriting.LabelledContextEdges` | core/src/graph_rewrite.cpp:259-271 | the match claims the only target edge, so no context edge is kept |
| `Rewriting.LabelledPreservedEdges` | core/src/graph_rewrite.cpp:273-285 | the target edge under the common edge is copied, its tail on the deleted A becoming -1 |
| `Rewriting.LabelledCreatedEdges` | core/src/graph_rewrite.cpp:287-299 | the rule's only RHS edge is under the common edge, so nothing is created |
| `Rewriting.CommonRhsEdgeUnread` | core/src/graph_rewrite.cpp:222-302 | a derived rule whose common RHS edge has tail -1 applies, and the result is B with the single edge of head 0 and tail -1 |

## Left out

- The graph types header `robot_design/graph.h` is not part of this model. The types are modelled from their use here:
  - node name and label;
  - edge head, tail and label;
  - subgraph name and node/edge sets;
  - mapping tables.

  Other attributes are an uninterpreted list copied wholesale.
- Exception messages and name formatting: errors are the six `RuleError` kinds.
- The iteration order of the label hash map in rule derivation. The next common label is an
  arbitrary unvisited one, so every property of common edges holds for any order.
  - The unused `graph_to_common_node` table is computed but not exposed.
- Hash-set iteration order elsewhere: only membership is used.
- Reference-into-vector aliasing and signed/unsigned comparisons.
  - The matcher's stack is a sequence of node-mapping frames. Frames on the stack never carry
    edge mappings.
  - Indices are unbounded integers.
- Performance of the linear scans.
- Undefined behaviour of out-of-range indices is excluded by preconditions:
  - derivation requires edge endpoints to be node positions of the graph;
  - matching requires a non-empty pattern whose edges end at pattern nodes;
  - application requires the tables it reads to be in range, and the edges it copies to end at
    nodes of their graph (`Rewriting.Applicable`). Edges it drops may end anywhere.
- The target is passed by value, so it is unchanged by construction; no separate property is
  stated.
- Rewriting.EdgeCount: the preserved part is counted as the length of `PreservedEdgeIds`, the
  concatenated target-edge lists under the common edges. It is not re-expressed as a sum of
  lengths.
