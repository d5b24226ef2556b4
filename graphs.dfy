/**
 * The graph vocabulary of the rewriting engine: index-based directed multigraphs,
 * subgraphs, node/edge mappings between two graphs, and rewrite rules.
 * Only the fields the engine reads are modelled; every other attribute of a node
 * or an edge is carried along as an uninterpreted list of key/value pairs.
 */
module Graphs {
  type Extras = seq<(string, string)>

  /** `tag` is the node's label; the empty tag means "no label". */
  datatype NodeAttributes = NodeAttributes(tag: string, extras: Extras)

  datatype Node = Node(name: string, attrs: NodeAttributes)

  /** `tag` is the edge's label; the empty tag means "no label". */
  datatype EdgeAttributes = EdgeAttributes(tag: string, extras: Extras)

  /** Endpoints are node positions in the owning graph; -1 marks an unset endpoint. */
  datatype Edge = Edge(head: int, tail: int, attrs: EdgeAttributes)

  datatype Subgraph = Subgraph(name: string, nodes: set<int>, edges: set<int>)

  datatype Graph = Graph(nodes: seq<Node>, edges: seq<Edge>, subgraphs: seq<Subgraph>)

  /** Node i goes to nodeMapping[i]; edge m is realised by the edges edgeMapping[m]. */
  datatype GraphMapping = GraphMapping(nodeMapping: seq<int>, edgeMapping: seq<seq<int>>)

  datatype Rule = Rule(lhs: Graph, rhs: Graph, common: Graph,
                       commonToLhs: GraphMapping, commonToRhs: GraphMapping)

  /** Every edge of `edges` has both endpoints among the first n node positions. */
  predicate EndpointsIn(edges: seq<Edge>, n: nat)
  {
    forall m :: 0 <= m < |edges| ==> 0 <= edges[m].head < n && 0 <= edges[m].tail < n
  }

  predicate WellFormed(g: Graph)
  {
    EndpointsIn(g.edges, |g.nodes|)
  }

  /** The edge with both endpoints looked up in the index table `table`. */
  function RemapEdge(e: Edge, table: seq<int>): Edge
    requires 0 <= e.head < |table| && 0 <= e.tail < |table|
  {
    e.(head := table[e.head], tail := table[e.tail])
  }

  function Remap(edges: seq<Edge>, table: seq<int>): seq<Edge>
    requires EndpointsIn(edges, |table|)
  {
    seq(|edges|, m requires 0 <= m < |edges| => RemapEdge(edges[m], table))
  }
}
