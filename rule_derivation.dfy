/**
 * Rule derivation: splitting a graph annotated with the subgraphs "L" and "R"
 * into the left-hand side, the right-hand side and the interface ("common")
 * graph of a rewrite rule, with the index translations between them.
 */
module RuleDerivation {
  import opened Wrappers
  import opened Graphs
  import opened Selection

  /** The malformed inputs the deriver rejects, one kind per reason. */
  datatype RuleError =
    | MissingSubgraph
    | NodeInNeitherSide(node: nat)
    | DuplicateLhsLabel(lhsLabel: string)
    | DuplicateRhsLabel(rhsLabel: string)
    | EdgeInBothSides(edge: nat)
    | EdgeInNeitherSide(edge: nat)

  /** Position of the first subgraph called `name`, if any. */
  function FindSubgraph(subgraphs: seq<Subgraph>, name: string): (r: Option<nat>)
    ensures r.Some? ==> r.value < |subgraphs| && subgraphs[r.value].name == name
    ensures r.Some? ==> forall k :: 0 <= k < r.value ==> subgraphs[k].name != name
    ensures r.None? ==> forall k :: 0 <= k < |subgraphs| ==> subgraphs[k].name != name
  {
    if subgraphs == [] then None
    else if subgraphs[0].name == name then Some(0)
    else match FindSubgraph(subgraphs[1..], name)
      case None => None
      case Some(k) => Some(k + 1)
  }

  /** The first "L" and the first "R" subgraph, when both exist. */
  function Sides(g: Graph): Option<(Subgraph, Subgraph)>
  {
    match (FindSubgraph(g.subgraphs, "L"), FindSubgraph(g.subgraphs, "R"))
    case (Some(l), Some(r)) => Some((g.subgraphs[l], g.subgraphs[r]))
    case _ => None
  }

  predicate Covers(inL: set<int>, inR: set<int>, i: int)
  {
    i in inL || i in inR
  }

  /** The non-empty labels of the edges of one side placed before edge m. */
  function LabelsBefore(edges: seq<Edge>, side: set<int>, m: nat): set<string>
    requires m <= |edges|
  {
    set k | 0 <= k < m && k in side && edges[k].attrs.tag != "" :: edges[k].attrs.tag
  }

  /** What is wrong with edge m, given that every earlier edge was accepted. */
  function EdgeFault(edges: seq<Edge>, inL: set<int>, inR: set<int>, m: nat): Option<RuleError>
    requires m < |edges|
  {
    var tag := edges[m].attrs.tag;
    if m in inL && tag != "" && tag in LabelsBefore(edges, inL, m) then Some(DuplicateLhsLabel(tag))
    else if m in inR && tag != "" && tag in LabelsBefore(edges, inR, m) then Some(DuplicateRhsLabel(tag))
    else if m in inL && m in inR then Some(EdgeInBothSides(m))
    else if m !in inL && m !in inR then Some(EdgeInNeitherSide(m))
    else None
  }

  predicate FirstEdgeFault(edges: seq<Edge>, inL: set<int>, inR: set<int>, m: nat)
  {
    m < |edges| && EdgeFault(edges, inL, inR, m).Some? &&
    forall k :: 0 <= k < m ==> EdgeFault(edges, inL, inR, k).None?
  }

  /** The graph can be turned into a rule. */
  predicate Derivable(g: Graph)
  {
    Sides(g).Some? &&
    var (left, right) := Sides(g).value;
    (forall i :: 0 <= i < |g.nodes| ==> Covers(left.nodes, right.nodes, i)) &&
    (forall m :: 0 <= m < |g.edges| ==> EdgeFault(g.edges, left.edges, right.edges, m).None?)
  }

  /**
   * e is the error the deriver reports for g: a missing side first, then the first
   * node in neither side, then the first faulty edge.
   */
  ghost predicate IsDerivationError(g: Graph, e: RuleError)
  {
    match Sides(g)
    case None => e == MissingSubgraph
    case Some((left, right)) =>
      (e.NodeInNeitherSide? && e.node < |g.nodes| && !Covers(left.nodes, right.nodes, e.node) &&
       forall i :: 0 <= i < e.node ==> Covers(left.nodes, right.nodes, i))
      ||
      ((forall i :: 0 <= i < |g.nodes| ==> Covers(left.nodes, right.nodes, i)) &&
       exists m :: FirstEdgeFault(g.edges, left.edges, right.edges, m) &&
                   EdgeFault(g.edges, left.edges, right.edges, m) == Some(e))
  }

  /** The edge standing for a preserved labelled edge: bogus endpoints 0/0, default attributes. */
  function CommonEdge(tag: string): Edge
  {
    Edge(0, 0, EdgeAttributes(tag, []))
  }

  /** ids is a single edge position of es, and that edge carries the label tag. */
  predicate PointsAtLabel(ids: seq<int>, es: seq<Edge>, tag: string)
  {
    |ids| == 1 && 0 <= ids[0] < |es| && es[ids[0]].attrs.tag == tag
  }

  /**
   * One common edge per non-empty label found on both an LHS and an RHS edge, each
   * pointing at the LHS and the RHS edge that carry its label.
   */
  predicate CommonEdgesPaired(rule: Rule)
  {
    var ce, le, re := rule.common.edges, rule.lhs.edges, rule.rhs.edges;
    |ce| == |rule.commonToLhs.edgeMapping| == |rule.commonToRhs.edgeMapping| &&
    (forall k :: 0 <= k < |ce| ==>
       ce[k] == CommonEdge(ce[k].attrs.tag) && ce[k].attrs.tag != "" &&
       PointsAtLabel(rule.commonToLhs.edgeMapping[k], le, ce[k].attrs.tag) &&
       PointsAtLabel(rule.commonToRhs.edgeMapping[k], re, ce[k].attrs.tag)) &&
    (forall k, k' :: 0 <= k < k' < |ce| ==> ce[k].attrs.tag != ce[k'].attrs.tag) &&
    (forall a, b ::
       (0 <= a < |le| && 0 <= b < |re| && le[a].attrs.tag != "" && le[a].attrs.tag == re[b].attrs.tag) ==>
       exists k :: 0 <= k < |ce| && ce[k].attrs.tag == le[a].attrs.tag)
  }

  /** rule is the rule the graph g describes. */
  ghost predicate RuleFrom(g: Graph, rule: Rule)
    requires WellFormed(g)
  {
    Sides(g).Some? &&
    var (left, right) := Sides(g).value;
    var n := |g.nodes|;
    var both := left.nodes * right.nodes;
    rule.lhs == Graph(Select(g.nodes, left.nodes), Select(Remap(g.edges, Placement(left.nodes, n, 0)), left.edges), []) &&
    rule.rhs == Graph(Select(g.nodes, right.nodes), Select(Remap(g.edges, Placement(right.nodes, n, 0)), right.edges), []) &&
    rule.common.nodes == Select(g.nodes, both) &&
    rule.common.subgraphs == [] &&
    rule.commonToLhs.nodeMapping == Select(Placement(left.nodes, n, 0), both) &&
    rule.commonToRhs.nodeMapping == Select(Placement(right.nodes, n, 0), both) &&
    CommonEdgesPaired(rule)
  }

  /** labels maps every non-empty label of es to the position of an edge carrying it. */
  predicate LabelIndex(labels: map<string, nat>, es: seq<Edge>)
  {
    "" !in labels &&
    (forall l :: l in labels ==> labels[l] < |es| && es[labels[l]].attrs.tag == l) &&
    (forall k :: 0 <= k < |es| && es[k].attrs.tag != "" ==> es[k].attrs.tag in labels)
  }

  /** The common-to-side tables after the first i nodes. */
  ghost predicate CommonSoFar(n: nat, inL: set<int>, inR: set<int>, i: nat, toL: seq<int>, toR: seq<int>)
    requires i <= n
  {
    toL == Select(Placement(inL, n, 0)[..i], inL * inR) &&
    toR == Select(Placement(inR, n, 0)[..i], inL * inR)
  }

  /** How the common-to-side tables grow when node i is placed. */
  lemma CommonStep(n: nat, inL: set<int>, inR: set<int>, i: nat, toL: seq<int>, toR: seq<int>)
    requires i < n && CommonSoFar(n, inL, inR, i, toL, toR)
    ensures i in inL && i in inR ==> CommonSoFar(n, inL, inR, i + 1, toL + [Rank(inL, i)], toR + [Rank(inR, i)])
    ensures !(i in inL && i in inR) ==> CommonSoFar(n, inL, inR, i + 1, toL, toR)
  {
    SelectStep(Placement(inL, n, 0), inL * inR, i);
    SelectStep(Placement(inR, n, 0), inL * inR, i);
  }

  /**
   * The node loop: copies every node into the side(s) it belongs to, records the
   * graph-to-side index tables and the common nodes, and stops at the first node
   * that is in neither side.
   */
  method SplitNodes(nodes: seq<Node>, inL: set<int>, inR: set<int>)
    returns (outside: Option<nat>, lhs: seq<Node>, rhs: seq<Node>, common: seq<Node>,
             commonToLhs: seq<int>, commonToRhs: seq<int>,
             toLhs: seq<int>, toRhs: seq<int>, toCommon: seq<int>)
    ensures outside.Some? ==>
      outside.value < |nodes| && !Covers(inL, inR, outside.value) &&
      forall i :: 0 <= i < outside.value ==> Covers(inL, inR, i)
    ensures outside.None? ==> forall i :: 0 <= i < |nodes| ==> Covers(inL, inR, i)
    ensures outside.None? ==>
      lhs == Select(nodes, inL) && rhs == Select(nodes, inR) && common == Select(nodes, inL * inR) &&
      commonToLhs == Select(Placement(inL, |nodes|, 0), inL * inR) &&
      commonToRhs == Select(Placement(inR, |nodes|, 0), inL * inR)
    ensures outside.None? ==>
      toLhs == Placement(inL, |nodes|, 0) && toRhs == Placement(inR, |nodes|, 0) &&
      toCommon == Placement(inL * inR, |nodes|, 0)
  {
    var n := |nodes|;
    toLhs := seq(n, _ => -1);
    toRhs := seq(n, _ => -1);
    toCommon := seq(n, _ => -1);
    lhs, rhs, common, commonToLhs, commonToRhs := [], [], [], [], [];
    outside := None;
    CopyStart(nodes, inL, 0);
    CopyStart(nodes, inR, 0);
    CopyStart(nodes, inL * inR, 0);
    var i := 0;
    while i < n
      invariant 0 <= i <= n
      invariant forall k :: 0 <= k < i ==> Covers(inL, inR, k)
      invariant CopiedSoFar(nodes, inL, i, lhs, toLhs, 0)
      invariant CopiedSoFar(nodes, inR, i, rhs, toRhs, 0)
      invariant CopiedSoFar(nodes, inL * inR, i, common, toCommon, 0)
      invariant CommonSoFar(n, inL, inR, i, commonToLhs, commonToRhs)
    {
      CommonStep(n, inL, inR, i, commonToLhs, commonToRhs);
      var inLhs := i in inL;
      var inRhs := i in inR;
      lhs, toLhs := Visit(nodes, inL, toLhs, i, lhs, 0);
      rhs, toRhs := Visit(nodes, inR, toRhs, i, rhs, 0);
      common, toCommon := Visit(nodes, inL * inR, toCommon, i, common, 0);
      if inLhs && inRhs {
        commonToLhs := commonToLhs + [|lhs| - 1];
        commonToRhs := commonToRhs + [|rhs| - 1];
      }
      if !inLhs && !inRhs {
        outside := Some(i);
        return;
      }
      i := i + 1;
    }
    assert Placement(inL, n, 0)[..n] == Placement(inL, n, 0);
    assert Placement(inR, n, 0)[..n] == Placement(inR, n, 0);
    CopyDone(nodes, inL, lhs, toLhs, 0);
    CopyDone(nodes, inR, rhs, toRhs, 0);
    CopyDone(nodes, inL * inR, common, toCommon, 0);
  }

  /**
   * One side's edge copy and label index after the first m edges: the side's edges
   * with endpoints looked up in `table`, and every non-empty label seen so far.
   */
  ghost predicate SideSoFar(edges: seq<Edge>, side: set<int>, table: seq<int>, m: nat,
                            sideEdges: seq<Edge>, labels: map<string, nat>)
    requires m <= |edges| && EndpointsIn(edges, |table|)
  {
    sideEdges == Select(Remap(edges, table)[..m], side) &&
    labels.Keys == LabelsBefore(edges, side, m) &&
    LabelIndex(labels, sideEdges)
  }

  lemma LabelsStep(edges: seq<Edge>, side: set<int>, m: nat)
    requires m < |edges|
    ensures LabelsBefore(edges, side, m + 1) == LabelsBefore(edges, side, m) +
            (if m in side && edges[m].attrs.tag != "" then {edges[m].attrs.tag} else {})
  {
  }

  /** An edge outside a side leaves that side's copy and label index as they were. */
  lemma SkipSide(edges: seq<Edge>, side: set<int>, table: seq<int>, m: nat,
                 sideEdges: seq<Edge>, labels: map<string, nat>)
    requires m < |edges| && m !in side && EndpointsIn(edges, |table|)
    requires SideSoFar(edges, side, table, m, sideEdges, labels)
    ensures SideSoFar(edges, side, table, m + 1, sideEdges, labels)
  {
    SelectStep(Remap(edges, table), side, m);
    LabelsStep(edges, side, m);
  }

  /**
   * Copies edge m into one side with its endpoints translated, and enters its label
   * in that side's index; `repeated` reports a non-empty label the side already has.
   */
  method AddToSide(edges: seq<Edge>, side: set<int>, table: seq<int>, m: nat,
                   sideEdges: seq<Edge>, labels: map<string, nat>)
    returns (repeated: bool, sideEdges': seq<Edge>, labels': map<string, nat>)
    requires m < |edges| && m in side && EndpointsIn(edges, |table|)
    requires SideSoFar(edges, side, table, m, sideEdges, labels)
    ensures repeated <==> edges[m].attrs.tag != "" && edges[m].attrs.tag in LabelsBefore(edges, side, m)
    ensures !repeated ==> SideSoFar(edges, side, table, m + 1, sideEdges', labels')
  {
    SelectStep(Remap(edges, table), side, m);
    LabelsStep(edges, side, m);
    var edge := edges[m];
    sideEdges' := sideEdges + [edge.(head := table[edge.head], tail := table[edge.tail])];
    labels' := labels;
    repeated := false;
    var tag := edge.attrs.tag;
    if tag != "" {
      if tag in labels {
        repeated := true;
        return;
      }
      labels' := labels[tag := |sideEdges'| - 1];
    }
  }

  /**
   * The edge loop: copies every edge into its side with its endpoints translated
   * into that side's node positions, indexes the non-empty labels of each side, and
   * stops at the first edge that repeats a label of its side, is in both sides or is
   * in neither.
   */
  method SplitEdges(edges: seq<Edge>, inL: set<int>, inR: set<int>, toLhs: seq<int>, toRhs: seq<int>)
    returns (fault: Option<RuleError>, lhsEdges: seq<Edge>, rhsEdges: seq<Edge>,
             lhsLabels: map<string, nat>, rhsLabels: map<string, nat>)
    requires EndpointsIn(edges, |toLhs|) && |toRhs| == |toLhs|
    ensures fault.Some? ==>
      exists m :: FirstEdgeFault(edges, inL, inR, m) && EdgeFault(edges, inL, inR, m) == fault
    ensures fault.None? ==> forall m :: 0 <= m < |edges| ==> EdgeFault(edges, inL, inR, m).None?
    ensures fault.None? ==>
      lhsEdges == Select(Remap(edges, toLhs), inL) && rhsEdges == Select(Remap(edges, toRhs), inR) &&
      LabelIndex(lhsLabels, lhsEdges) && LabelIndex(rhsLabels, rhsEdges)
  {
    fault := None;
    lhsEdges, rhsEdges, lhsLabels, rhsLabels := [], [], map[], map[];
    var m := 0;
    while m < |edges|
      invariant 0 <= m <= |edges|
      invariant forall k :: 0 <= k < m ==> EdgeFault(edges, inL, inR, k).None?
      invariant SideSoFar(edges, inL, toLhs, m, lhsEdges, lhsLabels)
      invariant SideSoFar(edges, inR, toRhs, m, rhsEdges, rhsLabels)
    {
      var inLhs := m in inL;
      var inRhs := m in inR;
      var repeated := false;
      if inLhs {
        repeated, lhsEdges, lhsLabels := AddToSide(edges, inL, toLhs, m, lhsEdges, lhsLabels);
        if repeated {
          fault := Some(DuplicateLhsLabel(edges[m].attrs.tag));
          assert FirstEdgeFault(edges, inL, inR, m);
          return;
        }
      } else {
        SkipSide(edges, inL, toLhs, m, lhsEdges, lhsLabels);
      }
      if inRhs {
        repeated, rhsEdges, rhsLabels := AddToSide(edges, inR, toRhs, m, rhsEdges, rhsLabels);
        if repeated {
          fault := Some(DuplicateRhsLabel(edges[m].attrs.tag));
          assert FirstEdgeFault(edges, inL, inR, m);
          return;
        }
      } else {
        SkipSide(edges, inR, toRhs, m, rhsEdges, rhsLabels);
      }
      if inLhs && inRhs {
        fault := Some(EdgeInBothSides(m));
        assert FirstEdgeFault(edges, inL, inR, m);
        return;
      }
      if !inLhs && !inRhs {
        fault := Some(EdgeInNeitherSide(m));
        assert FirstEdgeFault(edges, inL, inR, m);
        return;
      }
      m := m + 1;
    }
    assert Remap(edges, toLhs)[..m] == Remap(edges, toLhs);
    assert Remap(edges, toRhs)[..m] == Remap(edges, toRhs);
  }

  /**
   * The common-edge loop: one common edge for every label of the LHS index that the
   * RHS index also has. The label index is a hash map whose iteration order is not
   * specified, so the next label is an arbitrary one not yet visited.
   */
  method PairLabels(lhsLabels: map<string, nat>, rhsLabels: map<string, nat>)
    returns (commonEdges: seq<Edge>, toLhsEdges: seq<seq<int>>, toRhsEdges: seq<seq<int>>)
    ensures |commonEdges| == |toLhsEdges| == |toRhsEdges|
    ensures forall k :: 0 <= k < |commonEdges| ==>
      var tag := commonEdges[k].attrs.tag;
      commonEdges[k] == CommonEdge(tag) && tag in lhsLabels && tag in rhsLabels &&
      toLhsEdges[k] == [lhsLabels[tag] as int] && toRhsEdges[k] == [rhsLabels[tag] as int]
    ensures forall k, k' :: 0 <= k < k' < |commonEdges| ==> commonEdges[k].attrs.tag != commonEdges[k'].attrs.tag
    ensures forall l :: l in lhsLabels && l in rhsLabels ==>
      exists k :: 0 <= k < |commonEdges| && commonEdges[k].attrs.tag == l
  {
    commonEdges, toLhsEdges, toRhsEdges := [], [], [];
    var pending := lhsLabels.Keys;
    while pending != {}
      invariant pending <= lhsLabels.Keys
      invariant |commonEdges| == |toLhsEdges| == |toRhsEdges|
      invariant forall k :: 0 <= k < |commonEdges| ==>
        var tag := commonEdges[k].attrs.tag;
        commonEdges[k] == CommonEdge(tag) && tag in lhsLabels && tag in rhsLabels && tag !in pending &&
        toLhsEdges[k] == [lhsLabels[tag] as int] && toRhsEdges[k] == [rhsLabels[tag] as int]
      invariant forall k, k' :: 0 <= k < k' < |commonEdges| ==> commonEdges[k].attrs.tag != commonEdges[k'].attrs.tag
      invariant forall l :: l in lhsLabels && l !in pending && l in rhsLabels ==>
        exists k :: 0 <= k < |commonEdges| && commonEdges[k].attrs.tag == l
      decreases pending
    {
      var tag :| tag in pending;
      ghost var before := commonEdges;
      if tag in rhsLabels {
        commonEdges := commonEdges + [CommonEdge(tag)];
        toLhsEdges := toLhsEdges + [[lhsLabels[tag] as int]];
        toRhsEdges := toRhsEdges + [[rhsLabels[tag] as int]];
        assert commonEdges[|commonEdges| - 1].attrs.tag == tag;
      }
      forall l | l in lhsLabels && l !in pending - {tag} && l in rhsLabels
        ensures exists k :: 0 <= k < |commonEdges| && commonEdges[k].attrs.tag == l
      {
        if l == tag {
          assert commonEdges[|commonEdges| - 1].attrs.tag == l;
        } else {
          var k :| 0 <= k < |before| && before[k].attrs.tag == l;
          assert commonEdges[k] == before[k];
        }
      }
      pending := pending - {tag};
    }
  }

  /**
   * createRuleFromGraph: the rule described by g, or the error for the first
   * malformation found.
   */
  method CreateRuleFromGraph(g: Graph) returns (r: Result<Rule, RuleError>)
    requires WellFormed(g)
    ensures r.Success? <==> Derivable(g)
    ensures r.Failure? ==> IsDerivationError(g, r.error)
    ensures r.Success? ==> RuleFrom(g, r.value)
  {
    var left := FindSubgraph(g.subgraphs, "L");
    var right := FindSubgraph(g.subgraphs, "R");
    if left.None? || right.None? {
      return Failure(MissingSubgraph);
    }
    var lhsSub, rhsSub := g.subgraphs[left.value], g.subgraphs[right.value];
    assert Sides(g) == Some((lhsSub, rhsSub));
    var outside, lhsNodes, rhsNodes, commonNodes, c2l, c2r, toLhs, toRhs, toCommon :=
      SplitNodes(g.nodes, lhsSub.nodes, rhsSub.nodes);
    if outside.Some? {
      return Failure(NodeInNeitherSide(outside.value));
    }
    var fault, lhsEdges, rhsEdges, lhsLabels, rhsLabels :=
      SplitEdges(g.edges, lhsSub.edges, rhsSub.edges, toLhs, toRhs);
    if fault.Some? {
      return Failure(fault.value);
    }
    var commonEdges, c2lEdges, c2rEdges := PairLabels(lhsLabels, rhsLabels);
    var rule := Rule(Graph(lhsNodes, lhsEdges, []), Graph(rhsNodes, rhsEdges, []),
                     Graph(commonNodes, commonEdges, []),
                     GraphMapping(c2l, c2lEdges), GraphMapping(c2r, c2rEdges));
    LabelsPaired(rule, lhsLabels, rhsLabels);
    assert Derivable(g);
    assert RuleFrom(g, rule);
    r := Success(rule);
  }

  /** The common edges PairLabels builds from the two label indexes pair up the rule's labels. */
  lemma LabelsPaired(rule: Rule, lhsLabels: map<string, nat>, rhsLabels: map<string, nat>)
    requires LabelIndex(lhsLabels, rule.lhs.edges) && LabelIndex(rhsLabels, rule.rhs.edges)
    requires |rule.common.edges| == |rule.commonToLhs.edgeMapping| == |rule.commonToRhs.edgeMapping|
    requires forall k :: 0 <= k < |rule.common.edges| ==>
      var tag := rule.common.edges[k].attrs.tag;
      rule.common.edges[k] == CommonEdge(tag) && tag in lhsLabels && tag in rhsLabels &&
      rule.commonToLhs.edgeMapping[k] == [lhsLabels[tag] as int] &&
      rule.commonToRhs.edgeMapping[k] == [rhsLabels[tag] as int]
    requires forall k, k' :: 0 <= k < k' < |rule.common.edges| ==>
      rule.common.edges[k].attrs.tag != rule.common.edges[k'].attrs.tag
    requires forall l :: l in lhsLabels && l in rhsLabels ==>
      exists k :: 0 <= k < |rule.common.edges| && rule.common.edges[k].attrs.tag == l
    ensures CommonEdgesPaired(rule)
  {
  }

  /** The deriver's error is determined by the graph: two errors for the same graph agree. */
  lemma DerivationErrorUnique(g: Graph, e1: RuleError, e2: RuleError)
    requires IsDerivationError(g, e1) && IsDerivationError(g, e2)
    ensures e1 == e2
  {
    match Sides(g)
    case None =>
    case Some((left, right)) =>
      var n := |g.nodes|;
      if e1.NodeInNeitherSide? && e1.node < n && !Covers(left.nodes, right.nodes, e1.node) {
        assert e2.NodeInNeitherSide?;
        if e2.node < e1.node {
        } else if e1.node < e2.node {
        }
      } else {
        var m1: nat :| FirstEdgeFault(g.edges, left.edges, right.edges, m1) &&
                  EdgeFault(g.edges, left.edges, right.edges, m1) == Some(e1);
        var m2: nat :| FirstEdgeFault(g.edges, left.edges, right.edges, m2) &&
                  EdgeFault(g.edges, left.edges, right.edges, m2) == Some(e2);
      }
  }

  /**
   * A non-empty label carried by two edges of the same side makes the graph
   * underivable.
   */
  lemma DuplicateLabelRejected(g: Graph, a: nat, b: nat)
    requires Sides(g).Some? && a < b < |g.edges|
    requires var (left, right) := Sides(g).value;
      (a in left.edges && b in left.edges) || (a in right.edges && b in right.edges)
    requires g.edges[a].attrs.tag != "" && g.edges[a].attrs.tag == g.edges[b].attrs.tag
    ensures !Derivable(g)
  {
    var (left, right) := Sides(g).value;
    var tag := g.edges[b].attrs.tag;
    if a in left.edges && b in left.edges {
      assert tag in LabelsBefore(g.edges, left.edges, b);
    } else {
      assert tag in LabelsBefore(g.edges, right.edges, b);
    }
    assert EdgeFault(g.edges, left.edges, right.edges, b).Some?;
  }

  /**
   * The interface is consistent with both sides: one common node per node in both
   * subgraphs, and each common node is found, through commonToLhs and commonToRhs,
   * at its copy in the LHS and in the RHS.
   */
  lemma CommonNodesAgree(g: Graph, rule: Rule)
    requires WellFormed(g) && RuleFrom(g, rule)
    ensures |rule.common.nodes| == |rule.commonToLhs.nodeMapping| == |rule.commonToRhs.nodeMapping|
    ensures forall k :: 0 <= k < |rule.common.nodes| ==>
      var l, r := rule.commonToLhs.nodeMapping[k], rule.commonToRhs.nodeMapping[k];
      0 <= l < |rule.lhs.nodes| && rule.lhs.nodes[l] == rule.common.nodes[k] &&
      0 <= r < |rule.rhs.nodes| && rule.rhs.nodes[r] == rule.common.nodes[k]
  {
    var (left, right) := Sides(g).value;
    var n := |g.nodes|;
    var both := left.nodes * right.nodes;
    forall k | 0 <= k < |rule.common.nodes|
      ensures var l, r := rule.commonToLhs.nodeMapping[k], rule.commonToRhs.nodeMapping[k];
        0 <= l < |rule.lhs.nodes| && rule.lhs.nodes[l] == rule.common.nodes[k] &&
        0 <= r < |rule.rhs.nodes| && rule.rhs.nodes[r] == rule.common.nodes[k]
    {
      SelectOrigin(g.nodes, both, k);
      var i :| 0 <= i < n && i in both && Rank(both, i) == k;
      SelectAt(g.nodes, both, i);
      SelectAt(Placement(left.nodes, n, 0), both, i);
      SelectAt(Placement(right.nodes, n, 0), both, i);
      SelectAt(g.nodes, left.nodes, i);
      SelectAt(g.nodes, right.nodes, i);
    }
  }

  /**
   * Every node and every edge of each side comes from exactly one node or edge of
   * its subgraph (translation is injective by SelectBijection), found through the
   * graph-to-side translation.
   */
  lemma SidesTraceBack(g: Graph, rule: Rule, left: Subgraph, right: Subgraph)
    requires WellFormed(g) && RuleFrom(g, rule) && Sides(g) == Some((left, right))
    ensures forall k :: 0 <= k < |rule.lhs.nodes| ==> SelectedFrom(g.nodes, left.nodes, rule.lhs.nodes[k], k)
    ensures forall k :: 0 <= k < |rule.rhs.nodes| ==> SelectedFrom(g.nodes, right.nodes, rule.rhs.nodes[k], k)
    ensures forall k :: 0 <= k < |rule.lhs.edges| ==>
      SelectedFrom(Remap(g.edges, Placement(left.nodes, |g.nodes|, 0)), left.edges, rule.lhs.edges[k], k)
    ensures forall k :: 0 <= k < |rule.rhs.edges| ==>
      SelectedFrom(Remap(g.edges, Placement(right.nodes, |g.nodes|, 0)), right.edges, rule.rhs.edges[k], k)
  {
    var n := |g.nodes|;
    forall k | 0 <= k < |rule.lhs.nodes|
      ensures SelectedFrom(g.nodes, left.nodes, rule.lhs.nodes[k], k)
    {
      var i := SelectSource(g.nodes, left.nodes, k);
    }
    forall k | 0 <= k < |rule.rhs.nodes|
      ensures SelectedFrom(g.nodes, right.nodes, rule.rhs.nodes[k], k)
    {
      var i := SelectSource(g.nodes, right.nodes, k);
    }
    forall k | 0 <= k < |rule.lhs.edges|
      ensures SelectedFrom(Remap(g.edges, Placement(left.nodes, n, 0)), left.edges, rule.lhs.edges[k], k)
    {
      var m := SelectSource(Remap(g.edges, Placement(left.nodes, n, 0)), left.edges, k);
    }
    forall k | 0 <= k < |rule.rhs.edges|
      ensures SelectedFrom(Remap(g.edges, Placement(right.nodes, n, 0)), right.edges, rule.rhs.edges[k], k)
    {
      var m := SelectSource(Remap(g.edges, Placement(right.nodes, n, 0)), right.edges, k);
    }
  }

  /**
   * Each side edge is the original edge with its attributes, and each endpoint is
   * translated into the side: it names the copy of the original endpoint when that
   * node is on the side, and is -1 when it is not.
   */
  lemma SideEdgeEndpoints(nodes: seq<Node>, edges: seq<Edge>, nodeKeep: set<int>, edgeKeep: set<int>, m: nat)
    requires EndpointsIn(edges, |nodes|) && m < |edges| && m in edgeKeep
    ensures var sideNodes := Select(nodes, nodeKeep);
      var sideEdges := Select(Remap(edges, Placement(nodeKeep, |nodes|, 0)), edgeKeep);
      var k := Slot(edgeKeep, m, 0);
      0 <= k < |sideEdges| && sideEdges[k].attrs == edges[m].attrs &&
      (edges[m].head in nodeKeep ==> 0 <= sideEdges[k].head < |sideNodes| && sideNodes[sideEdges[k].head] == nodes[edges[m].head]) &&
      (edges[m].head !in nodeKeep ==> sideEdges[k].head == -1) &&
      (edges[m].tail in nodeKeep ==> 0 <= sideEdges[k].tail < |sideNodes| && sideNodes[sideEdges[k].tail] == nodes[edges[m].tail]) &&
      (edges[m].tail !in nodeKeep ==> sideEdges[k].tail == -1)
  {
    var table := Placement(nodeKeep, |nodes|, 0);
    SelectAt(Remap(edges, table), edgeKeep, m);
    var e := edges[m];
    if e.head in nodeKeep {
      SelectAt(nodes, nodeKeep, e.head);
    }
    if e.tail in nodeKeep {
      SelectAt(nodes, nodeKeep, e.tail);
    }
  }

  /** Within one side of a derivable graph, no two edges share a non-empty label. */
  lemma SideLabelsUnique(edges: seq<Edge>, side: set<int>, table: seq<int>)
    requires EndpointsIn(edges, |table|)
    requires forall m :: 0 <= m < |edges| && m in side && edges[m].attrs.tag != "" ==>
      edges[m].attrs.tag !in LabelsBefore(edges, side, m)
    ensures var es := Select(Remap(edges, table), side);
      forall a, b :: 0 <= a < b < |es| && es[a].attrs.tag != "" ==> es[a].attrs.tag != es[b].attrs.tag
  {
    var es := Select(Remap(edges, table), side);
    forall a, b | 0 <= a < b < |es| && es[a].attrs.tag != ""
      ensures es[a].attrs.tag != es[b].attrs.tag
    {
      SelectOrigin(Remap(edges, table), side, a);
      var ia :| 0 <= ia < |edges| && ia in side && Rank(side, ia) == a;
      SelectOrigin(Remap(edges, table), side, b);
      var ib :| 0 <= ib < |edges| && ib in side && Rank(side, ib) == b;
      SelectAt(Remap(edges, table), side, ia);
      SelectAt(Remap(edges, table), side, ib);
      if ib <= ia {
        RankMonotone(side, ib, ia);
      }
    }
  }

  /**
   * For a derived rule, the LHS and the RHS each carry every non-empty edge label
   * at most once, so the edge a common edge points at is the only one with its label.
   */
  lemma DerivedLabelsUnique(g: Graph, rule: Rule)
    requires WellFormed(g) && Derivable(g) && RuleFrom(g, rule)
    ensures forall a, b :: 0 <= a < b < |rule.lhs.edges| && rule.lhs.edges[a].attrs.tag != "" ==>
      rule.lhs.edges[a].attrs.tag != rule.lhs.edges[b].attrs.tag
    ensures forall a, b :: 0 <= a < b < |rule.rhs.edges| && rule.rhs.edges[a].attrs.tag != "" ==>
      rule.rhs.edges[a].attrs.tag != rule.rhs.edges[b].attrs.tag
  {
    var (left, right) := Sides(g).value;
    var n := |g.nodes|;
    forall m | 0 <= m < |g.edges| && m in left.edges && g.edges[m].attrs.tag != ""
      ensures g.edges[m].attrs.tag !in LabelsBefore(g.edges, left.edges, m)
    {
      assert EdgeFault(g.edges, left.edges, right.edges, m).None?;
    }
    forall m | 0 <= m < |g.edges| && m in right.edges && g.edges[m].attrs.tag != ""
      ensures g.edges[m].attrs.tag !in LabelsBefore(g.edges, right.edges, m)
    {
      assert EdgeFault(g.edges, left.edges, right.edges, m).None?;
    }
    SideLabelsUnique(g.edges, left.edges, Placement(left.nodes, n, 0));
    SideLabelsUnique(g.edges, right.edges, Placement(right.nodes, n, 0));
    assert rule.lhs.edges == Select(Remap(g.edges, Placement(left.nodes, n, 0)), left.edges);
    assert rule.rhs.edges == Select(Remap(g.edges, Placement(right.nodes, n, 0)), right.edges);
  }

  /**
   * In a derived rule every node is on at least one side and every edge on exactly
   * one: |lhs.nodes| + |rhs.nodes| counts the common nodes twice, and the side
   * edges together are the graph's edges.
   */
  lemma PartitionCounts(g: Graph, rule: Rule)
    requires WellFormed(g) && Derivable(g) && RuleFrom(g, rule)
    ensures |rule.lhs.nodes| + |rule.rhs.nodes| == |g.nodes| + |rule.common.nodes|
    ensures |rule.lhs.edges| + |rule.rhs.edges| == |g.edges|
  {
    var (left, right) := Sides(g).value;
    var n, e := |g.nodes|, |g.edges|;
    RankUnionInter(left.nodes, right.nodes, n);
    forall i | 0 <= i < n
      ensures i in left.nodes + right.nodes
    {
      assert Covers(left.nodes, right.nodes, i);
    }
    RankFull(left.nodes + right.nodes, n);
    RankUnionInter(left.edges, right.edges, e);
    forall m | 0 <= m < e
      ensures m in left.edges + right.edges && m !in left.edges * right.edges
    {
      assert EdgeFault(g.edges, left.edges, right.edges, m).None?;
    }
    RankFull(left.edges + right.edges, e);
    RankNone(left.edges * right.edges, e);
  }
}
