/**
 * Applying a rule at a match. The result graph is built in three node phases and
 * three edge phases: the target's untouched nodes, then one copy of the target node
 * under every common node, then the RHS nodes the rule creates; the target edges the
 * match does not claim, then the target edges under every common edge, then the RHS
 * edges the rule creates. Two index tables translate target and RHS node positions
 * into result positions; -1 marks a node that has no copy in the result.
 */
module Rewriting {
  import opened Graphs
  import opened Selection
  import opened Wrappers
  import opened RuleDerivation

  /** The distinct values of a sequence. */
  function Elements(s: seq<int>): set<int>
  {
    set x | x in s
  }

  /** Every id that occurs in any of the lists. */
  function Union(lists: seq<seq<int>>): set<int>
  {
    if lists == [] then {} else Union(lists[..|lists| - 1]) + Elements(lists[|lists| - 1])
  }

  /** The lists one after the other. */
  function Flatten(lists: seq<seq<int>>): seq<int>
  {
    if lists == [] then [] else Flatten(lists[..|lists| - 1]) + lists[|lists| - 1]
  }

  predicate IdsIn(ids: seq<int>, n: nat)
  {
    forall q :: 0 <= q < |ids| ==> 0 <= ids[q] < n
  }

  predicate AllIdsIn(lists: seq<seq<int>>, n: nat)
  {
    forall l :: 0 <= l < |lists| ==> IdsIn(lists[l], n)
  }

  /** Edge x exists and ends at nodes below n. */
  predicate EndsIn(edges: seq<Edge>, x: int, n: nat)
  {
    0 <= x < |edges| && 0 <= edges[x].head < n && 0 <= edges[x].tail < n
  }

  /** Every listed edge exists and ends at nodes below n. */
  predicate ListedEndsIn(edges: seq<Edge>, ids: seq<int>, n: nat)
  {
    forall q :: 0 <= q < |ids| ==> EndsIn(edges, ids[q], n)
  }

  /** Every edge at a kept position ends at nodes below n; the others may end anywhere. */
  predicate KeptEndsIn(edges: seq<Edge>, keep: set<int>, n: nat)
  {
    forall m {:trigger EndsIn(edges, m, n)} :: 0 <= m < |edges| && m in keep ==> EndsIn(edges, m, n)
  }

  /**
   * What the rewrite reads stays within bounds: the edges it copies (target edges
   * the match does not claim, target edges under a common edge, RHS edges no common
   * edge maps to) end at nodes of their own graph, the match sends nodes into the
   * target, and every common node and common edge has an LHS counterpart the match
   * covers. Edges the rewrite drops are never read, so their endpoints are free.
   */
  predicate Applicable(rule: Rule, target: Graph, lhsToTarget: GraphMapping)
  {
    KeptEndsIn(target.edges, Outside(|target.edges|, Union(lhsToTarget.edgeMapping)), |target.nodes|) &&
    KeptEndsIn(rule.rhs.edges, Outside(|rule.rhs.edges|, Union(rule.commonToRhs.edgeMapping)), |rule.rhs.nodes|) &&
    IdsIn(lhsToTarget.nodeMapping, |target.nodes|) &&
    |rule.commonToLhs.nodeMapping| >= |rule.common.nodes| &&
    (forall k :: 0 <= k < |rule.common.nodes| ==>
       0 <= rule.commonToLhs.nodeMapping[k] < |lhsToTarget.nodeMapping|) &&
    |rule.commonToLhs.edgeMapping| >= |rule.common.edges| &&
    (forall m :: 0 <= m < |rule.common.edges| ==>
       rule.commonToLhs.edgeMapping[m] != [] &&
       0 <= rule.commonToLhs.edgeMapping[m][0] < |lhsToTarget.edgeMapping| &&
       ListedEndsIn(target.edges, lhsToTarget.edgeMapping[rule.commonToLhs.edgeMapping[m][0]], |target.nodes|))
  }

  // ---------------------------------------------------------------------------
  // The result, phase by phase

  /** The target nodes outside the match's image; they are copied first, in order. */
  function Untouched(target: Graph, lhsToTarget: GraphMapping): set<int>
  {
    Outside(|target.nodes|, Elements(lhsToTarget.nodeMapping))
  }

  function ContextNodes(target: Graph, lhsToTarget: GraphMapping): seq<Node>
  {
    Select(target.nodes, Untouched(target, lhsToTarget))
  }

  /** The target node under common node k: the match's image of its LHS node. */
  function PreservedTargets(rule: Rule, target: Graph, lhsToTarget: GraphMapping): (pt: seq<int>)
    requires Applicable(rule, target, lhsToTarget)
    ensures |pt| == |rule.common.nodes| && IdsIn(pt, |target.nodes|)
  {
    seq(|rule.common.nodes|, k requires 0 <= k < |rule.common.nodes| =>
      lhsToTarget.nodeMapping[rule.commonToLhs.nodeMapping[k]])
  }

  /** One copy of the target node under each common node, with the target's attributes. */
  function PreservedNodes(rule: Rule, target: Graph, lhsToTarget: GraphMapping): seq<Node>
    requires Applicable(rule, target, lhsToTarget)
  {
    var pt := PreservedTargets(rule, target, lhsToTarget);
    seq(|pt|, k requires 0 <= k < |pt| => target.nodes[pt[k]])
  }

  /** The RHS nodes no common node maps to: the nodes the rule creates. */
  function Created(rule: Rule): set<int>
  {
    Outside(|rule.rhs.nodes|, Elements(rule.commonToRhs.nodeMapping))
  }

  function CreatedNodes(rule: Rule): seq<Node>
  {
    Select(rule.rhs.nodes, Created(rule))
  }

  /** The last position of v in xs, or -1. */
  function LastIndexOf(xs: seq<int>, v: int): (r: int)
    ensures -1 <= r < |xs|
    ensures r >= 0 ==> xs[r] == v && forall k :: r < k < |xs| ==> xs[k] != v
    ensures r == -1 <==> v !in xs
  {
    if xs == [] then -1
    else if xs[|xs| - 1] == v then |xs| - 1
    else LastIndexOf(xs[..|xs| - 1], v)
  }

  /**
   * The table after copies were appended at base, base + 1, ... for the positions in
   * pt: a position listed more than once keeps its last copy.
   */
  function Overwritten(table: seq<int>, pt: seq<int>, base: int): (t: seq<int>)
    ensures |t| == |table|
  {
    seq(|table|, i requires 0 <= i < |table| =>
      if LastIndexOf(pt, i) >= 0 then base + LastIndexOf(pt, i) else table[i])
  }

  /** Where each target node went in the result, or -1 if it was deleted. */
  function TargetToResult(rule: Rule, target: Graph, lhsToTarget: GraphMapping): (t: seq<int>)
    requires Applicable(rule, target, lhsToTarget)
    ensures |t| == |target.nodes|
  {
    Overwritten(Placement(Untouched(target, lhsToTarget), |target.nodes|, 0),
                PreservedTargets(rule, target, lhsToTarget), |ContextNodes(target, lhsToTarget)|)
  }

  /** Where each RHS node went in the result: created nodes only; the others stay -1. */
  function RhsToResult(rule: Rule, target: Graph, lhsToTarget: GraphMapping): (t: seq<int>)
    ensures |t| == |rule.rhs.nodes|
  {
    Placement(Created(rule), |rule.rhs.nodes|, |ContextNodes(target, lhsToTarget)| + |rule.common.nodes|)
  }

  /**
   * The edges with the endpoints of every kept edge looked up in table. Edges at the
   * other positions are left as they are: they are never read, and the selection
   * that follows discards them.
   */
  function RemapKept(edges: seq<Edge>, keep: set<int>, table: seq<int>): (r: seq<Edge>)
    requires KeptEndsIn(edges, keep, |table|)
    ensures |r| == |edges|
  {
    seq(|edges|, m requires 0 <= m < |edges| => if m in keep then assert EndsIn(edges, m, |table|); RemapEdge(edges[m], table) else edges[m])
  }

  /** The target edges the match does not claim, with endpoints translated. */
  function ContextEdges(rule: Rule, target: Graph, lhsToTarget: GraphMapping): seq<Edge>
    requires Applicable(rule, target, lhsToTarget)
  {
    var keep := Outside(|target.edges|, Union(lhsToTarget.edgeMapping));
    Select(RemapKept(target.edges, keep, TargetToResult(rule, target, lhsToTarget)), keep)
  }

  /** The target edges realising the LHS edge of common edge m. */
  function LhsImage(rule: Rule, target: Graph, lhsToTarget: GraphMapping, m: nat): (ids: seq<int>)
    requires Applicable(rule, target, lhsToTarget) && m < |rule.common.edges|
    ensures IdsIn(ids, |target.edges|) && ListedEndsIn(target.edges, ids, |target.nodes|)
  {
    lhsToTarget.edgeMapping[rule.commonToLhs.edgeMapping[m][0]]
  }

  function LhsImages(rule: Rule, target: Graph, lhsToTarget: GraphMapping): (lists: seq<seq<int>>)
    requires Applicable(rule, target, lhsToTarget)
    ensures |lists| == |rule.common.edges| && AllIdsIn(lists, |target.edges|)
    ensures forall l :: 0 <= l < |lists| ==> ListedEndsIn(target.edges, lists[l], |target.nodes|)
  {
    seq(|rule.common.edges|, m requires 0 <= m < |rule.common.edges| => LhsImage(rule, target, lhsToTarget, m))
  }

  /** The target edges copied for the common edges, in the order they are copied. */
  function PreservedEdgeIds(rule: Rule, target: Graph, lhsToTarget: GraphMapping): (ids: seq<int>)
    requires Applicable(rule, target, lhsToTarget)
    ensures IdsIn(ids, |target.edges|) && ListedEndsIn(target.edges, ids, |target.nodes|)
  {
    FlattenIn(LhsImages(rule, target, lhsToTarget), |target.edges|);
    FlattenEnds(LhsImages(rule, target, lhsToTarget), target.edges, |target.nodes|);
    Flatten(LhsImages(rule, target, lhsToTarget))
  }

  /** The edges at positions ids, with endpoints looked up in table. */
  function EdgesAt(edges: seq<Edge>, ids: seq<int>, table: seq<int>): (r: seq<Edge>)
    requires ListedEndsIn(edges, ids, |table|)
    ensures |r| == |ids|
  {
    seq(|ids|, k requires 0 <= k < |ids| => RemapEdge(edges[ids[k]], table))
  }

  function PreservedEdges(rule: Rule, target: Graph, lhsToTarget: GraphMapping): seq<Edge>
    requires Applicable(rule, target, lhsToTarget)
  {
    EdgesAt(target.edges, PreservedEdgeIds(rule, target, lhsToTarget), TargetToResult(rule, target, lhsToTarget))
  }

  /** The RHS edges no common edge maps to, with endpoints translated. */
  function CreatedEdges(rule: Rule, target: Graph, lhsToTarget: GraphMapping): seq<Edge>
    requires KeptEndsIn(rule.rhs.edges, Outside(|rule.rhs.edges|, Union(rule.commonToRhs.edgeMapping)), |rule.rhs.nodes|)
  {
    var keep := Outside(|rule.rhs.edges|, Union(rule.commonToRhs.edgeMapping));
    Select(RemapKept(rule.rhs.edges, keep, RhsToResult(rule, target, lhsToTarget)), keep)
  }

  /** The graph the rewrite produces. */
  function Rewritten(rule: Rule, target: Graph, lhsToTarget: GraphMapping): Graph
    requires Applicable(rule, target, lhsToTarget)
  {
    Graph(ContextNodes(target, lhsToTarget) + PreservedNodes(rule, target, lhsToTarget) + CreatedNodes(rule),
          ContextEdges(rule, target, lhsToTarget) + PreservedEdges(rule, target, lhsToTarget) +
          CreatedEdges(rule, target, lhsToTarget),
          [])
  }

  // ---------------------------------------------------------------------------
  // Facts about the helpers

  lemma {:induction false} FlattenIn(lists: seq<seq<int>>, n: nat)
    requires AllIdsIn(lists, n)
    ensures IdsIn(Flatten(lists), n)
  {
    if lists != [] {
      FlattenIn(lists[..|lists| - 1], n);
    }
  }

  lemma {:induction false} FlattenEnds(lists: seq<seq<int>>, edges: seq<Edge>, n: nat)
    requires forall l :: 0 <= l < |lists| ==> ListedEndsIn(edges, lists[l], n)
    ensures ListedEndsIn(edges, Flatten(lists), n)
  {
    if lists != [] {
      FlattenEnds(lists[..|lists| - 1], edges, n);
      assert ListedEndsIn(edges, lists[|lists| - 1], n);
    }
  }

  lemma {:induction false} UnionIn(lists: seq<seq<int>>, n: nat)
    requires AllIdsIn(lists, n)
    ensures forall x :: x in Union(lists) ==> 0 <= x < n
  {
    if lists != [] {
      UnionIn(lists[..|lists| - 1], n);
      assert IdsIn(lists[|lists| - 1], n);
    }
  }

  /** Flattening keeps exactly the ids of the union. */
  lemma {:induction false} FlattenUnion(lists: seq<seq<int>>)
    ensures forall x :: x in Flatten(lists) <==> x in Union(lists)
  {
    if lists != [] {
      FlattenUnion(lists[..|lists| - 1]);
    }
  }

  lemma FlattenStep(lists: seq<seq<int>>, m: nat)
    requires m < |lists|
    ensures Flatten(lists[..m + 1]) == Flatten(lists[..m]) + lists[m]
  {
    assert lists[..m + 1][..m] == lists[..m];
  }

  lemma UnionStep(lists: seq<seq<int>>, l: nat)
    requires l < |lists|
    ensures Union(lists[..l + 1]) == Union(lists[..l]) + Elements(lists[l])
  {
    assert lists[..l + 1][..l] == lists[..l];
  }

  /** Appending the copy of pt[i] at base + i overwrites the entry of pt[i]. */
  lemma OverwriteStep(table: seq<int>, pt: seq<int>, i: nat, base: int)
    requires i < |pt| && IdsIn(pt, |table|)
    ensures Overwritten(table, pt[..i + 1], base) == Overwritten(table, pt[..i], base)[pt[i] := base + i]
  {
    assert pt[..i + 1][..i] == pt[..i];
  }

  lemma EdgesAtStep(edges: seq<Edge>, ids: seq<int>, x: int, table: seq<int>)
    requires ListedEndsIn(edges, ids, |table|) && EndsIn(edges, x, |table|)
    ensures ListedEndsIn(edges, ids + [x], |table|)
    ensures EdgesAt(edges, ids + [x], table) == EdgesAt(edges, ids, table) + [RemapEdge(edges[x], table)]
  {
  }

  // ---------------------------------------------------------------------------
  // The copy loops

  /** Gathers every id of every list into one set. */
  method CollectIds(lists: seq<seq<int>>) returns (ids: set<int>)
    ensures ids == Union(lists)
  {
    ids := {};
    for l := 0 to |lists|
      invariant ids == Union(lists[..l])
    {
      UnionStep(lists, l);
      ids := ids + Elements(lists[l]);
    }
    assert lists[..|lists|] == lists;
  }

  /**
   * Appends the nodes whose positions are not in `drop`, in order, and records for
   * each position where its copy went, or -1.
   */
  method CopyKeptNodes(xs: seq<Node>, drop: set<int>, nodes: seq<Node>)
    returns (nodes': seq<Node>, table: seq<int>)
    ensures nodes' == nodes + Select(xs, Outside(|xs|, drop))
    ensures table == Placement(Outside(|xs|, drop), |xs|, |nodes|)
  {
    var keep := Outside(|xs|, drop);
    var placed: seq<Node> := [];
    table := seq(|xs|, _ => -1);
    CopyStart(xs, keep, |nodes|);
    for i := 0 to |xs|
      invariant CopiedSoFar(xs, keep, i, placed, table, |nodes|)
    {
      placed, table := Visit(xs, keep, table, i, placed, |nodes|);
    }
    CopyDone(xs, keep, placed, table, |nodes|);
    nodes' := nodes + placed;
  }

  /**
   * Appends, for each common node, a copy of the target node the match puts under
   * it, and points that target node's table entry at the copy.
   */
  method CopyPreservedNodes(rule: Rule, target: Graph, lhsToTarget: GraphMapping,
                            nodes: seq<Node>, table: seq<int>)
    returns (nodes': seq<Node>, table': seq<int>)
    requires Applicable(rule, target, lhsToTarget) && |table| == |target.nodes|
    ensures nodes' == nodes + PreservedNodes(rule, target, lhsToTarget)
    ensures table' == Overwritten(table, PreservedTargets(rule, target, lhsToTarget), |nodes|)
  {
    ghost var pt := PreservedTargets(rule, target, lhsToTarget);
    ghost var preserved := PreservedNodes(rule, target, lhsToTarget);
    assert |pt| == |preserved| == |rule.common.nodes|;
    nodes', table' := nodes, table;
    for i := 0 to |rule.common.nodes|
      invariant nodes' == nodes + preserved[..i]
      invariant table' == Overwritten(table, pt[..i], |nodes|)
    {
      var lhsNode := rule.commonToLhs.nodeMapping[i];
      var targetNode := lhsToTarget.nodeMapping[lhsNode];
      assert targetNode == pt[i] && target.nodes[targetNode] == preserved[i];
      assert preserved[..i + 1] == preserved[..i] + [preserved[i]];
      OverwriteStep(table, pt, i, |nodes|);
      nodes' := nodes' + [target.nodes[targetNode]];
      table' := table'[targetNode := |nodes'| - 1];
    }
    assert pt[..|pt|] == pt;
    assert preserved[..|preserved|] == preserved;
  }

  /**
   * Appends the edges whose positions are not in `drop`, in order, each with its
   * endpoints looked up in table.
   */
  method CopyKeptEdges(edges: seq<Edge>, drop: set<int>, table: seq<int>, out: seq<Edge>)
    returns (out': seq<Edge>)
    requires KeptEndsIn(edges, Outside(|edges|, drop), |table|)
    ensures out' == out + Select(RemapKept(edges, Outside(|edges|, drop), table), Outside(|edges|, drop))
  {
    var keep := Outside(|edges|, drop);
    ghost var remapped := RemapKept(edges, keep, table);
    out' := out;
    for m := 0 to |edges|
      invariant out' == out + Select(remapped[..m], keep)
    {
      SelectStep(remapped, keep, m);
      if m !in drop {
        assert EndsIn(edges, m, |table|);
        var edge := edges[m];
        out' := out' + [edge.(head := table[edge.head], tail := table[edge.tail])];
      }
    }
    assert remapped[..|edges|] == remapped;
  }

  /**
   * Appends, for each common edge, every target edge realising its LHS edge, each
   * with its endpoints looked up in table.
   */
  method CopyPreservedEdges(rule: Rule, target: Graph, lhsToTarget: GraphMapping,
                            table: seq<int>, out: seq<Edge>)
    returns (out': seq<Edge>)
    requires Applicable(rule, target, lhsToTarget) && |table| == |target.nodes|
    ensures out' == out + EdgesAt(target.edges, PreservedEdgeIds(rule, target, lhsToTarget), table)
  {
    ghost var lists := LhsImages(rule, target, lhsToTarget);
    out' := out;
    for m := 0 to |rule.common.edges|
      invariant ListedEndsIn(target.edges, Flatten(lists[..m]), |table|)
      invariant out' == out + EdgesAt(target.edges, Flatten(lists[..m]), table)
    {
      var lhsEdge := rule.commonToLhs.edgeMapping[m][0];
      var targetEdges := lhsToTarget.edgeMapping[lhsEdge];
      ghost var done := Flatten(lists[..m]);
      for q := 0 to |targetEdges|
        invariant ListedEndsIn(target.edges, done + targetEdges[..q], |table|)
        invariant out' == out + EdgesAt(target.edges, done + targetEdges[..q], table)
      {
        var edge := target.edges[targetEdges[q]];
        EdgesAtStep(target.edges, done + targetEdges[..q], targetEdges[q], table);
        assert done + targetEdges[..q + 1] == (done + targetEdges[..q]) + [targetEdges[q]];
        out' := out' + [edge.(head := table[edge.head], tail := table[edge.tail])];
      }
      FlattenStep(lists, m);
      assert targetEdges[..|targetEdges|] == targetEdges;
    }
    assert lists[..|lists|] == lists;
  }

  /** The rewrite: the target with the match's image replaced by the rule's RHS. */
  method ApplyRule(rule: Rule, target: Graph, lhsToTarget: GraphMapping) returns (result: Graph)
    requires Applicable(rule, target, lhsToTarget)
    ensures result == Rewritten(rule, target, lhsToTarget)
  {
    var targetNodesInLhs := Elements(lhsToTarget.nodeMapping);
    var nodes, targetToResult := CopyKeptNodes(target.nodes, targetNodesInLhs, []);
    assert nodes == ContextNodes(target, lhsToTarget);
    nodes, targetToResult := CopyPreservedNodes(rule, target, lhsToTarget, nodes, targetToResult);
    assert targetToResult == TargetToResult(rule, target, lhsToTarget);
    var rhsNodesInCommon := Elements(rule.commonToRhs.nodeMapping);
    var rhsToResult;
    nodes, rhsToResult := CopyKeptNodes(rule.rhs.nodes, rhsNodesInCommon, nodes);
    assert rhsToResult == RhsToResult(rule, target, lhsToTarget);

    var targetEdgesInLhs := CollectIds(lhsToTarget.edgeMapping);
    var edges := CopyKeptEdges(target.edges, targetEdgesInLhs, targetToResult, []);
    assert edges == ContextEdges(rule, target, lhsToTarget);
    edges := CopyPreservedEdges(rule, target, lhsToTarget, targetToResult, edges);
    var rhsEdgesInCommon := CollectIds(rule.commonToRhs.edgeMapping);
    edges := CopyKeptEdges(rule.rhs.edges, rhsEdgesInCommon, rhsToResult, edges);
    result := Graph(nodes, edges, []);
  }

  // ---------------------------------------------------------------------------
  // Properties of the rewrite

  lemma {:induction false} UnionHas(lists: seq<seq<int>>, l: nat, x: int)
    requires l < |lists| && x in lists[l]
    ensures x in Union(lists)
  {
    if l < |lists| - 1 {
      UnionHas(lists[..|lists| - 1], l, x);
    }
  }

  /** Every id of the union comes from one of the lists. */
  lemma {:induction false} UnionSource(lists: seq<seq<int>>, x: int) returns (l: nat)
    requires x in Union(lists)
    ensures l < |lists| && x in lists[l]
  {
    var init := lists[..|lists| - 1];
    if x in Elements(lists[|lists| - 1]) {
      l := |lists| - 1;
    } else {
      l := UnionSource(init, x);
      assert init[l] == lists[l];
    }
  }

  /**
   * The result keeps every target node outside the match, adds one node per common
   * node and one per RHS node no common node maps to.
   */
  lemma NodeCount(rule: Rule, target: Graph, lhsToTarget: GraphMapping)
    requires Applicable(rule, target, lhsToTarget) && IdsIn(rule.commonToRhs.nodeMapping, |rule.rhs.nodes|)
    ensures |Rewritten(rule, target, lhsToTarget).nodes| ==
            |target.nodes| - |Elements(lhsToTarget.nodeMapping)| + |rule.common.nodes| +
            |rule.rhs.nodes| - |Elements(rule.commonToRhs.nodeMapping)|
  {
    RankOutside(Elements(lhsToTarget.nodeMapping), |target.nodes|);
    RankOutside(Elements(rule.commonToRhs.nodeMapping), |rule.rhs.nodes|);
  }

  /**
   * The result keeps every target edge the match does not claim, adds every target
   * edge under a common edge and every RHS edge no common edge maps to.
   */
  lemma EdgeCount(rule: Rule, target: Graph, lhsToTarget: GraphMapping)
    requires Applicable(rule, target, lhsToTarget)
    requires AllIdsIn(lhsToTarget.edgeMapping, |target.edges|)
    requires AllIdsIn(rule.commonToRhs.edgeMapping, |rule.rhs.edges|)
    ensures |Rewritten(rule, target, lhsToTarget).edges| ==
            |target.edges| - |Union(lhsToTarget.edgeMapping)| + |PreservedEdgeIds(rule, target, lhsToTarget)| +
            |rule.rhs.edges| - |Union(rule.commonToRhs.edgeMapping)|
  {
    UnionIn(lhsToTarget.edgeMapping, |target.edges|);
    UnionIn(rule.commonToRhs.edgeMapping, |rule.rhs.edges|);
    RankOutside(Union(lhsToTarget.edgeMapping), |target.edges|);
    RankOutside(Union(rule.commonToRhs.edgeMapping), |rule.rhs.edges|);
  }

  /**
   * Where target node i goes: a node outside the match to a position among the
   * context nodes, a node under a common node to its (last) preserved copy, and any
   * other node of the match nowhere (-1).
   */
  lemma TargetNodeFate(rule: Rule, target: Graph, lhsToTarget: GraphMapping, i: nat)
    requires Applicable(rule, target, lhsToTarget) && i < |target.nodes|
    ensures TargetToResult(rule, target, lhsToTarget)[i] == -1 <==>
            i in Elements(lhsToTarget.nodeMapping) && i !in PreservedTargets(rule, target, lhsToTarget)
    ensures i !in Elements(lhsToTarget.nodeMapping) ==>
            0 <= TargetToResult(rule, target, lhsToTarget)[i] < |ContextNodes(target, lhsToTarget)|
    ensures i in PreservedTargets(rule, target, lhsToTarget) ==>
            |ContextNodes(target, lhsToTarget)| <= TargetToResult(rule, target, lhsToTarget)[i] <
            |ContextNodes(target, lhsToTarget)| + |rule.common.nodes|
  {
    var pt := PreservedTargets(rule, target, lhsToTarget);
    var r := LastIndexOf(pt, i);
    if r >= 0 {
      var l := rule.commonToLhs.nodeMapping[r];
      assert lhsToTarget.nodeMapping[l] == i;
    } else if i !in Elements(lhsToTarget.nodeMapping) {
      RankMonotone(Untouched(target, lhsToTarget), i, |target.nodes|);
    }
  }

  /** The result node a target node goes to is a copy of it. */
  lemma TargetNodeCopied(rule: Rule, target: Graph, lhsToTarget: GraphMapping, i: nat)
    requires Applicable(rule, target, lhsToTarget) && i < |target.nodes|
    requires TargetToResult(rule, target, lhsToTarget)[i] != -1
    ensures 0 <= TargetToResult(rule, target, lhsToTarget)[i] < |Rewritten(rule, target, lhsToTarget).nodes|
    ensures Rewritten(rule, target, lhsToTarget).nodes[TargetToResult(rule, target, lhsToTarget)[i]] == target.nodes[i]
  {
    var pt := PreservedTargets(rule, target, lhsToTarget);
    var t := TargetToResult(rule, target, lhsToTarget);
    var context, preserved := ContextNodes(target, lhsToTarget), PreservedNodes(rule, target, lhsToTarget);
    var nodes := Rewritten(rule, target, lhsToTarget).nodes;
    assert nodes == context + preserved + CreatedNodes(rule);
    var r := LastIndexOf(pt, i);
    if r < 0 {
      SelectAt(target.nodes, Untouched(target, lhsToTarget), i);
      assert t[i] == Rank(Untouched(target, lhsToTarget), i);
    } else {
      assert t[i] == |context| + r && preserved[r] == target.nodes[i];
    }
  }

  /** No two target nodes share a result node. */
  lemma TargetToResultInjective(rule: Rule, target: Graph, lhsToTarget: GraphMapping, i: nat, j: nat)
    requires Applicable(rule, target, lhsToTarget) && i < |target.nodes| && j < |target.nodes|
    requires TargetToResult(rule, target, lhsToTarget)[i] == TargetToResult(rule, target, lhsToTarget)[j] != -1
    ensures i == j
  {
    var pt := PreservedTargets(rule, target, lhsToTarget);
    TargetNodeFate(rule, target, lhsToTarget, i);
    TargetNodeFate(rule, target, lhsToTarget, j);
    var ri, rj := LastIndexOf(pt, i), LastIndexOf(pt, j);
    if ri < 0 && rj < 0 {
      RankInjective(Untouched(target, lhsToTarget), i, j);
    }
  }

  /**
   * Where RHS node i goes: a created node to its copy after the context and the
   * preserved nodes; an RHS node some common node maps to nowhere (-1).
   */
  lemma RhsNodeFate(rule: Rule, target: Graph, lhsToTarget: GraphMapping, i: nat)
    requires Applicable(rule, target, lhsToTarget) && i < |rule.rhs.nodes|
    ensures RhsToResult(rule, target, lhsToTarget)[i] == -1 <==> i in Elements(rule.commonToRhs.nodeMapping)
    ensures RhsToResult(rule, target, lhsToTarget)[i] != -1 ==>
            |ContextNodes(target, lhsToTarget)| + |rule.common.nodes| <= RhsToResult(rule, target, lhsToTarget)[i] <
            |Rewritten(rule, target, lhsToTarget).nodes| &&
            Rewritten(rule, target, lhsToTarget).nodes[RhsToResult(rule, target, lhsToTarget)[i]] == rule.rhs.nodes[i]
  {
    if i in Created(rule) {
      SelectAt(rule.rhs.nodes, Created(rule), i);
    }
  }

  /**
   * A target edge the match does not claim is kept, in target order, with its
   * attributes; each endpoint follows its node, and is -1 where that node was deleted.
   */
  lemma ContextEdgeFate(rule: Rule, target: Graph, lhsToTarget: GraphMapping, m: nat)
    requires Applicable(rule, target, lhsToTarget) && m < |target.edges|
    requires m !in Union(lhsToTarget.edgeMapping)
    ensures var j := Rank(Outside(|target.edges|, Union(lhsToTarget.edgeMapping)), m);
            EndsIn(target.edges, m, |target.nodes|) && j < |ContextEdges(rule, target, lhsToTarget)| &&
            (var e, t := Rewritten(rule, target, lhsToTarget).edges[j], TargetToResult(rule, target, lhsToTarget);
             e.attrs == target.edges[m].attrs &&
             e.head == t[target.edges[m].head] && e.tail == t[target.edges[m].tail])
  {
    var keep := Outside(|target.edges|, Union(lhsToTarget.edgeMapping));
    SelectAt(RemapKept(target.edges, keep, TargetToResult(rule, target, lhsToTarget)), keep, m);
  }

  /**
   * The edges copied for the common edges are target edges the match claims (so
   * none of them is also a context edge), kept with their attributes, each
   * endpoint following its node.
   */
  lemma PreservedEdgeFate(rule: Rule, target: Graph, lhsToTarget: GraphMapping, k: nat)
    requires Applicable(rule, target, lhsToTarget) && k < |PreservedEdgeIds(rule, target, lhsToTarget)|
    ensures var id := PreservedEdgeIds(rule, target, lhsToTarget)[k];
            var j := |ContextEdges(rule, target, lhsToTarget)| + k;
            var e, t := Rewritten(rule, target, lhsToTarget).edges[j], TargetToResult(rule, target, lhsToTarget);
            id in Union(lhsToTarget.edgeMapping) &&
            e.attrs == target.edges[id].attrs &&
            e.head == t[target.edges[id].head] && e.tail == t[target.edges[id].tail]
  {
    var lists := LhsImages(rule, target, lhsToTarget);
    var id := PreservedEdgeIds(rule, target, lhsToTarget)[k];
    FlattenUnion(lists);
    var l := UnionSource(lists, id);
    UnionHas(lhsToTarget.edgeMapping, rule.commonToLhs.edgeMapping[l][0], id);
  }

  /**
   * An RHS edge no common edge maps to is added after the target's edges with its
   * attributes. An endpoint at a created node follows that node; an endpoint at an
   * RHS node some common node maps to becomes -1, because only created nodes have
   * an entry in the RHS table.
   */
  lemma CreatedEdgeFate(rule: Rule, target: Graph, lhsToTarget: GraphMapping, m: nat)
    requires Applicable(rule, target, lhsToTarget) && m < |rule.rhs.edges|
    requires m !in Union(rule.commonToRhs.edgeMapping)
    ensures var j := |ContextEdges(rule, target, lhsToTarget)| + |PreservedEdges(rule, target, lhsToTarget)| +
                     Rank(Outside(|rule.rhs.edges|, Union(rule.commonToRhs.edgeMapping)), m);
            var result, orig := Rewritten(rule, target, lhsToTarget), rule.rhs.edges[m];
            EndsIn(rule.rhs.edges, m, |rule.rhs.nodes|) && j < |result.edges| &&
            (var e := result.edges[j];
             e.attrs == orig.attrs &&
             (e.head == -1 <==> orig.head in Elements(rule.commonToRhs.nodeMapping)) &&
             (e.tail == -1 <==> orig.tail in Elements(rule.commonToRhs.nodeMapping)) &&
             (e.head != -1 ==> 0 <= e.head < |result.nodes| && result.nodes[e.head] == rule.rhs.nodes[orig.head]) &&
             (e.tail != -1 ==> 0 <= e.tail < |result.nodes| && result.nodes[e.tail] == rule.rhs.nodes[orig.tail]))
  {
    var orig, table := rule.rhs.edges[m], RhsToResult(rule, target, lhsToTarget);
    var result := Rewritten(rule, target, lhsToTarget);
    var before := ContextEdges(rule, target, lhsToTarget) + PreservedEdges(rule, target, lhsToTarget);
    var k := Rank(Outside(|rule.rhs.edges|, Union(rule.commonToRhs.edgeMapping)), m);
    CreatedEdgeAt(rule, target, lhsToTarget, m);
    assert result.edges == before + CreatedEdges(rule, target, lhsToTarget);
    RhsNodeFate(rule, target, lhsToTarget, orig.head);
    RhsNodeFate(rule, target, lhsToTarget, orig.tail);
    RemappedEndpoints(result.edges[|before| + k], orig, table, result.nodes, rule.rhs.nodes,
                      Elements(rule.commonToRhs.nodeMapping));
  }

  /** What a translated edge's endpoints are, from what the table says about each of them. */
  lemma RemappedEndpoints(e: Edge, orig: Edge, table: seq<int>, nodes: seq<Node>, rhsNodes: seq<Node>, common: set<int>)
    requires 0 <= orig.head < |table| == |rhsNodes| && 0 <= orig.tail < |table| && e == RemapEdge(orig, table)
    requires table[orig.head] == -1 <==> orig.head in common
    requires table[orig.tail] == -1 <==> orig.tail in common
    requires table[orig.head] != -1 ==> 0 <= table[orig.head] < |nodes| && nodes[table[orig.head]] == rhsNodes[orig.head]
    requires table[orig.tail] != -1 ==> 0 <= table[orig.tail] < |nodes| && nodes[table[orig.tail]] == rhsNodes[orig.tail]
    ensures e.attrs == orig.attrs
    ensures e.head == -1 <==> orig.head in common
    ensures e.tail == -1 <==> orig.tail in common
    ensures e.head != -1 ==> 0 <= e.head < |nodes| && nodes[e.head] == rhsNodes[orig.head]
    ensures e.tail != -1 ==> 0 <= e.tail < |nodes| && nodes[e.tail] == rhsNodes[orig.tail]
  {
  }

  /** An RHS edge no common edge maps to is created, at its rank, with its endpoints translated. */
  lemma CreatedEdgeAt(rule: Rule, target: Graph, lhsToTarget: GraphMapping, m: nat)
    requires Applicable(rule, target, lhsToTarget) && m < |rule.rhs.edges|
    requires m !in Union(rule.commonToRhs.edgeMapping)
    ensures var keep := Outside(|rule.rhs.edges|, Union(rule.commonToRhs.edgeMapping));
            EndsIn(rule.rhs.edges, m, |rule.rhs.nodes|) && Rank(keep, m) < |CreatedEdges(rule, target, lhsToTarget)| &&
            CreatedEdges(rule, target, lhsToTarget)[Rank(keep, m)] ==
            RemapEdge(rule.rhs.edges[m], RhsToResult(rule, target, lhsToTarget))
  {
    var keep := Outside(|rule.rhs.edges|, Union(rule.commonToRhs.edgeMapping));
    assert EndsIn(rule.rhs.edges, m, |rule.rhs.nodes|);
    SelectAt(RemapKept(rule.rhs.edges, keep, RhsToResult(rule, target, lhsToTarget)), keep, m);
  }

  /**
   * The rule for the example below: delete A and its edge A -> B, keep B, create C
   * and an edge B -> C. An edge from u to v has tail u and head v.
   */
  function ExampleRule(a: Node, b: Node, c: Node, attrs: EdgeAttributes): Rule
  {
    Rule(Graph([a, b], [Edge(1, 0, attrs)], []), Graph([b, c], [Edge(1, 0, attrs)], []),
         Graph([b], [], []), GraphMapping([1], []), GraphMapping([0], []))
  }

  /** Two nodes A, B and an edge A -> B. */
  function ExampleTarget(a: Node, b: Node, attrs: EdgeAttributes): Graph
  {
    Graph([a, b], [Edge(1, 0, attrs)], [])
  }

  const ExampleMatch := GraphMapping([0, 1], [[0]])

  /** Selecting from a two-element sequence. */
  lemma SelectPair<T>(x: T, y: T, keep: set<int>)
    ensures Select([x, y], keep) == (if 0 in keep then [x] else []) + (if 1 in keep then [y] else [])
  {
    assert [x, y][..1] == [x] && [x][..0] == [];
  }

  /** The node phases of applying ExampleRule to ExampleTarget, and the two index tables. */
  lemma ExampleNodes(a: Node, b: Node, c: Node, attrs: EdgeAttributes)
    ensures var rule, target := ExampleRule(a, b, c, attrs), ExampleTarget(a, b, attrs);
      Applicable(rule, target, ExampleMatch) &&
      ContextNodes(target, ExampleMatch) == [] && PreservedNodes(rule, target, ExampleMatch) == [b] &&
      CreatedNodes(rule) == [c] &&
      TargetToResult(rule, target, ExampleMatch) == [-1, 0] && RhsToResult(rule, target, ExampleMatch) == [-1, 1]
  {
    var rule, target := ExampleRule(a, b, c, attrs), ExampleTarget(a, b, attrs);
    assert Union([[0]]) == {0};
    assert Elements([0, 1]) == {0, 1};
    assert Elements([0]) == {0};
    assert Untouched(target, ExampleMatch) == {};
    assert Created(rule) == {1};
    SelectPair(a, b, {});
    SelectPair(b, c, {1});
    assert PreservedTargets(rule, target, ExampleMatch) == [1];
    assert Placement({}, 2, 0) == [-1, -1];
    assert Placement({1}, 2, 1) == [-1, 1];
  }

  /**
   * Applying ExampleRule to ExampleTarget: the result holds B and C, but the created
   * edge B -> C keeps only its head (C, at position 1). Its tail sits on the common
   * node B, which has no entry in the RHS table, so the tail is -1 rather than B's
   * position 0.
   */
  lemma KeptEndpointDropped(a: Node, b: Node, c: Node, attrs: EdgeAttributes)
    ensures Applicable(ExampleRule(a, b, c, attrs), ExampleTarget(a, b, attrs), ExampleMatch)
    ensures Rewritten(ExampleRule(a, b, c, attrs), ExampleTarget(a, b, attrs), ExampleMatch) ==
            Graph([b, c], [Edge(1, -1, attrs)], [])
  {
    var rule, target := ExampleRule(a, b, c, attrs), ExampleTarget(a, b, attrs);
    ExampleNodes(a, b, c, attrs);
    assert Union([[0]]) == {0} && Union([]) == {};
    assert Outside(1, {0}) == {} && Outside(1, {}) == {0};
    assert [Edge(1, 0, attrs)][..0] == [];
    assert RemapKept(target.edges, {}, [-1, 0]) == [Edge(1, 0, attrs)];
    assert ContextEdges(rule, target, ExampleMatch) == [];
    assert PreservedEdges(rule, target, ExampleMatch) == [];
    assert RemapKept(rule.rhs.edges, {0}, [-1, 1]) == [Edge(1, -1, attrs)];
    assert CreatedEdges(rule, target, ExampleMatch) == [Edge(1, -1, attrs)];
  }

  /**
   * A rule that keeps an edge A -> B, labelled tag, through a common edge and deletes
   * A. Its RHS holds only B, so the RHS partner of the common edge has tail -1.
   */
  function LabelledRule(a: Node, b: Node, tag: string): Rule
  {
    var e := EdgeAttributes(tag, []);
    Rule(Graph([a, b], [Edge(1, 0, e)], []), Graph([b], [Edge(0, -1, e)], []),
         Graph([b], [Edge(0, 0, e)], []), GraphMapping([1], [[0]]), GraphMapping([0], [[0]]))
  }

  /**
   * The graph LabelledRule is derived from: nodes A, B and two edges A -> B with the
   * same label, the first in "L" (with A and B), the second in "R" (with B only).
   */
  function LabelledGraph(a: Node, b: Node, tag: string): Graph
  {
    var e := EdgeAttributes(tag, []);
    Graph([a, b], [Edge(1, 0, e), Edge(1, 0, e)], [Subgraph("L", {0, 1}, {0}), Subgraph("R", {1}, {1})])
  }

  /** The side tables and the side selections of LabelledGraph. */
  lemma LabelledSides(a: Node, b: Node, tag: string)
    ensures var g, e := LabelledGraph(a, b, tag), EdgeAttributes(tag, []);
      Sides(g) == Some((g.subgraphs[0], g.subgraphs[1])) &&
      Select(g.nodes, {0, 1}) == [a, b] && Select(g.nodes, {1}) == [b] &&
      Select(Placement({0, 1}, 2, 0), {1}) == [1] && Select(Placement({1}, 2, 0), {1}) == [0] &&
      Select(Remap(g.edges, Placement({0, 1}, 2, 0)), {0}) == [Edge(1, 0, e)] &&
      Select(Remap(g.edges, Placement({1}, 2, 0)), {1}) == [Edge(0, -1, e)]
  {
    var g, e := LabelledGraph(a, b, tag), EdgeAttributes(tag, []);
    assert Placement({0, 1}, 2, 0) == [0, 1];
    assert Placement({1}, 2, 0) == [-1, 0];
    assert Remap(g.edges, [0, 1]) == [Edge(1, 0, e), Edge(1, 0, e)];
    assert Remap(g.edges, [-1, 0]) == [Edge(0, -1, e), Edge(0, -1, e)];
    SelectPair(a, b, {0, 1});
    SelectPair(a, b, {1});
    SelectPair(0, 1, {1});
    SelectPair(-1, 0, {1});
    SelectPair(Edge(1, 0, e), Edge(1, 0, e), {0});
    SelectPair(Edge(0, -1, e), Edge(0, -1, e), {1});
  }

  /** Rule derivation accepts LabelledGraph: each edge is on one side and no side repeats a label. */
  lemma LabelledDerivable(a: Node, b: Node, tag: string)
    ensures WellFormed(LabelledGraph(a, b, tag)) && Derivable(LabelledGraph(a, b, tag))
  {
    var g := LabelledGraph(a, b, tag);
    assert Sides(g) == Some((g.subgraphs[0], g.subgraphs[1]));
    assert LabelsBefore(g.edges, {0}, 0) == {};
    assert LabelsBefore(g.edges, {1}, 1) == {};
  }

  /** The rule derived from LabelledGraph is LabelledRule. */
  lemma LabelledRuleDerived(a: Node, b: Node, tag: string)
    requires tag != ""
    ensures WellFormed(LabelledGraph(a, b, tag)) && RuleFrom(LabelledGraph(a, b, tag), LabelledRule(a, b, tag))
  {
    var g, rule := LabelledGraph(a, b, tag), LabelledRule(a, b, tag);
    LabelledSides(a, b, tag);
    assert {0, 1} * {1} == {1};
    assert rule.common.edges[0] == CommonEdge(tag);
    assert CommonEdgesPaired(rule);
  }

  /** The node phases of applying LabelledRule to ExampleTarget, and the target's table. */
  lemma LabelledNodes(a: Node, b: Node, tag: string)
    ensures var rule, target := LabelledRule(a, b, tag), ExampleTarget(a, b, EdgeAttributes(tag, []));
      !WellFormed(rule.rhs) && Applicable(rule, target, ExampleMatch) &&
      ContextNodes(target, ExampleMatch) == [] && PreservedNodes(rule, target, ExampleMatch) == [b] &&
      CreatedNodes(rule) == [] && TargetToResult(rule, target, ExampleMatch) == [-1, 0]
  {
    var rule, target := LabelledRule(a, b, tag), ExampleTarget(a, b, EdgeAttributes(tag, []));
    assert rule.rhs.edges[0].tail == -1;
    assert Union([[0]]) == {0};
    assert Outside(1, {0}) == {};
    assert Elements([0, 1]) == {0, 1};
    assert Elements([0]) == {0};
    assert Untouched(target, ExampleMatch) == {};
    assert Created(rule) == {};
    SelectPair(a, b, {});
    assert [b][..0] == [];
    assert PreservedTargets(rule, target, ExampleMatch) == [1];
    assert Placement({}, 2, 0) == [-1, -1];
  }

  /** Applying LabelledRule to ExampleTarget keeps no context edge: the match claims the only one. */
  lemma LabelledContextEdges(a: Node, b: Node, tag: string)
    ensures var rule, target := LabelledRule(a, b, tag), ExampleTarget(a, b, EdgeAttributes(tag, []));
      Applicable(rule, target, ExampleMatch) && ContextEdges(rule, target, ExampleMatch) == []
  {
    var e := EdgeAttributes(tag, []);
    LabelledNodes(a, b, tag);
    assert Union([[0]]) == {0};
    assert Outside(1, {0}) == {};
    assert [Edge(1, 0, e)][..0] == [];
  }

  /** The target edge under the common edge is copied, its tail on the deleted A becoming -1. */
  lemma LabelledPreservedEdges(a: Node, b: Node, tag: string)
    ensures var rule, target := LabelledRule(a, b, tag), ExampleTarget(a, b, EdgeAttributes(tag, []));
      Applicable(rule, target, ExampleMatch) &&
      PreservedEdges(rule, target, ExampleMatch) == [Edge(0, -1, EdgeAttributes(tag, []))]
  {
    var rule, target := LabelledRule(a, b, tag), ExampleTarget(a, b, EdgeAttributes(tag, []));
    LabelledNodes(a, b, tag);
    assert LhsImages(rule, target, ExampleMatch) == [[0]];
    assert Flatten([[0]]) == [0];
    assert PreservedEdgeIds(rule, target, ExampleMatch) == [0];
    assert RemapEdge(target.edges[0], [-1, 0]) == Edge(0, -1, EdgeAttributes(tag, []));
  }

  /** LabelledRule creates no edge: its only RHS edge is under the common edge. */
  lemma LabelledCreatedEdges(a: Node, b: Node, tag: string)
    ensures var rule, target := LabelledRule(a, b, tag), ExampleTarget(a, b, EdgeAttributes(tag, []));
      Applicable(rule, target, ExampleMatch) && CreatedEdges(rule, target, ExampleMatch) == []
  {
    var e := EdgeAttributes(tag, []);
    LabelledNodes(a, b, tag);
    assert Union([[0]]) == {0};
    assert Outside(1, {0}) == {};
    assert [Edge(0, -1, e)][..0] == [];
  }

  /**
   * The rewrite never reads the endpoints of an RHS edge under a common edge, so
   * LabelledRule applies although its RHS is not well formed. The target edge A -> B
   * is copied for the common edge, and its tail, on the deleted A, becomes -1.
   */
  lemma CommonRhsEdgeUnread(a: Node, b: Node, tag: string)
    ensures !WellFormed(LabelledRule(a, b, tag).rhs)
    ensures Applicable(LabelledRule(a, b, tag), ExampleTarget(a, b, EdgeAttributes(tag, [])), ExampleMatch)
    ensures Rewritten(LabelledRule(a, b, tag), ExampleTarget(a, b, EdgeAttributes(tag, [])), ExampleMatch) ==
            Graph([b], [Edge(0, -1, EdgeAttributes(tag, []))], [])
  {
    LabelledNodes(a, b, tag);
    LabelledContextEdges(a, b, tag);
    LabelledPreservedEdges(a, b, tag);
    LabelledCreatedEdges(a, b, tag);
  }
}
