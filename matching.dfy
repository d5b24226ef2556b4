/**
 * The backtracking matcher: every assignment of target nodes to the pattern's nodes
 * that respects node labels and has a target edge for every pattern edge. Assignments
 * need not be injective, and edge labels are not compared.
 */
module Matching {
  import opened Graphs
  import opened SearchMeasure

  /** A pattern node fits a target node when its label is empty or the same. */
  predicate Fits(p: Node, t: Node)
  {
    p.attrs.tag == "" || p.attrs.tag == t.attrs.tag
  }

  /** Some edge runs from tail to head. */
  predicate HasEdge(edges: seq<Edge>, head: int, tail: int)
  {
    exists n :: 0 <= n < |edges| && edges[n].head == head && edges[n].tail == tail
  }

  /**
   * f assigns target nodes to the first |f| pattern nodes, respecting labels, and
   * every pattern edge between two assigned nodes has a counterpart in the target.
   */
  predicate Consistent(pattern: Graph, target: Graph, f: seq<int>)
  {
    |f| <= |pattern.nodes| &&
    (forall i :: 0 <= i < |f| ==> 0 <= f[i] < |target.nodes| && Fits(pattern.nodes[i], target.nodes[f[i]])) &&
    (forall m :: 0 <= m < |pattern.edges| && 0 <= pattern.edges[m].head < |f| && 0 <= pattern.edges[m].tail < |f| ==>
       HasEdge(target.edges, f[pattern.edges[m].head], f[pattern.edges[m].tail]))
  }

  /** f is a match: a consistent assignment of every pattern node. */
  predicate IsMatch(pattern: Graph, target: Graph, f: seq<int>)
  {
    |f| == |pattern.nodes| && Consistent(pattern, target, f)
  }

  /** The ids of the edges from tail to head, in ascending order. */
  function Realizers(edges: seq<Edge>, head: int, tail: int): (r: seq<int>)
    ensures forall k :: 0 <= k < |r| ==> 0 <= r[k] < |edges| && edges[r[k]].head == head && edges[r[k]].tail == tail
    ensures forall a, b :: 0 <= a < b < |r| ==> r[a] < r[b]
  {
    if edges == [] then []
    else
      var last := |edges| - 1;
      var rest := Realizers(edges[..last], head, tail);
      if edges[last].head == head && edges[last].tail == tail then rest + [last] else rest
  }

  lemma RealizersStep(edges: seq<Edge>, head: int, tail: int, n: nat)
    requires n < |edges|
    ensures Realizers(edges[..n + 1], head, tail) ==
      Realizers(edges[..n], head, tail) + (if edges[n].head == head && edges[n].tail == tail then [n] else [])
  {
    assert edges[..n + 1][..n] == edges[..n];
  }

  /** Every edge from tail to head is listed. */
  lemma {:induction false} RealizersComplete(edges: seq<Edge>, head: int, tail: int, n: nat)
    requires n < |edges| && edges[n].head == head && edges[n].tail == tail
    ensures n in Realizers(edges, head, tail)
  {
    var last := |edges| - 1;
    if n < last {
      RealizersComplete(edges[..last], head, tail, n);
    }
  }

  /** There is an edge from tail to head exactly when the list of such edges is non-empty. */
  lemma RealizersNonEmpty(edges: seq<Edge>, head: int, tail: int)
    ensures Realizers(edges, head, tail) != [] <==> HasEdge(edges, head, tail)
  {
    var r := Realizers(edges, head, tail);
    if HasEdge(edges, head, tail) {
      var n :| 0 <= n < |edges| && edges[n].head == head && edges[n].tail == tail;
      RealizersComplete(edges, head, tail, n);
    }
    if r != [] {
      assert edges[r[0]].head == head && edges[r[0]].tail == tail;
    }
  }

  /** For every pattern edge, the target edges between the images of its endpoints. */
  function EdgeImages(pattern: Graph, target: Graph, f: seq<int>): (em: seq<seq<int>>)
    requires WellFormed(pattern) && |f| == |pattern.nodes|
    ensures |em| == |pattern.edges|
  {
    seq(|pattern.edges|, m requires 0 <= m < |pattern.edges| =>
      Realizers(target.edges, f[pattern.edges[m].head], f[pattern.edges[m].tail]))
  }

  /** In a match every pattern edge has at least one target edge realising it. */
  lemma EdgeImagesNonEmpty(pattern: Graph, target: Graph, f: seq<int>)
    requires WellFormed(pattern) && IsMatch(pattern, target, f)
    ensures forall m :: 0 <= m < |pattern.edges| ==> EdgeImages(pattern, target, f)[m] != []
  {
    forall m | 0 <= m < |pattern.edges|
      ensures EdgeImages(pattern, target, f)[m] != []
    {
      var e := pattern.edges[m];
      RealizersNonEmpty(target.edges, f[e.head], f[e.tail]);
    }
  }

  /** Pattern edge e joins node i to a node no later than i. */
  predicate Closes(e: Edge, i: int)
  {
    (e.head == i && e.tail <= i) || (e.tail == i && e.head <= i)
  }

  /** a comes strictly before b in lexicographic order. */
  predicate LexLess(a: seq<int>, b: seq<int>)
  {
    exists k :: 0 <= k < |a| && k < |b| && a[..k] == b[..k] && a[k] < b[k]
  }

  ghost predicate Found(matches: seq<GraphMapping>, f: seq<int>)
  {
    exists k :: 0 <= k < |matches| && matches[k].nodeMapping == f
  }

  /** Every recorded mapping is a match with its edge images, in increasing order. */
  ghost predicate Recorded(pattern: Graph, target: Graph, matches: seq<GraphMapping>)
    requires WellFormed(pattern)
  {
    (forall k :: 0 <= k < |matches| ==>
       IsMatch(pattern, target, matches[k].nodeMapping) &&
       matches[k].edgeMapping == EdgeImages(pattern, target, matches[k].nodeMapping)) &&
    (forall a, b :: 0 <= a < b < |matches| ==> LexLess(matches[a].nodeMapping, matches[b].nodeMapping))
  }

  ghost predicate Complete(pattern: Graph, target: Graph, matches: seq<GraphMapping>)
  {
    forall f :: IsMatch(pattern, target, f) ==> Found(matches, f)
  }

  /**
   * The search state with top frame top: its entries but the last are a consistent
   * prefix, the last is a cursor in [0, |target|], and exactly the matches before top
   * have been recorded.
   */
  ghost predicate Searching(pattern: Graph, target: Graph, top: seq<int>, matches: seq<GraphMapping>)
    requires WellFormed(pattern)
  {
    1 <= |top| <= |pattern.nodes| &&
    Consistent(pattern, target, top[..|top| - 1]) &&
    0 <= top[|top| - 1] <= |target.nodes| &&
    Recorded(pattern, target, matches) &&
    (forall k :: 0 <= k < |matches| ==> LexLess(matches[k].nodeMapping, top)) &&
    (forall f :: IsMatch(pattern, target, f) && LexLess(f, top) ==> Found(matches, f))
  }

  /** Each frame of the stack is the prefix of the top frame that ends at its cursor. */
  ghost predicate Frames(stack: seq<seq<int>>)
  {
    stack != [] &&
    (forall k :: 0 <= k < |stack| ==> |stack[k]| == k + 1) &&
    (forall k, i :: 0 <= k < |stack| && 0 <= i < |stack[k]| ==> stack[k][i] == stack[|stack| - 1][i])
  }

  function Top(stack: seq<seq<int>>): seq<int>
    requires stack != []
  {
    stack[|stack| - 1]
  }

  /**
   * The loop invariant of the matcher: while the stack is non-empty its frames are
   * prefixes of the top frame and the search is in state Searching; once it is empty,
   * every match has been recorded.
   */
  ghost predicate SearchState(pattern: Graph, target: Graph, stack: seq<seq<int>>, matches: seq<GraphMapping>)
    requires WellFormed(pattern)
  {
    if stack == [] then
      Recorded(pattern, target, matches) && Complete(pattern, target, matches)
    else
      Frames(stack) && Searching(pattern, target, Top(stack), matches) &&
      Potential(Top(stack), |pattern.nodes|, |target.nodes|) >= 0
  }

  // ---------------------------------------------------------------------------
  // Consistency of partial assignments

  lemma ConsistentPrefix(pattern: Graph, target: Graph, f: seq<int>, n: nat)
    requires Consistent(pattern, target, f) && n <= |f|
    ensures Consistent(pattern, target, f[..n])
  {
  }

  /**
   * Extending a consistent prefix by one node keeps it consistent exactly when the
   * new node fits and every pattern edge it closes has a target counterpart.
   */
  lemma ExtendConsistent(pattern: Graph, target: Graph, f: seq<int>)
    requires WellFormed(pattern) && 1 <= |f| <= |pattern.nodes|
    requires Consistent(pattern, target, f[..|f| - 1]) && 0 <= f[|f| - 1] < |target.nodes|
    ensures var i := |f| - 1;
      Consistent(pattern, target, f) <==>
        Fits(pattern.nodes[i], target.nodes[f[i]]) &&
        forall m :: 0 <= m < |pattern.edges| && Closes(pattern.edges[m], i) ==>
          HasEdge(target.edges, f[pattern.edges[m].head], f[pattern.edges[m].tail])
  {
    var i := |f| - 1;
    var es := pattern.edges;
    if Fits(pattern.nodes[i], target.nodes[f[i]]) &&
       forall m :: 0 <= m < |es| && Closes(es[m], i) ==> HasEdge(target.edges, f[es[m].head], f[es[m].tail])
    {
      forall m | 0 <= m < |es| && 0 <= es[m].head < |f| && 0 <= es[m].tail < |f|
        ensures HasEdge(target.edges, f[es[m].head], f[es[m].tail])
      {
        if !Closes(es[m], i) {
          assert f[..i][es[m].head] == f[es[m].head] && f[..i][es[m].tail] == f[es[m].tail];
        }
      }
    }
  }

  // ---------------------------------------------------------------------------
  // Lexicographic order

  /**
   * For x at least as long as top, x is below top with its cursor moved on exactly
   * when x is below top or extends it.
   */
  lemma LexAdvance(x: seq<int>, top: seq<int>)
    requires 1 <= |top| <= |x|
    ensures LexLess(x, Advance(top)) <==> LexLess(x, top) || x[..|top|] == top
  {
    if LexLess(x, Advance(top)) {
      LexAdvanceDown(x, top);
    }
    if LexLess(x, top) || x[..|top|] == top {
      LexAdvanceUp(x, top);
    }
  }

  lemma LexAdvanceDown(x: seq<int>, top: seq<int>)
    requires 1 <= |top| <= |x| && LexLess(x, Advance(top))
    ensures LexLess(x, top) || x[..|top|] == top
  {
    var d := |top| - 1;
    var t := Advance(top);
    var k :| 0 <= k < |x| && k < |t| && x[..k] == t[..k] && x[k] < t[k];
    if k < d {
      assert t[..k] == top[..k];
      assert x[k] < top[k];
    } else if x[d] < top[d] {
      assert x[..d] == top[..d];
    } else {
      assert x[..|top|] == x[..d] + [x[d]];
      assert top == top[..d] + [top[d]];
    }
  }

  lemma LexAdvanceUp(x: seq<int>, top: seq<int>)
    requires 1 <= |top| <= |x| && (LexLess(x, top) || x[..|top|] == top)
    ensures LexLess(x, Advance(top))
  {
    var d := |top| - 1;
    var t := Advance(top);
    if LexLess(x, top) {
      var k :| 0 <= k < |x| && k < |top| && x[..k] == top[..k] && x[k] < top[k];
      assert t[..k] == top[..k];
      assert x[k] < t[k];
    } else {
      assert x[..d] == top[..d] == t[..d];
      assert x[d] < t[d];
    }
  }

  /** Anything below a prefix of top is below top. */
  lemma LexPrefix(x: seq<int>, top: seq<int>, n: nat)
    requires n <= |top| && LexLess(x, top[..n])
    ensures LexLess(x, top)
  {
    var k :| 0 <= k < |x| && k < n && x[..k] == top[..n][..k] && x[k] < top[..n][k];
    assert top[..n][..k] == top[..k];
  }

  /** A sequence with no negative entry that is below top + [0] is already below top. */
  lemma LexDescend(x: seq<int>, top: seq<int>)
    requires |top| < |x| && x[|top|] >= 0 && LexLess(x, top + [0])
    ensures LexLess(x, top)
  {
    var k :| 0 <= k < |x| && k < |top| + 1 && x[..k] == (top + [0])[..k] && x[k] < (top + [0])[k];
    assert k < |top|;
    assert (top + [0])[..k] == top[..k];
  }

  // ---------------------------------------------------------------------------
  // Search steps

  lemma StartSearch(pattern: Graph, target: Graph)
    requires WellFormed(pattern) && 1 <= |pattern.nodes|
    ensures Searching(pattern, target, [0], [])
    ensures Potential([0], |pattern.nodes|, |target.nodes|) >= 0
  {
    PotentialNonnegative([0], |pattern.nodes|, |target.nodes|);
  }

  /** The top frame is inconsistent: nothing extending it is a match, so move its cursor on. */
  lemma RejectStep(pattern: Graph, target: Graph, top: seq<int>, matches: seq<GraphMapping>)
    requires WellFormed(pattern) && Searching(pattern, target, top, matches)
    requires top[|top| - 1] < |target.nodes| && !Consistent(pattern, target, top)
    ensures Searching(pattern, target, Advance(top), matches)
    ensures 0 <= Potential(Advance(top), |pattern.nodes|, |target.nodes|) < Potential(top, |pattern.nodes|, |target.nodes|)
  {
    var t := Advance(top);
    assert t[..|t| - 1] == top[..|top| - 1];
    forall k | 0 <= k < |matches|
      ensures LexLess(matches[k].nodeMapping, t)
    {
      LexAdvance(matches[k].nodeMapping, top);
    }
    forall f | IsMatch(pattern, target, f) && LexLess(f, t)
      ensures Found(matches, f)
    {
      LexAdvance(f, top);
      if f[..|top|] == top {
        ConsistentPrefix(pattern, target, f, |top|);
      }
    }
    PotentialAdvance(top, |pattern.nodes|, |target.nodes|);
    PotentialNonnegative(t, |pattern.nodes|, |target.nodes|);
  }

  lemma RecordedAppend(pattern: Graph, target: Graph, matches: seq<GraphMapping>, x: GraphMapping)
    requires WellFormed(pattern) && Recorded(pattern, target, matches)
    requires IsMatch(pattern, target, x.nodeMapping) && x.edgeMapping == EdgeImages(pattern, target, x.nodeMapping)
    requires forall k :: 0 <= k < |matches| ==> LexLess(matches[k].nodeMapping, x.nodeMapping)
    ensures Recorded(pattern, target, matches + [x])
  {
    var found := matches + [x];
    forall a, b | 0 <= a < b < |found|
      ensures LexLess(found[a].nodeMapping, found[b].nodeMapping)
    {
      if b < |matches| {
        assert found[a] == matches[a] && found[b] == matches[b];
      }
    }
  }

  /** The top frame is a complete match: record it and move its cursor on. */
  lemma RecordStep(pattern: Graph, target: Graph, top: seq<int>, matches: seq<GraphMapping>)
    requires WellFormed(pattern) && Searching(pattern, target, top, matches)
    requires IsMatch(pattern, target, top)
    ensures Searching(pattern, target, Advance(top), matches + [GraphMapping(top, EdgeImages(pattern, target, top))])
    ensures 0 <= Potential(Advance(top), |pattern.nodes|, |target.nodes|) < Potential(top, |pattern.nodes|, |target.nodes|)
  {
    var t := Advance(top);
    var found := matches + [GraphMapping(top, EdgeImages(pattern, target, top))];
    assert t[..|t| - 1] == top[..|top| - 1];
    RecordedAppend(pattern, target, matches, GraphMapping(top, EdgeImages(pattern, target, top)));
    forall k | 0 <= k < |found|
      ensures LexLess(found[k].nodeMapping, t)
    {
      LexAdvance(found[k].nodeMapping, top);
    }
    RecordComplete(pattern, target, top, matches, found);
    PotentialAdvance(top, |pattern.nodes|, |target.nodes|);
    PotentialNonnegative(t, |pattern.nodes|, |target.nodes|);
  }

  lemma RecordComplete(pattern: Graph, target: Graph, top: seq<int>, matches: seq<GraphMapping>, found: seq<GraphMapping>)
    requires WellFormed(pattern) && |top| == |pattern.nodes| >= 1
    requires forall f :: IsMatch(pattern, target, f) && LexLess(f, top) ==> Found(matches, f)
    requires |found| == |matches| + 1 && found[..|matches|] == matches && found[|matches|].nodeMapping == top
    ensures forall f :: IsMatch(pattern, target, f) && LexLess(f, Advance(top)) ==> Found(found, f)
  {
    forall f | IsMatch(pattern, target, f) && LexLess(f, Advance(top))
      ensures Found(found, f)
    {
      LexAdvance(f, top);
      if f[..|top|] == top {
        assert found[|matches|].nodeMapping == f;
      } else {
        var k :| 0 <= k < |matches| && matches[k].nodeMapping == f;
        assert found[k] == matches[k];
      }
    }
  }

  /** The top frame is a consistent proper prefix: push a frame for the next pattern node. */
  lemma DescendStep(pattern: Graph, target: Graph, top: seq<int>, matches: seq<GraphMapping>)
    requires WellFormed(pattern) && Searching(pattern, target, top, matches)
    requires |top| < |pattern.nodes| && Consistent(pattern, target, top)
    ensures Searching(pattern, target, top + [0], matches)
    ensures 0 <= Potential(top + [0], |pattern.nodes|, |target.nodes|) < Potential(top, |pattern.nodes|, |target.nodes|)
  {
    var t := top + [0];
    assert t[..|t| - 1] == top;
    forall k | 0 <= k < |matches|
      ensures LexLess(matches[k].nodeMapping, t)
    {
      LexPrefix(matches[k].nodeMapping, t, |top|);
    }
    forall f | IsMatch(pattern, target, f) && LexLess(f, t)
      ensures Found(matches, f)
    {
      LexDescend(f, top);
    }
    PotentialDescend(top, |pattern.nodes|, |target.nodes|);
    PotentialNonnegative(t, |pattern.nodes|, |target.nodes|);
  }

  /** The top frame's cursor is exhausted: pop it and move the parent's cursor on. */
  lemma BacktrackStep(pattern: Graph, target: Graph, top: seq<int>, matches: seq<GraphMapping>)
    requires WellFormed(pattern) && Searching(pattern, target, top, matches)
    requires 2 <= |top| && top[|top| - 1] >= |target.nodes|
    ensures Searching(pattern, target, Advance(top[..|top| - 1]), matches)
    ensures 0 <= Potential(Advance(top[..|top| - 1]), |pattern.nodes|, |target.nodes|) <
            Potential(top, |pattern.nodes|, |target.nodes|)
  {
    var d := |top| - 1;
    var parent := top[..d];
    var t := Advance(parent);
    ConsistentPrefix(pattern, target, parent, d - 1);
    assert t[..d - 1] == parent[..d - 1];
    forall k | 0 <= k < |matches|
      ensures LexLess(matches[k].nodeMapping, t)
    {
      var x := matches[k].nodeMapping;
      var i :| 0 <= i < |x| && i < |top| && x[..i] == top[..i] && x[i] < top[i];
      if i < d {
        assert parent[..i] == top[..i];
      } else {
        assert x[..d] == parent;
      }
      LexAdvance(x, parent);
    }
    forall f | IsMatch(pattern, target, f) && LexLess(f, t)
      ensures Found(matches, f)
    {
      LexAdvance(f, parent);
      if f[..d] == parent {
        assert f[..d] == top[..d] && f[d] < top[d];
      } else {
        LexPrefix(f, top, d);
      }
    }
    PotentialBacktrack(top, |pattern.nodes|, |target.nodes|);
    PotentialNonnegative(t, |pattern.nodes|, |target.nodes|);
  }

  /** The root frame's cursor is exhausted: every match has been recorded. */
  lemma FinishStep(pattern: Graph, target: Graph, top: seq<int>, matches: seq<GraphMapping>)
    requires WellFormed(pattern) && Searching(pattern, target, top, matches)
    requires |top| == 1 && top[0] >= |target.nodes|
    ensures Recorded(pattern, target, matches) && Complete(pattern, target, matches)
  {
    forall f | IsMatch(pattern, target, f)
      ensures Found(matches, f)
    {
      assert f[..0] == top[..0] && f[0] < top[0];
    }
  }

  // ---------------------------------------------------------------------------
  // Stack frames

  lemma FramesReplace(stack: seq<seq<int>>)
    requires Frames(stack)
    ensures Frames(stack[..|stack| - 1] + [Advance(Top(stack))])
  {
  }

  lemma FramesPush(stack: seq<seq<int>>)
    requires Frames(stack)
    ensures Frames(stack + [Top(stack) + [0]])
  {
  }

  lemma FramesPop(stack: seq<seq<int>>)
    requires Frames(stack) && |stack| >= 2
    ensures var n := |stack|;
      var s := stack[..n - 1];
      var popped := s[..n - 2] + [Advance(s[n - 2])];
      Frames(popped) && Top(popped) == Advance(Top(stack)[..n - 1])
  {
    var n := |stack|;
    assert stack[n - 2] == Top(stack)[..n - 1];
  }

  // ---------------------------------------------------------------------------
  // One iteration of the matcher's loop, on the whole stack

  /** Pop the exhausted root frame: the search is over. */
  lemma FinishFrame(pattern: Graph, target: Graph, stack: seq<seq<int>>, matches: seq<GraphMapping>)
    requires WellFormed(pattern) && |stack| == 1 && SearchState(pattern, target, stack, matches)
    requires Top(stack)[|Top(stack)| - 1] >= |target.nodes|
    ensures SearchState(pattern, target, stack[..0], matches)
  {
    FinishStep(pattern, target, Top(stack), matches);
  }

  /** Pop an exhausted frame and move its parent's cursor on. */
  lemma PopFrame(pattern: Graph, target: Graph, stack: seq<seq<int>>, matches: seq<GraphMapping>)
    requires WellFormed(pattern) && |stack| >= 2 && SearchState(pattern, target, stack, matches)
    requires Top(stack)[|Top(stack)| - 1] >= |target.nodes|
    ensures var s := stack[..|stack| - 1];
      var popped := s[..|s| - 1] + [Advance(s[|s| - 1])];
      SearchState(pattern, target, popped, matches) &&
      Potential(Top(popped), |pattern.nodes|, |target.nodes|) < Potential(Top(stack), |pattern.nodes|, |target.nodes|)
  {
    BacktrackStep(pattern, target, Top(stack), matches);
    FramesPop(stack);
  }

  /** Reject the candidate of the top frame and move its cursor on. */
  lemma RejectFrame(pattern: Graph, target: Graph, stack: seq<seq<int>>, matches: seq<GraphMapping>)
    requires WellFormed(pattern) && stack != [] && SearchState(pattern, target, stack, matches)
    requires Top(stack)[|Top(stack)| - 1] < |target.nodes| && !Consistent(pattern, target, Top(stack))
    ensures var s := stack[..|stack| - 1] + [Advance(Top(stack))];
      SearchState(pattern, target, s, matches) &&
      Potential(Top(s), |pattern.nodes|, |target.nodes|) < Potential(Top(stack), |pattern.nodes|, |target.nodes|)
  {
    RejectStep(pattern, target, Top(stack), matches);
    FramesReplace(stack);
  }

  /** Record the complete match of the top frame and move its cursor on. */
  lemma RecordFrame(pattern: Graph, target: Graph, stack: seq<seq<int>>, matches: seq<GraphMapping>)
    requires WellFormed(pattern) && stack != [] && SearchState(pattern, target, stack, matches)
    requires IsMatch(pattern, target, Top(stack))
    ensures var s := stack[..|stack| - 1] + [Advance(Top(stack))];
      SearchState(pattern, target, s, matches + [GraphMapping(Top(stack), EdgeImages(pattern, target, Top(stack)))]) &&
      Potential(Top(s), |pattern.nodes|, |target.nodes|) < Potential(Top(stack), |pattern.nodes|, |target.nodes|)
  {
    RecordStep(pattern, target, Top(stack), matches);
    FramesReplace(stack);
  }

  /** Push a frame for the next pattern node, starting at target node 0. */
  lemma PushFrame(pattern: Graph, target: Graph, stack: seq<seq<int>>, matches: seq<GraphMapping>)
    requires WellFormed(pattern) && stack != [] && SearchState(pattern, target, stack, matches)
    requires |Top(stack)| < |pattern.nodes| && Consistent(pattern, target, Top(stack))
    ensures var s := stack + [Top(stack) + [0]];
      SearchState(pattern, target, s, matches) &&
      Potential(Top(s), |pattern.nodes|, |target.nodes|) < Potential(Top(stack), |pattern.nodes|, |target.nodes|)
  {
    DescendStep(pattern, target, Top(stack), matches);
    FramesPush(stack);
  }

  // ---------------------------------------------------------------------------
  // The matcher

  /** Looks for an edge from tail to head, scanning the edges in order. */
  method SearchEdge(edges: seq<Edge>, head: int, tail: int) returns (found: bool)
    ensures found <==> HasEdge(edges, head, tail)
  {
    var n := 0;
    while n < |edges|
      invariant 0 <= n <= |edges|
      invariant forall k :: 0 <= k < n ==> !(edges[k].head == head && edges[k].tail == tail)
    {
      if edges[n].head == head && edges[n].tail == tail {
        return true;
      }
      n := n + 1;
    }
    return false;
  }

  /**
   * Checks the pattern edges that the newest assigned node closes, stopping at the
   * first one without a target counterpart.
   */
  method IncidentEdgesPresent(pattern: Graph, target: Graph, pm: seq<int>) returns (ok: bool)
    requires WellFormed(pattern) && 1 <= |pm| <= |pattern.nodes|
    ensures ok <==> forall m :: 0 <= m < |pattern.edges| && Closes(pattern.edges[m], |pm| - 1) ==>
      HasEdge(target.edges, pm[pattern.edges[m].head], pm[pattern.edges[m].tail])
  {
    var i := |pm| - 1;
    var m := 0;
    while m < |pattern.edges|
      invariant 0 <= m <= |pattern.edges|
      invariant forall k :: 0 <= k < m && Closes(pattern.edges[k], i) ==>
        HasEdge(target.edges, pm[pattern.edges[k].head], pm[pattern.edges[k].tail])
    {
      var e := pattern.edges[m];
      if e.head == i && e.tail <= i {
        var found := SearchEdge(target.edges, pm[i], pm[e.tail]);
        if !found {
          return false;
        }
      } else if e.tail == i && e.head <= i {
        var found := SearchEdge(target.edges, pm[e.head], pm[i]);
        if !found {
          return false;
        }
      }
      m := m + 1;
    }
    return true;
  }

  /** Collects, in ascending order, the ids of the edges from tail to head. */
  method CollectRealizers(edges: seq<Edge>, head: int, tail: int) returns (ids: seq<int>)
    ensures ids == Realizers(edges, head, tail)
  {
    ids := [];
    var n := 0;
    while n < |edges|
      invariant 0 <= n <= |edges|
      invariant ids == Realizers(edges[..n], head, tail)
    {
      RealizersStep(edges, head, tail, n);
      if edges[n].head == head && edges[n].tail == tail {
        ids := ids + [n];
      }
      n := n + 1;
    }
    assert edges[..n] == edges;
  }

  /** Fills in the edge images of a complete match, pattern edge by pattern edge. */
  method CollectEdgeImages(pattern: Graph, target: Graph, f: seq<int>) returns (em: seq<seq<int>>)
    requires WellFormed(pattern) && |f| == |pattern.nodes|
    ensures em == EdgeImages(pattern, target, f)
  {
    em := [];
    var m := 0;
    while m < |pattern.edges|
      invariant 0 <= m <= |pattern.edges|
      invariant em == EdgeImages(pattern, target, f)[..m]
    {
      var e := pattern.edges[m];
      var ids := CollectRealizers(target.edges, f[e.head], f[e.tail]);
      em := em + [ids];
      m := m + 1;
    }
  }

  /**
   * Enumerates the matches of pattern in target by depth-first search over an explicit
   * stack of partial assignments, the last entry of each being the candidate under test.
   */
  method FindMatches(pattern: Graph, target: Graph) returns (matches: seq<GraphMapping>)
    requires 1 <= |pattern.nodes| && WellFormed(pattern)
    ensures forall k :: 0 <= k < |matches| ==>
      IsMatch(pattern, target, matches[k].nodeMapping) &&
      matches[k].edgeMapping == EdgeImages(pattern, target, matches[k].nodeMapping)
    ensures forall a, b :: 0 <= a < b < |matches| ==> LexLess(matches[a].nodeMapping, matches[b].nodeMapping)
    ensures forall a, b :: 0 <= a < b < |matches| ==> matches[a].nodeMapping != matches[b].nodeMapping
    ensures forall f :: IsMatch(pattern, target, f) ==> Found(matches, f)
    ensures |target.nodes| == 0 ==> matches == []
  {
    var width, limit := |pattern.nodes|, |target.nodes|;
    var stack: seq<seq<int>> := [[0]];
    matches := [];
    StartSearch(pattern, target);
    while stack != []
      invariant SearchState(pattern, target, stack, matches)
      invariant limit == 0 ==> matches == []
      decreases stack != [], if stack == [] then 0 else Potential(Top(stack), width, limit)
    {
      var pm := Top(stack);
      var i := |pm| - 1;
      var j := pm[i];
      if j >= limit {
        // No candidate left for node i: pop, and move the parent's cursor on.
        if |stack| == 1 {
          FinishFrame(pattern, target, stack, matches);
        } else {
          PopFrame(pattern, target, stack, matches);
        }
        stack := stack[..|stack| - 1];
        if stack != [] {
          stack := stack[..|stack| - 1] + [Advance(stack[|stack| - 1])];
        }
        continue;
      }
      // Node i must fit node j, and the pattern edges i closes must exist in the target.
      var ok := false;
      if Fits(pattern.nodes[i], target.nodes[j]) {
        ok := IncidentEdgesPresent(pattern, target, pm);
      }
      ExtendConsistent(pattern, target, pm);
      if !ok {
        RejectFrame(pattern, target, stack, matches);
        stack := stack[..|stack| - 1] + [Advance(pm)];
        continue;
      }
      if |pm| == width {
        var em := CollectEdgeImages(pattern, target, pm);
        RecordFrame(pattern, target, stack, matches);
        matches := matches + [GraphMapping(pm, em)];
        stack := stack[..|stack| - 1] + [Advance(pm)];
      } else {
        PushFrame(pattern, target, stack, matches);
        stack := stack + [pm + [0]];
      }
    }
  }
}
