module BarnesHut {
  import opened Numerics
  import opened QuadTree

  /** BarnesHutTree: the quadtree of the last BuildTree and the statistics
      of the last build and force query. */
  class BarnesHutTree {
    var root: Option<QuadNode>
    var stats: TreeStats

    constructor ()
      ensures root == None && stats == ZeroStats
    {
      root := None;
      stats := ZeroStats;
    }

    function GetStats(): (r: TreeStats)
      reads this
      ensures r == stats
    {
      stats
    }

    /** BuildTree. No bodies: the tree is dropped and the statistics are
        left as they were. Otherwise the root square is the padded bounding
        box, every body is inserted in order, masses are aggregated and the
        statistics recounted from zero (BuiltTreeFacts says what the tree
        then holds; with no coincident bodies and no negative mass the root
        carries the list's total mass). */
    method BuildTree(pts: seq<Point>)
      modifies this
      ensures |pts| == 0 ==> root == None && stats == old(stats)
      ensures |pts| > 0 ==> root == Some(BuiltRoot(pts))
      ensures root.Some? ==>
        stats == TreeStats(NodeCount(root.value), |Bodies(root.value)|, Height(root.value), 0)
      ensures |pts| > 0 && Separated(pts) && NonNegativeMasses(pts) ==> root.value.totalMass == SumMass(pts)
    {
      if |pts| == 0 {
        root := None;
        return;
      }
      var center, size := CalculateBounds(pts);
      var t := NewNode(center, size);
      assert t == RootSquare(pts);
      BuildingStarts(pts);
      var i := 0;
      while i < |pts|
        invariant 0 <= i <= |pts| && Building(t, pts, i)
      {
        if Contains(t, pts[i].position) {
          BuildingStep(t, pts, i);
          t := Insert(t, i, pts);
        } else {
          // CalculateBounds put every body inside the root square.
          assert false;
        }
        i := i + 1;
      }
      BuildingEnds(t, pts);
      var a := Aggregate(t, pts);
      root := Some(a);
      CountFromZero(a);
      if Separated(pts) && NonNegativeMasses(pts) {
        BuiltRootMass(pts);
      }
      // The statistics restart from zero and are recounted over the new tree.
      stats := CountNodes(a, ZeroStats, 0);
    }

    /** CalculateForce: with no tree the force is zero and nothing is
        counted; otherwise the interaction counter restarts from zero and
        ends at the number of interactions of this query. */
    method CalculateForce(p: Vec2, self: nat, theta: real, G: real, sqrt: SqrtFn) returns (force: Vec2)
      modifies this
      ensures root == old(root)
      ensures root.None? ==> force == Zero && stats == old(stats)
      ensures root.Some? ==>
        var t := CalculateForceRecursive(root.value, p, self, theta, G, sqrt);
        force == t.force && stats == old(stats).(forceCalculations := t.count)
    {
      if root.None? {
        return Zero;
      }
      stats := stats.(forceCalculations := 0);
      force := CalculateForceIterative(p, self, theta, G, sqrt);
    }

    /** CalculateForceIterative: a depth-first traversal with an explicit
        stack that adds exactly the contributions the recursive definition
        prescribes, counting one interaction per point-mass term. */
    method CalculateForceIterative(p: Vec2, self: nat, theta: real, G: real, sqrt: SqrtFn) returns (force: Vec2)
      modifies this
      ensures root == old(root)
      ensures root.None? ==> force == Zero && stats == old(stats)
      ensures root.Some? ==>
        var t := CalculateForceRecursive(root.value, p, self, theta, G, sqrt);
        force == t.force && stats == old(stats).(forceCalculations := old(stats.forceCalculations) + t.count)
    {
      force := Zero;
      if root.None? || root.value.totalMass <= 0.0 {
        return;
      }
      ghost var goal := CalculateForceRecursive(root.value, p, self, theta, G, sqrt);
      var count := 0;
      var stack := [root.value];
      assert stack[..0] == [];
      PlusNoTally(goal);
      while stack != []
        invariant root == old(root) && stats == old(stats)
        invariant Plus(Tally(force, count), StackTally(stack, p, self, theta, G, sqrt)) == goal
        decreases StackNodes(stack)
      {
        var node := stack[|stack| - 1];
        ghost var acc := Tally(force, count);
        ghost var rest := stack[..|stack| - 1];
        ghost var rt := StackTally(rest, p, self, theta, G, sqrt);
        ghost var here := CalculateForceRecursive(node, p, self, theta, G, sqrt);
        StackTop(stack, p, self, theta, G, sqrt);
        StackNodesTop(stack);
        assert Plus(acc, Plus(rt, here)) == goal;
        stack := stack[..|stack| - 1];
        ForceCases(node, p, self, theta, G, sqrt);
        if node.totalMass <= 0.0 {
          PlusNoTally(rt);
          continue;
        }
        var r := Sub(node.centerOfMass, p);
        var distanceSq := Dot(r, r);
        var nodeWidthSq := node.size * node.size;
        OpeningTest(node, p, theta, r, distanceSq, nodeWidthSq);
        if nodeWidthSq < theta * theta * distanceSq {
          assert here == PointMass(node, p, G, sqrt);
        } else if node.Leaf? {
          if node.body == Some(self) {
            PlusNoTally(rt);
            continue;
          }
          assert here == PointMass(node, p, G, sqrt);
        } else {
          if |node.children| == 4 {
            stack := PushChildren(stack, node.children);
            StackOfChildren(node, p, self, theta, G, sqrt);
            StackNodesOfChildren(node);
            StackTallyAppend(rest, node.children, p, self, theta, G, sqrt);
            StackNodesAppend(rest, node.children);
          } else {
            PlusNoTally(rt);
          }
          continue;
        }
        SquaresNonNegative(r);
        PlusReorder(acc, rt, here);
        var effectiveDistSq := distanceSq + SofteningLength * SofteningLength;
        if effectiveDistSq > DivisionGuardSq {
          var invDist := 1.0 / Pow15(sqrt, effectiveDistSq);
          PointMassAdds(acc, node, p, G, sqrt, r, effectiveDistSq, invDist);
          force := Add(force, Scale(G * node.totalMass * invDist, r));
          count := count + 1;
        } else {
          // The softening term alone exceeds the division guard.
          assert false;
        }
      }
      PlusNoTally(Tally(force, count));
      stats := stats.(forceCalculations := stats.forceCalculations + count);
    }
  }

  /** The traversal's push of the four children, in order, onto the stack. */
  method PushChildren(stack: seq<QuadNode>, children: seq<QuadNode>) returns (r: seq<QuadNode>)
    requires |children| == 4
    ensures r == stack + children
  {
    r := stack;
    var k := 0;
    while k < 4
      invariant 0 <= k <= 4 && r == stack + children[..k]
    {
      assert children[..k + 1] == children[..k] + [children[k]];
      r := r + [children[k]];
      k := k + 1;
    }
    assert children[..4] == children;
  }
}
