/** The Barnes-Hut quadtree (QuadTreeNode, BarnesHutTree), rebuilt from the
    bodies on every tick. A node is either a leaf holding at most one body
    or an internal node with exactly four children, one per quadrant.
    Bodies are referred to by their index in the body list; positions and
    masses are read from `pts`, the list's snapshot. */
module QuadTree {
  import opened Numerics

  const SofteningLength: real := 0.01
  const MinNodeSize: real := 0.001
  /** Two bodies closer than this (squared) are treated as coincident. */
  const CoincidentSq: real := 0.000000000001
  /** A node lighter than this keeps its geometric centre as centre of mass. */
  const MasslessBelow: real := 0.000000001
  /** The guard on the softened squared distance before dividing by it. */
  const DivisionGuardSq: real := 0.000000000001

  /** A body as the tree sees it. */
  datatype Point = Point(position: Vec2, mass: real)

  /** QuadTreeNode; the `Leaf?` discriminator is the node's isLeaf flag. */
  datatype QuadNode =
    | Leaf(center: Vec2, size: real, totalMass: real, centerOfMass: Vec2, body: Option<nat>)
    | Internal(center: Vec2, size: real, totalMass: real, centerOfMass: Vec2, children: seq<QuadNode>)

  datatype TreeStats = TreeStats(totalNodes: int, leafNodes: int, maxDepth: int, forceCalculations: int)

  const ZeroStats: TreeStats := TreeStats(0, 0, 0, 0)

  // ---------------------------------------------------------------- geometry

  /** Contains: the closed square of side `size` centred on `center`. */
  predicate InSquare(center: Vec2, size: real, p: Vec2) {
    var half := size * 0.5;
    center.x - half <= p.x <= center.x + half && center.y - half <= p.y <= center.y + half
  }

  predicate Contains(n: QuadNode, p: Vec2) {
    InSquare(n.center, n.size, p)
  }

  /** GetQuadrant: bit 0 is set iff the point is east of the centre, bit 1
      iff it is north; a point on a dividing line goes west or south. */
  function GetQuadrant(center: Vec2, p: Vec2): (q: int)
    ensures 0 <= q < 4
    ensures (q == 1 || q == 3) <==> p.x > center.x
    ensures q >= 2 <==> p.y > center.y
  {
    (if p.x > center.x then 1 else 0) + (if p.y > center.y then 2 else 0)
  }

  /** GetChildCenter: a quarter of the side towards the quadrant's corner. */
  function GetChildCenter(center: Vec2, size: real, q: int): Vec2
    requires 0 <= q < 4
  {
    var quarter := size * 0.25;
    Vec2(center.x + (if q == 1 || q == 3 then quarter else -quarter),
         center.y + (if q >= 2 then quarter else -quarter))
  }

  /** A point of a square lies in the half-size child square of the
      quadrant GetQuadrant routes it to. */
  lemma ChildContains(center: Vec2, size: real, p: Vec2)
    requires 0.0 <= size && InSquare(center, size, p)
    ensures InSquare(GetChildCenter(center, size, GetQuadrant(center, p)), size * 0.5, p)
  {
  }

  /** A new QuadTreeNode: a leaf with no body and zero mass. */
  function NewNode(center: Vec2, size: real): (n: QuadNode)
    ensures n.Leaf? && n.body == None && n.totalMass == 0.0 && n.centerOfMass == Zero
    ensures n.center == center && n.size == size
  {
    Leaf(center, size, 0.0, Zero, None)
  }

  /** Subdivide: four new half-size leaves, one per quadrant. */
  function Subdivide(center: Vec2, size: real): (cs: seq<QuadNode>)
    ensures |cs| == 4
    ensures forall q :: 0 <= q < 4 ==>
      cs[q] == NewNode(GetChildCenter(center, size, q), size * 0.5)
  {
    seq(4, q requires 0 <= q < 4 => NewNode(GetChildCenter(center, size, q), size * 0.5))
  }

  // --------------------------------------------------------------- structure

  /** The structural invariant the builder keeps: positive sizes; a leaf's
      body is a valid index whose position the leaf contains; an internal
      node has no body and exactly four children, each the half-size square
      of its own quadrant. */
  ghost predicate WellFormed(n: QuadNode, pts: seq<Point>)
    decreases n
  {
    match n
    case Leaf(_, s, _, _, b) =>
      && 0.0 < s
      && (b.Some? ==> b.value < |pts| && Contains(n, pts[b.value].position))
    case Internal(c, s, _, _, cs) =>
      && 0.0 < s
      && |cs| == 4
      && (forall q :: 0 <= q < 4 ==> cs[q].center == GetChildCenter(c, s, q) && cs[q].size == s * 0.5)
      && (forall q :: 0 <= q < 4 ==> WellFormed(cs[q], pts))
  }

  /** The bodies stored in a subtree. */
  function Bodies(n: QuadNode): multiset<nat>
    decreases n
  {
    match n
    case Leaf(_, _, _, _, b) => if b.Some? then multiset{b.value} else multiset{}
    case Internal(_, _, _, _, cs) =>
      if |cs| == 4 then Bodies(cs[0]) + Bodies(cs[1]) + Bodies(cs[2]) + Bodies(cs[3]) else multiset{}
  }

  /** The sum of the masses of the bodies stored in a subtree. */
  function MassOf(n: QuadNode, pts: seq<Point>): real
    decreases n
  {
    match n
    case Leaf(_, _, _, _, b) => if b.Some? && b.value < |pts| then pts[b.value].mass else 0.0
    case Internal(_, _, _, _, cs) =>
      if |cs| == 4 then MassOf(cs[0], pts) + MassOf(cs[1], pts) + MassOf(cs[2], pts) + MassOf(cs[3], pts)
      else 0.0
  }

  /** Replacing one of four children changes the stored bodies and mass of
      the parent by exactly the child's change. */
  lemma ReplaceChild(n: QuadNode, q: int, x: QuadNode, pts: seq<Point>, added: multiset<nat>, mass: real)
    requires n.Internal? && |n.children| == 4 && 0 <= q < 4
    requires Bodies(x) == Bodies(n.children[q]) + added
    requires MassOf(x, pts) == MassOf(n.children[q], pts) + mass
    ensures Bodies(n.(children := n.children[q := x])) == Bodies(n) + added
    ensures MassOf(n.(children := n.children[q := x]), pts) == MassOf(n, pts) + mass
  {
    ReplaceChildBodies(n, q, x, added);
    ReplaceChildMass(n, q, x, pts, mass);
  }

  lemma ReplaceChildBodies(n: QuadNode, q: int, x: QuadNode, added: multiset<nat>)
    requires n.Internal? && |n.children| == 4 && 0 <= q < 4
    requires Bodies(x) == Bodies(n.children[q]) + added
    ensures Bodies(n.(children := n.children[q := x])) == Bodies(n) + added
  {
    var cs, ds := n.children, n.children[q := x];
    BodiesInternal(n);
    BodiesInternal(n.(children := ds));
    var a, b, c, d := Bodies(cs[0]), Bodies(cs[1]), Bodies(cs[2]), Bodies(cs[3]);
    var a', b', c', d' := Bodies(ds[0]), Bodies(ds[1]), Bodies(ds[2]), Bodies(ds[3]);
    UnionGrows(a, b, c, d, added);
    if q == 0 {
      assert a' == a + added && b' == b && c' == c && d' == d;
    } else if q == 1 {
      assert a' == a && b' == b + added && c' == c && d' == d;
    } else if q == 2 {
      assert a' == a && b' == b && c' == c + added && d' == d;
    } else {
      assert a' == a && b' == b && c' == c && d' == d + added;
    }
  }

  lemma ReplaceChildMass(n: QuadNode, q: int, x: QuadNode, pts: seq<Point>, mass: real)
    requires n.Internal? && |n.children| == 4 && 0 <= q < 4
    requires MassOf(x, pts) == MassOf(n.children[q], pts) + mass
    ensures MassOf(n.(children := n.children[q := x]), pts) == MassOf(n, pts) + mass
  {
    var cs, ds := n.children, n.children[q := x];
    MassInternal(n, pts);
    MassInternal(n.(children := ds), pts);
    var a, b, c, d := MassOf(cs[0], pts), MassOf(cs[1], pts), MassOf(cs[2], pts), MassOf(cs[3], pts);
    var a', b', c', d' := MassOf(ds[0], pts), MassOf(ds[1], pts), MassOf(ds[2], pts), MassOf(ds[3], pts);
    if q == 0 {
      assert a' == a + mass && b' == b && c' == c && d' == d;
    } else if q == 1 {
      assert a' == a && b' == b + mass && c' == c && d' == d;
    } else if q == 2 {
      assert a' == a && b' == b && c' == c + mass && d' == d;
    } else {
      assert a' == a && b' == b && c' == c && d' == d + mass;
    }
  }

  /** The bodies of an internal node are those of its four children. */
  lemma BodiesInternal(n: QuadNode)
    requires n.Internal? && |n.children| == 4
    ensures Bodies(n) == Bodies(n.children[0]) + Bodies(n.children[1]) + Bodies(n.children[2]) + Bodies(n.children[3])
  {
  }

  /** The stored mass of an internal node is that of its four children. */
  lemma MassInternal(n: QuadNode, pts: seq<Point>)
    requires n.Internal? && |n.children| == 4
    ensures MassOf(n, pts) == MassOf(n.children[0], pts) + MassOf(n.children[1], pts) + MassOf(n.children[2], pts) + MassOf(n.children[3], pts)
  {
  }

  /** Adding to any one of four parts adds to their union. */
  lemma UnionGrows(a: multiset<nat>, b: multiset<nat>, c: multiset<nat>, d: multiset<nat>, e: multiset<nat>)
    ensures (a + e) + b + c + d == a + b + c + d + e
    ensures a + (b + e) + c + d == a + b + c + d + e
    ensures a + b + (c + e) + d == a + b + c + d + e
    ensures a + b + c + (d + e) == a + b + c + d + e
  {
  }

  /** Replacing a child by a well-formed node with the same frame keeps
      the parent well-formed. */
  lemma ReplacedWellFormed(n: QuadNode, q: int, x: QuadNode, pts: seq<Point>)
    requires n.Internal? && WellFormed(n, pts) && 0 <= q < 4
    requires WellFormed(x, pts) && x.center == n.children[q].center && x.size == n.children[q].size
    ensures WellFormed(n.(children := n.children[q := x]), pts)
  {
  }

  lemma ChildBodiesIncluded(n: QuadNode, q: int)
    requires n.Internal? && |n.children| == 4 && 0 <= q < 4
    ensures Bodies(n.children[q]) <= Bodies(n)
  {
    var cs := n.children;
    BodiesInternal(n);
    var a, b, c, d := Bodies(cs[0]), Bodies(cs[1]), Bodies(cs[2]), Bodies(cs[3]);
    UnionIncludesParts(a, b, c, d);
    if q == 0 {
      assert Bodies(cs[q]) == a;
    } else if q == 1 {
      assert Bodies(cs[q]) == b;
    } else if q == 2 {
      assert Bodies(cs[q]) == c;
    } else {
      assert Bodies(cs[q]) == d;
    }
  }

  lemma UnionIncludesParts(a: multiset<nat>, b: multiset<nat>, c: multiset<nat>, d: multiset<nat>)
    ensures a <= a + b + c + d && b <= a + b + c + d && c <= a + b + c + d && d <= a + b + c + d
  {
  }

  predicate Coincident(a: Vec2, b: Vec2) {
    var delta := Sub(a, b);
    Dot(delta, delta) < CoincidentSq
  }

  // ------------------------------------------------------------- termination

  /** Two points of the same square of side s are at most 2 s^2 apart
      (squared). */
  lemma SquareSpread(center: Vec2, s: real, a: Vec2, b: Vec2)
    requires 0.0 <= s && InSquare(center, s, a) && InSquare(center, s, b)
    ensures Dot(Sub(a, b), Sub(a, b)) <= 2.0 * (s * s)
  {
    SquareBound(a.x - b.x, s);
    SquareBound(a.y - b.y, s);
  }

  lemma SquareBound(d: real, s: real)
    requires -s <= d <= s
    ensures d * d <= s * s
  {
    var u, v := s - d, s + d;
    assert 0.0 <= u * v;
    assert u * v == s * s - d * d;
  }

  /** The insertion measure: how many halvings remain before a square can
      no longer hold two bodies that are not coincident. */
  function Measure(s: real): nat {
    var x := s * s * 2000000000000.0;
    if x < 0.0 then 0 else x.Floor
  }

  lemma MeasureHalves(s: real)
    requires 0.0 < s
    ensures Measure(s * 0.5) <= Measure(s)
    ensures 1 <= Measure(s) ==> Measure(s * 0.5) < Measure(s)
  {
    var x := s * s * 2000000000000.0;
    var y := (s * 0.5) * (s * 0.5) * 2000000000000.0;
    assert y == x * 0.25;
    SquarePositive(s);
    assert 0.0 <= x;
  }

  // --------------------------------------------------------------- insertion

  /** InsertBody. A body outside the node is ignored. An empty leaf stores
      it. An occupied leaf drops it when it coincides with the occupant;
      otherwise the leaf becomes internal, is subdivided, and the occupant
      and then the new body are inserted into their quadrants. An internal
      node passes the body to its quadrant's child. Insertion keeps the tree
      well formed and the node's frame; what it stores is InsertStores. */
  function Insert(n: QuadNode, b: nat, pts: seq<Point>): (r: QuadNode)
    requires WellFormed(n, pts) && b < |pts|
    ensures WellFormed(r, pts) && SameFrame(r, n)
    decreases Measure(n.size), n, 1
  {
    var p := pts[b].position;
    if !Contains(n, p) then n
    else if n.Leaf? then
      if n.body.None? then n.(body := Some(b))
      else if Coincident(pts[n.body.value].position, p) then n
      else Split(n, b, pts)
    else
      MeasureHalves(n.size);
      Descend(n, b, pts)
  }

  /** The fields insertion never changes. */
  predicate SameFrame(r: QuadNode, n: QuadNode) {
    r.center == n.center && r.size == n.size && r.totalMass == n.totalMass && r.centerOfMass == n.centerOfMass
  }

  /** The occupied-leaf case of InsertBody: the leaf becomes internal, is
      subdivided, and the occupant and then the new body go to their
      quadrants, as an internal node passes any body on. */
  function Split(n: QuadNode, b: nat, pts: seq<Point>): (r: QuadNode)
    requires n.Leaf? && WellFormed(n, pts) && b < |pts| && n.body.Some?
    requires Contains(n, pts[b].position) && !Coincident(pts[n.body.value].position, pts[b].position)
    ensures r.Internal? && WellFormed(r, pts) && SameFrame(r, n)
    decreases Measure(n.size), n, 0
  {
    SplitTerminates(n, n.body.value, b, pts);
    Descend(Descend(Subdivided(n, pts), n.body.value, pts), b, pts)
  }

  /** The occupied leaf turned internal with four fresh empty children;
      it keeps its frame and stores nothing yet. */
  function Subdivided(n: QuadNode, pts: seq<Point>): (t: QuadNode)
    requires n.Leaf? && WellFormed(n, pts)
    ensures t.Internal? && WellFormed(t, pts) && SameFrame(t, n)
    ensures Bodies(t) == multiset{} && MassOf(t, pts) == 0.0
  {
    var t := Internal(n.center, n.size, n.totalMass, n.centerOfMass, Subdivide(n.center, n.size));
    FreshChildrenEmpty(t, pts);
    t
  }

  /** The internal-node case of InsertBody: pass the body to the child of
      its quadrant. */
  function Descend(n: QuadNode, b: nat, pts: seq<Point>): (r: QuadNode)
    requires n.Internal? && WellFormed(n, pts) && b < |pts| && Contains(n, pts[b].position)
    ensures r.Internal? && WellFormed(r, pts) && SameFrame(r, n)
    decreases Measure(n.size * 0.5), n, 0
  {
    var c, s, cs := n.center, n.size, n.children;
    var q := GetQuadrant(c, pts[b].position);
    var child := Insert(cs[q], b, pts);
    if child == cs[q] then
      n
    else
      ReplacedWellFormed(n, q, child, pts);
      n.(children := cs[q := child])
  }

  /** What insertion stores: either the body in addition to everything
      stored before (with its mass), or nothing new, and the latter only
      when the body lies outside the node or coincides with a body already
      stored. */
  lemma {:induction false} InsertStores(n: QuadNode, b: nat, pts: seq<Point>)
    requires WellFormed(n, pts) && b < |pts|
    ensures var r := Insert(n, b, pts);
      r == n || (Bodies(r) == Bodies(n) + multiset{b} && MassOf(r, pts) == MassOf(n, pts) + pts[b].mass)
    ensures Insert(n, b, pts) == n ==>
      !Contains(n, pts[b].position) || exists j :: j in Bodies(n) && j < |pts| && Coincident(pts[j].position, pts[b].position)
    decreases Measure(n.size), n, 1
  {
    var p := pts[b].position;
    if !Contains(n, p) {
    } else if n.Leaf? {
      if n.body.None? {
      } else if Coincident(pts[n.body.value].position, p) {
        assert n.body.value in Bodies(n);
      } else {
        SplitStores(n, b, pts);
      }
    } else {
      MeasureHalves(n.size);
      DescendStores(n, b, pts);
    }
  }

  /** Splitting stores both the occupant and the new body. */
  lemma {:induction false} SplitStores(n: QuadNode, b: nat, pts: seq<Point>)
    requires n.Leaf? && WellFormed(n, pts) && b < |pts| && n.body.Some?
    requires Contains(n, pts[b].position) && !Coincident(pts[n.body.value].position, pts[b].position)
    ensures Bodies(Split(n, b, pts)) == Bodies(n) + multiset{b}
    ensures MassOf(Split(n, b, pts), pts) == MassOf(n, pts) + pts[b].mass
    decreases Measure(n.size), n, 0
  {
    var e := n.body.value;
    SplitTerminates(n, e, b, pts);
    var t0 := Subdivided(n, pts);
    var t1 := Descend(t0, e, pts);
    DescendStores(t0, e, pts);
    var t2 := Descend(t1, b, pts);
    DescendStores(t1, b, pts);
    assert Split(n, b, pts) == t2;
  }

  /** Passing a body on to a child stores it there, or stores nothing new
      when it coincides with a body already stored in that child. */
  lemma {:induction false} DescendStores(n: QuadNode, b: nat, pts: seq<Point>)
    requires n.Internal? && WellFormed(n, pts) && b < |pts| && Contains(n, pts[b].position)
    ensures var r := Descend(n, b, pts);
      r == n || (Bodies(r) == Bodies(n) + multiset{b} && MassOf(r, pts) == MassOf(n, pts) + pts[b].mass)
    ensures Descend(n, b, pts) == n ==>
      exists j :: j in Bodies(n) && j < |pts| && Coincident(pts[j].position, pts[b].position)
    decreases Measure(n.size * 0.5), n, 0
  {
    var c, s, cs := n.center, n.size, n.children;
    var q := GetQuadrant(c, pts[b].position);
    var child := Insert(cs[q], b, pts);
    InsertStores(cs[q], b, pts);
    ChildContains(c, s, pts[b].position);
    assert Contains(cs[q], pts[b].position);
    if child == cs[q] {
      ChildBodiesIncluded(n, q);
    } else {
      ReplaceChild(n, q, child, pts, multiset{b}, pts[b].mass);
    }
  }

  /** Splitting an occupied leaf recurses only into strictly smaller
      measures: both bodies are inside and not coincident. */
  lemma SplitTerminates(n: QuadNode, e: nat, b: nat, pts: seq<Point>)
    requires n.Leaf? && WellFormed(n, pts) && b < |pts| && n.body == Some(e)
    requires Contains(n, pts[b].position) && !Coincident(pts[e].position, pts[b].position)
    ensures Measure(n.size * 0.5) < Measure(n.size)
  {
    SquareSpread(n.center, n.size, pts[e].position, pts[b].position);
    MeasureHalves(n.size);
    var x := n.size * n.size * 2000000000000.0;
    assert 1.0 <= x;
  }

  lemma FreshChildrenEmpty(t: QuadNode, pts: seq<Point>)
    requires t.Internal? && |t.children| == 4
    requires forall q :: 0 <= q < 4 ==> t.children[q].Leaf? && t.children[q].body == None
    ensures Bodies(t) == multiset{} && MassOf(t, pts) == 0.0
    ensures (&& 0.0 < t.size
             && forall q :: 0 <= q < 4 ==>
                  t.children[q].size == t.size * 0.5 && t.children[q].center == GetChildCenter(t.center, t.size, q))
            ==> WellFormed(t, pts)
  {
    var cs := t.children;
    assert Bodies(cs[0]) == Bodies(cs[1]) == Bodies(cs[2]) == Bodies(cs[3]) == multiset{};
    assert MassOf(cs[0], pts) == MassOf(cs[1], pts) == MassOf(cs[2], pts) == MassOf(cs[3], pts) == 0.0;
  }


  // ------------------------------------------------------------- aggregation

  /** A child's share of its parent's mass: only positive masses count. */
  function PositiveMass(k: QuadNode): real {
    if k.totalMass > 0.0 then k.totalMass else 0.0
  }

  function WeightedPosition(k: QuadNode): Vec2 {
    if k.totalMass > 0.0 then Scale(k.totalMass, k.centerOfMass) else Zero
  }

  function ChildMass(cs: seq<QuadNode>): real
    requires |cs| == 4
  {
    PositiveMass(cs[0]) + PositiveMass(cs[1]) + PositiveMass(cs[2]) + PositiveMass(cs[3])
  }

  function ChildWeightedSum(cs: seq<QuadNode>): Vec2
    requires |cs| == 4
  {
    Add(Add(Add(WeightedPosition(cs[0]), WeightedPosition(cs[1])), WeightedPosition(cs[2])), WeightedPosition(cs[3]))
  }

  /** The centre of mass an internal node gets from its mass and weighted
      position sum: their quotient, or the geometric centre when the node
      is (nearly) massless. */
  function CentreOfMass(center: Vec2, mass: real, weighted: Vec2): Vec2 {
    if mass > MasslessBelow then DivBy(weighted, mass) else center
  }

  /** Every node's mass and centre of mass are those UpdateMassAndCenter
      assigns: a leaf carries its body's mass and position (or zero), an
      internal node the sum of its children's positive masses and the
      centre of mass derived from them. */
  ghost predicate Aggregated(n: QuadNode, pts: seq<Point>)
    decreases n
  {
    match n
    case Leaf(_, _, m, com, b) =>
      if b.Some? then b.value < |pts| && m == pts[b.value].mass && com == pts[b.value].position
      else m == 0.0 && com == Zero
    case Internal(c, _, m, com, cs) =>
      && |cs| == 4
      && (forall q :: 0 <= q < 4 ==> Aggregated(cs[q], pts))
      && m == ChildMass(cs)
      && com == CentreOfMass(c, m, ChildWeightedSum(cs))
  }

  /** UpdateMassAndCenter, post-order: the children first, then the node. */
  function Aggregate(n: QuadNode, pts: seq<Point>): (r: QuadNode)
    requires WellFormed(n, pts)
    ensures r.center == n.center && r.size == n.size && r.Leaf? == n.Leaf?
    ensures r.Internal? ==>
              |r.children| == 4 && forall q :: 0 <= q < 4 ==> r.children[q] == Aggregate(n.children[q], pts)
    decreases n
  {
    match n
    case Leaf(c, s, _, _, b) =>
      if b.Some? then Leaf(c, s, pts[b.value].mass, pts[b.value].position, b) else Leaf(c, s, 0.0, Zero, b)
    case Internal(c, s, _, _, cs) =>
      var ks := seq(4, q requires 0 <= q < 4 => Aggregate(cs[q], pts));
      var mass := ChildMass(ks);
      Internal(c, s, mass, CentreOfMass(c, mass, ChildWeightedSum(ks)), ks)
  }

  /** Aggregation keeps the tree well formed. */
  lemma {:induction false} AggregateWellFormed(n: QuadNode, pts: seq<Point>)
    requires WellFormed(n, pts)
    ensures WellFormed(Aggregate(n, pts), pts)
    decreases n
  {
    match n
    case Leaf(_, _, _, _, _) =>
    case Internal(c, s, _, _, cs) =>
      var ks := Aggregate(n, pts).children;
      forall q | 0 <= q < 4
        ensures WellFormed(ks[q], pts)
      {
        AggregateWellFormed(cs[q], pts);
      }
  }

  /** Aggregation keeps the bodies each subtree stores. */
  lemma {:induction false} AggregateKeepsBodies(n: QuadNode, pts: seq<Point>)
    requires WellFormed(n, pts)
    ensures Bodies(Aggregate(n, pts)) == Bodies(n)
    decreases n
  {
    match n
    case Leaf(_, _, _, _, _) =>
    case Internal(c, s, _, _, cs) =>
      var ks := Aggregate(n, pts).children;
      forall q | 0 <= q < 4
        ensures Bodies(ks[q]) == Bodies(cs[q])
      {
        AggregateKeepsBodies(cs[q], pts);
      }
  }

  /** Aggregation keeps the stored bodies, so the sum of their masses. */
  lemma {:induction false} AggregateKeepsMassOf(n: QuadNode, pts: seq<Point>)
    requires WellFormed(n, pts)
    ensures MassOf(Aggregate(n, pts), pts) == MassOf(n, pts)
    decreases n
  {
    match n
    case Leaf(_, _, _, _, _) =>
    case Internal(c, s, _, _, cs) =>
      var ks := Aggregate(n, pts).children;
      forall q | 0 <= q < 4
        ensures MassOf(ks[q], pts) == MassOf(cs[q], pts)
      {
        AggregateKeepsMassOf(cs[q], pts);
      }
  }

  /** After aggregation every node carries the mass and centre of mass
      UpdateMassAndCenter assigns it. */
  lemma {:induction false} AggregateIsAggregated(n: QuadNode, pts: seq<Point>)
    requires WellFormed(n, pts)
    ensures Aggregated(Aggregate(n, pts), pts)
    decreases n
  {
    match n
    case Leaf(_, _, _, _, _) =>
    case Internal(c, s, _, _, cs) =>
      var r := Aggregate(n, pts);
      var ks := r.children;
      forall q | 0 <= q < 4
        ensures Aggregated(ks[q], pts)
      {
        AggregateIsAggregated(cs[q], pts);
      }
  }

  predicate NonNegativeMasses(pts: seq<Point>) {
    forall k :: 0 <= k < |pts| ==> 0.0 <= pts[k].mass
  }

  /** With no negative masses, an aggregated node's mass is the sum of the
      masses of the bodies stored below it. */
  lemma {:induction false} AggregatedMassIsStoredMass(n: QuadNode, pts: seq<Point>)
    requires WellFormed(n, pts) && Aggregated(n, pts) && NonNegativeMasses(pts)
    ensures n.totalMass == MassOf(n, pts) && 0.0 <= n.totalMass
    decreases n
  {
    match n
    case Leaf(_, _, _, _, _) =>
    case Internal(_, _, _, _, cs) =>
      forall q | 0 <= q < 4
        ensures cs[q].totalMass == MassOf(cs[q], pts) && 0.0 <= cs[q].totalMass
      {
        AggregatedMassIsStoredMass(cs[q], pts);
      }
  }

  /** An internal node's aggregated mass is never negative, whatever the
      bodies' masses. */
  lemma InternalMassNonNegative(n: QuadNode, pts: seq<Point>)
    requires n.Internal? && Aggregated(n, pts)
    ensures 0.0 <= n.totalMass
  {
  }

  // ------------------------------------------------------------- statistics

  function NodeCount(n: QuadNode): nat
    decreases n
  {
    match n
    case Leaf(_, _, _, _, _) => 1
    case Internal(_, _, _, _, cs) =>
      if |cs| == 4 then 1 + NodeCount(cs[0]) + NodeCount(cs[1]) + NodeCount(cs[2]) + NodeCount(cs[3]) else 1
  }

  function InternalCount(n: QuadNode): nat
    decreases n
  {
    match n
    case Leaf(_, _, _, _, _) => 0
    case Internal(_, _, _, _, cs) =>
      if |cs| == 4 then 1 + InternalCount(cs[0]) + InternalCount(cs[1]) + InternalCount(cs[2]) + InternalCount(cs[3]) else 1
  }

  /** The larger of two depths. */
  function Deeper(a: int, b: int): int {
    if a < b then b else a
  }

  /** The depth of the deepest node below n, n itself at depth 0. */
  function Height(n: QuadNode): nat
    decreases n
  {
    match n
    case Leaf(_, _, _, _, _) => 0
    case Internal(_, _, _, _, cs) =>
      if |cs| == 4 then 1 + Deeper(Deeper(Height(cs[0]), Height(cs[1])), Deeper(Height(cs[2]), Height(cs[3]))) else 0
  }

  /** The statistics once a node at `depth` has been visited. */
  function Enter(st: TreeStats, depth: int): TreeStats {
    st.(totalNodes := st.totalNodes + 1, maxDepth := Deeper(st.maxDepth, depth))
  }

  /** CountNodes: visits the subtree pre-order, counting every node,
      every leaf that holds a body, and the deepest depth reached. */
  function CountNodes(n: QuadNode, st: TreeStats, depth: int): TreeStats
    decreases n
  {
    var st1 := Enter(st, depth);
    match n
    case Leaf(_, _, _, _, b) =>
      if b.Some? then st1.(leafNodes := st1.leafNodes + 1) else st1
    case Internal(_, _, _, _, cs) =>
      if |cs| == 4 then
        var d := depth + 1;
        CountNodes(cs[3], CountNodes(cs[2], CountNodes(cs[1], CountNodes(cs[0], st1, d), d), d), d)
      else st1
  }

  /** CountNodes adds one to totalNodes for every node below n. */
  lemma {:induction false} CountNodesTotal(n: QuadNode, st: TreeStats, depth: int)
    ensures CountNodes(n, st, depth).totalNodes == st.totalNodes + NodeCount(n)
    decreases n
  {
    match n
    case Leaf(_, _, _, _, _) =>
    case Internal(_, _, _, _, cs) =>
      if |cs| == 4 {
        var st1 := Enter(st, depth);
        var d := depth + 1;
        var r0 := CountNodes(cs[0], st1, d);
        var r1 := CountNodes(cs[1], r0, d);
        var r2 := CountNodes(cs[2], r1, d);
        CountNodesTotal(cs[0], st1, d);
        CountNodesTotal(cs[1], r0, d);
        CountNodesTotal(cs[2], r1, d);
        CountNodesTotal(cs[3], r2, d);
        assert CountNodes(n, st, depth) == CountNodes(cs[3], r2, d);
      }
  }

  /** CountNodes adds one to leafNodes for every leaf below n that holds a body. */
  lemma {:induction false} CountNodesLeaves(n: QuadNode, st: TreeStats, depth: int)
    ensures CountNodes(n, st, depth).leafNodes == st.leafNodes + |Bodies(n)|
    decreases n
  {
    match n
    case Leaf(_, _, _, _, b) =>
      assert CountNodes(n, st, depth) == if b.Some? then Enter(st, depth).(leafNodes := st.leafNodes + 1) else Enter(st, depth);
    case Internal(_, _, _, _, cs) =>
      if |cs| == 4 {
        var st1 := Enter(st, depth);
        var d := depth + 1;
        var r0 := CountNodes(cs[0], st1, d);
        var r1 := CountNodes(cs[1], r0, d);
        var r2 := CountNodes(cs[2], r1, d);
        CountNodesLeaves(cs[0], st1, d);
        CountNodesLeaves(cs[1], r0, d);
        CountNodesLeaves(cs[2], r1, d);
        CountNodesLeaves(cs[3], r2, d);
        CardOfFour(Bodies(cs[0]), Bodies(cs[1]), Bodies(cs[2]), Bodies(cs[3]));
        assert Bodies(n) == Bodies(cs[0]) + Bodies(cs[1]) + Bodies(cs[2]) + Bodies(cs[3]);
        assert CountNodes(n, st, depth) == CountNodes(cs[3], r2, d);
      }
  }

  lemma CardOfFour(a: multiset<nat>, b: multiset<nat>, c: multiset<nat>, d: multiset<nat>)
    ensures |a + b + c + d| == |a| + |b| + |c| + |d|
  {
  }

  /** CountNodes leaves the interaction counter alone. */
  lemma {:induction false} CountNodesKeepsForceCount(n: QuadNode, st: TreeStats, depth: int)
    ensures CountNodes(n, st, depth).forceCalculations == st.forceCalculations
    decreases n
  {
    match n
    case Leaf(_, _, _, _, _) =>
    case Internal(_, _, _, _, cs) =>
      if |cs| == 4 {
        var st1 := Enter(st, depth);
        var d := depth + 1;
        var r0 := CountNodes(cs[0], st1, d);
        var r1 := CountNodes(cs[1], r0, d);
        var r2 := CountNodes(cs[2], r1, d);
        CountNodesKeepsForceCount(cs[0], st1, d);
        CountNodesKeepsForceCount(cs[1], r0, d);
        CountNodesKeepsForceCount(cs[2], r1, d);
        CountNodesKeepsForceCount(cs[3], r2, d);
        assert CountNodes(n, st, depth) == CountNodes(cs[3], r2, d);
      }
  }

  /** CountNodes records the depth of the deepest node it visits. */
  lemma {:induction false} CountNodesDepth(n: QuadNode, st: TreeStats, depth: int)
    ensures CountNodes(n, st, depth).maxDepth == Deeper(st.maxDepth, depth + Height(n))
    decreases n, 1
  {
    match n
    case Leaf(_, _, _, _, _) =>
    case Internal(_, _, _, _, cs) =>
      if |cs| == 4 {
        var st1 := Enter(st, depth);
        assert CountNodes(n, st, depth) == CountNodes(cs[3], CountNodes(cs[2], CountNodes(cs[1], CountNodes(cs[0], st1, depth + 1), depth + 1), depth + 1), depth + 1);
        assert Height(n) == 1 + Deeper(Deeper(Height(cs[0]), Height(cs[1])), Deeper(Height(cs[2]), Height(cs[3])));
        ChildrenDepth(n, cs[0], cs[1], cs[2], cs[3], st1, depth + 1);
      }
  }

  /** The running maximum over the four children's subtrees, visited in
      order at depth d. */
  lemma {:induction false} ChildrenDepth(n: QuadNode, c0: QuadNode, c1: QuadNode, c2: QuadNode, c3: QuadNode, st: TreeStats, d: int)
    requires c0 < n && c1 < n && c2 < n && c3 < n
    ensures CountNodes(c3, CountNodes(c2, CountNodes(c1, CountNodes(c0, st, d), d), d), d).maxDepth
      == Deeper(st.maxDepth, d + Deeper(Deeper(Height(c0), Height(c1)), Deeper(Height(c2), Height(c3))))
    decreases n, 0
  {
    var r0 := CountNodes(c0, st, d);
    var r1 := CountNodes(c1, r0, d);
    var r2 := CountNodes(c2, r1, d);
    CountNodesDepth(c0, st, d);
    CountNodesDepth(c1, r0, d);
    CountNodesDepth(c2, r1, d);
    CountNodesDepth(c3, r2, d);
    DepthFold(st.maxDepth, d, Height(c0), Height(c1), Height(c2), Height(c3),
              r0.maxDepth, r1.maxDepth, r2.maxDepth, CountNodes(c3, r2, d).maxDepth);
  }

  /** A running maximum over four values. */
  lemma DepthFold(m: int, d: int, h0: nat, h1: nat, h2: nat, h3: nat, r0: int, r1: int, r2: int, r3: int)
    requires r0 == Deeper(m, d + h0) && r1 == Deeper(r0, d + h1)
    requires r2 == Deeper(r1, d + h2) && r3 == Deeper(r2, d + h3)
    ensures r3 == Deeper(m, d + Deeper(Deeper(h0, h1), Deeper(h2, h3)))
  {
  }

  /** A quadtree with four children per internal node has 1 + 4i nodes,
      i of them internal. */
  lemma {:induction false} NodesPerInternal(n: QuadNode, pts: seq<Point>)
    requires WellFormed(n, pts)
    ensures NodeCount(n) == 1 + 4 * InternalCount(n)
    decreases n
  {
    match n
    case Leaf(_, _, _, _, _) =>
    case Internal(_, _, _, _, cs) =>
      forall q | 0 <= q < 4
        ensures NodeCount(cs[q]) == 1 + 4 * InternalCount(cs[q])
      {
        NodesPerInternal(cs[q], pts);
      }
  }

  // ------------------------------------------------------------ force query

  /** A force contribution and the number of interactions behind it. */
  datatype Tally = Tally(force: Vec2, count: int)

  const NoTally: Tally := Tally(Zero, 0)

  function Plus(a: Tally, b: Tally): Tally {
    Tally(Add(a.force, b.force), a.count + b.count)
  }

  /** The interaction with a node treated as a point mass: G M r / (d^2 + eps^2)^1.5
      with r from the query point to the node's centre of mass. */
  function PointMass(n: QuadNode, p: Vec2, G: real, sqrt: SqrtFn): Tally {
    var r := Sub(n.centerOfMass, p);
    SquaresNonNegative(r);
    var effectiveDistSq := Dot(r, r) + SofteningLength * SofteningLength;
    if effectiveDistSq > DivisionGuardSq then
      Tally(Scale(G * n.totalMass * (1.0 / Pow15(sqrt, effectiveDistSq)), r), 1)
    else NoTally
  }

  /** The opening test: the node is far enough to be a point mass when
      size^2 < theta^2 d^2, d the distance to its centre of mass. */
  predicate Far(n: QuadNode, p: Vec2, theta: real) {
    var r := Sub(n.centerOfMass, p);
    n.size * n.size < theta * theta * Dot(r, r)
  }

  /** The force on the body `self` at `p` from subtree n, as the traversal
      decides it (the header's CalculateForceRecursive): a massless node
      contributes nothing; a node with size^2 < theta^2 d^2 is a point mass;
      otherwise a leaf is a point mass unless it holds `self`, and an
      internal node is opened. */
  function CalculateForceRecursive(n: QuadNode, p: Vec2, self: nat, theta: real, G: real, sqrt: SqrtFn): Tally
    decreases n
  {
    if n.totalMass <= 0.0 then NoTally
    else
      if Far(n, p, theta) then PointMass(n, p, G, sqrt)
      else match n
        case Leaf(_, _, _, _, b) => if b == Some(self) then NoTally else PointMass(n, p, G, sqrt)
        case Internal(_, _, _, _, cs) =>
          if |cs| == 4 then
            Plus(Plus(Plus(CalculateForceRecursive(cs[0], p, self, theta, G, sqrt),
                           CalculateForceRecursive(cs[1], p, self, theta, G, sqrt)),
                      CalculateForceRecursive(cs[2], p, self, theta, G, sqrt)),
                 CalculateForceRecursive(cs[3], p, self, theta, G, sqrt))
          else NoTally
  }

  /** The leaf holding the query body, at the body's own position, never
      contributes: it is never far, and it is skipped as self. */
  lemma OwnLeafSkipped(n: QuadNode, p: Vec2, self: nat, theta: real, G: real, sqrt: SqrtFn)
    requires n.Leaf? && n.body == Some(self) && n.centerOfMass == p
    ensures CalculateForceRecursive(n, p, self, theta, G, sqrt) == NoTally
  {
    DistanceToSelfZero(p);
    SquarePositive(n.size);
    NearWhenAtCentre(n, p, theta);
  }

  lemma DistanceToSelfZero(p: Vec2)
    ensures Dot(Sub(p, p), Sub(p, p)) == 0.0
  {
    assert Sub(p, p) == Zero;
  }

  lemma NearWhenAtCentre(n: QuadNode, p: Vec2, theta: real)
    requires Dot(Sub(n.centerOfMass, p), Sub(n.centerOfMass, p)) == 0.0 && 0.0 <= n.size * n.size
    ensures !Far(n, p, theta)
  {
  }

  /** The outstanding work of the traversal: the forces of every node still
      on the stack. */
  function StackTally(stack: seq<QuadNode>, p: Vec2, self: nat, theta: real, G: real, sqrt: SqrtFn): Tally
    decreases |stack|
  {
    if stack == [] then NoTally
    else Plus(StackTally(stack[..|stack| - 1], p, self, theta, G, sqrt),
              CalculateForceRecursive(stack[|stack| - 1], p, self, theta, G, sqrt))
  }

  function StackNodes(stack: seq<QuadNode>): nat
    decreases |stack|
  {
    if stack == [] then 0 else StackNodes(stack[..|stack| - 1]) + NodeCount(stack[|stack| - 1])
  }

  lemma {:induction false} StackTallyAppend(s: seq<QuadNode>, t: seq<QuadNode>, p: Vec2, self: nat,
                                            theta: real, G: real, sqrt: SqrtFn)
    ensures StackTally(s + t, p, self, theta, G, sqrt) ==
            Plus(StackTally(s, p, self, theta, G, sqrt), StackTally(t, p, self, theta, G, sqrt))
    decreases |t|
  {
    if t == [] {
      assert s + t == s;
    } else {
      var t' := t[..|t| - 1];
      StackTallyAppend(s, t', p, self, theta, G, sqrt);
      StackTallySnoc(s, t, p, self, theta, G, sqrt);
      PlusAssociative(StackTally(s, p, self, theta, G, sqrt), StackTally(t', p, self, theta, G, sqrt),
                      CalculateForceRecursive(t[|t| - 1], p, self, theta, G, sqrt));
    }
  }

  /** Popping the last element of a concatenation. */
  lemma StackTallySnoc(s: seq<QuadNode>, t: seq<QuadNode>, p: Vec2, self: nat,
                       theta: real, G: real, sqrt: SqrtFn)
    requires t != []
    ensures StackTally(s + t, p, self, theta, G, sqrt) ==
            Plus(StackTally(s + t[..|t| - 1], p, self, theta, G, sqrt),
                 CalculateForceRecursive(t[|t| - 1], p, self, theta, G, sqrt))
  {
    assert (s + t)[..|s + t| - 1] == s + t[..|t| - 1];
    assert (s + t)[|s + t| - 1] == t[|t| - 1];
  }

  lemma PlusAssociative(a: Tally, b: Tally, c: Tally)
    ensures Plus(Plus(a, b), c) == Plus(a, Plus(b, c))
  {
  }

  lemma {:induction false} StackNodesAppend(s: seq<QuadNode>, t: seq<QuadNode>)
    ensures StackNodes(s + t) == StackNodes(s) + StackNodes(t)
    decreases |t|
  {
    if t == [] {
      assert s + t == s;
    } else {
      var t' := t[..|t| - 1];
      assert (s + t)[..|s + t| - 1] == s + t';
      assert (s + t)[|s + t| - 1] == t[|t| - 1];
      StackNodesAppend(s, t');
    }
  }

  // ------------------------------------------------------------ root bounds

  /** The lower-left corner of the bounding box of the positions, folded
      left to right as CalculateBounds does. */
  function BoxLo(pts: seq<Point>): Vec2
    requires |pts| > 0
  {
    if |pts| == 1 then pts[0].position
    else
      var lo := BoxLo(pts[..|pts| - 1]);
      var q := pts[|pts| - 1].position;
      Vec2(Min(lo.x, q.x), Min(lo.y, q.y))
  }

  /** The upper-right corner of the bounding box. */
  function BoxHi(pts: seq<Point>): Vec2
    requires |pts| > 0
  {
    if |pts| == 1 then pts[0].position
    else
      var hi := BoxHi(pts[..|pts| - 1]);
      var q := pts[|pts| - 1].position;
      Vec2(Max(hi.x, q.x), Max(hi.y, q.y))
  }

  /** The bounding box holds every position, and each of its four sides
      touches one. */
  lemma {:induction false} BoxIsTight(pts: seq<Point>)
    requires |pts| > 0
    ensures var lo, hi := BoxLo(pts), BoxHi(pts);
      && (forall k :: 0 <= k < |pts| ==>
            lo.x <= pts[k].position.x <= hi.x && lo.y <= pts[k].position.y <= hi.y)
      && (exists k :: 0 <= k < |pts| && lo.x == pts[k].position.x)
      && (exists k :: 0 <= k < |pts| && lo.y == pts[k].position.y)
      && (exists k :: 0 <= k < |pts| && hi.x == pts[k].position.x)
      && (exists k :: 0 <= k < |pts| && hi.y == pts[k].position.y)
    decreases |pts|
  {
    if |pts| > 1 {
      var init := pts[..|pts| - 1];
      BoxIsTight(init);
      assert forall k :: 0 <= k < |init| ==> init[k] == pts[k];
    }
  }

  /** The root's side for a bounding box: its longer edge plus 5%, but at
      least MinNodeSize. */
  function PaddedSide(lo: Vec2, hi: Vec2): (s: real)
    ensures MinNodeSize <= s
    ensures lo.x <= hi.x && lo.y <= hi.y ==> hi.x - lo.x <= s && hi.y - lo.y <= s
  {
    Max(Max(hi.x - lo.x, hi.y - lo.y) * 1.05, MinNodeSize)
  }

  /** CalculateBounds: the centre of the bounding box of all positions and
      a side 5% larger than its longer edge, but at least MinNodeSize;
      (0, 0) and 1 for no bodies. Every body lies in the resulting square. */
  method CalculateBounds(pts: seq<Point>) returns (center: Vec2, size: real)
    ensures |pts| == 0 ==> center == Zero && size == 1.0
    ensures |pts| > 0 ==> center == Scale(0.5, Add(BoxLo(pts), BoxHi(pts))) && size == PaddedSide(BoxLo(pts), BoxHi(pts))
    ensures forall k :: 0 <= k < |pts| ==> InSquare(center, size, pts[k].position)
  {
    if |pts| == 0 {
      return Zero, 1.0;
    }
    var minPos := pts[0].position;
    var maxPos := pts[0].position;
    var i := 1;
    while i < |pts|
      invariant 1 <= i <= |pts|
      invariant minPos == BoxLo(pts[..i]) && maxPos == BoxHi(pts[..i])
    {
      var pos := pts[i].position;
      assert pts[..i + 1][..i] == pts[..i];
      minPos := Vec2(Min(minPos.x, pos.x), Min(minPos.y, pos.y));
      maxPos := Vec2(Max(maxPos.x, pos.x), Max(maxPos.y, pos.y));
      i := i + 1;
    }
    assert pts[..i] == pts;
    assert minPos == BoxLo(pts) && maxPos == BoxHi(pts);
    center := Scale(0.5, Add(minPos, maxPos));
    var sizeX := maxPos.x - minPos.x;
    var sizeY := maxPos.y - minPos.y;
    size := Max(sizeX, sizeY);
    size := size * 1.05;
    size := Max(size, MinNodeSize);
    assert size == PaddedSide(minPos, maxPos);
    PaddedBoxHolds(pts);
  }

  /** The padded square around the bounding box holds every position. */
  lemma PaddedBoxHolds(pts: seq<Point>)
    requires |pts| > 0
    ensures forall k :: 0 <= k < |pts| ==>
      InSquare(Scale(0.5, Add(BoxLo(pts), BoxHi(pts))), PaddedSide(BoxLo(pts), BoxHi(pts)), pts[k].position)
  {
    var lo, hi := BoxLo(pts), BoxHi(pts);
    BoxIsTight(pts);
    var size := PaddedSide(lo, hi);
    assert hi.x - lo.x <= size * 0.5 * 2.0 && hi.y - lo.y <= size * 0.5 * 2.0;
  }

  // -------------------------------------------------------- force algebra

  lemma PlusNoTally(a: Tally)
    ensures Plus(NoTally, a) == a && Plus(a, NoTally) == a
  {
  }

  /** Moving one contribution past another leaves the total unchanged. */
  lemma PlusReorder(a: Tally, b: Tally, c: Tally)
    ensures Plus(a, Plus(b, c)) == Plus(Plus(a, c), b)
  {
  }

  /** One unfolding of StackTally and StackNodes: the top of the stack and
      the rest. */
  lemma StackTop(s: seq<QuadNode>, p: Vec2, self: nat, theta: real, G: real, sqrt: SqrtFn)
    requires s != []
    ensures StackTally(s, p, self, theta, G, sqrt) ==
            Plus(StackTally(s[..|s| - 1], p, self, theta, G, sqrt), CalculateForceRecursive(s[|s| - 1], p, self, theta, G, sqrt))
  {
  }

  lemma StackNodesTop(s: seq<QuadNode>)
    requires s != []
    ensures StackNodes(s) == StackNodes(s[..|s| - 1]) + NodeCount(s[|s| - 1])
  {
  }

  /** The outstanding work of four children on the stack is the force of
      their opened parent. */
  lemma StackOfChildren(n: QuadNode, p: Vec2, self: nat, theta: real, G: real, sqrt: SqrtFn)
    requires n.Internal? && |n.children| == 4
    ensures StackTally(n.children, p, self, theta, G, sqrt) ==
            Plus(Plus(Plus(CalculateForceRecursive(n.children[0], p, self, theta, G, sqrt),
                           CalculateForceRecursive(n.children[1], p, self, theta, G, sqrt)),
                      CalculateForceRecursive(n.children[2], p, self, theta, G, sqrt)),
                 CalculateForceRecursive(n.children[3], p, self, theta, G, sqrt))
  {
    var cs := n.children;
    var s3, s2, s1 := cs[..3], cs[..2], cs[..1];
    var f0 := CalculateForceRecursive(cs[0], p, self, theta, G, sqrt);
    var f1 := CalculateForceRecursive(cs[1], p, self, theta, G, sqrt);
    var f2 := CalculateForceRecursive(cs[2], p, self, theta, G, sqrt);
    var f3 := CalculateForceRecursive(cs[3], p, self, theta, G, sqrt);
    assert s1[..0] == [] && s2[..1] == s1 && s3[..2] == s2 && cs[..3] == s3;
    StackTop(s1, p, self, theta, G, sqrt);
    PlusNoTally(f0);
    assert StackTally(s1, p, self, theta, G, sqrt) == f0;
    StackTop(s2, p, self, theta, G, sqrt);
    assert StackTally(s2, p, self, theta, G, sqrt) == Plus(f0, f1);
    StackTop(s3, p, self, theta, G, sqrt);
    assert StackTally(s3, p, self, theta, G, sqrt) == Plus(Plus(f0, f1), f2);
    StackTop(cs, p, self, theta, G, sqrt);
  }

  /** Four children on the stack hold all nodes of their parent but the
      parent itself. */
  lemma StackNodesOfChildren(n: QuadNode)
    requires n.Internal? && |n.children| == 4
    ensures StackNodes(n.children) + 1 == NodeCount(n)
  {
    var cs := n.children;
    var s3, s2, s1 := cs[..3], cs[..2], cs[..1];
    StackNodesTop(cs);
    assert cs[..|cs| - 1] == s3;
    StackNodesTop(s3);
    assert s3[..|s3| - 1] == s2;
    StackNodesTop(s2);
    assert s2[..|s2| - 1] == s1;
    StackNodesTop(s1);
    assert s1[..|s1| - 1] == [];
  }

  /** Every interaction the traversal counts is with a distinct node, so
      there are never more interactions than nodes. */
  lemma {:induction false} InteractionsBounded(n: QuadNode, p: Vec2, self: nat, theta: real, G: real, sqrt: SqrtFn)
    ensures 0 <= CalculateForceRecursive(n, p, self, theta, G, sqrt).count <= NodeCount(n)
    decreases n
  {
    match n
    case Leaf(_, _, _, _, _) =>
    case Internal(_, _, _, _, cs) =>
      if |cs| == 4 {
        InteractionsBounded(cs[0], p, self, theta, G, sqrt);
        InteractionsBounded(cs[1], p, self, theta, G, sqrt);
        InteractionsBounded(cs[2], p, self, theta, G, sqrt);
        InteractionsBounded(cs[3], p, self, theta, G, sqrt);
      }
  }

  /** One step of CalculateForceRecursive, by case. */
  lemma ForceCases(n: QuadNode, p: Vec2, self: nat, theta: real, G: real, sqrt: SqrtFn)
    ensures var t := CalculateForceRecursive(n, p, self, theta, G, sqrt);
      && (n.totalMass <= 0.0 ==> t == NoTally)
      && (0.0 < n.totalMass && Far(n, p, theta) ==> t == PointMass(n, p, G, sqrt))
      && (0.0 < n.totalMass && !Far(n, p, theta) && n.Leaf? ==>
            t == if n.body == Some(self) then NoTally else PointMass(n, p, G, sqrt))
      && (0.0 < n.totalMass && !Far(n, p, theta) && n.Internal? && |n.children| != 4 ==> t == NoTally)
      && (0.0 < n.totalMass && !Far(n, p, theta) && n.Internal? && |n.children| == 4 ==>
            t == Plus(Plus(Plus(CalculateForceRecursive(n.children[0], p, self, theta, G, sqrt),
                                CalculateForceRecursive(n.children[1], p, self, theta, G, sqrt)),
                           CalculateForceRecursive(n.children[2], p, self, theta, G, sqrt)),
                      CalculateForceRecursive(n.children[3], p, self, theta, G, sqrt)))
  {
  }

  /** Far, in the terms the traversal computes it. */
  lemma OpeningTest(n: QuadNode, p: Vec2, theta: real, r: Vec2, distanceSq: real, nodeWidthSq: real)
    requires r == Sub(n.centerOfMass, p) && distanceSq == Dot(r, r) && nodeWidthSq == n.size * n.size
    ensures Far(n, p, theta) <==> nodeWidthSq < theta * theta * distanceSq
  {
  }

  /** Adding one point-mass term, in the terms the traversal computes it:
      one more interaction and G M r / (d^2 + eps^2)^1.5 more force. */
  lemma PointMassAdds(acc: Tally, n: QuadNode, p: Vec2, G: real, sqrt: SqrtFn, r: Vec2, e: real, invDist: real)
    requires r == Sub(n.centerOfMass, p) && e == Dot(r, r) + SofteningLength * SofteningLength
    requires 0.0 <= Dot(r, r) && e > DivisionGuardSq && invDist == 1.0 / Pow15(sqrt, e)
    ensures Plus(acc, PointMass(n, p, G, sqrt)) == Tally(Add(acc.force, Scale(G * n.totalMass * invDist, r)), acc.count + 1)
  {
  }

  // ------------------------------------------------------------ the tree

  /** Body k was dropped: it coincides with a stored body. */
  ghost predicate DroppedAsCoincident(stored: multiset<nat>, pts: seq<Point>, k: nat)
    requires k < |pts|
  {
    exists j :: j in stored && j < |pts| && Coincident(pts[j].position, pts[k].position)
  }

  /** Of the first i bodies each is stored exactly once or was dropped as
      coincident, and nothing else is stored. */
  ghost predicate Accounted(stored: multiset<nat>, pts: seq<Point>, i: nat)
    requires i <= |pts|
  {
    && (forall k :: k in stored ==> k < i && stored[k] == 1)
    && (forall k :: 0 <= k < i ==> k in stored || DroppedAsCoincident(stored, pts, k))
  }

  /** What BuildTree has achieved after its first i bodies. */
  ghost predicate Holds(t: QuadNode, pts: seq<Point>, i: nat)
    requires i <= |pts|
  {
    Accounted(Bodies(t), pts, i)
  }

  /** No two bodies of the list coincide. */
  ghost predicate Separated(pts: seq<Point>) {
    forall j, k :: 0 <= j < |pts| && 0 <= k < |pts| && j != k ==> !Coincident(pts[j].position, pts[k].position)
  }

  /** Inserting body i keeps Holds and extends it to i + 1. */
  lemma InsertHolds(t: QuadNode, pts: seq<Point>, i: nat)
    requires WellFormed(t, pts) && i < |pts| && Holds(t, pts, i) && Contains(t, pts[i].position)
    ensures Holds(Insert(t, i, pts), pts, i + 1)
  {
    var r := Insert(t, i, pts);
    InsertStores(t, i, pts);
    if r == t {
      AccountedAfterDrop(Bodies(t), pts, i);
    } else {
      AccountedAfterStore(Bodies(t), pts, i);
    }
  }

  /** A body dropped as coincident is accounted for without storing anything. */
  lemma AccountedAfterDrop(stored: multiset<nat>, pts: seq<Point>, i: nat)
    requires i < |pts| && Accounted(stored, pts, i) && DroppedAsCoincident(stored, pts, i)
    ensures Accounted(stored, pts, i + 1)
  {
  }

  /** A body stored once more is accounted for; what was dropped before
      still coincides with a stored body. */
  lemma AccountedAfterStore(stored: multiset<nat>, pts: seq<Point>, i: nat)
    requires i < |pts| && Accounted(stored, pts, i)
    ensures Accounted(stored + multiset{i}, pts, i + 1)
  {
    var after := stored + multiset{i};
    forall k | 0 <= k < i && !(k in stored)
      ensures DroppedAsCoincident(after, pts, k)
    {
      var j :| j in stored && j < |pts| && Coincident(pts[j].position, pts[k].position);
      assert j in after;
    }
  }

  /** With no coincident bodies nothing is dropped: a dropped body would
      coincide with a different, stored one. */
  lemma SeparatedStoresAll(stored: multiset<nat>, pts: seq<Point>)
    requires Accounted(stored, pts, |pts|) && Separated(pts)
    ensures forall k :: 0 <= k < |pts| ==> k in stored
  {
    forall k | 0 <= k < |pts|
      ensures k in stored
    {
    }
  }

  /** BuildTree's loop invariant after its first i insertions into the
      root square: the tree is well formed, still that square, and
      inserting the rest gives the final tree. */
  ghost predicate Building(t: QuadNode, pts: seq<Point>, i: nat)
    requires |pts| > 0
  {
    && i <= |pts| && WellFormed(t, pts)
    && (forall j :: 0 <= j < |pts| ==> Contains(t, pts[j].position))
    && InsertFrom(t, pts, i, |pts|) == InsertFrom(RootSquare(pts), pts, 0, |pts|)
  }

  /** The loop starts from the root square with nothing inserted. */
  lemma BuildingStarts(pts: seq<Point>)
    requires |pts| > 0
    ensures Building(RootSquare(pts), pts, 0)
  {
  }

  /** One more insertion keeps the loop invariant. */
  lemma BuildingStep(t: QuadNode, pts: seq<Point>, i: nat)
    requires |pts| > 0 && Building(t, pts, i) && i < |pts|
    ensures Building(Insert(t, i, pts), pts, i + 1)
  {
    SameFrameContains(Insert(t, i, pts), t, pts);
  }

  /** When the loop ends, aggregating its tree gives BuiltRoot. */
  lemma BuildingEnds(t: QuadNode, pts: seq<Point>)
    requires |pts| > 0 && Building(t, pts, |pts|)
    ensures BuiltRoot(pts) == Aggregate(t, pts)
  {
  }

  /** One unfolding of the insertion loop: insert body i, then the rest. */
  lemma InsertFromStep(t: QuadNode, pts: seq<Point>, i: nat)
    requires WellFormed(t, pts) && i < |pts|
    requires forall j :: 0 <= j < |pts| ==> Contains(t, pts[j].position)
    ensures forall j :: 0 <= j < |pts| ==> Contains(Insert(t, i, pts), pts[j].position)
    ensures InsertFrom(t, pts, i, |pts|) == InsertFrom(Insert(t, i, pts), pts, i + 1, |pts|)
  {
    SameFrameContains(Insert(t, i, pts), t, pts);
  }

  /** Inserting bodies i.. in order extends Holds to the whole list. */
  lemma {:induction false} InsertFromHolds(t: QuadNode, pts: seq<Point>, i: nat)
    requires WellFormed(t, pts) && i <= |pts| && Holds(t, pts, i)
    requires forall j :: 0 <= j < |pts| ==> Contains(t, pts[j].position)
    ensures Holds(InsertFrom(t, pts, i, |pts|), pts, |pts|)
    decreases |pts| - i
  {
    if i < |pts| {
      var u := Insert(t, i, pts);
      InsertHolds(t, pts, i);
      InsertFromStep(t, pts, i);
      InsertFromHolds(u, pts, i + 1);
    }
  }

  /** The tree BuildTree builds has every property of BuiltTreeFacts. */
  lemma BuiltRootFacts(pts: seq<Point>)
    requires |pts| > 0
    ensures BuiltTreeFacts(BuiltRoot(pts), pts)
    ensures Separated(pts) && NonNegativeMasses(pts) ==> BuiltRoot(pts).totalMass == SumMass(pts)
  {
    var t := RootSquare(pts);
    assert Holds(t, pts, 0);
    InsertFromHolds(t, pts, 0);
    AggregatedRoot(InsertFrom(t, pts, 0, |pts|), pts);
    if Separated(pts) && NonNegativeMasses(pts) {
      BuiltRootMass(pts);
    }
  }

  /** The total mass of a body list, summed in list order. */
  function SumMass(pts: seq<Point>): real
    decreases |pts|
  {
    if pts == [] then 0.0 else SumMass(pts[..|pts| - 1]) + pts[|pts| - 1].mass
  }

  /** With no coincident bodies, inserting body i after bodies 0 .. i-1
      stores it: a coincident stored body would be one of 0 .. i-1, which
      Separated rules out. */
  lemma InsertAddsMass(t: QuadNode, pts: seq<Point>, i: nat)
    requires WellFormed(t, pts) && i < |pts| && Holds(t, pts, i) && Separated(pts)
    requires Contains(t, pts[i].position)
    ensures MassOf(Insert(t, i, pts), pts) == MassOf(t, pts) + pts[i].mass
  {
    InsertStores(t, i, pts);
  }

  /** The prefix sum grows by the next body's mass. */
  lemma SumMassPrefix(pts: seq<Point>, i: nat)
    requires i < |pts|
    ensures SumMass(pts[..i + 1]) == SumMass(pts[..i]) + pts[i].mass
  {
    assert pts[..i + 1][..i] == pts[..i];
  }

  /** With no coincident bodies, every insertion of BuildTree's loop stores
      its body: the tree's stored mass after bodies i.. are inserted is the
      mass of the whole list when it was the mass of the first i before. */
  lemma {:induction false} InsertFromMass(t: QuadNode, pts: seq<Point>, i: nat)
    requires WellFormed(t, pts) && i <= |pts| && Holds(t, pts, i) && Separated(pts)
    requires forall j :: 0 <= j < |pts| ==> Contains(t, pts[j].position)
    requires MassOf(t, pts) == SumMass(pts[..i])
    ensures MassOf(InsertFrom(t, pts, i, |pts|), pts) == SumMass(pts)
    decreases |pts| - i
  {
    if i == |pts| {
      assert pts[..i] == pts;
    } else {
      var u := Insert(t, i, pts);
      InsertAddsMass(t, pts, i);
      SumMassPrefix(pts, i);
      InsertHolds(t, pts, i);
      InsertFromStep(t, pts, i);
      InsertFromMass(u, pts, i + 1);
    }
  }

  /** BuildTree's root carries the total mass of the body list when no two
      bodies coincide and no mass is negative. */
  lemma BuiltRootMass(pts: seq<Point>)
    requires |pts| > 0 && Separated(pts) && NonNegativeMasses(pts)
    ensures BuiltRoot(pts).totalMass == SumMass(pts)
  {
    var t := RootSquare(pts);
    assert pts[..0] == [];
    assert Holds(t, pts, 0);
    InsertFromMass(t, pts, 0);
    var f := InsertFrom(t, pts, 0, |pts|);
    InsertFromHolds(t, pts, 0);
    AggregatedRoot(f, pts);
    AggregateKeepsMassOf(f, pts);
  }

  /** What BuildTree's tree holds: it is well formed and aggregated, its
      square contains every body, every body is stored once or dropped as
      coincident with a stored one (so all are stored when none coincide),
      and with no negative masses the root's mass is the stored mass. */
  ghost predicate BuiltTreeFacts(a: QuadNode, pts: seq<Point>) {
    && WellFormed(a, pts) && Aggregated(a, pts)
    && (forall k :: 0 <= k < |pts| ==> Contains(a, pts[k].position))
    && Holds(a, pts, |pts|)
    && (Separated(pts) ==> forall k :: 0 <= k < |pts| ==> k in Bodies(a))
    && (NonNegativeMasses(pts) ==> a.totalMass == MassOf(a, pts))
  }

  /** What aggregating the finished tree gives BuildTree. */
  lemma AggregatedRoot(t: QuadNode, pts: seq<Point>)
    requires WellFormed(t, pts) && Holds(t, pts, |pts|)
    requires forall k :: 0 <= k < |pts| ==> Contains(t, pts[k].position)
    ensures BuiltTreeFacts(Aggregate(t, pts), pts)
  {
    var a := Aggregate(t, pts);
    AggregateWellFormed(t, pts);
    AggregateKeepsBodies(t, pts);
    AggregateIsAggregated(t, pts);
    AggregateKeepsMassOf(t, pts);
    if Separated(pts) {
      SeparatedStoresAll(Bodies(a), pts);
    }
    if NonNegativeMasses(pts) {
      AggregatedMassIsStoredMass(a, pts);
    }
  }

  /** CountNodes from zero statistics at depth 0: the node count, the
      occupied leaves, the height, and no interactions. */
  lemma CountFromZero(a: QuadNode)
    ensures CountNodes(a, ZeroStats, 0) == TreeStats(NodeCount(a), |Bodies(a)|, Height(a), 0)
  {
    CountNodesTotal(a, ZeroStats, 0);
    CountNodesLeaves(a, ZeroStats, 0);
    CountNodesDepth(a, ZeroStats, 0);
    CountNodesKeepsForceCount(a, ZeroStats, 0);
  }

  /** Bodies i..k-1 inserted in order into t. */
  function InsertFrom(t: QuadNode, pts: seq<Point>, i: nat, k: nat): (r: QuadNode)
    requires WellFormed(t, pts) && i <= k <= |pts|
    requires forall j :: 0 <= j < |pts| ==> Contains(t, pts[j].position)
    ensures WellFormed(r, pts) && SameFrame(r, t)
    decreases k - i
  {
    if i == k then t
    else
      var u := Insert(t, i, pts);
      SameFrameContains(u, t, pts);
      InsertFrom(u, pts, i + 1, k)
  }

  /** Insertion keeps the square, so it keeps containing the same bodies. */
  lemma SameFrameContains(u: QuadNode, t: QuadNode, pts: seq<Point>)
    requires SameFrame(u, t) && forall j :: 0 <= j < |pts| ==> Contains(t, pts[j].position)
    ensures forall j :: 0 <= j < |pts| ==> Contains(u, pts[j].position)
  {
  }

  /** The root square BuildTree starts from: the padded bounding box. */
  function RootSquare(pts: seq<Point>): (n: QuadNode)
    requires |pts| > 0
    ensures WellFormed(n, pts) && forall j :: 0 <= j < |pts| ==> Contains(n, pts[j].position)
  {
    PaddedBoxHolds(pts);
    NewNode(Scale(0.5, Add(BoxLo(pts), BoxHi(pts))), PaddedSide(BoxLo(pts), BoxHi(pts)))
  }

  /** The tree BuildTree builds for a non-empty body list. */
  function BuiltRoot(pts: seq<Point>): QuadNode
    requires |pts| > 0
  {
    Aggregate(InsertFrom(RootSquare(pts), pts, 0, |pts|), pts)
  }

}
