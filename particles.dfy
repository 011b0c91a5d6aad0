/** The particle-system side of the simulator: the Particle record, the
    ParticleSystem container with its statistics folds, and the brute-force
    CPUSequentialSolver. It shares only the numeric types with the
    body-based engine. */
module Particles {
  import opened Numerics

  /** MIN_DISTANCE of the solver file; pairs are compared with its square. */
  const MinDistance: real := 0.1
  /** MAX_FORCE of the solver file: the cap on the force of one pair. */
  const MaxForce: real := 1000.0
  /** std::numeric_limits<float>::max(); lowest() is its negation. */
  const FloatMax: real := 340282346638528859811704183484516925440.0

  datatype ParticleState = ParticleState(position: Vec2, velocity: Vec2, acceleration: Vec2, mass: real)

  /** A particle: four public fields that the setters and the solver
      assign in place. */
  class Particle {
    var position: Vec2
    var velocity: Vec2
    var acceleration: Vec2
    var mass: real

    function State(): ParticleState
      reads this
    {
      ParticleState(position, velocity, acceleration, mass)
    }

    /** The defaulted constructor: the member initialisers give zero
        vectors and mass 1. */
    constructor Default()
      ensures State() == ParticleState(Zero, Zero, Zero, 1.0)
    {
      position, velocity, acceleration, mass := Zero, Zero, Zero, 1.0;
    }

    /** The three-argument constructor: acceleration starts at zero. */
    constructor (pos: Vec2, vel: Vec2, m: real)
      ensures State() == ParticleState(pos, vel, Zero, m)
    {
      position, velocity, acceleration, mass := pos, vel, Zero, m;
    }

    /** The four-argument constructor stores every field as given. */
    constructor WithAcceleration(pos: Vec2, vel: Vec2, acc: Vec2, m: real)
      ensures State() == ParticleState(pos, vel, acc, m)
    {
      position, velocity, acceleration, mass := pos, vel, acc, m;
    }

    method SetVelocity(vel: Vec2)
      modifies this
      ensures State() == old(State()).(velocity := vel)
    {
      velocity := vel;
    }

    method SetPosition(pos: Vec2)
      modifies this
      ensures State() == old(State()).(position := pos)
    {
      position := pos;
    }

    method SetAcceleration(acc: Vec2)
      modifies this
      ensures State() == old(State()).(acceleration := acc)
    {
      acceleration := acc;
    }
  }

  // ------------------------------------------------------------ particle lists

  /** The states of the particles, in list order. */
  function States(ps: seq<Particle>): (r: seq<ParticleState>)
    reads ps
    ensures |r| == |ps|
  {
    if ps == [] then [] else States(ps[..|ps| - 1]) + [ps[|ps| - 1].State()]
  }

  /** The particles hold the states ss, one by one. */
  predicate StatesAre(ps: seq<Particle>, ss: seq<ParticleState>)
    reads ps
  {
    |ss| == |ps| && forall k {:trigger ps[k]} :: 0 <= k < |ps| ==> ps[k].State() == ss[k]
  }

  lemma {:induction false} StatesAreStates(ps: seq<Particle>)
    ensures StatesAre(ps, States(ps))
    decreases |ps|
  {
    if ps != [] {
      var front := ps[..|ps| - 1];
      StatesAreStates(front);
      assert forall k {:trigger ps[k]} :: 0 <= k < |front| ==> ps[k] == front[k];
    }
  }

  lemma StatesOfStatesAre(ps: seq<Particle>, ss: seq<ParticleState>)
    requires StatesAre(ps, ss)
    ensures States(ps) == ss
  {
    StatesAreStates(ps);
    var r := States(ps);
    assert forall k | 0 <= k < |ps| :: r[k] == ps[k].State();
  }

  /** Erasing a particle from the list erases its state from the states. */
  lemma StatesRemoveAt(ps: seq<Particle>, i: nat)
    requires i < |ps|
    ensures States(RemoveAt(ps, i)) == RemoveAt(States(ps), i)
  {
    StatesAreStates(ps);
    var rs := RemoveAt(ps, i);
    var want := RemoveAt(States(ps), i);
    assert StatesAre(rs, want) by {
      forall k | 0 <= k < |rs|
        ensures rs[k].State() == want[k]
      {
        if k < i {
          assert rs[k] == ps[k];
        } else {
          assert rs[k] == ps[k + 1];
        }
      }
    }
    StatesOfStatesAre(rs, want);
  }

  /** A vector of particles holds each particle object once. */
  predicate Distinct(ps: seq<Particle>) {
    forall i, j :: 0 <= i < j < |ps| ==> ps[i] != ps[j]
  }

  lemma DistinctRemoveAt(ps: seq<Particle>, i: nat)
    requires i < |ps| && Distinct(ps)
    ensures Distinct(RemoveAt(ps, i))
  {
    var rs := RemoveAt(ps, i);
    forall a, b | 0 <= a < b < |rs|
      ensures rs[a] != rs[b]
    {
      var a' := if a < i then a else a + 1;
      var b' := if b < i then b else b + 1;
      assert rs[a] == ps[a'] && rs[b] == ps[b'];
    }
  }

  // ------------------------------------------------------------ statistics folds

  function TotalMass(ss: seq<ParticleState>): real {
    if ss == [] then 0.0 else TotalMass(ss[..|ss| - 1]) + ss[|ss| - 1].mass
  }

  /** The sum of mass-weighted positions. */
  function Moment(ss: seq<ParticleState>): Vec2 {
    if ss == [] then Zero else Add(Moment(ss[..|ss| - 1]), Scale(ss[|ss| - 1].mass, ss[|ss| - 1].position))
  }

  /** GetCenterOfMass: zero for an empty system or a total mass that is not
      positive, otherwise the moment divided by the total mass. */
  function CenterOfMass(ss: seq<ParticleState>): Vec2 {
    if ss == [] then Zero
    else
      var total := TotalMass(ss);
      if total > 0.0 then DivBy(Moment(ss), total) else Zero
  }

  /** glm::vec4 as GetBoundingBox lays it out: (min_x, min_y, max_x, max_y). */
  datatype Bounds = Bounds(minX: real, minY: real, maxX: real, maxY: real)

  /** The running min/max fold, started from float max and float lowest. */
  function Extent(ss: seq<ParticleState>): Bounds {
    if ss == [] then Bounds(FloatMax, FloatMax, -FloatMax, -FloatMax)
    else
      var b := Extent(ss[..|ss| - 1]);
      var p := ss[|ss| - 1].position;
      Bounds(Min(b.minX, p.x), Min(b.minY, p.y), Max(b.maxX, p.x), Max(b.maxY, p.y))
  }

  function BoundingBox(ss: seq<ParticleState>): Bounds {
    if ss == [] then Bounds(0.0, 0.0, 0.0, 0.0) else Extent(ss)
  }

  predicate NonNegativeMasses(ss: seq<ParticleState>) {
    forall k :: 0 <= k < |ss| ==> 0.0 <= ss[k].mass
  }

  /** Every coordinate is a finite float. */
  predicate FloatRange(ss: seq<ParticleState>) {
    forall k :: 0 <= k < |ss| ==>
      -FloatMax <= ss[k].position.x <= FloatMax && -FloatMax <= ss[k].position.y <= FloatMax
  }

  predicate InBox(b: Bounds, p: Vec2) {
    b.minX <= p.x <= b.maxX && b.minY <= p.y <= b.maxY
  }

  lemma {:induction false} TotalMassConcat(a: seq<ParticleState>, b: seq<ParticleState>)
    ensures TotalMass(a + b) == TotalMass(a) + TotalMass(b)
    decreases |b|
  {
    if b == [] {
      assert a + b == a;
    } else {
      var front := b[..|b| - 1];
      assert (a + b)[..|a + b| - 1] == a + front;
      TotalMassConcat(a, front);
    }
  }

  /** Removing a particle takes exactly its mass off the total. */
  lemma TotalMassRemoveAt(ss: seq<ParticleState>, i: nat)
    requires i < |ss|
    ensures TotalMass(ss[..i] + ss[i + 1..]) == TotalMass(ss) - ss[i].mass
  {
    assert ss == ss[..i] + [ss[i]] + ss[i + 1..];
    TotalMassConcat(ss[..i] + [ss[i]], ss[i + 1..]);
    TotalMassConcat(ss[..i], [ss[i]]);
    TotalMassConcat(ss[..i], ss[i + 1..]);
    assert TotalMass([ss[i]]) == ss[i].mass by {
      assert [ss[i]][..0] == [];
    }
  }

  lemma {:induction false} TotalMassNonNegative(ss: seq<ParticleState>)
    requires NonNegativeMasses(ss)
    ensures 0.0 <= TotalMass(ss)
    decreases |ss|
  {
    if ss != [] {
      TotalMassNonNegative(ss[..|ss| - 1]);
    }
  }

  /** The bounding box holds every particle. */
  lemma {:induction false} ExtentContains(ss: seq<ParticleState>, k: nat)
    requires k < |ss|
    ensures InBox(Extent(ss), ss[k].position)
    decreases |ss|
  {
    if k < |ss| - 1 {
      ExtentContains(ss[..|ss| - 1], k);
    }
  }

  /** Each side of the bounding box of finite coordinates is the
      coordinate of some particle. */
  lemma {:induction false} ExtentAttained(ss: seq<ParticleState>)
    requires ss != [] && FloatRange(ss)
    ensures exists k :: 0 <= k < |ss| && Extent(ss).minX == ss[k].position.x
    ensures exists k :: 0 <= k < |ss| && Extent(ss).minY == ss[k].position.y
    ensures exists k :: 0 <= k < |ss| && Extent(ss).maxX == ss[k].position.x
    ensures exists k :: 0 <= k < |ss| && Extent(ss).maxY == ss[k].position.y
    decreases |ss|
  {
    var n := |ss| - 1;
    var front := ss[..n];
    var b, p := Extent(front), ss[n].position;
    if front == [] {
      assert Extent(ss) == Bounds(Min(FloatMax, p.x), Min(FloatMax, p.y), Max(-FloatMax, p.x), Max(-FloatMax, p.y));
    } else {
      assert FloatRange(front) by {
        assert forall k :: 0 <= k < |front| ==> front[k] == ss[k];
      }
      ExtentAttained(front);
      var i0 :| 0 <= i0 < |front| && b.minX == front[i0].position.x;
      var i1 :| 0 <= i1 < |front| && b.minY == front[i1].position.y;
      var i2 :| 0 <= i2 < |front| && b.maxX == front[i2].position.x;
      var i3 :| 0 <= i3 < |front| && b.maxY == front[i3].position.y;
      assert front[i0] == ss[i0] && front[i1] == ss[i1] && front[i2] == ss[i2] && front[i3] == ss[i3];
    }
  }

  lemma BoundingBoxFacts(ss: seq<ParticleState>)
    ensures ss == [] ==> BoundingBox(ss) == Bounds(0.0, 0.0, 0.0, 0.0)
    ensures forall k :: 0 <= k < |ss| ==> InBox(BoundingBox(ss), ss[k].position)
    ensures ss != [] && FloatRange(ss) ==>
      && (exists k :: 0 <= k < |ss| && BoundingBox(ss).minX == ss[k].position.x)
      && (exists k :: 0 <= k < |ss| && BoundingBox(ss).minY == ss[k].position.y)
      && (exists k :: 0 <= k < |ss| && BoundingBox(ss).maxX == ss[k].position.x)
      && (exists k :: 0 <= k < |ss| && BoundingBox(ss).maxY == ss[k].position.y)
  {
    forall k | 0 <= k < |ss|
      ensures InBox(BoundingBox(ss), ss[k].position)
    {
      ExtentContains(ss, k);
    }
    if ss != [] && FloatRange(ss) {
      ExtentAttained(ss);
    }
  }

  /** The coordinate of v along one axis. */
  function Coord(v: Vec2, vertical: bool): real {
    if vertical then v.y else v.x
  }

  lemma MulNonNegative(a: real, b: real)
    requires 0.0 <= a && 0.0 <= b
    ensures 0.0 <= a * b
  {
  }

  /** One particle's mass times its coordinate along an axis. */
  function Weight(s: ParticleState, vertical: bool): real {
    s.mass * Coord(s.position, vertical)
  }

  /** The moment along one axis, as a sum of reals. */
  function AxisMoment(ss: seq<ParticleState>, vertical: bool): real {
    if ss == [] then 0.0 else AxisMoment(ss[..|ss| - 1], vertical) + Weight(ss[|ss| - 1], vertical)
  }

  lemma {:induction false} AxisMomentIsCoord(ss: seq<ParticleState>, vertical: bool)
    ensures AxisMoment(ss, vertical) == Coord(Moment(ss), vertical)
    decreases |ss|
  {
    if ss != [] {
      AxisMomentIsCoord(ss[..|ss| - 1], vertical);
    }
  }

  /** With non-negative masses, the moment along an axis is at least lo
      times the total mass when every coordinate is at least lo. */
  lemma {:induction false} MomentAbove(ss: seq<ParticleState>, vertical: bool, lo: real)
    requires NonNegativeMasses(ss)
    requires forall k :: 0 <= k < |ss| ==> lo <= Coord(ss[k].position, vertical)
    ensures lo * TotalMass(ss) <= AxisMoment(ss, vertical)
    decreases |ss|
  {
    if ss != [] {
      var n := |ss| - 1;
      var front := ss[..n];
      assert forall k :: 0 <= k < |front| ==> front[k] == ss[k];
      MomentAbove(front, vertical, lo);
      WeightAbove(lo, TotalMass(front), AxisMoment(front, vertical), ss[n].mass, Coord(ss[n].position, vertical),
                  Weight(ss[n], vertical), TotalMass(ss), AxisMoment(ss, vertical));
    }
  }

  /** The mirror image of MomentAbove for an upper bound hi. */
  lemma {:induction false} MomentBelow(ss: seq<ParticleState>, vertical: bool, hi: real)
    requires NonNegativeMasses(ss)
    requires forall k :: 0 <= k < |ss| ==> Coord(ss[k].position, vertical) <= hi
    ensures AxisMoment(ss, vertical) <= hi * TotalMass(ss)
    decreases |ss|
  {
    if ss != [] {
      var n := |ss| - 1;
      var front := ss[..n];
      assert forall k :: 0 <= k < |front| ==> front[k] == ss[k];
      MomentBelow(front, vertical, hi);
      WeightBelow(hi, TotalMass(front), AxisMoment(front, vertical), ss[n].mass, Coord(ss[n].position, vertical),
                  Weight(ss[n], vertical), TotalMass(ss), AxisMoment(ss, vertical));
    }
  }

  /** One more weight m at a coordinate c >= lo keeps the weighted sum at
      least lo times the total weight. */
  lemma WeightAbove(lo: real, total: real, sum: real, m: real, c: real, w: real, total': real, sum': real)
    requires lo * total <= sum && 0.0 <= m && lo <= c && w == m * c
    requires total' == total + m && sum' == sum + w
    ensures lo * total' <= sum'
  {
    MulNonNegative(m, c - lo);
    assert lo * (total + m) == lo * total + m * lo;
  }

  lemma WeightBelow(hi: real, total: real, sum: real, m: real, c: real, w: real, total': real, sum': real)
    requires sum <= hi * total && 0.0 <= m && c <= hi && w == m * c
    requires total' == total + m && sum' == sum + w
    ensures sum' <= hi * total'
  {
    MulNonNegative(m, hi - c);
    assert hi * (total + m) == hi * total + m * hi;
  }

  /** A quotient of a value in [lo t, hi t] by a positive t lies in [lo, hi]. */
  lemma QuotientWithin(v: real, t: real, lo: real, hi: real)
    requires 0.0 < t && lo * t <= v <= hi * t
    ensures lo <= v / t <= hi
  {
    assert v / t * t == v;
  }

  /** With positive total mass, the centre of mass lies between any bounds
      of the coordinates along one axis. */
  lemma CoordWithin(ss: seq<ParticleState>, vertical: bool, lo: real, hi: real)
    requires NonNegativeMasses(ss) && TotalMass(ss) > 0.0
    requires forall k :: 0 <= k < |ss| ==> lo <= Coord(ss[k].position, vertical) <= hi
    ensures lo <= Coord(Moment(ss), vertical) / TotalMass(ss) <= hi
  {
    MomentAbove(ss, vertical, lo);
    MomentBelow(ss, vertical, hi);
    QuotientWithin(AxisMoment(ss, vertical), TotalMass(ss), lo, hi);
    AxisMomentIsCoord(ss, vertical);
  }

  /** With positive total mass and no negative masses, the centre of mass
      lies inside the bounding box. */
  lemma CenterOfMassInBox(ss: seq<ParticleState>)
    requires NonNegativeMasses(ss) && TotalMass(ss) > 0.0
    ensures InBox(BoundingBox(ss), CenterOfMass(ss))
  {
    var b := BoundingBox(ss);
    assert ss != [];
    BoundingBoxFacts(ss);
    assert forall k :: 0 <= k < |ss| ==> b.minX <= Coord(ss[k].position, false) <= b.maxX;
    assert forall k :: 0 <= k < |ss| ==> b.minY <= Coord(ss[k].position, true) <= b.maxY;
    CoordWithin(ss, false, b.minX, b.maxX);
    CoordWithin(ss, true, b.minY, b.maxY);
  }

  /** The container of particles. The vector owns its elements, so no
      particle object appears in it twice. */
  class ParticleSystem {
    var particles: seq<Particle>

    ghost predicate Valid()
      reads this
    {
      Distinct(particles)
    }

    constructor ()
      ensures particles == [] && Valid()
    {
      particles := [];
    }

    function GetParticleCount(): nat
      reads this
    {
      |particles|
    }

    predicate IsEmpty()
      reads this
    {
      |particles| == 0
    }

    /** The unchecked element access: the caller keeps the index in range. */
    function GetParticle(index: nat): Particle
      reads this
      requires index < |particles|
    {
      particles[index]
    }

    /** push_back of a copy of the argument. */
    method AddParticle(p: Particle)
      requires Valid()
      modifies this
      ensures Valid()
      ensures |particles| == |old(particles)| + 1 && particles[..|old(particles)|] == old(particles)
      ensures fresh(particles[|old(particles)|])
      ensures States(particles) == old(States(particles)) + [p.State()]
      ensures TotalMass(States(particles)) == old(TotalMass(States(particles))) + p.mass
    {
      var copy := new Particle.WithAcceleration(p.position, p.velocity, p.acceleration, p.mass);
      Append(copy);
    }

    /** emplace_back(position, velocity, mass): acceleration starts at zero. */
    method AddNewParticle(position: Vec2, velocity: Vec2, mass: real)
      requires Valid()
      modifies this
      ensures Valid()
      ensures |particles| == |old(particles)| + 1 && particles[..|old(particles)|] == old(particles)
      ensures fresh(particles[|old(particles)|])
      ensures States(particles) == old(States(particles)) + [ParticleState(position, velocity, Zero, mass)]
      ensures TotalMass(States(particles)) == old(TotalMass(States(particles))) + mass
    {
      var created := new Particle(position, velocity, mass);
      Append(created);
    }

    method Append(q: Particle)
      requires Valid() && q !in particles
      modifies this
      ensures Valid()
      ensures particles == old(particles) + [q]
      ensures States(particles) == old(States(particles)) + [q.State()]
    {
      ghost var ss := States(particles);
      StatesAreStates(particles);
      particles := particles + [q];
      assert StatesAre(particles, ss + [q.State()]) by {
        assert forall k {:trigger particles[k]} :: 0 <= k < |ss| ==> particles[k] == old(particles)[k];
      }
      StatesOfStatesAre(particles, ss + [q.State()]);
    }

    /** Erase at an index below the size; any other index changes nothing. */
    method RemoveParticle(index: nat)
      requires Valid()
      modifies this
      ensures Valid()
      ensures index < |old(particles)| ==> particles == RemoveAt(old(particles), index)
      ensures index < |old(particles)| ==> States(particles) == RemoveAt(old(States(particles)), index)
      ensures index < |old(particles)| ==>
        TotalMass(States(particles)) == old(TotalMass(States(particles)) - States(particles)[index].mass)
      ensures |old(particles)| <= index ==> particles == old(particles)
    {
      if index < |particles| {
        ghost var ss := States(particles);
        StatesRemoveAt(particles, index);
        DistinctRemoveAt(particles, index);
        TotalMassRemoveAt(ss, index);
        particles := RemoveAt(particles, index);
      }
    }

    method Clear()
      modifies this
      ensures particles == [] && Valid()
    {
      particles := [];
    }

    method GetTotalMass() returns (total: real)
      ensures total == TotalMass(States(particles))
    {
      ghost var ss := States(particles);
      StatesAreStates(particles);
      total := 0.0;
      for i := 0 to |particles|
        invariant total == TotalMass(ss[..i])
      {
        assert ss[..i + 1][..i] == ss[..i];
        total := total + particles[i].mass;
      }
      assert ss[..|particles|] == ss;
    }

    method GetCenterOfMass() returns (com: Vec2)
      ensures com == CenterOfMass(States(particles))
    {
      if |particles| == 0 {
        return Zero;
      }
      ghost var ss := States(particles);
      StatesAreStates(particles);
      com := Zero;
      var totalMass := 0.0;
      for i := 0 to |particles|
        invariant com == Moment(ss[..i]) && totalMass == TotalMass(ss[..i])
      {
        assert ss[..i + 1][..i] == ss[..i];
        com := Add(com, Scale(particles[i].mass, particles[i].position));
        totalMass := totalMass + particles[i].mass;
      }
      assert ss[..|particles|] == ss;
      com := if totalMass > 0.0 then DivBy(com, totalMass) else Zero;
    }

    method GetBoundingBox() returns (box: Bounds)
      ensures box == BoundingBox(States(particles))
    {
      if |particles| == 0 {
        return Bounds(0.0, 0.0, 0.0, 0.0);
      }
      ghost var ss := States(particles);
      StatesAreStates(particles);
      var minX, minY, maxX, maxY := FloatMax, FloatMax, -FloatMax, -FloatMax;
      for i := 0 to |particles|
        invariant Bounds(minX, minY, maxX, maxY) == Extent(ss[..i])
      {
        assert ss[..i + 1][..i] == ss[..i];
        var pos := particles[i].position;
        minX := Min(minX, pos.x);
        minY := Min(minY, pos.y);
        maxX := Max(maxX, pos.x);
        maxY := Max(maxY, pos.y);
      }
      assert ss[..|particles|] == ss;
      box := Bounds(minX, minY, maxX, maxY);
    }
  }

  // ------------------------------------------------------------ the sequential solver

  predicate NonZeroMasses(ss: seq<ParticleState>) {
    forall k :: 0 <= k < |ss| ==> ss[k].mass != 0.0
  }

  /** G m_a m_b / d^3 for the softened squared distance rSqr, computed as
      the C++ code does, through 1 / sqrt(rSqr). */
  function Strength(sqrt: SqrtFn, G: real, ma: real, mb: real, rSqr: real): real
    requires 0.0 < rSqr
  {
    SqrtPositive(sqrt, rSqr);
    var invR := 1.0 / sqrt(rSqr);
    var invR3 := invR * invR * invR;
    G * ma * mb * invR3
  }

  /** A force longer than MAX_FORCE is scaled down by MAX_FORCE / |F|. */
  function Capped(sqrt: SqrtFn, force: Vec2): Vec2 {
    var forceMag := Length(sqrt, force);
    if forceMag > MaxForce then Scale(MaxForce / forceMag, force) else force
  }

  /** The force a particle at pb of mass mb exerts on one at pa of mass ma:
      none when the softened squared distance is below MIN_DISTANCE^2,
      otherwise the capped G m_a m_b r / d^3. */
  function PairForce(sqrt: SqrtFn, G: real, softeningSq: real, pa: Vec2, ma: real, pb: Vec2, mb: real): (r: Option<Vec2>)
    ensures r.None? <==> Dot(Sub(pb, pa), Sub(pb, pa)) + softeningSq < MinDistance * MinDistance
  {
    var r := Sub(pb, pa);
    var rSqr := Dot(r, r) + softeningSq;
    if rSqr < MinDistance * MinDistance then None
    else Some(Capped(sqrt, Scale(Strength(sqrt, G, ma, mb, rSqr), r)))
  }

  /** The total force on particle i from particles 0 .. m-1, skipping i. */
  function RowForce(sqrt: SqrtFn, G: real, softeningSq: real, ss: seq<ParticleState>, i: nat, m: nat): Vec2
    requires i < |ss| && m <= |ss|
  {
    if m == 0 then Zero
    else
      var prev := RowForce(sqrt, G, softeningSq, ss, i, m - 1);
      if m - 1 == i then prev
      else match PairForce(sqrt, G, softeningSq, ss[i].position, ss[i].mass, ss[m - 1].position, ss[m - 1].mass)
        case None => prev
        case Some(f) => Add(prev, f)
  }

  /** Particle k after ComputeGravityForce: acceleration = total force / mass. */
  function Accelerated(sqrt: SqrtFn, G: real, softeningSq: real, ss: seq<ParticleState>, k: nat): ParticleState
    requires k < |ss| && ss[k].mass != 0.0
  {
    ss[k].(acceleration := DivBy(RowForce(sqrt, G, softeningSq, ss, k, |ss|), ss[k].mass))
  }

  function ClearedAll(ss: seq<ParticleState>): (r: seq<ParticleState>)
    ensures |r| == |ss|
  {
    seq(|ss|, k requires 0 <= k < |ss| => ss[k].(acceleration := Zero))
  }

  /** The force phase: every particle's acceleration from the same states. */
  function Forced(sqrt: SqrtFn, G: real, softeningSq: real, ss: seq<ParticleState>): (r: seq<ParticleState>)
    requires NonZeroMasses(ss)
    ensures |r| == |ss|
  {
    seq(|ss|, k requires 0 <= k < |ss| => Accelerated(sqrt, G, softeningSq, ss, k))
  }

  /** v += a dt, then x += v dt with the new velocity. */
  function Advanced(s: ParticleState, dt: real): ParticleState {
    var v := Add(s.velocity, Scale(dt, s.acceleration));
    s.(velocity := v, position := Add(s.position, Scale(dt, v)))
  }

  function AdvancedAll(ss: seq<ParticleState>, dt: real): (r: seq<ParticleState>)
    ensures |r| == |ss|
  {
    seq(|ss|, k requires 0 <= k < |ss| => Advanced(ss[k], dt))
  }

  /** UpdateParticlePositions on a non-empty system. */
  function SolverStep(sqrt: SqrtFn, G: real, softeningSq: real, dt: real, ss: seq<ParticleState>): (r: seq<ParticleState>)
    requires NonZeroMasses(ss)
    ensures |r| == |ss|
  {
    AdvancedAll(Forced(sqrt, G, softeningSq, ClearedAll(ss)), dt)
  }

  /** The integrator in closed form: x' = x + v dt + a dt^2, v' = v + a dt;
      mass and acceleration are kept. */
  lemma AdvancedClosedForm(s: ParticleState, dt: real)
    ensures Advanced(s, dt).velocity == Add(s.velocity, Scale(dt, s.acceleration))
    ensures Advanced(s, dt).position ==
      Add(Add(s.position, Scale(dt, s.velocity)), Scale(dt * dt, s.acceleration))
    ensures Advanced(s, dt).mass == s.mass && Advanced(s, dt).acceleration == s.acceleration
  {
    var a := Advanced(s, dt).position;
    assert a.x == s.position.x + dt * s.velocity.x + dt * dt * s.acceleration.x by {
      assert dt * (s.velocity.x + dt * s.acceleration.x) == dt * s.velocity.x + dt * dt * s.acceleration.x;
    }
    assert a.y == s.position.y + dt * s.velocity.y + dt * dt * s.acceleration.y by {
      assert dt * (s.velocity.y + dt * s.acceleration.y) == dt * s.velocity.y + dt * dt * s.acceleration.y;
    }
  }

  /** The row depends only on positions and masses. */
  lemma {:induction false} RowForceOfPositions(sqrt: SqrtFn, G: real, softeningSq: real,
                                                ss: seq<ParticleState>, tt: seq<ParticleState>, i: nat, m: nat)
    requires |ss| == |tt| && i < |ss| && m <= |ss|
    requires forall k :: 0 <= k < |ss| ==> ss[k].position == tt[k].position && ss[k].mass == tt[k].mass
    ensures RowForce(sqrt, G, softeningSq, ss, i, m) == RowForce(sqrt, G, softeningSq, tt, i, m)
    decreases m
  {
    if m > 0 {
      RowForceOfPositions(sqrt, G, softeningSq, ss, tt, i, m - 1);
      assert ss[i].position == tt[i].position && ss[i].mass == tt[i].mass;
      assert ss[m - 1].position == tt[m - 1].position && ss[m - 1].mass == tt[m - 1].mass;
    }
  }

  /** Since every acceleration is overwritten in the force phase, the step
      does not depend on the accelerations the particles came in with. */
  lemma StepIgnoresAccelerations(sqrt: SqrtFn, G: real, softeningSq: real, dt: real,
                                 ss: seq<ParticleState>, tt: seq<ParticleState>)
    requires NonZeroMasses(ss) && |ss| == |tt|
    requires forall k :: 0 <= k < |ss| ==> tt[k] == ss[k].(acceleration := tt[k].acceleration)
    ensures NonZeroMasses(tt)
    ensures SolverStep(sqrt, G, softeningSq, dt, ss) == SolverStep(sqrt, G, softeningSq, dt, tt)
  {
    var cs, ct := ClearedAll(ss), ClearedAll(tt);
    assert cs == ct;
  }

  function Negated(f: Option<Vec2>): Option<Vec2> {
    match f
    case None => None
    case Some(v) => Some(Scale(-1.0, v))
  }

  lemma DotNegated(v: Vec2)
    ensures Dot(Scale(-1.0, v), Scale(-1.0, v)) == Dot(v, v)
  {
  }

  lemma ScaleNegated(k: real, v: Vec2)
    ensures Scale(k, Scale(-1.0, v)) == Scale(-1.0, Scale(k, v))
  {
  }

  /** The cap commutes with reversing the force. */
  lemma CappedNegated(sqrt: SqrtFn, f: Vec2)
    ensures Capped(sqrt, Scale(-1.0, f)) == Scale(-1.0, Capped(sqrt, f))
  {
    DotNegated(f);
    var m := Length(sqrt, f);
    assert Length(sqrt, Scale(-1.0, f)) == m;
    if m > MaxForce {
      ScaleNegated(MaxForce / m, f);
    }
  }

  /** Newton's third law for the pair term: the force of a on b is the
      opposite of the force of b on a, including the cap and the skip. */
  lemma PairForceAntisymmetric(sqrt: SqrtFn, G: real, softeningSq: real, pa: Vec2, ma: real, pb: Vec2, mb: real)
    ensures PairForce(sqrt, G, softeningSq, pb, mb, pa, ma) == Negated(PairForce(sqrt, G, softeningSq, pa, ma, pb, mb))
  {
    var r := Sub(pb, pa);
    assert Sub(pa, pb) == Scale(-1.0, r);
    DotNegated(r);
    var rSqr := Dot(r, r) + softeningSq;
    if MinDistance * MinDistance <= rSqr {
      var k := Strength(sqrt, G, ma, mb, rSqr);
      assert Strength(sqrt, G, mb, ma, rSqr) == k;
      ScaleNegated(k, r);
      CappedNegated(sqrt, Scale(k, r));
    }
  }

  /** The self pair the loop skips would only add a zero vector. */
  lemma SelfPairVanishes(sqrt: SqrtFn, G: real, softeningSq: real, p: Vec2, m: real)
    ensures PairForce(sqrt, G, softeningSq, p, m, p, m) == None || PairForce(sqrt, G, softeningSq, p, m, p, m) == Some(Zero)
  {
    SqrtOfZero(sqrt);
    assert Sub(p, p) == Zero;
    var rSqr := Dot(Zero, Zero) + softeningSq;
    if MinDistance * MinDistance <= rSqr {
      var k := Strength(sqrt, G, m, m, rSqr);
      assert Scale(k, Zero) == Zero;
      assert Dot(Zero, Zero) == 0.0;
    }
  }

  /** A square root that is exact on the non-negative reals. */
  ghost predicate ExactSqrt(sqrt: SqrtFn) {
    forall x :: 0.0 <= x ==> sqrt(x) * sqrt(x) == x
  }

  lemma SquaresEqual(s: real, t: real)
    requires 0.0 <= s && 0.0 <= t && s * s == t * t
    ensures s == t
  {
    assert (s - t) * (s + t) == s * s - t * t;
    if s + t != 0.0 {
      assert s - t == 0.0;
    }
  }

  /** With an exact square root, a capped force is no longer than MAX_FORCE. */
  lemma CappedBound(sqrt: SqrtFn, f: Vec2)
    requires ExactSqrt(sqrt)
    ensures Length(sqrt, Capped(sqrt, f)) <= MaxForce
  {
    var m := Length(sqrt, f);
    SquaresNonNegative(f);
    if m > MaxForce {
      var c := MaxForce / m;
      var g := Scale(c, f);
      SquaresNonNegative(g);
      assert Dot(g, g) == c * c * Dot(f, f);
      assert m * m == Dot(f, f);
      var l := Length(sqrt, g);
      assert l * l == Dot(g, g);
      assert c * m == MaxForce;
      assert c * c * (m * m) == MaxForce * MaxForce;
      SquaresEqual(l, MaxForce);
    }
  }

  /** With an exact square root, no pair force is longer than MAX_FORCE. */
  lemma PairForceCapped(sqrt: SqrtFn, G: real, softeningSq: real, pa: Vec2, ma: real, pb: Vec2, mb: real)
    requires ExactSqrt(sqrt)
    ensures PairForce(sqrt, G, softeningSq, pa, ma, pb, mb).Some? ==>
      Length(sqrt, PairForce(sqrt, G, softeningSq, pa, ma, pb, mb).value) <= MaxForce
  {
    var r := Sub(pb, pa);
    var rSqr := Dot(r, r) + softeningSq;
    if MinDistance * MinDistance <= rSqr {
      CappedBound(sqrt, Scale(Strength(sqrt, G, ma, mb, rSqr), r));
    }
  }

  /** CPUSequentialSolver; the time step, G and the softening are the base
      class's fields. */
  class CPUSequentialSolver {
    var timeStep: real
    var gravitationalConstant: real
    var squaredSoftening: real

    constructor (timeStep: real, squaredSoftening: real)
      ensures this.timeStep == timeStep && this.squaredSoftening == squaredSoftening
      ensures gravitationalConstant == 10.0
    {
      this.timeStep := timeStep;
      this.squaredSoftening := squaredSoftening;
      gravitationalConstant := 10.0;
    }

    /** One step of the solver: a null or empty system is left alone;
        otherwise the particles end in the states SolverStep gives. */
    method UpdateParticlePositions(system: ParticleSystem?, sqrt: SqrtFn)
      requires system != null ==> system.Valid() && NonZeroMasses(States(system.particles))
      modifies if system == null then [] else system.particles
      ensures system != null ==>
        States(system.particles) == SolverStep(sqrt, gravitationalConstant, squaredSoftening, timeStep, old(States(system.particles)))
    {
      if system == null || system.IsEmpty() {
        return;
      }
      var ps := system.particles;
      ghost var ss := States(ps);
      StatesAreStates(ps);
      Step(ps, sqrt, ss);
      StatesOfStatesAre(ps, SolverStep(sqrt, gravitationalConstant, squaredSoftening, timeStep, ss));
    }

    /** The three loops of UpdateParticlePositions on a non-empty vector. */
    method Step(ps: seq<Particle>, sqrt: SqrtFn, ghost ss: seq<ParticleState>)
      requires Distinct(ps) && StatesAre(ps, ss) && NonZeroMasses(ss)
      modifies ps
      ensures StatesAre(ps, SolverStep(sqrt, gravitationalConstant, squaredSoftening, timeStep, ss))
    {
      ClearAccelerations(ps, ss);
      ghost var cs := ClearedAll(ss);
      assert NonZeroMasses(cs);
      ComputeForces(ps, sqrt, cs);
      Integrate(ps, Forced(sqrt, gravitationalConstant, squaredSoftening, cs));
    }

    method ClearAccelerations(ps: seq<Particle>, ghost ss: seq<ParticleState>)
      requires Distinct(ps) && StatesAre(ps, ss)
      modifies ps
      ensures StatesAre(ps, ClearedAll(ss))
    {
      for i := 0 to |ps|
        invariant StatesAre(ps, ClearedAll(ss)[..i] + ss[i..])
      {
        ps[i].acceleration := Zero;
        assert ClearedAll(ss)[..i + 1] + ss[i + 1..] == (ClearedAll(ss)[..i] + ss[i..])[i := ClearedAll(ss)[i]];
      }
      assert ClearedAll(ss)[..|ps|] + ss[|ps|..] == ClearedAll(ss);
    }

    /** The loop over i calling ComputeGravityForce. */
    method ComputeForces(ps: seq<Particle>, sqrt: SqrtFn, ghost cs: seq<ParticleState>)
      requires Distinct(ps) && StatesAre(ps, cs) && NonZeroMasses(cs)
      modifies ps
      ensures StatesAre(ps, Forced(sqrt, gravitationalConstant, squaredSoftening, cs))
    {
      ghost var fs := Forced(sqrt, gravitationalConstant, squaredSoftening, cs);
      for i := 0 to |ps|
        invariant StatesAre(ps, fs[..i] + cs[i..])
      {
        ghost var cur := fs[..i] + cs[i..];
        RowForceOfPositions(sqrt, gravitationalConstant, squaredSoftening, cur, cs, i, |cs|);
        ComputeGravityForce(ps, i, sqrt, cur);
        assert fs[..i + 1] + cs[i + 1..] == cur[i := Accelerated(sqrt, gravitationalConstant, squaredSoftening, cur, i)];
      }
      assert fs[..|ps|] + cs[|ps|..] == fs;
    }

    /** The force on particle i from every other particle, stored as its
        acceleration; nothing else changes. */
    method ComputeGravityForce(ps: seq<Particle>, i: nat, sqrt: SqrtFn, ghost ss: seq<ParticleState>)
      requires Distinct(ps) && StatesAre(ps, ss) && i < |ps| && ss[i].mass != 0.0
      modifies ps[i]
      ensures StatesAre(ps, ss[i := Accelerated(sqrt, gravitationalConstant, squaredSoftening, ss, i)])
    {
      var particle := ps[i];
      var totalForce := Zero;
      for j := 0 to |ps|
        invariant totalForce == RowForce(sqrt, gravitationalConstant, squaredSoftening, ss, i, j)
      {
        if j == i {
          continue;
        }
        var other := ps[j];
        var r := Sub(other.position, particle.position);
        var rSqr := Dot(r, r) + squaredSoftening;
        if rSqr < MinDistance * MinDistance {
          continue;
        }
        var force := Scale(Strength(sqrt, gravitationalConstant, particle.mass, other.mass, rSqr), r);
        var forceMag := Length(sqrt, force);
        if forceMag > MaxForce {
          force := Scale(MaxForce / forceMag, force);
        }
        totalForce := Add(totalForce, force);
      }
      particle.acceleration := DivBy(totalForce, particle.mass);
    }

    method Integrate(ps: seq<Particle>, ghost fs: seq<ParticleState>)
      requires Distinct(ps) && StatesAre(ps, fs)
      modifies ps
      ensures StatesAre(ps, AdvancedAll(fs, timeStep))
    {
      for i := 0 to |ps|
        invariant StatesAre(ps, AdvancedAll(fs, timeStep)[..i] + fs[i..])
      {
        var particle := ps[i];
        particle.velocity := Add(particle.velocity, Scale(timeStep, particle.acceleration));
        particle.position := Add(particle.position, Scale(timeStep, particle.velocity));
        assert AdvancedAll(fs, timeStep)[..i + 1] + fs[i + 1..] ==
          (AdvancedAll(fs, timeStep)[..i] + fs[i..])[i := AdvancedAll(fs, timeStep)[i]];
      }
      assert AdvancedAll(fs, timeStep)[..|ps|] + fs[|ps|..] == AdvancedAll(fs, timeStep);
    }
  }
}
