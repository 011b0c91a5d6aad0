/** One tick of the N-body engine (PhysicsEngine), modelled sequentially.
    The body list is a sequence of distinct Body objects; every loop of the
    engine is a method whose postcondition ties the new body states to a
    specification function of the old ones. */
module Physics {
  import opened Numerics
  import opened Bodies
  import opened QuadTree
  import BarnesHut

  /** PhysicsEngine::MIN_DISTANCE. The class constant is the one the member
      functions see; it hides the file-scope constant of the same name (1.0). */
  const MinDistance: real := 0.000001
  /** PhysicsEngine::MAX_FORCE, hiding the file-scope 10000. */
  const MaxForce: real := 1000000.0
  /** The range of size_t, to which `bodies.size() > maxBodiesForDirect`
      converts its int operand. */
  const SizeTModulus: int := 0x1_0000_0000_0000_0000

  datatype PhysicsConfig = PhysicsConfig(
    gravitationalConstant: real, timeStep: real, timeScale: real,
    softeningLength: real, dampingFactor: real,
    useBarnesHut: bool, barnesHutTheta: real,
    enableCollisions: bool, restitution: real,
    adaptiveTimeStep: bool, maxTimeStep: real, minTimeStep: real,
    useGPU: bool, maxBodiesForDirect: int)

  const DefaultConfig: PhysicsConfig :=
    PhysicsConfig(1.0, 0.016, 1.0, 0.1, 1.0, true, 0.7, true, 0.8, false, 0.033, 0.001, false, 1000)

  /** PhysicsStats without its timing fields. */
  datatype PhysicsStats = PhysicsStats(bodyCount: int, forceCalculations: int, collisions: int, methodName: string)

  const DefaultStats: PhysicsStats := PhysicsStats(0, 0, 0, "Direct")

  datatype EnergyStats = EnergyStats(kinetic: real, potential: real, total: real, initial: real, error: real)

  // ------------------------------------------------------------ body lists

  /** The states of the bodies, in list order (StatesAreStates says so
      body by body). */
  function States(bs: seq<Body>): (r: seq<BodyState>)
    reads bs
    ensures |r| == |bs|
  {
    if bs == [] then [] else States(bs[..|bs| - 1]) + [bs[|bs| - 1].State()]
  }

  /** The bodies hold the states ss, body by body. */
  predicate StatesAre(bs: seq<Body>, ss: seq<BodyState>)
    reads bs
  {
    |ss| == |bs| && forall k {:trigger bs[k]} :: 0 <= k < |bs| ==> bs[k].State() == ss[k]
  }

  lemma {:induction false} StatesAreStates(bs: seq<Body>)
    ensures StatesAre(bs, States(bs))
    decreases |bs|
  {
    if bs != [] {
      var front := bs[..|bs| - 1];
      StatesAreStates(front);
      assert forall k {:trigger bs[k]} :: 0 <= k < |front| ==> bs[k] == front[k];
    }
  }

  lemma StatesOfStatesAre(bs: seq<Body>, ss: seq<BodyState>)
    requires StatesAre(bs, ss)
    ensures States(bs) == ss
  {
    StatesAreStates(bs);
    var r := States(bs);
    assert forall k | 0 <= k < |bs| :: r[k] == bs[k].State();
  }

  /** The list owns its bodies (unique_ptr): no body appears twice. */
  predicate Distinct(bs: seq<Body>) {
    forall i, j :: 0 <= i < j < |bs| ==> bs[i] != bs[j]
  }

  predicate PositiveMasses(ss: seq<BodyState>) {
    forall k :: 0 <= k < |ss| ==> 0.0 < ss[k].mass
  }

  /** t differs from s at most in position and velocity. */
  predicate MovedOnly(s: BodyState, t: BodyState) {
    t == s.(position := t.position, velocity := t.velocity)
  }

  /** t differs from s at most in force and acceleration. */
  predicate ForcedOnly(s: BodyState, t: BodyState) {
    t == s.(force := t.force, acceleration := t.acceleration)
  }

  // ------------------------------------------------------------ solver choice

  datatype Solver = GpuSolver | BarnesHutSolver | DirectSolver

  /** The int-to-size_t conversion of the comparison's right operand. */
  function AsSizeT(v: int): int {
    v % SizeTModulus
  }

  /** CalculateForces' dispatch. */
  function ChooseSolver(cfg: PhysicsConfig, gpuAvailable: bool, n: nat): Solver {
    if cfg.useGPU && gpuAvailable then GpuSolver
    else if cfg.useBarnesHut && n > AsSizeT(cfg.maxBodiesForDirect) then BarnesHutSolver
    else DirectSolver
  }

  /** GPU iff requested and available; otherwise Barnes-Hut iff requested
      and there are more bodies than maxBodiesForDirect; a negative
      32-bit maxBodiesForDirect, read as a huge unsigned number, never
      selects Barnes-Hut for a list below 2^63 bodies. */
  lemma SolverChoice(cfg: PhysicsConfig, gpuAvailable: bool, n: nat)
    ensures ChooseSolver(cfg, gpuAvailable, n) == GpuSolver <==> cfg.useGPU && gpuAvailable
    ensures !(cfg.useGPU && gpuAvailable) && 0 <= cfg.maxBodiesForDirect < SizeTModulus ==>
      (ChooseSolver(cfg, gpuAvailable, n) == BarnesHutSolver <==> cfg.useBarnesHut && n > cfg.maxBodiesForDirect)
    ensures -0x8000_0000 <= cfg.maxBodiesForDirect < 0 && n < 0x8000_0000_0000_0000 ==>
      ChooseSolver(cfg, gpuAvailable, n) != BarnesHutSolver
    ensures ChooseSolver(cfg, gpuAvailable, n) == BarnesHutSolver ==> n > 0
  {
    var v := cfg.maxBodiesForDirect;
    if -SizeTModulus <= v < 0 {
      assert AsSizeT(v) == v + SizeTModulus by { ModInRange(v, SizeTModulus, -1); }
    } else if 0 <= v < SizeTModulus {
      assert AsSizeT(v) == v;
    }
  }

  // ------------------------------------------------------------ clearing

  function Cleared(s: BodyState): BodyState {
    s.(force := Zero, acceleration := Zero)
  }

  function ClearedAll(ss: seq<BodyState>): seq<BodyState> {
    seq(|ss|, k requires 0 <= k < |ss| => Cleared(ss[k]))
  }

  // ------------------------------------------------------------ direct sum

  /** The acceleration cap MAX_FORCE / m_A. For a massless body the IEEE
      quotient is +infinity and std::min keeps the magnitude. */
  function CapAcceleration(magnitude: real, massA: real): real {
    if massA == 0.0 then magnitude else Min(magnitude, MaxForce / massA)
  }

  /** Body b's contribution to body a's acceleration in the direct loop:
      none when the softened squared distance is not above MIN_DISTANCE^2,
      otherwise G m_b / d^2, capped, along the unit vector from a to b. */
  function PairAcceleration(sqrt: SqrtFn, G: real, softeningSq: real, pa: Vec2, ma: real, pb: Vec2, mb: real): Option<Vec2> {
    var r := Sub(pb, pa);
    var distanceSq := Dot(r, r) + softeningSq;
    if distanceSq > MinDistance * MinDistance then
      Some(Pull(sqrt, CapAcceleration(G * mb / distanceSq, ma), r, distanceSq))
    else None
  }

  /** magnitude * (r / sqrt(distanceSq)) for a positive distanceSq. */
  function Pull(sqrt: SqrtFn, magnitude: real, r: Vec2, distanceSq: real): Vec2
    requires 0.0 < distanceSq
  {
    SqrtPositive(sqrt, distanceSq);
    Scale(magnitude, DivBy(r, sqrt(distanceSq)))
  }

  /** Body i's acceleration from bodies 0 .. m-1, skipping itself, and the
      number of contributing pairs. */
  function DirectRow(sqrt: SqrtFn, G: real, softeningSq: real, ss: seq<BodyState>, i: nat, m: nat): Tally
    requires i < |ss| && m <= |ss|
  {
    if m == 0 then NoTally
    else
      var prev := DirectRow(sqrt, G, softeningSq, ss, i, m - 1);
      if m - 1 == i then prev
      else match PairAcceleration(sqrt, G, softeningSq, ss[i].position, ss[i].mass, ss[m - 1].position, ss[m - 1].mass)
        case None => prev
        case Some(a) => Tally(Add(prev.force, a), prev.count + 1)
  }

  function RowOf(sqrt: SqrtFn, cfg: PhysicsConfig, ss: seq<BodyState>, i: nat): Tally
    requires i < |ss|
  {
    DirectRow(sqrt, cfg.gravitationalConstant, Square(cfg.softeningLength), ss, i, |ss|)
  }

  /** Body k after CalculateForcesDirect: unless fixed, its row sum becomes
      its acceleration; nothing else changes. */
  function DirectState(sqrt: SqrtFn, cfg: PhysicsConfig, ss: seq<BodyState>, k: nat): BodyState
    requires k < |ss|
  {
    if ss[k].fixed then ss[k] else ss[k].(acceleration := RowOf(sqrt, cfg, ss, k).force)
  }

  /** The pairs counted for body k: none when it is fixed. */
  function RowCount(sqrt: SqrtFn, cfg: PhysicsConfig, ss: seq<BodyState>, k: nat): int
    requires k < |ss|
  {
    if ss[k].fixed then 0 else RowOf(sqrt, cfg, ss, k).count
  }

  /** CalculateForcesDirect on every body. */
  function DirectStep(sqrt: SqrtFn, cfg: PhysicsConfig, ss: seq<BodyState>): seq<BodyState> {
    seq(|ss|, k requires 0 <= k < |ss| => DirectState(sqrt, cfg, ss, k))
  }

  /** The interaction counter after the rows of bodies 0 .. m-1. */
  function DirectCount(sqrt: SqrtFn, cfg: PhysicsConfig, ss: seq<BodyState>, m: nat): int
    requires m <= |ss|
  {
    if m == 0 then 0 else DirectCount(sqrt, cfg, ss, m - 1) + RowCount(sqrt, cfg, ss, m - 1)
  }

  /** A row counts each other body at most once. */
  lemma {:induction false} DirectRowBound(sqrt: SqrtFn, G: real, softeningSq: real, ss: seq<BodyState>, i: nat, m: nat)
    requires i < |ss| && m <= |ss|
    ensures 0 <= DirectRow(sqrt, G, softeningSq, ss, i, m).count <= (if i < m then m - 1 else m)
  {
    if m > 0 {
      DirectRowBound(sqrt, G, softeningSq, ss, i, m - 1);
    }
  }

  lemma {:induction false} DirectCountUpTo(sqrt: SqrtFn, cfg: PhysicsConfig, ss: seq<BodyState>, m: nat)
    requires m <= |ss|
    ensures 0 <= DirectCount(sqrt, cfg, ss, m) <= m * (|ss| - 1)
  {
    if m > 0 {
      DirectCountUpTo(sqrt, cfg, ss, m - 1);
      DirectRowBound(sqrt, cfg.gravitationalConstant, Square(cfg.softeningLength), ss, m - 1, |ss|);
      assert (m - 1) * (|ss| - 1) + (|ss| - 1) == m * (|ss| - 1);
    }
  }

  /** A whole direct pass counts at most n (n - 1) ordered pairs. */
  lemma DirectCountBound(sqrt: SqrtFn, cfg: PhysicsConfig, ss: seq<BodyState>)
    ensures 0 <= DirectCount(sqrt, cfg, ss, |ss|) <= |ss| * (|ss| - 1)
  {
    DirectCountUpTo(sqrt, cfg, ss, |ss|);
  }

  // ------------------------------------------------------------ Barnes-Hut pass

  function PointsOf(ss: seq<BodyState>): (pts: seq<Point>)
    ensures |pts| == |ss|
  {
    seq(|ss|, k requires 0 <= k < |ss| => Point(ss[k].position, ss[k].mass))
  }

  /** The tree's answer for body k. */
  function TreeForce(sqrt: SqrtFn, cfg: PhysicsConfig, ss: seq<BodyState>, k: nat): Tally
    requires k < |ss|
  {
    CalculateForceRecursive(BuiltRoot(PointsOf(ss)), ss[k].position, k, cfg.barnesHutTheta,
                            cfg.gravitationalConstant, sqrt)
  }

  /** CalculateForcesBarnesHut: every body that is not fixed accumulates the
      tree force into `force`; accelerations are not touched. */
  function BarnesHutStep(sqrt: SqrtFn, cfg: PhysicsConfig, ss: seq<BodyState>): seq<BodyState> {
    seq(|ss|, k requires 0 <= k < |ss| =>
      if ss[k].fixed then ss[k] else ss[k].(force := Add(ss[k].force, TreeForce(sqrt, cfg, ss, k).force)))
  }

  /** The tree's counter after the queries of bodies 0 .. m-1: each query
      restarts it, so it holds the last query's count (zero after the build). */
  function LastQueryCount(sqrt: SqrtFn, cfg: PhysicsConfig, ss: seq<BodyState>, m: nat): int
    requires m <= |ss|
  {
    if m == 0 then 0
    else if ss[m - 1].fixed then LastQueryCount(sqrt, cfg, ss, m - 1)
    else TreeForce(sqrt, cfg, ss, m - 1).count
  }

  // ------------------------------------------------------------ force phase

  /** CalculateForces: clear every force and acceleration, then run the
      chosen solver (the GPU path falls back to the direct sum). */
  function ForceStates(sqrt: SqrtFn, cfg: PhysicsConfig, gpuAvailable: bool, ss: seq<BodyState>): (r: seq<BodyState>)
    ensures |r| == |ss|
  {
    var cs := ClearedAll(ss);
    match ChooseSolver(cfg, gpuAvailable, |ss|)
    case BarnesHutSolver => BarnesHutStep(sqrt, cfg, cs)
    case _ => DirectStep(sqrt, cfg, cs)
  }

  /** The force phase changes only forces and accelerations. */
  lemma ForcePhaseForcesOnly(sqrt: SqrtFn, cfg: PhysicsConfig, gpuAvailable: bool, ss: seq<BodyState>, k: nat)
    requires k < |ss|
    ensures ForcedOnly(ss[k], ForceStates(sqrt, cfg, gpuAvailable, ss)[k])
  {
  }

  /** The statistics after CalculateForces. The GPU path's own label is
      overwritten with "GPU" by the dispatcher. */
  function ForceStats(sqrt: SqrtFn, cfg: PhysicsConfig, gpuAvailable: bool, ss: seq<BodyState>, st: PhysicsStats): PhysicsStats {
    var cs := ClearedAll(ss);
    match ChooseSolver(cfg, gpuAvailable, |ss|)
    case GpuSolver => st.(forceCalculations := DirectCount(sqrt, cfg, cs, |cs|), methodName := "GPU")
    case BarnesHutSolver => st.(forceCalculations := LastQueryCount(sqrt, cfg, cs, |cs|), methodName := "Barnes-Hut")
    case DirectSolver => st.(forceCalculations := DirectCount(sqrt, cfg, cs, |cs|), methodName := "Direct")
  }

  /** The force phase on each path of the dispatch, with the clearing
      already done. */
  lemma GpuPhase(sqrt: SqrtFn, cfg: PhysicsConfig, gpuAvailable: bool, ss: seq<BodyState>, st: PhysicsStats)
    requires ChooseSolver(cfg, gpuAvailable, |ss|) == GpuSolver
    ensures ForceStates(sqrt, cfg, gpuAvailable, ss) == DirectStep(sqrt, cfg, ClearedAll(ss))
    ensures ForceStats(sqrt, cfg, gpuAvailable, ss, st) ==
      st.(forceCalculations := DirectCount(sqrt, cfg, ClearedAll(ss), |ss|), methodName := "GPU")
  {
  }

  lemma TreePhase(sqrt: SqrtFn, cfg: PhysicsConfig, gpuAvailable: bool, ss: seq<BodyState>, st: PhysicsStats)
    requires ChooseSolver(cfg, gpuAvailable, |ss|) == BarnesHutSolver
    ensures 0 < |ss|
    ensures ForceStates(sqrt, cfg, gpuAvailable, ss) == BarnesHutStep(sqrt, cfg, ClearedAll(ss))
    ensures ForceStats(sqrt, cfg, gpuAvailable, ss, st) ==
      st.(forceCalculations := LastQueryCount(sqrt, cfg, ClearedAll(ss), |ss|), methodName := "Barnes-Hut")
  {
    assert 0 <= AsSizeT(cfg.maxBodiesForDirect);
  }

  lemma DirectPhase(sqrt: SqrtFn, cfg: PhysicsConfig, gpuAvailable: bool, ss: seq<BodyState>, st: PhysicsStats)
    requires ChooseSolver(cfg, gpuAvailable, |ss|) == DirectSolver
    ensures ForceStates(sqrt, cfg, gpuAvailable, ss) == DirectStep(sqrt, cfg, ClearedAll(ss))
    ensures ForceStats(sqrt, cfg, gpuAvailable, ss, st) ==
      st.(forceCalculations := DirectCount(sqrt, cfg, ClearedAll(ss), |ss|), methodName := "Direct")
  {
  }

  /** After the direct (or GPU fallback) pass every force is zero (the pass
      writes accelerations only) and every fixed body has zero acceleration. */
  lemma {:induction false} DirectPassFields(sqrt: SqrtFn, cfg: PhysicsConfig, gpuAvailable: bool, ss: seq<BodyState>, k: nat)
    requires k < |ss| && ChooseSolver(cfg, gpuAvailable, |ss|) != BarnesHutSolver
    ensures ForceStates(sqrt, cfg, gpuAvailable, ss)[k].force == Zero
    ensures ss[k].fixed ==> ForceStates(sqrt, cfg, gpuAvailable, ss)[k].acceleration == Zero
    ensures !ss[k].fixed ==>
      ForceStates(sqrt, cfg, gpuAvailable, ss)[k].acceleration == RowOf(sqrt, cfg, ClearedAll(ss), k).force
  {
    var cs := ClearedAll(ss);
    assert ForceStates(sqrt, cfg, gpuAvailable, ss) == DirectStep(sqrt, cfg, cs);
  }

  /** After the Barnes-Hut pass every acceleration is zero: the tree force
      lands in `force`, which the integrator does not read. */
  lemma {:induction false} TreePassFields(sqrt: SqrtFn, cfg: PhysicsConfig, gpuAvailable: bool, ss: seq<BodyState>, k: nat)
    requires k < |ss| && ChooseSolver(cfg, gpuAvailable, |ss|) == BarnesHutSolver
    ensures ForceStates(sqrt, cfg, gpuAvailable, ss)[k].acceleration == Zero
    ensures ss[k].fixed ==> ForceStates(sqrt, cfg, gpuAvailable, ss)[k].force == Zero
    ensures !ss[k].fixed ==>
      ForceStates(sqrt, cfg, gpuAvailable, ss)[k].force == Add(Zero, TreeForce(sqrt, cfg, ClearedAll(ss), k).force)
  {
    var cs := ClearedAll(ss);
    assert ForceStates(sqrt, cfg, gpuAvailable, ss) == BarnesHutStep(sqrt, cfg, cs);
  }

  // ------------------------------------------------------------ integration

  /** IntegrateLeapfrog for one body that is neither fixed nor dragged:
      damp the velocity, half kick, drift, half kick. */
  function LeapfrogState(s: BodyState, dt: real, damping: real): BodyState {
    var half := dt * 0.5;
    var v := Add(Scale(damping, s.velocity), Scale(half, s.acceleration));
    var x := Add(s.position, Scale(dt, v));
    s.(position := x, velocity := Add(v, Scale(half, s.acceleration)))
  }

  function LeapfrogAll(ss: seq<BodyState>, dt: real, damping: real): seq<BodyState> {
    seq(|ss|, k requires 0 <= k < |ss| => if Pinned(ss[k]) then ss[k] else LeapfrogState(ss[k], dt, damping))
  }

  /** The two half kicks add up: v' = d v + a dt and x' = x + (d v + a dt / 2) dt. */
  lemma LeapfrogClosedForm(s: BodyState, dt: real, damping: real)
    ensures var t := LeapfrogState(s, dt, damping);
      && MovedOnly(s, t)
      && t.velocity == Add(Scale(damping, s.velocity), Scale(dt, s.acceleration))
      && t.position == Add(s.position, Scale(dt, Add(Scale(damping, s.velocity), Scale(dt * 0.5, s.acceleration))))
  {
  }

  /** With zero acceleration the step is pure drift of the damped velocity. */
  lemma LeapfrogWithoutAcceleration(s: BodyState, dt: real, damping: real)
    requires s.acceleration == Zero
    ensures LeapfrogState(s, dt, damping) ==
      s.(position := Add(s.position, Scale(dt, Scale(damping, s.velocity))), velocity := Scale(damping, s.velocity))
  {
  }

  // ------------------------------------------------------------ collisions

  datatype BodyPair = BodyPair(a: BodyState, b: BodyState)

  /** The impulse magnitude -(1 + e) v_n / (1/m_a + 1/m_b). */
  function Impulse(restitution: real, along: real, ma: real, mb: real): real
    requires 0.0 < ma && 0.0 < mb
  {
    InverseSumPositive(ma, mb);
    -(1.0 + restitution) * along / (1.0 / ma + 1.0 / mb)
  }

  lemma InverseSumPositive(ma: real, mb: real)
    requires 0.0 < ma && 0.0 < mb
    ensures 0.0 < 1.0 / ma + 1.0 / mb
  {
    assert 0.0 < 1.0 / ma && 0.0 < 1.0 / mb;
  }

  /** Half the overlap along delta: delta ((r_a + r_b - d) / d) / 2. */
  function Separation(delta: Vec2, distance: real, minDistance: real): Vec2
    requires distance != 0.0
  {
    Scale(0.5, Scale((minDistance - distance) / distance, delta))
  }

  /** ResolveCollision: only when 0 < distance < r_a + r_b, push the two
      bodies apart along the centre line (half the overlap each) and, unless
      they are already separating, exchange the impulse of a collision with
      the given restitution. Fixed and dragged bodies are never moved. */
  function Resolve(sqrt: SqrtFn, restitution: real, a: BodyState, b: BodyState): (r: BodyPair)
    requires 0.0 < a.mass && 0.0 < b.mass
    ensures MovedOnly(a, r.a) && MovedOnly(b, r.b)
  {
    var delta := Sub(b.position, a.position);
    var distance := Length(sqrt, delta);
    var minDistance := a.radius + b.radius;
    if distance < minDistance && distance > 0.0 then
      var separation := Separation(delta, distance, minDistance);
      var a1 := if Pinned(a) then a else a.(position := Sub(a.position, separation));
      var b1 := if Pinned(b) then b else b.(position := Add(b.position, separation));
      var normal := DivBy(delta, distance);
      var along := Dot(Sub(b.velocity, a.velocity), normal);
      if along > 0.0 then BodyPair(a1, b1)
      else
        var j := Scale(Impulse(restitution, along, a.mass, b.mass), normal);
        BodyPair(if Pinned(a) then a1 else a1.(velocity := Sub(a.velocity, DivBy(j, a.mass))),
                 if Pinned(b) then b1 else b1.(velocity := Add(b.velocity, DivBy(j, b.mass))))
    else BodyPair(a, b)
  }

  /** Outside 0 < distance < r_a + r_b nothing changes (touching bodies
      count as colliding but are left alone). */
  lemma ResolveGuard(sqrt: SqrtFn, restitution: real, a: BodyState, b: BodyState)
    requires 0.0 < a.mass && 0.0 < b.mass
    requires !(0.0 < Length(sqrt, Sub(b.position, a.position)) < a.radius + b.radius)
    ensures Resolve(sqrt, restitution, a, b) == BodyPair(a, b)
  {
  }

  /** A fixed or dragged body comes out of a collision exactly as it went in. */
  lemma ResolvePinned(sqrt: SqrtFn, restitution: real, a: BodyState, b: BodyState)
    requires 0.0 < a.mass && 0.0 < b.mass
    ensures Pinned(a) ==> Resolve(sqrt, restitution, a, b).a == a
    ensures Pinned(b) ==> Resolve(sqrt, restitution, a, b).b == b
  {
  }

  /** Separating bodies keep their velocities. */
  lemma ResolveSeparating(sqrt: SqrtFn, restitution: real, a: BodyState, b: BodyState)
    requires 0.0 < a.mass && 0.0 < b.mass
    requires var d := Length(sqrt, Sub(b.position, a.position));
      0.0 < d && Dot(Sub(b.velocity, a.velocity), DivBy(Sub(b.position, a.position), d)) > 0.0
    ensures var r := Resolve(sqrt, restitution, a, b);
      r.a.velocity == a.velocity && r.b.velocity == b.velocity
  {
  }

  /** Between two free bodies the impulses are equal and opposite, so the
      total momentum m_a v_a + m_b v_b is unchanged. */
  lemma {:induction false} ResolveConservesMomentum(sqrt: SqrtFn, restitution: real, a: BodyState, b: BodyState)
    requires 0.0 < a.mass && 0.0 < b.mass && !Pinned(a) && !Pinned(b)
    ensures var r := Resolve(sqrt, restitution, a, b);
      Add(Momentum(r.a), Momentum(r.b)) == Add(Momentum(a), Momentum(b))
  {
    var r := Resolve(sqrt, restitution, a, b);
    var delta := Sub(b.position, a.position);
    var distance := Length(sqrt, delta);
    if distance < a.radius + b.radius && distance > 0.0 {
      var normal := DivBy(delta, distance);
      var along := Dot(Sub(b.velocity, a.velocity), normal);
      if along <= 0.0 {
        var j := Scale(Impulse(restitution, along, a.mass, b.mass), normal);
        assert r.a.velocity == Sub(a.velocity, DivBy(j, a.mass));
        assert r.b.velocity == Add(b.velocity, DivBy(j, b.mass));
        ImpulseCancels(a.mass, a.velocity.x, j.x);
        ImpulseCancels(a.mass, a.velocity.y, j.y);
        ImpulseAdds(b.mass, b.velocity.x, j.x);
        ImpulseAdds(b.mass, b.velocity.y, j.y);
      }
    }
  }

  lemma ImpulseCancels(m: real, v: real, j: real)
    requires 0.0 < m
    ensures m * (v - j / m) == m * v - j
  {
    assert m * (j / m) == j;
  }

  lemma ImpulseAdds(m: real, v: real, j: real)
    requires 0.0 < m
    ensures m * (v + j / m) == m * v + j
  {
    assert m * (j / m) == j;
  }

  /** Two free overlapping bodies end up exactly r_a + r_b apart along the
      old centre line: the new offset is the old one scaled by
      (r_a + r_b) / distance. */
  lemma {:induction false} ResolveSeparates(sqrt: SqrtFn, restitution: real, a: BodyState, b: BodyState)
    requires 0.0 < a.mass && 0.0 < b.mass && !Pinned(a) && !Pinned(b)
    requires 0.0 < Length(sqrt, Sub(b.position, a.position)) < a.radius + b.radius
    ensures var r := Resolve(sqrt, restitution, a, b);
      var d := Length(sqrt, Sub(b.position, a.position));
      Sub(r.b.position, r.a.position) == Scale((a.radius + b.radius) / d, Sub(b.position, a.position))
  {
    var delta := Sub(b.position, a.position);
    var d := Length(sqrt, delta);
    var m := a.radius + b.radius;
    var k := (m - d) / d;
    OnePlusRatio(m, d);
    Spread(delta.x, k);
    Spread(delta.y, k);
  }

  lemma OnePlusRatio(m: real, d: real)
    requires d != 0.0
    ensures 1.0 + (m - d) / d == m / d
  {
    assert (m - d) / d == m / d - d / d;
  }

  lemma Spread(x: real, k: real)
    ensures x + 0.5 * (k * x) + 0.5 * (k * x) == (1.0 + k) * x
  {
  }

  /** The collision sweep over rows i, i+1, ...: the sequence of states and
      the collision counter. */
  datatype Sweep = Sweep(states: seq<BodyState>, count: int)

  /** The inner loop of HandleCollisions for row i from column j: each
      overlapping pair (i, j) is resolved against the current states. */
  function SweepRow(sqrt: SqrtFn, e: real, ss: seq<BodyState>, i: nat, j: nat, count: int): (r: Sweep)
    requires i < j <= |ss| && PositiveMasses(ss)
    ensures |r.states| == |ss| && PositiveMasses(r.states)
    decreases |ss| - j
  {
    if j == |ss| then Sweep(ss, count)
    else if Colliding(sqrt, ss[i], ss[j]) then
      var p := Resolve(sqrt, e, ss[i], ss[j]);
      SweepRow(sqrt, e, ss[i := p.a][j := p.b], i, j + 1, count + 1)
    else SweepRow(sqrt, e, ss, i, j + 1, count)
  }

  /** The outer loop of HandleCollisions from row i. */
  function SweepFrom(sqrt: SqrtFn, e: real, ss: seq<BodyState>, i: nat, count: int): (r: Sweep)
    requires i <= |ss| && PositiveMasses(ss)
    ensures |r.states| == |ss| && PositiveMasses(r.states)
    decreases |ss| - i
  {
    if i == |ss| then Sweep(ss, count)
    else
      var row := SweepRow(sqrt, e, ss, i, i + 1, count);
      SweepFrom(sqrt, e, row.states, i + 1, row.count)
  }

  /** HandleCollisions: the sweep from row 0 with the counter reset. */
  function SweepAll(sqrt: SqrtFn, e: real, ss: seq<BodyState>): Sweep
    requires PositiveMasses(ss)
  {
    SweepFrom(sqrt, e, ss, 0, 0)
  }

  /** Every state changes at most in position and velocity, and fixed or
      dragged bodies do not change at all. */
  predicate Evolves(ss: seq<BodyState>, tt: seq<BodyState>) {
    && |tt| == |ss|
    && forall k :: 0 <= k < |ss| ==> MovedOnly(ss[k], tt[k]) && (Pinned(ss[k]) ==> tt[k] == ss[k])
  }

  lemma EvolvesRefl(ss: seq<BodyState>)
    ensures Evolves(ss, ss)
  {
  }

  lemma EvolvesTrans(ss: seq<BodyState>, tt: seq<BodyState>, uu: seq<BodyState>)
    requires Evolves(ss, tt) && Evolves(tt, uu)
    ensures Evolves(ss, uu)
  {
    forall k | 0 <= k < |ss|
      ensures MovedOnly(ss[k], uu[k]) && (Pinned(ss[k]) ==> uu[k] == ss[k])
    {
      assert MovedOnly(ss[k], tt[k]) && MovedOnly(tt[k], uu[k]);
    }
  }

  /** One resolved pair moves only the two bodies involved, as Resolve allows. */
  lemma ResolveEvolves(sqrt: SqrtFn, e: real, ss: seq<BodyState>, i: nat, j: nat)
    requires i < j < |ss| && PositiveMasses(ss)
    ensures var p := Resolve(sqrt, e, ss[i], ss[j]);
      Evolves(ss, ss[i := p.a][j := p.b])
  {
    var p := Resolve(sqrt, e, ss[i], ss[j]);
    ResolvePinned(sqrt, e, ss[i], ss[j]);
    var next := ss[i := p.a][j := p.b];
    forall k | 0 <= k < |ss|
      ensures MovedOnly(ss[k], next[k]) && (Pinned(ss[k]) ==> next[k] == ss[k])
    {
      if k == j {
        assert next[k] == p.b;
      } else if k == i {
        assert next[k] == p.a;
      } else {
        assert next[k] == ss[k];
      }
    }
  }

  lemma {:induction false} SweepRowEvolves(sqrt: SqrtFn, e: real, ss: seq<BodyState>, i: nat, j: nat, count: int)
    requires i < j <= |ss| && PositiveMasses(ss)
    ensures Evolves(ss, SweepRow(sqrt, e, ss, i, j, count).states)
    decreases |ss| - j
  {
    if j == |ss| {
      EvolvesRefl(ss);
    } else if Colliding(sqrt, ss[i], ss[j]) {
      var p := Resolve(sqrt, e, ss[i], ss[j]);
      var next := ss[i := p.a][j := p.b];
      ResolveEvolves(sqrt, e, ss, i, j);
      SweepRowEvolves(sqrt, e, next, i, j + 1, count + 1);
      EvolvesTrans(ss, next, SweepRow(sqrt, e, next, i, j + 1, count + 1).states);
    } else {
      SweepRowEvolves(sqrt, e, ss, i, j + 1, count);
    }
  }

  /** Row i counts at most one collision per column j .. n-1. */
  lemma {:induction false} SweepRowCount(sqrt: SqrtFn, e: real, ss: seq<BodyState>, i: nat, j: nat, count: int)
    requires i < j <= |ss| && PositiveMasses(ss)
    ensures count <= SweepRow(sqrt, e, ss, i, j, count).count <= count + (|ss| - j)
    decreases |ss| - j
  {
    if j < |ss| {
      if Colliding(sqrt, ss[i], ss[j]) {
        var p := Resolve(sqrt, e, ss[i], ss[j]);
        SweepRowCount(sqrt, e, ss[i := p.a][j := p.b], i, j + 1, count + 1);
      } else {
        SweepRowCount(sqrt, e, ss, i, j + 1, count);
      }
    }
  }

  /** The number of unordered pairs of m items. */
  function UnorderedPairs(m: nat): nat {
    if m == 0 then 0 else UnorderedPairs(m - 1) + (m - 1)
  }

  lemma {:induction false} UnorderedPairsClosed(m: nat)
    ensures 2 * UnorderedPairs(m) == m * (m - 1)
  {
    if m > 0 {
      UnorderedPairsClosed(m - 1);
      assert (m - 1) * (m - 2) + 2 * (m - 1) == m * (m - 1);
    }
  }

  lemma {:induction false} SweepFromEvolves(sqrt: SqrtFn, e: real, ss: seq<BodyState>, i: nat, count: int)
    requires i <= |ss| && PositiveMasses(ss)
    ensures Evolves(ss, SweepFrom(sqrt, e, ss, i, count).states)
    decreases |ss| - i
  {
    if i == |ss| {
      EvolvesRefl(ss);
    } else {
      var row := SweepRow(sqrt, e, ss, i, i + 1, count);
      SweepFromEvolves(sqrt, e, row.states, i + 1, row.count);
      SweepFromStep(sqrt, e, ss, i, count);
    }
  }

  /** Row i followed by the rest of the sweep evolves ss when the rest
      evolves the states row i leaves. */
  lemma SweepFromStep(sqrt: SqrtFn, e: real, ss: seq<BodyState>, i: nat, count: int)
    requires i < |ss| && PositiveMasses(ss)
    requires var row := SweepRow(sqrt, e, ss, i, i + 1, count);
      Evolves(row.states, SweepFrom(sqrt, e, row.states, i + 1, row.count).states)
    ensures Evolves(ss, SweepFrom(sqrt, e, ss, i, count).states)
  {
    var row := SweepRow(sqrt, e, ss, i, i + 1, count);
    SweepRowEvolves(sqrt, e, ss, i, i + 1, count);
    EvolvesTrans(ss, row.states, SweepFrom(sqrt, e, row.states, i + 1, row.count).states);
  }

  /** Rows i .. n-1 count at most one collision per unordered pair. */
  lemma {:induction false} SweepFromCount(sqrt: SqrtFn, e: real, ss: seq<BodyState>, i: nat, count: int)
    requires i <= |ss| && PositiveMasses(ss)
    ensures count <= SweepFrom(sqrt, e, ss, i, count).count <= count + UnorderedPairs(|ss| - i)
    decreases |ss| - i
  {
    if i < |ss| {
      var row := SweepRow(sqrt, e, ss, i, i + 1, count);
      SweepRowCount(sqrt, e, ss, i, i + 1, count);
      SweepFromCount(sqrt, e, row.states, i + 1, row.count);
      var m := |ss| - i;
      assert UnorderedPairs(m) == UnorderedPairs(m - 1) + (m - 1);
    }
  }

  /** HandleCollisions moves only free bodies and only their positions and
      velocities, and finds at most n (n - 1) / 2 colliding pairs. */
  lemma SweepAllFacts(sqrt: SqrtFn, e: real, ss: seq<BodyState>)
    requires PositiveMasses(ss)
    ensures Evolves(ss, SweepAll(sqrt, e, ss).states)
    ensures 0 <= 2 * SweepAll(sqrt, e, ss).count <= |ss| * (|ss| - 1)
  {
    SweepFromEvolves(sqrt, e, ss, 0, 0);
    SweepFromCount(sqrt, e, ss, 0, 0);
    UnorderedPairsClosed(|ss|);
  }

  // ------------------------------------------------------------ adaptive step

  /** The largest acceleration magnitude among bodies 0 .. m-1, or 0. */
  function MaxAcceleration(sqrt: SqrtFn, ss: seq<BodyState>, m: nat): (r: real)
    requires m <= |ss|
    ensures 0.0 <= r
  {
    if m == 0 then 0.0 else Max(MaxAcceleration(sqrt, ss, m - 1), Length(sqrt, ss[m - 1].acceleration))
  }

  lemma {:induction false} MaxAccelerationIsMax(sqrt: SqrtFn, ss: seq<BodyState>, m: nat)
    requires m <= |ss|
    ensures forall k :: 0 <= k < m ==> Length(sqrt, ss[k].acceleration) <= MaxAcceleration(sqrt, ss, m)
    ensures MaxAcceleration(sqrt, ss, m) == 0.0 ||
            exists k :: 0 <= k < m && MaxAcceleration(sqrt, ss, m) == Length(sqrt, ss[k].acceleration)
  {
    if m > 0 {
      MaxAccelerationIsMax(sqrt, ss, m - 1);
    }
  }

  /** CalculateAdaptiveTimeStep. */
  function AdaptiveStep(sqrt: SqrtFn, cfg: PhysicsConfig, ss: seq<BodyState>): real {
    var m := MaxAcceleration(sqrt, ss, |ss|);
    if m > 0.0 then Clamp(sqrt(cfg.softeningLength / m), cfg.minTimeStep, cfg.maxTimeStep) else cfg.timeStep
  }

  /** When some body accelerates the step lies in [minTimeStep, maxTimeStep];
      when none does it is the configured timeStep. */
  lemma AdaptiveStepRange(sqrt: SqrtFn, cfg: PhysicsConfig, ss: seq<BodyState>)
    ensures (exists k :: 0 <= k < |ss| && Length(sqrt, ss[k].acceleration) > 0.0) && cfg.minTimeStep <= cfg.maxTimeStep ==>
      cfg.minTimeStep <= AdaptiveStep(sqrt, cfg, ss) <= cfg.maxTimeStep
    ensures (forall k :: 0 <= k < |ss| ==> Length(sqrt, ss[k].acceleration) == 0.0) ==>
      AdaptiveStep(sqrt, cfg, ss) == cfg.timeStep
  {
    MaxAccelerationIsMax(sqrt, ss, |ss|);
  }

  // ------------------------------------------------------------ energy

  function KineticSum(ss: seq<BodyState>, m: nat): real
    requires m <= |ss|
  {
    if m == 0 then 0.0 else KineticSum(ss, m - 1) + KineticEnergy(ss[m - 1])
  }

  /** The potential of one pair, counted only beyond MIN_DISTANCE. */
  function PairPotential(sqrt: SqrtFn, G: real, a: BodyState, b: BodyState): real {
    var distance := Length(sqrt, Sub(b.position, a.position));
    if distance > MinDistance then G * a.mass * b.mass / distance else 0.0
  }

  /** Row i of the potential loop: minus the pair terms (i, j) for i < j < m. */
  function PotentialRow(sqrt: SqrtFn, G: real, ss: seq<BodyState>, i: nat, m: nat): real
    requires i < |ss| && m <= |ss|
  {
    if m <= i + 1 then 0.0 else PotentialRow(sqrt, G, ss, i, m - 1) - PairPotential(sqrt, G, ss[i], ss[m - 1])
  }

  function PotentialUpTo(sqrt: SqrtFn, G: real, ss: seq<BodyState>, i: nat): real
    requires i <= |ss|
  {
    if i == 0 then 0.0 else PotentialUpTo(sqrt, G, ss, i - 1) + PotentialRow(sqrt, G, ss, i - 1, |ss|)
  }

  /** CalculateEnergyStats: initial and error keep their zero defaults. */
  function EnergyOf(sqrt: SqrtFn, G: real, ss: seq<BodyState>): EnergyStats {
    var k := KineticSum(ss, |ss|);
    var p := PotentialUpTo(sqrt, G, ss, |ss|);
    EnergyStats(k, p, k + p, 0.0, 0.0)
  }

  predicate NonNegativeMasses(ss: seq<BodyState>) {
    forall k :: 0 <= k < |ss| ==> 0.0 <= ss[k].mass
  }

  lemma PairPotentialNonNegative(sqrt: SqrtFn, G: real, a: BodyState, b: BodyState)
    requires 0.0 <= G && 0.0 <= a.mass && 0.0 <= b.mass
    ensures 0.0 <= PairPotential(sqrt, G, a, b)
  {
    var d := Length(sqrt, Sub(b.position, a.position));
    if d > MinDistance {
      assert 0.0 <= G * a.mass * b.mass;
    }
  }

  /** The pair term does not depend on the order of the pair. */
  lemma PairPotentialSymmetric(sqrt: SqrtFn, G: real, a: BodyState, b: BodyState)
    ensures PairPotential(sqrt, G, a, b) == PairPotential(sqrt, G, b, a)
  {
    LengthOfSubSymmetric(sqrt, b.position, a.position);
    assert G * a.mass * b.mass == G * b.mass * a.mass;
  }

  lemma {:induction false} PotentialRowNonPositive(sqrt: SqrtFn, G: real, ss: seq<BodyState>, i: nat, m: nat)
    requires i < |ss| && m <= |ss| && 0.0 <= G && NonNegativeMasses(ss)
    ensures PotentialRow(sqrt, G, ss, i, m) <= 0.0
  {
    if m > i + 1 {
      PotentialRowNonPositive(sqrt, G, ss, i, m - 1);
      PairPotentialNonNegative(sqrt, G, ss[i], ss[m - 1]);
    }
  }

  lemma {:induction false} PotentialUpToNonPositive(sqrt: SqrtFn, G: real, ss: seq<BodyState>, i: nat)
    requires i <= |ss| && 0.0 <= G && NonNegativeMasses(ss)
    ensures PotentialUpTo(sqrt, G, ss, i) <= 0.0
  {
    if i > 0 {
      PotentialUpToNonPositive(sqrt, G, ss, i - 1);
      PotentialRowNonPositive(sqrt, G, ss, i - 1, |ss|);
    }
  }

  lemma {:induction false} KineticSumNonNegative(ss: seq<BodyState>, m: nat)
    requires m <= |ss| && NonNegativeMasses(ss)
    ensures 0.0 <= KineticSum(ss, m)
  {
    if m > 0 {
      KineticSumNonNegative(ss, m - 1);
      KineticEnergyNonNegative(ss[m - 1]);
    }
  }

  /** With G >= 0 and no negative mass the kinetic energy is non-negative,
      the potential non-positive, and the total is their sum. */
  lemma EnergyBounds(sqrt: SqrtFn, G: real, ss: seq<BodyState>)
    requires 0.0 <= G && NonNegativeMasses(ss)
    ensures var e := EnergyOf(sqrt, G, ss);
      0.0 <= e.kinetic && e.potential <= 0.0 && e.total == e.kinetic + e.potential
  {
    KineticSumNonNegative(ss, |ss|);
    PotentialUpToNonPositive(sqrt, G, ss, |ss|);
  }

  // ------------------------------------------------------------ the tick

  /** The step the tick integrates with: the adaptive one is computed from
      the accelerations left by the previous tick, before the force pass. */
  function StepFor(sqrt: SqrtFn, cfg: PhysicsConfig, ss: seq<BodyState>, deltaTime: real): real {
    if cfg.adaptiveTimeStep then AdaptiveStep(sqrt, cfg, ss) else deltaTime
  }

  /** The states after the force pass and, when enabled, the collision sweep. */
  function CollidedStates(sqrt: SqrtFn, cfg: PhysicsConfig, gpuAvailable: bool, ss: seq<BodyState>): seq<BodyState>
    requires cfg.enableCollisions ==> PositiveMasses(ss)
  {
    var f := ForceStates(sqrt, cfg, gpuAvailable, ss);
    if cfg.enableCollisions then SweepAll(sqrt, cfg.restitution, f).states else f
  }

  /** The statistics after the force pass and, when enabled, the collision sweep. */
  function CollidedStats(sqrt: SqrtFn, cfg: PhysicsConfig, gpuAvailable: bool, ss: seq<BodyState>, st: PhysicsStats): PhysicsStats
    requires cfg.enableCollisions ==> PositiveMasses(ss)
  {
    var fs := ForceStats(sqrt, cfg, gpuAvailable, ss, st);
    var f := ForceStates(sqrt, cfg, gpuAvailable, ss);
    if cfg.enableCollisions then fs.(collisions := SweepAll(sqrt, cfg.restitution, f).count) else fs
  }

  /** Update on a non-empty list: forces, then collisions, then leapfrog. */
  function TickStates(sqrt: SqrtFn, cfg: PhysicsConfig, gpuAvailable: bool, ss: seq<BodyState>, deltaTime: real): seq<BodyState>
    requires cfg.enableCollisions ==> PositiveMasses(ss)
  {
    LeapfrogAll(CollidedStates(sqrt, cfg, gpuAvailable, ss), StepFor(sqrt, cfg, ss, deltaTime), cfg.dampingFactor)
  }

  function TickStats(sqrt: SqrtFn, cfg: PhysicsConfig, gpuAvailable: bool, ss: seq<BodyState>, st: PhysicsStats): PhysicsStats
    requires cfg.enableCollisions ==> PositiveMasses(ss)
  {
    CollidedStats(sqrt, cfg, gpuAvailable, ss, st).(bodyCount := |ss|)
  }

  /** Under Barnes-Hut, with collisions off, gravity has no effect on the
      motion: a free body drifts with its damped velocity, because the tree
      force is written to `force` while the integrator reads the
      acceleration the force pass zeroed. */
  lemma TreeTickIsInertial(sqrt: SqrtFn, cfg: PhysicsConfig, gpuAvailable: bool, ss: seq<BodyState>, deltaTime: real, k: nat)
    requires !cfg.enableCollisions && k < |ss| && !Pinned(ss[k])
    requires ChooseSolver(cfg, gpuAvailable, |ss|) == BarnesHutSolver
    ensures var t := TickStates(sqrt, cfg, gpuAvailable, ss, deltaTime)[k];
      var v := Scale(cfg.dampingFactor, ss[k].velocity);
      t.velocity == v && t.position == Add(ss[k].position, Scale(StepFor(sqrt, cfg, ss, deltaTime), v))
  {
    var f := ForceStates(sqrt, cfg, gpuAvailable, ss);
    TreePassFields(sqrt, cfg, gpuAvailable, ss, k);
    ForcePhaseForcesOnly(sqrt, cfg, gpuAvailable, ss, k);
    LeapfrogWithoutAcceleration(f[k], StepFor(sqrt, cfg, ss, deltaTime), cfg.dampingFactor);
  }

  // ------------------------------------------------------------ the engine

  class PhysicsEngine {
    var config: PhysicsConfig
    var stats: PhysicsStats
    var gpuAvailable: bool
    /** The structure-of-arrays copy the engine allocates and never fills. */
    const bodyArrays: BodyArrays
    const tree: BarnesHut.BarnesHutTree

    constructor ()
      ensures config == DefaultConfig && stats == DefaultStats && !gpuAvailable
      ensures fresh(bodyArrays) && bodyArrays.Valid() && bodyArrays.Size() == 0
      ensures fresh(tree) && tree.root == None && tree.stats == ZeroStats
    {
      config := DefaultConfig;
      stats := DefaultStats;
      gpuAvailable := false;
      bodyArrays := new BodyArrays();
      tree := new BarnesHut.BarnesHutTree();
    }

    /** The engine is not one of the bodies, so writing its statistics
        leaves every body as it was. */
    lemma EngineApart(bodies: seq<Body>)
      ensures forall k {:trigger bodies[k]} :: 0 <= k < |bodies| ==> bodies[k] as object != this
    {
    }

    /** Initialize: the GPU is never reported available; always succeeds. */
    method Initialize() returns (ok: bool)
      modifies this`gpuAvailable
      ensures ok && !gpuAvailable
    {
      gpuAvailable := false;
      ok := true;
    }

    method SetConfig(c: PhysicsConfig)
      modifies this`config
      ensures config == c
    {
      config := c;
    }

    method SetGravitationalConstant(G: real)
      modifies this`config
      ensures config == old(config).(gravitationalConstant := G)
    {
      config := config.(gravitationalConstant := G);
    }

    method SetTimeStep(dt: real)
      modifies this`config
      ensures config == old(config).(timeStep := dt)
    {
      config := config.(timeStep := dt);
    }

    method SetBarnesHutTheta(theta: real)
      modifies this`config
      ensures config == old(config).(barnesHutTheta := theta)
    {
      config := config.(barnesHutTheta := theta);
    }

    method SetCollisionEnabled(enabled: bool)
      modifies this`config
      ensures config == old(config).(enableCollisions := enabled)
    {
      config := config.(enableCollisions := enabled);
    }

    method SetRestitution(restitution: real)
      modifies this`config
      ensures config == old(config).(restitution := restitution)
    {
      config := config.(restitution := restitution);
    }

    method SetUseBarnesHut(use: bool)
      modifies this`config
      ensures config == old(config).(useBarnesHut := use)
    {
      config := config.(useBarnesHut := use);
    }

    method SetUseGPU(use: bool)
      modifies this`config
      ensures config == old(config).(useGPU := use)
    {
      config := config.(useGPU := use);
    }

    /** Reset: the statistics go back to their defaults. */
    method Reset()
      modifies this`stats
      ensures stats == DefaultStats
    {
      stats := DefaultStats;
    }

    /** Update: nothing happens on an empty list; otherwise one tick. */
    method Update(bodies: seq<Body>, deltaTime: real, sqrt: SqrtFn)
      requires Distinct(bodies)
      requires config.enableCollisions ==> PositiveMasses(States(bodies))
      modifies this`stats, tree, bodies
      ensures |bodies| == 0 ==> stats == old(stats) && unchanged(tree)
      ensures |bodies| > 0 ==>
        && States(bodies) == TickStates(sqrt, config, gpuAvailable, old(States(bodies)), deltaTime)
        && stats == TickStats(sqrt, config, gpuAvailable, old(States(bodies)), old(stats))
    {
      EngineApart(bodies);
      if |bodies| == 0 {
        return;
      }
      ghost var ss := States(bodies);
      var actualDeltaTime := deltaTime;
      if config.adaptiveTimeStep {
        actualDeltaTime := CalculateAdaptiveTimeStep(bodies, sqrt);
      }
      assert actualDeltaTime == StepFor(sqrt, config, ss, deltaTime);
      ForcesAndCollisions(bodies, sqrt);
      IntegrateLeapfrog(bodies, actualDeltaTime);
      stats := stats.(bodyCount := |bodies|);
    }

    /** The force pass followed, when enabled, by the collision sweep. */
    method ForcesAndCollisions(bodies: seq<Body>, sqrt: SqrtFn)
      requires Distinct(bodies)
      requires config.enableCollisions ==> PositiveMasses(States(bodies))
      modifies this`stats, tree, bodies
      ensures States(bodies) == CollidedStates(sqrt, config, gpuAvailable, old(States(bodies)))
      ensures stats == CollidedStats(sqrt, config, gpuAvailable, old(States(bodies)), old(stats))
    {
      EngineApart(bodies);
      ghost var ss := States(bodies);
      CalculateForces(bodies, sqrt);
      ghost var f := States(bodies);
      if config.enableCollisions {
        forall k | 0 <= k < |f| ensures 0.0 < f[k].mass {
          ForcePhaseForcesOnly(sqrt, config, gpuAvailable, ss, k);
        }
        HandleCollisions(bodies, sqrt);
      }
    }

    /** CalculateForces: clear, then dispatch. */
    method CalculateForces(bodies: seq<Body>, sqrt: SqrtFn)
      requires Distinct(bodies)
      modifies this`stats, tree, bodies
      ensures States(bodies) == ForceStates(sqrt, config, gpuAvailable, old(States(bodies)))
      ensures stats == ForceStats(sqrt, config, gpuAvailable, old(States(bodies)), old(stats))
    {
      ghost var ss := States(bodies);
      ClearForces(bodies);
      if config.useGPU && gpuAvailable {
        GpuBranch(bodies, sqrt, ss);
      } else if config.useBarnesHut && |bodies| > AsSizeT(config.maxBodiesForDirect) {
        TreeBranch(bodies, sqrt, ss);
      } else {
        DirectBranch(bodies, sqrt, ss);
      }
    }

    /** The GPU branch of the dispatch, on bodies already cleared from ss. */
    method GpuBranch(bodies: seq<Body>, sqrt: SqrtFn, ghost ss: seq<BodyState>)
      requires Distinct(bodies) && States(bodies) == ClearedAll(ss) && ChooseSolver(config, gpuAvailable, |ss|) == GpuSolver
      modifies this`stats, bodies
      ensures States(bodies) == ForceStates(sqrt, config, gpuAvailable, ss)
      ensures stats == ForceStats(sqrt, config, gpuAvailable, ss, old(stats))
    {
      EngineApart(bodies);
      GpuPhase(sqrt, config, gpuAvailable, ss, stats);
      CalculateForcesGPU(bodies, sqrt);
      stats := stats.(methodName := "GPU");
    }

    /** The Barnes-Hut branch of the dispatch. */
    method TreeBranch(bodies: seq<Body>, sqrt: SqrtFn, ghost ss: seq<BodyState>)
      requires Distinct(bodies) && States(bodies) == ClearedAll(ss) && ChooseSolver(config, gpuAvailable, |ss|) == BarnesHutSolver
      modifies this`stats, tree, bodies
      ensures States(bodies) == ForceStates(sqrt, config, gpuAvailable, ss)
      ensures stats == ForceStats(sqrt, config, gpuAvailable, ss, old(stats))
    {
      ghost var cfg, gpu := config, gpuAvailable;
      EngineApart(bodies);
      TreePhase(sqrt, cfg, gpu, ss, stats);
      ghost var cs := ClearedAll(ss);
      ghost var want := ForceStats(sqrt, cfg, gpu, ss, stats);
      StatesAreStates(bodies);
      CalculateForcesBarnesHut(bodies, sqrt, cs);
      stats := stats.(methodName := "Barnes-Hut");
      StatesOfStatesAre(bodies, BarnesHutStep(sqrt, cfg, cs));
      assert stats == want;
      assert config == cfg && gpuAvailable == gpu;
    }

    /** The direct branch of the dispatch. */
    method DirectBranch(bodies: seq<Body>, sqrt: SqrtFn, ghost ss: seq<BodyState>)
      requires Distinct(bodies) && States(bodies) == ClearedAll(ss) && ChooseSolver(config, gpuAvailable, |ss|) == DirectSolver
      modifies this`stats, bodies
      ensures States(bodies) == ForceStates(sqrt, config, gpuAvailable, ss)
      ensures stats == ForceStats(sqrt, config, gpuAvailable, ss, old(stats))
    {
      EngineApart(bodies);
      DirectPhase(sqrt, config, gpuAvailable, ss, stats);
      CalculateForcesDirect(bodies, sqrt);
      stats := stats.(methodName := "Direct");
    }

    /** The clearing loop at the start of CalculateForces. */
    method ClearForces(bodies: seq<Body>)
      requires Distinct(bodies)
      modifies bodies
      ensures States(bodies) == ClearedAll(old(States(bodies)))
    {
      ghost var ss := States(bodies);
      StatesAreStates(bodies);
      var i := 0;
      while i < |bodies|
        invariant 0 <= i <= |bodies|
        invariant forall k {:trigger bodies[k]} :: 0 <= k < |bodies| ==>
          bodies[k].State() == (if k < i then Cleared(ss[k]) else ss[k])
      {
        bodies[i].ClearForce();
        bodies[i].SetAcceleration(Zero);
        i := i + 1;
      }
      StatesOfStatesAre(bodies, ClearedAll(ss));
    }

    /** CalculateForcesDirect. */
    method CalculateForcesDirect(bodies: seq<Body>, sqrt: SqrtFn)
      requires Distinct(bodies)
      modifies this`stats, bodies
      ensures States(bodies) == DirectStep(sqrt, config, old(States(bodies)))
      ensures stats == old(stats).(forceCalculations := DirectCount(sqrt, config, old(States(bodies)), |bodies|))
    {
      EngineApart(bodies);
      stats := stats.(forceCalculations := 0);
      ghost var ss := States(bodies);
      StatesAreStates(bodies);
      DirectPass(bodies, sqrt, ss);
      StatesOfStatesAre(bodies, DirectStep(sqrt, config, ss));
    }

    /** CalculateForcesDirect's outer loop over bodies holding the states ss. */
    method DirectPass(bodies: seq<Body>, sqrt: SqrtFn, ghost ss: seq<BodyState>)
      requires Distinct(bodies) && StatesAre(bodies, ss)
      modifies this`stats, bodies
      ensures StatesAre(bodies, DirectStep(sqrt, config, ss))
      ensures stats == old(stats).(forceCalculations := old(stats.forceCalculations) + DirectCount(sqrt, config, ss, |ss|))
    {
      EngineApart(bodies);
      ghost var goal := DirectStep(sqrt, config, ss);
      var i := 0;
      while i < |bodies|
        invariant 0 <= i <= |bodies|
        invariant forall k {:trigger bodies[k]} :: 0 <= k < |bodies| ==>
          bodies[k].position == ss[k].position && bodies[k].mass == ss[k].mass
        invariant forall k {:trigger bodies[k]} :: 0 <= k < |bodies| ==>
          bodies[k].State() == (if k < i then goal[k] else ss[k])
        invariant stats == old(stats).(forceCalculations := old(stats.forceCalculations) + DirectCount(sqrt, config, ss, i))
      {
        DirectBody(bodies, i, sqrt, ss);
        i := i + 1;
      }
    }

    /** The body of CalculateForcesDirect's outer loop for body i. */
    method DirectBody(bodies: seq<Body>, i: nat, sqrt: SqrtFn, ghost ss: seq<BodyState>)
      requires Distinct(bodies) && i < |bodies| && |ss| == |bodies| && bodies[i].State() == ss[i]
      requires forall k {:trigger bodies[k]} :: 0 <= k < |bodies| ==>
        bodies[k].position == ss[k].position && bodies[k].mass == ss[k].mass
      modifies this`stats, bodies[i]
      ensures bodies[i].State() == DirectState(sqrt, config, ss, i)
      ensures bodies[i].position == ss[i].position && bodies[i].mass == ss[i].mass
      ensures forall k {:trigger bodies[k]} :: 0 <= k < |bodies| && k != i ==> bodies[k].State() == old(bodies[k].State())
      ensures stats == old(stats).(forceCalculations := old(stats.forceCalculations) + RowCount(sqrt, config, ss, i))
    {
      EngineApart(bodies);
      var bodyA := bodies[i];
      if !bodyA.fixed {
        var softening := config.softeningLength;
        var total, count := AccumulateRow(bodies, i, sqrt, config.gravitationalConstant, Square(softening), ss);
        bodyA.SetAcceleration(total);
        stats := stats.(forceCalculations := stats.forceCalculations + count);
      }
    }

    /** The inner loop of CalculateForcesDirect: body i's acceleration and
        the number of pairs that contributed. Only positions and masses are
        read, so the accelerations already written do not matter. */
    method AccumulateRow(bodies: seq<Body>, i: nat, sqrt: SqrtFn, G: real, softeningSq: real, ghost ss: seq<BodyState>)
      returns (total: Vec2, count: int)
      requires i < |bodies| && |ss| == |bodies|
      requires forall k {:trigger bodies[k]} :: 0 <= k < |bodies| ==>
        bodies[k].position == ss[k].position && bodies[k].mass == ss[k].mass
      ensures Tally(total, count) == DirectRow(sqrt, G, softeningSq, ss, i, |ss|)
    {
      total, count := Zero, 0;
      var j := 0;
      while j < |bodies|
        invariant 0 <= j <= |bodies|
        invariant Tally(total, count) == DirectRow(sqrt, G, softeningSq, ss, i, j)
      {
        if i != j {
          var term := PairContribution(bodies[i], bodies[j], sqrt, G, softeningSq);
          if term.Some? {
            total := Add(total, term.value);
            count := count + 1;
          }
        }
        j := j + 1;
      }
    }

    /** The body of the inner loop of CalculateForcesDirect for the pair
        (a, b): the contribution, or None when the pair is too close. */
    method PairContribution(a: Body, b: Body, sqrt: SqrtFn, G: real, softeningSq: real) returns (term: Option<Vec2>)
      ensures term == PairAcceleration(sqrt, G, softeningSq, a.position, a.mass, b.position, b.mass)
    {
      var r := Sub(b.position, a.position);
      var distanceSq := Dot(r, r) + softeningSq;
      if distanceSq > MinDistance * MinDistance {
        SqrtPositive(sqrt, distanceSq);
        var distance := sqrt(distanceSq);
        var accelerationMagnitude := G * b.mass / distanceSq;
        accelerationMagnitude := CapAcceleration(accelerationMagnitude, a.mass);
        var accelerationDirection := DivBy(r, distance);
        return Some(Scale(accelerationMagnitude, accelerationDirection));
      }
      return None;
    }

    /** CalculateForcesBarnesHut: build the tree over every body, then add
        the tree force to each body that is not fixed. The engine's counter
        takes the tree's, which is the last query's. */
    method CalculateForcesBarnesHut(bodies: seq<Body>, sqrt: SqrtFn, ghost ss: seq<BodyState>)
      requires Distinct(bodies) && StatesAre(bodies, ss)
      modifies this`stats, tree, bodies
      ensures StatesAre(bodies, BarnesHutStep(sqrt, config, ss))
      ensures |bodies| > 0 ==>
        stats == old(stats).(forceCalculations := LastQueryCount(sqrt, config, ss, |bodies|))
      ensures |bodies| == 0 ==> stats == old(stats).(forceCalculations := old(tree.stats.forceCalculations))
    {
      EngineApart(bodies);
      StatesOfStatesAre(bodies, ss);
      var pts := PointsOf(States(bodies));
      tree.BuildTree(pts);
      TreePass(bodies, sqrt, ss);
      stats := stats.(forceCalculations := tree.stats.forceCalculations);
    }

    /** CalculateForcesBarnesHut's query loop over bodies holding the states
        ss, once the tree over ss is built. */
    method TreePass(bodies: seq<Body>, sqrt: SqrtFn, ghost ss: seq<BodyState>)
      requires Distinct(bodies) && StatesAre(bodies, ss)
      requires |bodies| > 0 ==> tree.root == Some(BuiltRoot(PointsOf(ss))) && tree.stats.forceCalculations == 0
      modifies tree, bodies
      ensures StatesAre(bodies, BarnesHutStep(sqrt, config, ss))
      ensures |bodies| > 0 ==> tree.stats.forceCalculations == LastQueryCount(sqrt, config, ss, |bodies|)
      ensures |bodies| == 0 ==> tree.stats == old(tree.stats)
    {
      EngineApart(bodies);
      var theta := config.barnesHutTheta;
      var G := config.gravitationalConstant;
      ghost var goal := BarnesHutStep(sqrt, config, ss);
      var i := 0;
      while i < |bodies|
        invariant 0 <= i <= |bodies|
        invariant |bodies| > 0 ==> tree.root == Some(BuiltRoot(PointsOf(ss)))
        invariant |bodies| > 0 ==> tree.stats.forceCalculations == LastQueryCount(sqrt, config, ss, i)
        invariant |bodies| == 0 ==> tree.stats == old(tree.stats)
        invariant forall k {:trigger bodies[k]} :: 0 <= k < |bodies| ==>
          bodies[k].State() == (if k < i then goal[k] else ss[k])
      {
        TreeQuery(bodies, i, theta, G, sqrt, ss);
        i := i + 1;
      }
    }

    /** The body of CalculateForcesBarnesHut's query loop for body i. */
    method TreeQuery(bodies: seq<Body>, i: nat, theta: real, G: real, sqrt: SqrtFn, ghost ss: seq<BodyState>)
      requires Distinct(bodies) && i < |bodies| && |ss| == |bodies| && bodies[i].State() == ss[i]
      requires theta == config.barnesHutTheta && G == config.gravitationalConstant
      requires tree.root == Some(BuiltRoot(PointsOf(ss)))
      modifies tree, bodies[i]
      ensures tree.root == old(tree.root)
      ensures bodies[i].State() == BarnesHutStep(sqrt, config, ss)[i]
      ensures forall k {:trigger bodies[k]} :: 0 <= k < |bodies| && k != i ==> bodies[k].State() == old(bodies[k].State())
      ensures tree.stats.forceCalculations ==
        if ss[i].fixed then old(tree.stats.forceCalculations) else TreeForce(sqrt, config, ss, i).count
    {
      var body := bodies[i];
      if !body.fixed {
        var force := tree.CalculateForce(body.position, i, theta, G, sqrt);
        body.ApplyForce(force);
      }
    }

    /** CalculateForcesGPU: the direct sum under another label. */
    method CalculateForcesGPU(bodies: seq<Body>, sqrt: SqrtFn)
      requires Distinct(bodies)
      modifies this`stats, bodies
      ensures States(bodies) == DirectStep(sqrt, config, old(States(bodies)))
      ensures stats == old(stats).(forceCalculations := DirectCount(sqrt, config, old(States(bodies)), |bodies|),
                                   methodName := "Direct (GPU fallback)")
    {
      CalculateForcesDirect(bodies, sqrt);
      stats := stats.(methodName := "Direct (GPU fallback)");
    }

    /** IntegrateLeapfrog (IntegrateMotion's only integrator). */
    method IntegrateLeapfrog(bodies: seq<Body>, deltaTime: real)
      requires Distinct(bodies)
      modifies bodies
      ensures States(bodies) == LeapfrogAll(old(States(bodies)), deltaTime, config.dampingFactor)
    {
      var half := deltaTime * 0.5;
      var damping := config.dampingFactor;
      ghost var ss := States(bodies);
      ghost var goal := LeapfrogAll(ss, deltaTime, damping);
      StatesAreStates(bodies);
      var i := 0;
      while i < |bodies|
        invariant 0 <= i <= |bodies|
        invariant forall k {:trigger bodies[k]} :: 0 <= k < |bodies| ==>
          bodies[k].State() == (if k < i then goal[k] else ss[k])
      {
        var body := bodies[i];
        if !(body.fixed || body.beingDragged) {
          var position := body.position;
          var velocity := Scale(damping, body.velocity);
          var acceleration := body.acceleration;
          velocity := Add(velocity, Scale(half, acceleration));
          position := Add(position, Scale(deltaTime, velocity));
          velocity := Add(velocity, Scale(half, acceleration));
          body.SetPosition(position);
          body.SetVelocity(velocity);
        }
        i := i + 1;
      }
      StatesOfStatesAre(bodies, goal);
    }

    /** HandleCollisions: every unordered pair once, in i < j order, with the
        counter reset first. */
    method HandleCollisions(bodies: seq<Body>, sqrt: SqrtFn)
      requires Distinct(bodies) && PositiveMasses(States(bodies))
      modifies this`stats, bodies
      ensures var r := SweepAll(sqrt, config.restitution, old(States(bodies)));
        States(bodies) == r.states && stats == old(stats).(collisions := r.count)
    {
      EngineApart(bodies);
      stats := stats.(collisions := 0);
      var e := config.restitution;
      ghost var cur := States(bodies);
      ghost var goal := SweepAll(sqrt, e, cur);
      StatesAreStates(bodies);
      var i := 0;
      while i < |bodies|
        invariant 0 <= i <= |bodies| && PositiveMasses(cur) && StatesAre(bodies, cur)
        invariant SweepFrom(sqrt, e, cur, i, stats.collisions) == goal
        invariant stats == old(stats).(collisions := stats.collisions)
      {
        ghost var row := SweepRow(sqrt, e, cur, i, i + 1, stats.collisions);
        HandleRow(bodies, i, sqrt, cur);
        cur := row.states;
        i := i + 1;
      }
      StatesOfStatesAre(bodies, cur);
    }

    /** The inner loop of HandleCollisions for row i, on bodies holding ss. */
    method HandleRow(bodies: seq<Body>, i: nat, sqrt: SqrtFn, ghost ss: seq<BodyState>)
      requires Distinct(bodies) && i < |bodies| && StatesAre(bodies, ss) && PositiveMasses(ss)
      modifies this`stats, bodies
      ensures var r := SweepRow(sqrt, config.restitution, ss, i, i + 1, old(stats.collisions));
        StatesAre(bodies, r.states) && stats == old(stats).(collisions := r.count)
    {
      EngineApart(bodies);
      var e := config.restitution;
      ghost var cur := ss;
      ghost var goal := SweepRow(sqrt, e, ss, i, i + 1, stats.collisions);
      var j := i + 1;
      while j < |bodies|
        invariant i < j <= |bodies| && PositiveMasses(cur) && StatesAre(bodies, cur)
        invariant SweepRow(sqrt, e, cur, i, j, stats.collisions) == goal
        invariant stats == old(stats).(collisions := stats.collisions)
      {
        cur := HandlePair(bodies, i, j, sqrt, cur);
        j := j + 1;
      }
    }

    /** The body of HandleRow's loop for the pair (i, j). */
    method HandlePair(bodies: seq<Body>, i: nat, j: nat, sqrt: SqrtFn, ghost ss: seq<BodyState>)
      returns (ghost tt: seq<BodyState>)
      requires Distinct(bodies) && i < j < |bodies| && StatesAre(bodies, ss) && PositiveMasses(ss)
      modifies this`stats, bodies[i], bodies[j]
      ensures StatesAre(bodies, tt) && PositiveMasses(tt)
      ensures Colliding(sqrt, ss[i], ss[j]) ==>
        var p := Resolve(sqrt, config.restitution, ss[i], ss[j]);
        tt == ss[i := p.a][j := p.b] && stats == old(stats).(collisions := old(stats.collisions) + 1)
      ensures !Colliding(sqrt, ss[i], ss[j]) ==> tt == ss && stats == old(stats)
    {
      EngineApart(bodies);
      tt := ss;
      if bodies[i].IsColliding(sqrt, bodies[j]) {
        ResolveCollision(bodies[i], bodies[j], sqrt);
        tt := ss[i := bodies[i].State()][j := bodies[j].State()];
        stats := stats.(collisions := stats.collisions + 1);
      }
    }

    /** ResolveCollision on two distinct bodies. */
    method ResolveCollision(a: Body, b: Body, sqrt: SqrtFn)
      requires a != b && 0.0 < a.mass && 0.0 < b.mass
      modifies a, b
      ensures BodyPair(a.State(), b.State()) == Resolve(sqrt, config.restitution, old(a.State()), old(b.State()))
    {
      var delta := Sub(b.position, a.position);
      var distance := Length(sqrt, delta);
      var minDistance := a.radius + b.radius;
      if distance < minDistance && distance > 0.0 {
        var separation := Separation(delta, distance, minDistance);
        Separate(a, b, separation);
        var normal := DivBy(delta, distance);
        var relativeVelocity := Sub(b.velocity, a.velocity);
        var velocityAlongNormal := Dot(relativeVelocity, normal);
        if velocityAlongNormal > 0.0 {
          return;
        }
        var impulse := Impulse(config.restitution, velocityAlongNormal, a.mass, b.mass);
        var impulseVector := Scale(impulse, normal);
        Kick(a, b, impulseVector);
      }
    }

    /** ResolveCollision's positional correction: a moves back and b
        forward by `separation`, unless fixed or dragged. */
    method Separate(a: Body, b: Body, separation: Vec2)
      requires a != b
      modifies a, b
      ensures a.State() == if Pinned(old(a.State())) then old(a.State())
                           else old(a.State()).(position := Sub(old(a.position), separation))
      ensures b.State() == if Pinned(old(b.State())) then old(b.State())
                           else old(b.State()).(position := Add(old(b.position), separation))
    {
      if !a.fixed && !a.beingDragged {
        a.SetPosition(Sub(a.position, separation));
      }
      if !b.fixed && !b.beingDragged {
        b.SetPosition(Add(b.position, separation));
      }
    }

    /** ResolveCollision's impulse: a loses j / m_a and b gains j / m_b of
        velocity, unless fixed or dragged. */
    method Kick(a: Body, b: Body, j: Vec2)
      requires a != b && 0.0 < a.mass && 0.0 < b.mass
      modifies a, b
      ensures a.State() == if Pinned(old(a.State())) then old(a.State())
                           else old(a.State()).(velocity := Sub(old(a.velocity), DivBy(j, old(a.mass))))
      ensures b.State() == if Pinned(old(b.State())) then old(b.State())
                           else old(b.State()).(velocity := Add(old(b.velocity), DivBy(j, old(b.mass))))
    {
      if !a.fixed && !a.beingDragged {
        a.SetVelocity(Sub(a.velocity, DivBy(j, a.mass)));
      }
      if !b.fixed && !b.beingDragged {
        b.SetVelocity(Add(b.velocity, DivBy(j, b.mass)));
      }
    }

    /** CalculateAdaptiveTimeStep. */
    method CalculateAdaptiveTimeStep(bodies: seq<Body>, sqrt: SqrtFn) returns (dt: real)
      ensures dt == AdaptiveStep(sqrt, config, States(bodies))
    {
      ghost var ss := States(bodies);
      StatesAreStates(bodies);
      var maxAcceleration := 0.0;
      var i := 0;
      while i < |bodies|
        invariant 0 <= i <= |bodies|
        invariant maxAcceleration == MaxAcceleration(sqrt, ss, i)
      {
        var acceleration := Length(sqrt, bodies[i].acceleration);
        maxAcceleration := Max(maxAcceleration, acceleration);
        i := i + 1;
      }
      if maxAcceleration > 0.0 {
        var adaptiveStep := sqrt(config.softeningLength / maxAcceleration);
        return Clamp(adaptiveStep, config.minTimeStep, config.maxTimeStep);
      }
      return config.timeStep;
    }

    /** CalculateEnergyStats. */
    method CalculateEnergyStats(bodies: seq<Body>, sqrt: SqrtFn) returns (e: EnergyStats)
      ensures e == EnergyOf(sqrt, config.gravitationalConstant, States(bodies))
    {
      ghost var ss := States(bodies);
      StatesAreStates(bodies);
      var kinetic := 0.0;
      var i := 0;
      while i < |bodies|
        invariant 0 <= i <= |bodies|
        invariant kinetic == KineticSum(ss, i)
      {
        kinetic := kinetic + KineticEnergy(bodies[i].State());
        i := i + 1;
      }
      var G := config.gravitationalConstant;
      var potential := 0.0;
      i := 0;
      while i < |bodies|
        invariant 0 <= i <= |bodies|
        invariant potential == PotentialUpTo(sqrt, G, ss, i)
      {
        var row := PotentialRowSum(bodies, i, sqrt, G, ss);
        potential := potential + row;
        i := i + 1;
      }
      e := EnergyStats(kinetic, potential, kinetic + potential, 0.0, 0.0);
    }

    /** The inner loop of the potential sum for row i. The C++ code subtracts
        each term from the running total; this returns the row's share. */
    method PotentialRowSum(bodies: seq<Body>, i: nat, sqrt: SqrtFn, G: real, ghost ss: seq<BodyState>) returns (row: real)
      requires i < |bodies| && StatesAre(bodies, ss)
      ensures row == PotentialRow(sqrt, G, ss, i, |ss|)
    {
      row := 0.0;
      var j := i + 1;
      while j < |bodies|
        invariant i < j <= |bodies|
        invariant row == PotentialRow(sqrt, G, ss, i, j)
      {
        var r := Sub(bodies[j].position, bodies[i].position);
        var distance := Length(sqrt, r);
        if distance > MinDistance {
          row := row - G * bodies[i].mass * bodies[j].mass / distance;
        }
        j := j + 1;
      }
    }
  }
}
