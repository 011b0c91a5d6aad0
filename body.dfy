/** A celestial body (Body) and the structure-of-arrays copy of a body list
    (BodyArrays). The body's trail is the sequence of its recorded
    positions, oldest first, capped at maxTrailLength by dropping from the
    front. */
module Bodies {
  import opened Numerics
  import Trails

  const DefaultDensity: real := 0.1
  const MinRadius: real := 2.0
  const MaxRadius: real := 100.0
  const Pi: real := 3.14159
  /** SetMass never stores less than this. */
  const MinMass: real := 0.1
  /** UpdateTrail records a point on every fifth frame. */
  const TrailCadence: int := 5
  const DefaultMaxTrailLength: int := 100

  /** A snapshot of every field of a Body. */
  datatype BodyState = BodyState(
    position: Vec2, velocity: Vec2, acceleration: Vec2, force: Vec2,
    mass: real, radius: real, density: real, color: Color,
    trail: seq<Vec2>, maxTrailLength: int,
    selected: bool, beingDragged: bool, fixed: bool)

  /** The invariant every Body keeps. */
  predicate ValidState(s: BodyState) {
    && MinRadius <= s.radius <= MaxRadius
    && s.density == DefaultDensity
    && 0 <= s.maxTrailLength
    && |s.trail| <= s.maxTrailLength
  }

  /** A body that the integrators and the collision response leave alone. */
  predicate Pinned(s: BodyState) {
    s.fixed || s.beingDragged
  }

  /** UpdateRadius: the radius of a disc of this mass and density, clamped
      to [MinRadius, MaxRadius]. */
  function RadiusFor(sqrt: SqrtFn, mass: real, density: real): (r: real)
    requires density > 0.0
    ensures MinRadius <= r <= MaxRadius
  {
    Clamp(sqrt(mass / (Pi * density)), MinRadius, MaxRadius)
  }

  /** A heavier body is never smaller. */
  lemma RadiusMonotone(sqrt: SqrtFn, m1: real, m2: real, density: real)
    requires density > 0.0 && 0.0 <= m1 <= m2
    ensures RadiusFor(sqrt, m1, density) <= RadiusFor(sqrt, m2, density)
  {
    var k := Pi * density;
    assert 0.0 < k;
    assert m1 / k <= m2 / k;
    assert 0.0 <= m1 / k;
  }

  /** LimitTrailLength's effect: at most `n` points remain, the newest ones. */
  function KeepNewest(s: seq<Vec2>, n: int): (r: seq<Vec2>)
    requires 0 <= n
    ensures |r| <= n && |r| <= |s|
    ensures |s| <= n ==> r == s
    ensures n < |s| ==> |r| == n
    ensures r == s[|s| - |r|..]
  {
    if |s| <= n then s else s[|s| - n..]
  }

  /** Recording a point and trimming to the maximum is exactly what the
      ring buffer's AddPoint does when the maximum is its capacity. */
  lemma {:induction false} RecordMatchesRingBuffer(s: seq<Vec2>, p: Vec2, n: int)
    requires 1 <= n && |s| <= n
    ensures KeepNewest(s + [p], n) == Trails.Appended(s, p, n)
  {
    if |s| == n {
      assert (s + [p])[1..] == s[1..] + [p];
    }
  }

  /** GetKineticEnergy: one half m |v|^2. */
  function KineticEnergy(s: BodyState): real {
    0.5 * s.mass * Dot(s.velocity, s.velocity)
  }

  /** GetMomentum: m v. */
  function Momentum(s: BodyState): Vec2 {
    Scale(s.mass, s.velocity)
  }

  lemma KineticEnergyNonNegative(s: BodyState)
    requires 0.0 <= s.mass
    ensures 0.0 <= KineticEnergy(s)
  {
    SquaresNonNegative(s.velocity);
    var m, q := s.mass, Dot(s.velocity, s.velocity);
    assert 0.0 <= m * q;
  }

  /** Kinetic energy is half the dot product of momentum and velocity. */
  lemma {:induction false} KineticEnergyFromMomentum(s: BodyState)
    ensures KineticEnergy(s) == 0.5 * Dot(Momentum(s), s.velocity)
  {
    var m, vx, vy := s.mass, s.velocity.x, s.velocity.y;
    assert m * (vx * vx + vy * vy) == (m * vx) * vx + (m * vy) * vy;
  }

  /** IsColliding: the centres are at most the sum of the radii apart, so
      touching bodies collide. */
  function Colliding(sqrt: SqrtFn, a: BodyState, b: BodyState): bool {
    Length(sqrt, Sub(a.position, b.position)) <= a.radius + b.radius
  }

  lemma CollidingSymmetric(sqrt: SqrtFn, a: BodyState, b: BodyState)
    ensures Colliding(sqrt, a, b) == Colliding(sqrt, b, a)
  {
    LengthOfSubSymmetric(sqrt, a.position, b.position);
  }

  /** Two valid bodies at the same position always collide. */
  lemma SamePlaceCollides(sqrt: SqrtFn, a: BodyState, b: BodyState)
    requires ValidState(a) && ValidState(b) && a.position == b.position
    ensures Colliding(sqrt, a, b)
  {
    SqrtOfZero(sqrt);
    assert Sub(a.position, b.position) == Zero;
    assert Dot(Zero, Zero) == 0.0;
  }

  /** The trail cadence counter: a single static shared by all bodies. */
  class FrameCounter {
    var frames: int

    constructor ()
      ensures frames == 0
    {
      frames := 0;
    }
  }

  class Body {
    var position: Vec2
    var velocity: Vec2
    var acceleration: Vec2
    var force: Vec2
    var mass: real
    var radius: real
    var density: real
    var color: Color
    var trail: seq<Vec2>
    var maxTrailLength: int
    var selected: bool
    var beingDragged: bool
    var fixed: bool

    function State(): BodyState
      reads this
    {
      BodyState(position, velocity, acceleration, force, mass, radius, density, color,
                trail, maxTrailLength, selected, beingDragged, fixed)
    }

    ghost predicate Valid()
      reads this
    {
      ValidState(State())
    }

    /** The mass is stored as given (not clamped); the radius follows it. */
    constructor (sqrt: SqrtFn, position: Vec2, velocity: Vec2, mass: real, color: Color)
      ensures Valid()
      ensures State() == BodyState(position, velocity, Zero, Zero, mass,
                                   RadiusFor(sqrt, mass, DefaultDensity), DefaultDensity, color,
                                   [], DefaultMaxTrailLength, false, false, false)
    {
      this.position := position;
      this.velocity := velocity;
      acceleration := Zero;
      force := Zero;
      this.mass := mass;
      density := DefaultDensity;
      radius := RadiusFor(sqrt, mass, DefaultDensity);
      this.color := color;
      trail := [];
      maxTrailLength := DefaultMaxTrailLength;
      selected, beingDragged, fixed := false, false, false;
    }

    method SetPosition(p: Vec2)
      modifies this
      ensures State() == old(State()).(position := p)
    {
      position := p;
    }

    method SetVelocity(v: Vec2)
      modifies this
      ensures State() == old(State()).(velocity := v)
    {
      velocity := v;
    }

    method SetAcceleration(a: Vec2)
      modifies this
      ensures State() == old(State()).(acceleration := a)
    {
      acceleration := a;
    }

    method SetColor(c: Color)
      modifies this
      ensures State() == old(State()).(color := c)
    {
      color := c;
    }

    method SetSelected(b: bool)
      modifies this
      ensures State() == old(State()).(selected := b)
    {
      selected := b;
    }

    method SetBeingDragged(b: bool)
      modifies this
      ensures State() == old(State()).(beingDragged := b)
    {
      beingDragged := b;
    }

    method SetFixed(b: bool)
      modifies this
      ensures State() == old(State()).(fixed := b)
    {
      fixed := b;
    }

    /** SetMass never stores a mass below MinMass, then recomputes the radius. */
    method SetMass(sqrt: SqrtFn, m: real)
      requires Valid()
      modifies this
      ensures Valid() && MinMass <= mass
      ensures State() == old(State()).(mass := Max(MinMass, m), radius := RadiusFor(sqrt, Max(MinMass, m), density))
    {
      mass := Max(MinMass, m);
      UpdateRadius(sqrt);
    }

    method UpdateRadius(sqrt: SqrtFn)
      requires Valid()
      modifies this
      ensures Valid()
      ensures State() == old(State()).(radius := RadiusFor(sqrt, mass, density))
    {
      radius := RadiusFor(sqrt, mass, density);
    }

    /** ApplyForce accumulates. */
    method ApplyForce(f: Vec2)
      modifies this
      ensures State() == old(State()).(force := Add(old(force), f))
    {
      force := Add(force, f);
    }

    /** ClearForce (declared in the header, used by the engine) zeroes the
        accumulated force. */
    method ClearForce()
      modifies this
      ensures State() == old(State()).(force := Zero)
    {
      force := Zero;
    }

    /** Body::Update: a fixed or dragged body only loses its force and
        acceleration; any other body takes one semi-implicit Euler step
        (velocity first, position with the new velocity), drops its force
        and ticks the shared trail counter. */
    method Update(dt: real, counter: FrameCounter)
      requires Valid() && mass != 0.0
      modifies this, counter
      ensures Valid()
      ensures Pinned(old(State())) ==>
        State() == old(State()).(acceleration := Zero, force := Zero) && counter.frames == old(counter.frames)
      ensures !Pinned(old(State())) ==>
        var a := DivBy(old(force), old(mass));
        var v := Add(old(velocity), Scale(dt, a));
        var x := Add(old(position), Scale(dt, v));
        && counter.frames == old(counter.frames) + 1
        && State() == old(State()).(position := x, velocity := v, acceleration := a, force := Zero,
                                    trail := if counter.frames % TrailCadence == 0
                                             then KeepNewest(old(trail) + [x], maxTrailLength)
                                             else old(trail))
    {
      if fixed || beingDragged {
        acceleration := Zero;
        force := Zero;
        return;
      }
      acceleration := DivBy(force, mass);
      velocity := Add(velocity, Scale(dt, acceleration));
      position := Add(position, Scale(dt, velocity));
      force := Zero;
      UpdateTrail(counter);
    }

    method UpdateTrail(counter: FrameCounter)
      requires Valid()
      modifies this, counter
      ensures Valid() && counter.frames == old(counter.frames) + 1
      ensures State() == old(State()).(trail := if counter.frames % TrailCadence == 0
                                               then KeepNewest(old(trail) + [position], maxTrailLength)
                                               else old(trail))
    {
      counter.frames := counter.frames + 1;
      if counter.frames % TrailCadence == 0 {
        AddTrailPoint();
      }
    }

    method AddTrailPoint()
      requires Valid()
      modifies this
      ensures Valid()
      ensures State() == old(State()).(trail := KeepNewest(old(trail) + [position], maxTrailLength))
    {
      trail := trail + [position];
      LimitTrailLength();
    }

    method ClearTrail()
      requires Valid()
      modifies this
      ensures Valid()
      ensures State() == old(State()).(trail := [])
    {
      trail := [];
    }

    /** SetMaxTrailLength clamps the maximum to at least zero and trims. */
    method SetMaxTrailLength(length: int)
      requires Valid()
      modifies this
      ensures Valid()
      ensures State() == old(State()).(maxTrailLength := MaxInt(0, length),
                                       trail := KeepNewest(old(trail), MaxInt(0, length)))
    {
      maxTrailLength := MaxInt(0, length);
      LimitTrailLength();
    }

    /** Drops the oldest point until the trail fits. */
    method LimitTrailLength()
      requires 0 <= maxTrailLength
      requires MinRadius <= radius <= MaxRadius && density == DefaultDensity
      modifies this
      ensures Valid()
      ensures State() == old(State()).(trail := KeepNewest(old(trail), maxTrailLength))
    {
      ghost var dropped := 0;
      while |trail| > maxTrailLength
        invariant 0 <= dropped <= |old(trail)|
        invariant trail == old(trail)[dropped..]
        invariant |old(trail)| - dropped >= maxTrailLength || dropped == 0
        invariant State() == old(State()).(trail := trail)
        decreases |trail|
      {
        trail := trail[1..];
        dropped := dropped + 1;
      }
    }

    function CollisionRadius(): (r: real)
      reads this
      requires Valid()
      ensures MinRadius <= r <= MaxRadius
    {
      radius
    }

    function IsColliding(sqrt: SqrtFn, other: Body): bool
      reads this, other
    {
      Colliding(sqrt, State(), other.State())
    }

    function Speed(sqrt: SqrtFn): (r: real)
      reads this
      ensures 0.0 <= r
    {
      Length(sqrt, velocity)
    }
  }

  /** The structure-of-arrays body store: eight columns, one entry per body. */
  class BodyArrays {
    var positions: seq<Vec2>
    var velocities: seq<Vec2>
    var accelerations: seq<Vec2>
    var forces: seq<Vec2>
    var masses: seq<real>
    var radii: seq<real>
    var colors: seq<Color>
    var fixed: seq<bool>

    /** Every column has the same length. */
    ghost predicate Valid()
      reads this
    {
      && |velocities| == |positions| && |accelerations| == |positions|
      && |forces| == |positions| && |masses| == |positions| && |radii| == |positions|
      && |colors| == |positions| && |fixed| == |positions|
    }

    constructor ()
      ensures Valid() && Size() == 0
    {
      positions, velocities, accelerations, forces := [], [], [], [];
      masses, radii, colors, fixed := [], [], [], [];
    }

    /** size() is the common column length. */
    function Size(): (n: int)
      reads this
      requires Valid()
      ensures n == |positions| == |velocities| == |accelerations| == |forces|
      ensures n == |masses| == |radii| == |colors| == |fixed|
    {
      |positions|
    }

    method Clear()
      modifies this
      ensures Valid() && Size() == 0
    {
      positions, velocities, accelerations, forces := [], [], [], [];
      masses, radii, colors, fixed := [], [], [], [];
    }

    /** push_back copies the body's fields into each column; the force column
        gets zero, not the body's force. */
    method PushBack(b: Body)
      requires Valid()
      modifies this
      ensures Valid() && Size() == old(Size()) + 1
      ensures positions == old(positions) + [b.position]
      ensures velocities == old(velocities) + [b.velocity]
      ensures accelerations == old(accelerations) + [b.acceleration]
      ensures forces == old(forces) + [Zero]
      ensures masses == old(masses) + [b.mass]
      ensures radii == old(radii) + [b.radius]
      ensures colors == old(colors) + [b.color]
      ensures fixed == old(fixed) + [b.fixed]
    {
      positions := positions + [b.position];
      velocities := velocities + [b.velocity];
      accelerations := accelerations + [b.acceleration];
      forces := forces + [Zero];
      masses := masses + [b.mass];
      radii := radii + [b.radius];
      colors := colors + [b.color];
      fixed := fixed + [b.fixed];
    }

    /** erase(index): the caller must pass an existing index. */
    method Erase(index: int)
      requires Valid() && 0 <= index < Size()
      modifies this
      ensures Valid() && Size() == old(Size()) - 1
      ensures positions == RemoveAt(old(positions), index)
      ensures velocities == RemoveAt(old(velocities), index)
      ensures accelerations == RemoveAt(old(accelerations), index)
      ensures forces == RemoveAt(old(forces), index)
      ensures masses == RemoveAt(old(masses), index)
      ensures radii == RemoveAt(old(radii), index)
      ensures colors == RemoveAt(old(colors), index)
      ensures fixed == RemoveAt(old(fixed), index)
    {
      positions := RemoveAt(positions, index);
      velocities := RemoveAt(velocities, index);
      accelerations := RemoveAt(accelerations, index);
      forces := RemoveAt(forces, index);
      masses := RemoveAt(masses, index);
      radii := RemoveAt(radii, index);
      colors := RemoveAt(colors, index);
      fixed := RemoveAt(fixed, index);
    }
  }
}
