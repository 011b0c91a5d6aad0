/** The bookkeeping part of Application: the running/paused state machine
    driven by the keyboard and the UI callbacks, the physics gate of
    Update, the body list with the selected and dragged body references into it,
    the first-hit search under the mouse, the preset dispatch and the grid
    layout of SpawnBodies. Windowing, rendering and the preset generators
    are not part of this model. */
module App {
  import opened Numerics
  import opened Bodies
  import opened Physics

  // ------------------------------------------------------------ run state

  datatype RunState = RunState(running: bool, paused: bool)

  const Stopped: RunState := RunState(false, false)

  /** Space and the OnPlayPause callback: a stopped simulation starts
      unpaused; a running one toggles its pause. */
  function PlayPause(s: RunState): (r: RunState)
    ensures r.running
  {
    if s.running then s.(paused := !s.paused) else RunState(true, false)
  }

  /** R and the OnReset callback. */
  function Reset(s: RunState): RunState {
    Stopped
  }

  /** Update steps the physics exactly in these states. */
  predicate Steps(s: RunState) {
    s.running && !s.paused
  }

  /** The states the two transitions can reach from the initial one. */
  predicate Reachable(s: RunState) {
    s.paused ==> s.running
  }

  /** The transitions keep the simulation from being paused while stopped. */
  lemma TransitionsStayReachable(s: RunState)
    requires Reachable(s)
    ensures Reachable(PlayPause(s)) && Reachable(Reset(s)) && Reachable(Stopped)
  {
  }

  /** From any reachable state, play/pause flips whether physics is
      stepped, and reset stops it. */
  lemma PlayPauseFlipsStepping(s: RunState)
    requires Reachable(s)
    ensures Steps(PlayPause(s)) == !Steps(s)
    ensures !Steps(Reset(s))
  {
  }

  /** Two presses of play/pause on a running simulation restore its state. */
  lemma PlayPauseTwice(s: RunState)
    requires s.running
    ensures PlayPause(PlayPause(s)) == s
  {
  }

  datatype Key = Space | KeyR | KeyC | Delete | Escape | OtherKey

  // ------------------------------------------------------------ body lists

  /** std::find_if followed by erase: the list without the first body equal
      to b, or the list itself when b is not in it. */
  function Without(bs: seq<Body>, b: Body?): seq<Body> {
    if bs == [] then [] else if bs[0] == b then bs[1..] else [bs[0]] + Without(bs[1..], b)
  }

  lemma {:induction false} WithoutSkips(bs: seq<Body>, b: Body?, i: nat)
    requires i <= |bs| && forall j :: 0 <= j < i ==> bs[j] != b
    ensures Without(bs, b) == bs[..i] + Without(bs[i..], b)
    decreases i
  {
    if i > 0 {
      WithoutSkips(bs[1..], b, i - 1);
      assert bs[1..][..i - 1] == bs[1..i];
      assert bs[1..][i - 1..] == bs[i..];
      assert bs[..i] == [bs[0]] + bs[1..i];
    }
  }

  /** Erasing at the first position holding b is Without. */
  lemma WithoutIndex(bs: seq<Body>, b: Body?, i: nat)
    requires i <= |bs| && forall j :: 0 <= j < i ==> bs[j] != b
    requires i < |bs| ==> bs[i] == b
    ensures Without(bs, b) == if i < |bs| then bs[..i] + bs[i + 1..] else bs
  {
    WithoutSkips(bs, b, i);
    if i < |bs| {
      assert bs[i..] == [bs[i]] + bs[i + 1..];
    } else {
      assert bs[..i] == bs;
    }
  }

  /** Without removes b, keeps every other body, and keeps the list free of
      repetitions. */
  lemma {:induction false} WithoutFacts(bs: seq<Body>, b: Body?)
    requires Distinct(bs)
    ensures b !in Without(bs, b)
    ensures forall x :: x in bs && x != b ==> x in Without(bs, b)
    ensures forall x :: x in Without(bs, b) ==> x in bs
    ensures Distinct(Without(bs, b))
    ensures |Without(bs, b)| == if b in bs then |bs| - 1 else |bs|
    decreases |bs|
  {
    if bs != [] {
      var rest := bs[1..];
      assert Distinct(rest) by {
        forall i, j | 0 <= i < j < |rest|
          ensures rest[i] != rest[j]
        {
          assert rest[i] == bs[i + 1] && rest[j] == bs[j + 1];
        }
      }
      WithoutFacts(rest, b);
      assert bs[0] !in rest by {
        forall j | 0 <= j < |rest|
          ensures rest[j] != bs[0]
        {
          assert rest[j] == bs[j + 1];
        }
      }
      if bs[0] != b {
        var w := [bs[0]] + Without(rest, b);
        assert Distinct(w) by {
          forall i, j | 0 <= i < j < |w|
            ensures w[i] != w[j]
          {
            if i == 0 {
              assert w[j] in Without(rest, b);
            } else {
              assert w[i] == Without(rest, b)[i - 1] && w[j] == Without(rest, b)[j - 1];
            }
          }
        }
        assert forall x :: x in bs && x != b ==> x == bs[0] || x in rest;
      }
    }
  }

  /** Body b is within twice its radius of the point: what the C++ code
      counts as a click on the body. */
  predicate Hits(sqrt: SqrtFn, s: BodyState, position: Vec2) {
    Length(sqrt, Sub(s.position, position)) <= s.radius * 2.0
  }

  // ------------------------------------------------------------ grid spawn

  /** The (row, col) cell of body i in a grid gridSize wide. */
  function GridCell(i: nat, gridSize: nat): (nat, nat)
    requires 0 < gridSize
  {
    (i / gridSize, i % gridSize)
  }

  /** gridSize is ceil(sqrt(count)): the smallest width whose square holds
      count cells. */
  predicate IsCeilSqrt(gridSize: nat, count: nat) {
    (gridSize - 1) * (gridSize - 1) < count <= gridSize * gridSize
  }

  /** Distinct indices below count get distinct cells, each inside the
      gridSize by gridSize square. */
  lemma GridCellsDistinct(count: nat, gridSize: nat, i: nat, j: nat)
    requires 0 < count && IsCeilSqrt(gridSize, count)
    requires i < count && j < count && i != j
    ensures 0 < gridSize
    ensures GridCell(i, gridSize).1 < gridSize && GridCell(i, gridSize).0 < gridSize
    ensures GridCell(i, gridSize) != GridCell(j, gridSize)
  {
    assert 0 < gridSize;
    var row := i / gridSize;
    assert i == row * gridSize + i % gridSize;
    if gridSize <= row {
      MulMono(gridSize, row, gridSize);
      assert false;
    }
    assert i == GridCell(i, gridSize).0 * gridSize + GridCell(i, gridSize).1;
    assert j == GridCell(j, gridSize).0 * gridSize + GridCell(j, gridSize).1;
  }

  /** The grid pattern's position for body i: cells of side 2 r / gridSize
      across the square [-r, r]^2, each body at its cell's centre. */
  function GridPosition(i: nat, gridSize: nat, radius: real): Vec2
    requires 0 < gridSize
  {
    var spacing := 2.0 * radius / gridSize as real;
    var cell := GridCell(i, gridSize);
    Vec2(-radius + cell.1 as real * spacing + spacing * 0.5, -radius + cell.0 as real * spacing + spacing * 0.5)
  }

  /** A coordinate at the centre of cell c < n of [-r, r] split into n
      cells stays inside (-r, r). */
  lemma CellCentreInside(c: nat, n: nat, radius: real)
    requires c < n && 0.0 < radius
    ensures var spacing := 2.0 * radius / n as real;
      -radius < -radius + c as real * spacing + spacing * 0.5 < radius
  {
    var spacing := 2.0 * radius / n as real;
    assert spacing * n as real == 2.0 * radius;
    assert 0.0 < spacing;
    assert c as real * spacing <= (n - 1) as real * spacing by {
      assert ((n - 1) as real - c as real) * spacing >= 0.0;
    }
    assert (n - 1) as real * spacing == 2.0 * radius - spacing;
  }

  /** Every body of a grid spawn starts strictly inside the spawn square. */
  lemma GridPositionInside(count: nat, gridSize: nat, i: nat, radius: real)
    requires 0 < count && IsCeilSqrt(gridSize, count) && i < count && 0.0 < radius
    ensures 0 < gridSize
    ensures -radius < GridPosition(i, gridSize, radius).x < radius
    ensures -radius < GridPosition(i, gridSize, radius).y < radius
  {
    if count == 1 {
      assert gridSize == 1 by {
        if 2 <= gridSize {
          MulMono(1, gridSize - 1, gridSize - 1);
        }
      }
      assert i == 0;
      assert GridCell(i, gridSize) == (0, 0);
      CellCentreInside(0, gridSize, radius);
    } else {
      GridCellsDistinct(count, gridSize, i, if i == 0 then 1 else 0);
      CellCentreInside(GridCell(i, gridSize).1, gridSize, radius);
      CellCentreInside(GridCell(i, gridSize).0, gridSize, radius);
    }
  }

  // ------------------------------------------------------------ presets

  datatype Preset = SolarSystem | BinarySystem | Galaxy | RandomCluster(count: nat)
                  | TripleStar | FigureEight | CollisionCourse

  /** The generator LoadPreset runs for a name, if any. */
  function PresetNamed(name: string): (r: Option<Preset>)
    ensures r.None? <==> name !in {"Solar System", "Binary System", "Galaxy", "Random Cluster",
                                   "Triple Star", "Figure Eight", "Collision Course"}
  {
    if name == "Solar System" then Some(SolarSystem)
    else if name == "Binary System" then Some(BinarySystem)
    else if name == "Galaxy" then Some(Galaxy)
    else if name == "Random Cluster" then Some(RandomCluster(50))
    else if name == "Triple Star" then Some(TripleStar)
    else if name == "Figure Eight" then Some(FigureEight)
    else if name == "Collision Course" then Some(CollisionCourse)
    else None
  }

  // ------------------------------------------------------------ the application

  class Application {
    /** m_bodies: the unique_ptr vector. */
    var bodies: seq<Body>
    var running: bool
    var paused: bool
    var selectedBody: Body?
    var draggedBody: Body?
    var windowShouldClose: bool
    const physics: PhysicsEngine

    function Run(): RunState
      reads this
    {
      RunState(running, paused)
    }

    /** The list owns its bodies, and the selected and dragged body references are
        null or point into the list. */
    ghost predicate Valid()
      reads this
    {
      && Distinct(bodies)
      && (selectedBody != null ==> selectedBody in bodies)
      && (draggedBody != null ==> draggedBody in bodies)
    }

    constructor ()
      ensures Valid() && bodies == [] && Run() == Stopped && Reachable(Run())
      ensures selectedBody == null && draggedBody == null && !windowShouldClose
      ensures fresh(physics) && physics.config == DefaultConfig
    {
      bodies := [];
      running, paused := false, false;
      selectedBody, draggedBody := null, null;
      windowShouldClose := false;
      physics := new PhysicsEngine();
    }

    /** The OnPlayPause UI callback. */
    method OnPlayPause()
      modifies this`running, this`paused
      ensures Run() == PlayPause(old(Run()))
    {
      if running {
        paused := !paused;
      } else {
        running := true;
        paused := false;
      }
    }

    /** The OnReset UI callback. */
    method OnReset()
      modifies this`running, this`paused
      ensures Run() == Reset(old(Run()))
    {
      running := false;
      paused := false;
    }

    /** A key press: Space and R drive the run state, C clears, Delete
        removes the selected body, Escape asks the window to close. A key
        release changes nothing. */
    method OnKeyboard(key: Key, pressed: bool)
      requires Valid()
      modifies this
      ensures Valid()
      ensures !pressed || key == OtherKey ==> unchanged(this)
      ensures pressed && key == Space ==> Run() == PlayPause(old(Run())) && bodies == old(bodies)
      ensures pressed && key == KeyR ==> Run() == Reset(old(Run())) && bodies == old(bodies)
      ensures pressed && key == KeyC ==> Run() == old(Run()) && bodies == [] && selectedBody == null && draggedBody == null
      ensures pressed && key == Delete ==> Run() == old(Run()) && bodies == Without(old(bodies), old(selectedBody))
      ensures pressed && key == Delete && old(selectedBody) != null ==>
        selectedBody == null && old(selectedBody) !in bodies
      ensures pressed && key == Escape ==> windowShouldClose && Run() == old(Run()) && bodies == old(bodies)
      ensures selectedBody == null || selectedBody == old(selectedBody)
      ensures draggedBody == null || draggedBody == old(draggedBody)
    {
      if !pressed {
        return;
      }
      match key
      case Space =>
        if running {
          paused := !paused;
        } else {
          running := true;
          paused := false;
        }
      case KeyR =>
        running := false;
        paused := false;
      case KeyC =>
        ClearBodies();
      case Delete =>
        if selectedBody != null {
          RemoveBody(selectedBody);
        } else {
          assert Without(bodies, null) == bodies by {
            WithoutSkips(bodies, null, |bodies|);
          }
        }
      case Escape =>
        windowShouldClose := true;
      case OtherKey =>
    }

    /** The physics gate of Application::Update: the engine runs one tick
        exactly when the simulation is running and not paused. Input
        handling, the camera and the UI refresh are not modelled. */
    method Update(deltaTime: real, sqrt: SqrtFn)
      requires Valid()
      requires physics.config.enableCollisions ==> PositiveMasses(States(bodies))
      modifies physics`stats, physics.tree, bodies
      ensures !Steps(Run()) ==> States(bodies) == old(States(bodies)) && physics.stats == old(physics.stats)
      ensures Steps(Run()) && |bodies| > 0 ==>
        && States(bodies) == TickStates(sqrt, physics.config, physics.gpuAvailable, old(States(bodies)), deltaTime)
        && physics.stats == TickStats(sqrt, physics.config, physics.gpuAvailable, old(States(bodies)), old(physics.stats))
      ensures Steps(Run()) && |bodies| == 0 ==> physics.stats == old(physics.stats)
    {
      if running && !paused {
        physics.Update(bodies, deltaTime, sqrt);
      }
    }

    /** AddBody(position, velocity, mass) with the colour the UI offers. */
    method AddBody(sqrt: SqrtFn, position: Vec2, velocity: Vec2, mass: real, color: Color)
      requires Valid()
      modifies this
      ensures Valid()
      ensures |bodies| == |old(bodies)| + 1 && bodies[..|old(bodies)|] == old(bodies)
      ensures fresh(bodies[|old(bodies)|])
      ensures bodies[|old(bodies)|].State() == BodyState(position, velocity, Zero, Zero, mass,
        RadiusFor(sqrt, mass, DefaultDensity), DefaultDensity, color, [], DefaultMaxTrailLength, false, false, false)
      ensures Run() == old(Run()) && selectedBody == old(selectedBody) && draggedBody == old(draggedBody)
      ensures windowShouldClose == old(windowShouldClose)
    {
      var body := new Body(sqrt, position, velocity, mass, color);
      assert body !in bodies;
      bodies := bodies + [body];
      assert forall x :: x in old(bodies) ==> x in bodies;
      assert Distinct(bodies) by {
        forall i, j | 0 <= i < j < |bodies|
          ensures bodies[i] != bodies[j]
        {
          if j < |bodies| - 1 {
            assert bodies[i] == old(bodies)[i] && bodies[j] == old(bodies)[j];
          }
        }
      }
    }

    /** The std::find_if of RemoveBody: the position of the first entry
        equal to the body, or the length of the list when there is none. */
    method IndexOf(body: Body?) returns (i: nat)
      ensures i <= |bodies|
      ensures i < |bodies| ==> bodies[i] == body
      ensures forall j :: 0 <= j < i ==> bodies[j] != body
    {
      i := 0;
      while i < |bodies| && bodies[i] != body
        invariant i <= |bodies|
        invariant forall j :: 0 <= j < i ==> bodies[j] != body
      {
        i := i + 1;
      }
    }

    /** Removes the body if the list holds it, first nulling the selected
        and dragged references that refer to it; otherwise nothing changes. */
    method RemoveBody(body: Body?)
      requires Valid()
      modifies this
      ensures Valid()
      ensures bodies == Without(old(bodies), body)
      ensures body !in bodies
      ensures body in old(bodies) ==> |bodies| == |old(bodies)| - 1
      ensures body !in old(bodies) ==> bodies == old(bodies)
      ensures selectedBody == if body in old(bodies) && old(selectedBody) == body then null else old(selectedBody)
      ensures draggedBody == if body in old(bodies) && old(draggedBody) == body then null else old(draggedBody)
      ensures Run() == old(Run()) && windowShouldClose == old(windowShouldClose)
    {
      WithoutFacts(bodies, body);
      var i := IndexOf(body);
      WithoutIndex(bodies, body, i);
      if i < |bodies| {
        if selectedBody == body {
          selectedBody := null;
        }
        if draggedBody == body {
          draggedBody := null;
        }
        bodies := bodies[..i] + bodies[i + 1..];
      }
    }

    method ClearBodies()
      modifies this
      ensures Valid() && bodies == [] && selectedBody == null && draggedBody == null
      ensures Run() == old(Run()) && windowShouldClose == old(windowShouldClose)
    {
      bodies := [];
      selectedBody := null;
      draggedBody := null;
    }

    /** The first body in list order within twice its radius of the point,
        or null when there is none. */
    method FindBodyAtPosition(position: Vec2, sqrt: SqrtFn) returns (hit: Body?)
      ensures hit == null <==> forall k :: 0 <= k < |bodies| ==> !Hits(sqrt, bodies[k].State(), position)
      ensures hit != null ==>
        exists i :: (0 <= i < |bodies| && hit == bodies[i] && Hits(sqrt, bodies[i].State(), position)
                     && forall j :: 0 <= j < i ==> !Hits(sqrt, bodies[j].State(), position))
    {
      for i := 0 to |bodies|
        invariant forall j :: 0 <= j < i ==> !Hits(sqrt, bodies[j].State(), position)
      {
        var body := bodies[i];
        var distance := Length(sqrt, Sub(body.position, position));
        if distance <= body.radius * 2.0 {
          assert Hits(sqrt, bodies[i].State(), position);
          return body;
        }
      }
      return null;
    }

    /** Clears the list, then names the generator to run; an unknown name
        leaves the list empty. The generators themselves are not modelled. */
    method LoadPreset(name: string) returns (generator: Option<Preset>)
      modifies this
      ensures Valid() && bodies == [] && selectedBody == null && draggedBody == null
      ensures Run() == old(Run()) && windowShouldClose == old(windowShouldClose)
      ensures generator == PresetNamed(name)
    {
      ClearBodies();
      generator := PresetNamed(name);
    }
  }
}
