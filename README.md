# N-body gravity simulator core, modelled in Dafny

This project models the core of a 2D N-body gravity simulator:

- the body record and its setters, integration step and trail;
- the structure-of-arrays body store;
- the fixed-capacity ring buffer of trail points (`CircularTrail`);
- the Barnes-Hut quadtree (build, mass aggregation, stack-based force query, node statistics);
- the physics engine's tick: clearing, solver choice, the direct O(n²) pass, the Barnes-Hut pass, the GPU fallback, the unordered-pair collision sweep with `ResolveCollision`, the leapfrog integrator, the adaptive time step and the energy diagnostics;
- the self-contained `ParticleSystem` container with its `CPUSequentialSolver`;
- the bookkeeping part of `Application`: the running/paused state machine, the physics gate, removal and clearing of bodies with the selected and dragged body references, the first-hit search, the preset dispatch and the grid spawn layout.

Arithmetic is over `real`. The square root is a parameter `sqrt: SqrtFn`, a function value whose constraint states the only laws the proofs use: non-negative, zero exactly at zero, monotone. Every length, normalisation and `pow(x, 1.5)` goes through it. `glm::length(v)` is `sqrt(dot(v, v))`; `pow(x, 1.5)` is `x * sqrt(x)`.

Modules:

| file | module | models |
|---|---|---|
| numerics.dfy | Numerics | vectors, `Option`, `min`/`max`/`clamp`, the square-root parameter, `vector::erase` as `RemoveAt` |
| circular_trail.dfy | Trails | `CircularTrail` as a class over an `array`, with a ghost chronological view `Contents` |
| body.dfy | Bodies | `Body` as a class, its value view `BodyState`, `BodyArrays` |
| quadtree.dfy | QuadTree | quadtree nodes as values, insertion, aggregation, `CountNodes`, the force traversal as a reference function, `CalculateBounds` |
| barnes_hut.dfy | BarnesHut | `BarnesHutTree` as a class holding the root and the statistics |
| physics_engine.dfy | Physics | `PhysicsEngine` as a class acting on a list of `Body` objects, with specification functions for each phase |
| particles.dfy | Particles | `Particle`, `ParticleSystem`, `CPUSequentialSolver` |
| application.dfy | App | `Application`'s run state and body bookkeeping |

Each method that loops or mutates is proved against a specification function. For example, `PhysicsEngine.Update` ends with `States(bodies) == TickStates(...)`. The lemmas beside those functions prove what the source promises about them.

Where the design description of the system and the code disagree, the model follows the code:

- **Direct solver:** it writes each body's acceleration, not its force accumulator. The cap `MAX_FORCE / m_A` (class constant 1e6, not the file-scope 10000) applies to the acceleration magnitude of each pair.
- **Barnes-Hut solver:** it adds to `force`, but the leapfrog integrator reads `acceleration`, which the clearing loop zeroed. With Barnes-Hut selected, gravity therefore has no effect on the motion (`Physics.TreeTickIsInertial`). The tree query applies no force cap.
- **Mass clamp:** the `Body` constructor does not clamp the mass; only `SetMass` clamps it to 0.1.
- **Leapfrog:** it does not cap velocity. Fixed and dragged bodies are skipped, not zeroed.
- **Adaptive step:** it is computed before the force pass, from the accelerations of the previous tick.
- **GPU path:** after the GPU fallback, the reported method name is "GPU": `CalculateForces` overwrites the fallback's "Direct (GPU fallback)".
- **Body trail:** `Body.cpp` keeps its trail as a vector trimmed from the front. The ring buffer is modelled separately, and `Bodies.RecordMatchesRingBuffer` proves the two record the same points.
- **Trail cadence:** the counter is a function-level static shared by all bodies. It is an explicit `FrameCounter` object passed to `Update`.

## Model

| member | source | states |
|---|---|---|
| Trails.CircularTrail.Default | src/core/CircularTrail.cpp:7-10 | a default trail is empty, has its head at 0 and capacity 100, and satisfies the ring invariant |
| Trails.CircularTrail.constructor | src/core/CircularTrail.cpp:12-15 | a new trail is empty, has its head at 0 and capacity max(1, requested), and satisfies the ring invariant |
| Trails.CircularTrail.LogicalToPhysical | src/core/CircularTrail.cpp:111-117 | the physical slot is always inside [0, capacity); logical index i lives in slot head - size + i, wrapped once around the buffer |
| Trails.CircularTrail.NewestBehindHead | src/core/CircularTrail.cpp:111-117 | the newest point sits in the slot just behind the head, wrapping to the last slot when the head is 0 |
| Trails.CircularTrail.SlotsDistinct | src/core/CircularTrail.cpp:111-117 | distinct stored points occupy distinct slots |
| Trails.CircularTrail.GetCapacity | include/core/CircularTrail.h:44 | the capacity is never below 1 and always holds every stored point |
| Trails.CircularTrail.GetSize | include/core/CircularTrail.h:50 | the size is the number of points in the chronological view |
| Trails.CircularTrail.IsEmpty | include/core/CircularTrail.h:56 | true exactly when no point is stored |
| Trails.CircularTrail.IsFull | include/core/CircularTrail.h:62 | true exactly when the number of points equals the capacity |
| Trails.CircularTrail.GetPoint | src/core/CircularTrail.cpp:86-92 | an index outside [0, size) is the out_of_range error (None); otherwise the result is the index-th oldest point |
| Trails.CircularTrail.GetOrderedPoints | src/core/CircularTrail.cpp:94-103 | returns exactly the stored points, oldest first |
| Trails.CircularTrail.AddPoint | src/core/CircularTrail.cpp:17-28 | the point becomes the newest; size grows by one until it reaches capacity; a full trail drops exactly its oldest point; the head stays in range |
| Trails.CircularTrail.Clear | src/core/CircularTrail.cpp:81-84 | the trail is empty; capacity and storage are kept |
| Trails.CircularTrail.CopyOrdered | src/core/CircularTrail.cpp:39-44 | the new buffer holds `count` consecutive points from logical index `from`, in chronological order, at slots 0.. |
| Trails.CircularTrail.SetCapacity | src/core/CircularTrail.cpp:30-79 | corrected: capacity becomes max(1, requested); growing, or shrinking to a capacity that still fits, keeps every point in order; shrinking below the size keeps exactly the newest points; the same capacity is a no-op; the ring invariant is kept |
| Trails.CircularTrail.SetCapacityAsWritten | src/core/CircularTrail.cpp:30-79 | as written: the same content guarantees, but shrinking to exactly the current size leaves the head equal to the capacity |
| Trails.CircularTrail.Reserve | src/core/CircularTrail.cpp:105-109 | never shrinks; grows to the request when larger; the points are unchanged |
| Trails.IterationVisitsContents | src/core/CircularTrail.cpp:120-157 | k increments of begin() dereference the k-th oldest point, and size increments reach end() |
| Trails.ShrinkToSizeLeavesHeadOutside | src/core/CircularTrail.cpp:64-75 | a capacity-3 trail holding two points, shrunk to 2 by the code as written, has its head outside the buffer |
| Trails.ShrinkToSizeKeepsHeadInside | src/core/CircularTrail.cpp:64-75 | the corrected SetCapacity keeps the head inside on the same input, and the next AddPoint is in bounds |
| Bodies.RadiusFor | src/core/Body.cpp:76-82 | the radius always lies in [MIN_RADIUS, MAX_RADIUS] = [2, 100] |
| Bodies.RadiusMonotone | src/core/Body.cpp:76-82 | at the same density, a heavier body never gets a smaller radius |
| Bodies.KeepNewest | src/core/Body.cpp:130-134 | the trimmed trail has at most the maximum length, is the newest suffix of the trail, and equals the trail when it was short enough |
| Bodies.RecordMatchesRingBuffer | src/core/Body.cpp:84-87 | push_back followed by front trimming records the same points as the ring buffer's AddPoint at that capacity |
| Bodies.KineticEnergyNonNegative | src/core/Body.cpp:107-110 | kinetic energy ½ m \|v\|² is non-negative for a non-negative mass |
| Bodies.KineticEnergyFromMomentum | src/core/Body.cpp:107-118 | kinetic energy equals ½ p·v with p = m v the momentum |
| Bodies.CollidingSymmetric | src/core/Body.cpp:98-101 | IsColliding is symmetric |
| Bodies.SamePlaceCollides | src/core/Body.cpp:98-101 | two bodies at the same position always collide: the test is ≤, so touching counts |
| Bodies.FrameCounter.constructor | src/core/Body.cpp:122 | the shared cadence counter starts at 0 |
| Bodies.Body.constructor | src/core/Body.cpp:7-16 | position, velocity, mass and colour as given (mass not clamped); zero force and acceleration; radius from the mass at density 0.1; empty trail of maximum 100; all flags false |
| Bodies.Body.SetPosition | src/core/Body.cpp:18-20 | changes only the position |
| Bodies.Body.SetVelocity | src/core/Body.cpp:22-24 | changes only the velocity |
| Bodies.Body.SetAcceleration | src/core/Body.cpp:26-28 | changes only the acceleration |
| Bodies.Body.SetColor | src/core/Body.cpp:35-37 | changes only the colour |
| Bodies.Body.SetSelected | src/core/Body.cpp:39-41 | changes only the selected flag |
| Bodies.Body.SetBeingDragged | src/core/Body.cpp:43-45 | changes only the dragged flag |
| Bodies.Body.SetFixed | src/core/Body.cpp:47-49 | changes only the fixed flag |
| Bodies.Body.SetMass | src/core/Body.cpp:30-33 | the mass becomes max(0.1, m) and the radius is recomputed from it; nothing else changes |
| Bodies.Body.UpdateRadius | src/core/Body.cpp:76-82 | only the radius changes, to the clamped disc radius of the mass at the body's density |
| Bodies.Body.ApplyForce | src/core/Body.cpp:51-53 | adds the argument to the accumulated force; nothing else changes |
| Bodies.Body.ClearForce | include/core/Body.h:55 | sets the accumulated force to zero and changes nothing else |
| Bodies.Body.Update | src/core/Body.cpp:55-74 | a fixed or dragged body only has its acceleration and force zeroed; any other body gets a = F/m, v += a dt, x += v_new dt and a zero force, and records its new position every fifth tick of the shared counter |
| Bodies.Body.UpdateTrail | src/core/Body.cpp:120-128 | increments the shared counter and appends the position, trimmed to the maximum, exactly when the counter is a multiple of 5 |
| Bodies.Body.AddTrailPoint | src/core/Body.cpp:84-87 | the trail becomes the newest maximum-length suffix of trail + [position] |
| Bodies.Body.ClearTrail | src/core/Body.cpp:89-91 | empties the trail only |
| Bodies.Body.SetMaxTrailLength | src/core/Body.cpp:93-96 | the maximum becomes max(0, length) and the trail keeps its newest points within it |
| Bodies.Body.LimitTrailLength | src/core/Body.cpp:130-134 | the loop drops exactly the oldest points until the trail fits the maximum |
| Bodies.Body.CollisionRadius | src/core/Body.cpp:103-105 | the collision radius lies in [2, 100] |
| Bodies.Body.Speed | src/core/Body.cpp:112-114 | the speed is non-negative |
| Bodies.BodyArrays.constructor | include/core/Body.h:105-115 | all eight columns start empty and of equal length |
| Bodies.BodyArrays.Size | include/core/Body.h:115 | the size equals the length of each of the eight columns |
| Bodies.BodyArrays.Clear | include/core/Body.h:128-137 | every column is emptied |
| Bodies.BodyArrays.PushBack | include/core/Body.h:139-148 | appends the body's fields to each column, with zero in the force column; the columns stay equal in length |
| Bodies.BodyArrays.Erase | include/core/Body.h:150-159 | removes entry `index` from every column, keeping the order of the rest |
| QuadTree.GetQuadrant | include/physics/BarnesHut.h:36-41 | the result is in 0..3; bit 0 is set iff x > centre.x and bit 1 iff y > centre.y, so ties go west or south |
| QuadTree.ChildContains | include/physics/BarnesHut.h:29-49 | a point inside a node is inside the half-size child centred at GetChildCenter(GetQuadrant(p)) |
| QuadTree.NewNode | include/physics/BarnesHut.h:15-26 | a fresh node is a leaf with no body, zero mass and zero centre of mass |
| QuadTree.Subdivide | src/physics/BarnesHut.cpp:92-99 | creates four fresh half-size children, child q centred at GetChildCenter(q) |
| QuadTree.Subdivided | src/physics/BarnesHut.cpp:71-74 | an occupied leaf turned internal and subdivided stores no body and no mass, and is well formed |
| QuadTree.Insert | src/physics/BarnesHut.cpp:50-90 | insertion keeps the tree well formed: a leaf has no children and at most one body, and an internal node has no body and four children in their quadrants; the node's square is unchanged |
| QuadTree.Split | src/physics/BarnesHut.cpp:63-81 | splitting an occupied leaf for a non-coincident body gives a well-formed internal node with the same square |
| QuadTree.Descend | src/physics/BarnesHut.cpp:83-89 | passing a body to its quadrant child keeps the internal node well formed |
| QuadTree.InsertStores | src/physics/BarnesHut.cpp:50-90 | insertion either leaves the node unchanged or stores exactly the new body, adding exactly its mass; it leaves the node unchanged only when the point is outside or coincides (distance² < 1e-12) with a stored body |
| QuadTree.SplitStores | src/physics/BarnesHut.cpp:63-81 | a split stores the occupant and the new body, adding exactly the new body's mass |
| QuadTree.DescendStores | src/physics/BarnesHut.cpp:83-89 | descending stores the body below, or drops it only when it coincides with a stored body |
| QuadTree.SplitTerminates | src/physics/BarnesHut.cpp:66-74 | two non-coincident points in one leaf imply a square large enough that halving it strictly decreases the termination measure |
| QuadTree.Aggregate | src/physics/BarnesHut.cpp:101-136 | the post-order pass keeps each node's square and kind, and aggregates every child |
| QuadTree.AggregateWellFormed | src/physics/BarnesHut.cpp:101-136 | aggregation keeps the tree well formed |
| QuadTree.AggregateKeepsBodies | src/physics/BarnesHut.cpp:101-136 | aggregation stores the same bodies |
| QuadTree.AggregateKeepsMassOf | src/physics/BarnesHut.cpp:101-136 | aggregation stores the same sum of body masses |
| QuadTree.AggregateIsAggregated | src/physics/BarnesHut.cpp:101-136 | every node of the result has the mass and centre of mass the pass assigns: its body's values or zero for a leaf; for an internal node, the sum of its children's positive masses, with the weighted mean when above 1e-9 and the geometric centre otherwise |
| QuadTree.AggregatedMassIsStoredMass | src/physics/BarnesHut.cpp:101-129 | with non-negative masses, an aggregated node's mass is the sum of the masses stored below it, and is non-negative |
| QuadTree.InternalMassNonNegative | src/physics/BarnesHut.cpp:115-128 | an aggregated internal node never has negative mass |
| QuadTree.CountNodesTotal | src/physics/BarnesHut.cpp:228-245 | CountNodes adds the number of nodes of the subtree to totalNodes |
| QuadTree.CountNodesLeaves | src/physics/BarnesHut.cpp:228-245 | CountNodes adds the number of stored bodies (occupied leaves) to leafNodes |
| QuadTree.CountNodesKeepsForceCount | src/physics/BarnesHut.cpp:228-245 | CountNodes leaves forceCalculations untouched |
| QuadTree.CountNodesDepth | src/physics/BarnesHut.cpp:228-245 | maxDepth becomes the larger of its old value and the depth of the deepest node visited |
| QuadTree.NodesPerInternal | src/physics/BarnesHut.cpp:92-99 | a well-formed tree has 1 + 4 × (internal nodes) nodes |
| QuadTree.OwnLeafSkipped | src/physics/BarnesHut.cpp:164-169 | the leaf holding the query body contributes nothing: no self-interaction |
| QuadTree.InteractionsBounded | src/physics/BarnesHut.cpp:147-195 | the number of interactions of one query is between 0 and the number of nodes |
| QuadTree.ForceCases | src/physics/BarnesHut.cpp:147-195 | a massless node contributes nothing; a node with size² < θ²d² is one point mass; a near leaf is a point mass unless it holds the query body; a near internal node is the sum of its four children |
| QuadTree.OpeningTest | src/physics/BarnesHut.cpp:155-161 | the traversal's test nodeWidthSq < θ²·distanceSq is exactly the reference definition's far test |
| QuadTree.BoxIsTight | src/physics/BarnesHut.cpp:208-217 | the min/max loop gives a box that contains every body, with each bound attained by some body |
| QuadTree.PaddedSide | src/physics/BarnesHut.cpp:219-225 | the side is at least MIN_NODE_SIZE and at least each extent of the box |
| QuadTree.CalculateBounds | src/physics/BarnesHut.cpp:201-226 | no bodies gives centre 0 and size 1; otherwise the centre of the box and the padded side; every body lies in the resulting square |
| QuadTree.PaddedBoxHolds | src/physics/BarnesHut.cpp:201-226 | the square around the box centre with the padded side contains every body |
| QuadTree.RootSquare | src/physics/BarnesHut.cpp:22-28 | the fresh root is a well-formed leaf whose square contains every body |
| QuadTree.InsertHolds | src/physics/BarnesHut.cpp:30-35 | after inserting body i, every body up to i is stored, or was dropped as coincident with a stored one |
| QuadTree.InsertFromHolds | src/physics/BarnesHut.cpp:30-35 | the insertion loop accounts for every body |
| QuadTree.SeparatedStoresAll | src/physics/BarnesHut.cpp:30-35 | when no two bodies coincide, every body is stored in the tree |
| QuadTree.AggregatedRoot | src/physics/BarnesHut.cpp:37 | aggregating the filled root gives a well-formed, aggregated tree containing every body, storing all of them when no two coincide, with root mass equal to the mass stored below it when none is negative |
| QuadTree.BuiltRootFacts | src/physics/BarnesHut.cpp:14-40 | the same facts hold for the root BuildTree produces; with no coincident bodies and no negative mass its mass is the total mass of the body list |
| QuadTree.InsertAddsMass | src/physics/BarnesHut.cpp:30-35 | with no coincident bodies, inserting body i after bodies 0 .. i-1 never drops it: the stored mass grows by exactly its mass |
| QuadTree.InsertFromMass | src/physics/BarnesHut.cpp:30-35 | with no coincident bodies, the insertion loop stores every body's mass: the tree's stored mass goes from the mass of the first i bodies to the mass of the whole list |
| QuadTree.BuiltRootMass | src/physics/BarnesHut.cpp:14-40 | with no coincident bodies and no negative mass, the built root's totalMass equals the sum of the masses in the body list |
| QuadTree.CountFromZero | src/physics/BarnesHut.cpp:20-39 | the statistics counted from zero are (nodes, stored bodies, height, 0) |
| BarnesHut.BarnesHutTree.constructor | src/physics/BarnesHut.cpp:12 | a new tree has no root and zero statistics |
| BarnesHut.BarnesHutTree.BuildTree | src/physics/BarnesHut.cpp:14-40 | an empty list leaves no root and the statistics unchanged; otherwise the root is the built tree, and the statistics are its node count, stored-body count and height, with no force calculations; with no coincident bodies and no negative mass the root's mass is the list's total mass |
| BarnesHut.BarnesHutTree.CalculateForce | src/physics/BarnesHut.cpp:42-48 | no root gives the zero force; otherwise the counter restarts and the result is the reference traversal's force, with the counter set to its interaction count |
| BarnesHut.BarnesHutTree.CalculateForceIterative | src/physics/BarnesHut.cpp:138-198 | the stack loop computes exactly the reference traversal's force and adds its interaction count to the counter; a missing root gives the zero force and leaves the statistics alone |
| Physics.SolverChoice | src/physics/PhysicsEngine.cpp:70-79 | GPU iff it is requested and available; otherwise Barnes-Hut iff it is requested and the count exceeds maxBodiesForDirect (compared unsigned, so a negative threshold never selects it); otherwise Direct |
| Physics.DirectCountBound | src/physics/PhysicsEngine.cpp:90-124 | the direct pass counts at most n(n-1) interactions |
| Physics.ForcePhaseForcesOnly | src/physics/PhysicsEngine.cpp:60-83 | the force phase changes only force and acceleration |
| Physics.GpuPhase | src/physics/PhysicsEngine.cpp:70-72 | the GPU path runs the direct pass on the cleared bodies and reports "GPU" |
| Physics.TreePhase | src/physics/PhysicsEngine.cpp:73-75 | the Barnes-Hut path runs on a non-empty list, adds the tree force to each cleared body and reports "Barnes-Hut" with the last query's count |
| Physics.DirectPhase | src/physics/PhysicsEngine.cpp:76-78 | the Direct path runs the direct pass on the cleared bodies and reports "Direct" |
| Physics.DirectPassFields | src/physics/PhysicsEngine.cpp:64-67 | off the tree path, every force is zero; a fixed body keeps zero acceleration; any other body's acceleration is the sum of its row |
| Physics.TreePassFields | src/physics/PhysicsEngine.cpp:140-146 | on the tree path, every acceleration is zero; a fixed body keeps zero force; any other body's force is its tree force |
| Physics.LeapfrogClosedForm | src/physics/PhysicsEngine.cpp:175-202 | the two half kicks give v' = d·v + a·dt and x' = x + (d·v + a·dt/2)·dt, and only position and velocity change |
| Physics.LeapfrogWithoutAcceleration | src/physics/PhysicsEngine.cpp:175-202 | with zero acceleration the body drifts with its damped velocity |
| Physics.Resolve | src/physics/PhysicsEngine.cpp:250-286 | collision response changes only positions and velocities |
| Physics.ResolveGuard | src/physics/PhysicsEngine.cpp:255 | nothing changes unless 0 < distance < rA + rB |
| Physics.ResolvePinned | src/physics/PhysicsEngine.cpp:259-264 | a fixed or dragged body is never moved or re-velocitised |
| Physics.ResolveSeparating | src/physics/PhysicsEngine.cpp:266-271 | bodies that are separating along the normal keep their velocities |
| Physics.ResolveConservesMomentum | src/physics/PhysicsEngine.cpp:273-284 | with both bodies free, the impulse conserves total momentum |
| Physics.ResolveSeparates | src/physics/PhysicsEngine.cpp:255-264 | with both bodies free and overlapping, the separation leaves them exactly rA + rB apart along the same direction |
| Physics.SweepRow | src/physics/PhysicsEngine.cpp:234-239 | the inner loop of the collision sweep keeps the list length and the positive masses |
| Physics.SweepFrom | src/physics/PhysicsEngine.cpp:233-240 | the outer loop keeps the list length and the positive masses |
| Physics.SweepRowEvolves | src/physics/PhysicsEngine.cpp:234-239 | one row changes only positions and velocities, and never a fixed or dragged body |
| Physics.SweepRowCount | src/physics/PhysicsEngine.cpp:234-239 | one row adds at most one collision per partner j > i |
| Physics.UnorderedPairsClosed | src/physics/PhysicsEngine.cpp:233-234 | the i < j loops visit m(m-1)/2 pairs |
| Physics.SweepFromEvolves | src/physics/PhysicsEngine.cpp:233-240 | the remaining rows change only positions and velocities of free bodies |
| Physics.SweepFromCount | src/physics/PhysicsEngine.cpp:233-240 | the remaining rows add at most one collision per unordered pair |
| Physics.SweepAllFacts | src/physics/PhysicsEngine.cpp:227-244 | the whole sweep leaves pinned bodies alone, changes only positions and velocities, and counts at most n(n-1)/2 collisions |
| Physics.MaxAcceleration | src/physics/PhysicsEngine.cpp:289-294 | the running maximum starts at 0 and is never negative |
| Physics.MaxAccelerationIsMax | src/physics/PhysicsEngine.cpp:289-294 | it bounds every body's acceleration magnitude and is 0 or attained by some body |
| Physics.AdaptiveStepRange | src/physics/PhysicsEngine.cpp:288-302 | the step lies in [minTimeStep, maxTimeStep] when some body accelerates, and is timeStep when none does |
| Physics.PairPotentialNonNegative | src/physics/PhysicsEngine.cpp:316-320 | each pair term G mi mj / d is non-negative for non-negative G and masses |
| Physics.PairPotentialSymmetric | src/physics/PhysicsEngine.cpp:316-320 | the pair term does not depend on the order of the pair |
| Physics.PotentialRowNonPositive | src/physics/PhysicsEngine.cpp:315-321 | one row of the potential sum is ≤ 0 |
| Physics.PotentialUpToNonPositive | src/physics/PhysicsEngine.cpp:314-322 | the potential is ≤ 0 |
| Physics.KineticSumNonNegative | src/physics/PhysicsEngine.cpp:308-310 | the kinetic sum is ≥ 0 |
| Physics.EnergyBounds | src/physics/PhysicsEngine.cpp:304-327 | kinetic ≥ 0, potential ≤ 0, and total = kinetic + potential |
| Physics.TreeTickIsInertial | src/physics/PhysicsEngine.cpp:140-146 | with Barnes-Hut selected and collisions off, a free body moves by its damped velocity alone: the tree force never reaches the integrator |
| Physics.PhysicsEngine.constructor | src/physics/PhysicsEngine.cpp:15-18 | default configuration, zero statistics with method "Direct", no GPU, an empty body store and a tree without root |
| Physics.PhysicsEngine.Initialize | src/physics/PhysicsEngine.cpp:22-31 | reports success and marks the GPU unavailable |
| Physics.PhysicsEngine.SetConfig | include/physics/PhysicsEngine.h:104 | replaces the configuration |
| Physics.PhysicsEngine.SetGravitationalConstant | include/physics/PhysicsEngine.h:108 | changes only G |
| Physics.PhysicsEngine.SetTimeStep | include/physics/PhysicsEngine.h:109 | changes only the time step |
| Physics.PhysicsEngine.SetBarnesHutTheta | include/physics/PhysicsEngine.h:110 | changes only θ |
| Physics.PhysicsEngine.SetCollisionEnabled | include/physics/PhysicsEngine.h:111 | changes only the collision flag |
| Physics.PhysicsEngine.SetRestitution | include/physics/PhysicsEngine.h:112 | changes only the restitution |
| Physics.PhysicsEngine.SetUseBarnesHut | include/physics/PhysicsEngine.h:113 | changes only the Barnes-Hut flag |
| Physics.PhysicsEngine.SetUseGPU | include/physics/PhysicsEngine.h:114 | changes only the GPU flag |
| Physics.PhysicsEngine.Reset | src/physics/PhysicsEngine.cpp:329-331 | restores the default statistics |
| Physics.PhysicsEngine.Update | src/physics/PhysicsEngine.cpp:33-58 | an empty list changes nothing; otherwise the bodies end in the tick's specified states (force pass, optional collision sweep, leapfrog with the possibly adaptive step) and the statistics record the method, counts and body count |
| Physics.PhysicsEngine.ForcesAndCollisions | src/physics/PhysicsEngine.cpp:44-50 | the force pass followed by the collision sweep when enabled |
| Physics.PhysicsEngine.CalculateForces | src/physics/PhysicsEngine.cpp:60-83 | clears every force and acceleration, then runs the chosen solver and records its name and count |
| Physics.PhysicsEngine.GpuBranch | src/physics/PhysicsEngine.cpp:70-72 | the GPU branch ends in the specified force-phase states and statistics |
| Physics.PhysicsEngine.TreeBranch | src/physics/PhysicsEngine.cpp:73-75 | the Barnes-Hut branch ends in the specified force-phase states and statistics |
| Physics.PhysicsEngine.DirectBranch | src/physics/PhysicsEngine.cpp:76-78 | the Direct branch ends in the specified force-phase states and statistics |
| Physics.PhysicsEngine.ClearForces | src/physics/PhysicsEngine.cpp:63-67 | every body's force and acceleration are zero; nothing else changes |
| Physics.PhysicsEngine.CalculateForcesDirect | src/physics/PhysicsEngine.cpp:85-125 | each non-fixed body's acceleration becomes the capped sum over the other bodies, fixed bodies are untouched, and the counter is reset to the number of contributing ordered pairs |
| Physics.PhysicsEngine.DirectPass | src/physics/PhysicsEngine.cpp:93-124 | the outer loop gives every body its direct-sum state and adds the pair count |
| Physics.PhysicsEngine.DirectBody | src/physics/PhysicsEngine.cpp:94-123 | one row: only body i changes, to its direct-sum state, and the counter grows by its contributing pairs |
| Physics.PhysicsEngine.AccumulateRow | src/physics/PhysicsEngine.cpp:97-121 | the inner loop's total and count are the row's sum over j ≠ i |
| Physics.PhysicsEngine.PairContribution | src/physics/PhysicsEngine.cpp:104-120 | one pair contributes the capped acceleration towards the other body iff the softened squared distance exceeds MIN_DISTANCE² |
| Physics.PhysicsEngine.CalculateForcesBarnesHut | src/physics/PhysicsEngine.cpp:127-150 | builds the tree, adds the tree force to every non-fixed body's force, and reports the last query's count |
| Physics.PhysicsEngine.TreePass | src/physics/PhysicsEngine.cpp:140-146 | the per-body loop adds each non-fixed body's tree force and leaves the last query's count in the tree |
| Physics.PhysicsEngine.TreeQuery | src/physics/PhysicsEngine.cpp:142-145 | one query: a non-fixed body gets its tree force added and the counter holds that query's interaction count; a fixed body is skipped; no other body changes and the tree root is kept |
| Physics.PhysicsEngine.CalculateForcesGPU | src/physics/PhysicsEngine.cpp:152-157 | falls back to the direct pass and reports "Direct (GPU fallback)" |
| Physics.PhysicsEngine.IntegrateLeapfrog | src/physics/PhysicsEngine.cpp:175-202 | every free body takes the damped kick-drift-kick step; fixed and dragged bodies are unchanged |
| Physics.PhysicsEngine.HandleCollisions | src/physics/PhysicsEngine.cpp:227-244 | resolves every overlapping unordered pair in i < j order and sets `collisions` to their number |
| Physics.PhysicsEngine.HandleRow | src/physics/PhysicsEngine.cpp:234-239 | the inner loop resolves each overlapping pair (i, j), j > i, in order against the states left by the previous pair, and adds their number to `collisions` |
| Physics.PhysicsEngine.HandlePair | src/physics/PhysicsEngine.cpp:235-238 | an overlapping pair is resolved and counted; a non-overlapping pair changes nothing |
| Physics.PhysicsEngine.ResolveCollision | src/physics/PhysicsEngine.cpp:250-286 | the pair ends in the collision response: nothing unless 0 < distance < rA + rB, then separation of the free bodies and, when they approach, the restitution impulse (see the Resolve lemmas) |
| Physics.PhysicsEngine.Separate | src/physics/PhysicsEngine.cpp:257-264 | each free body moves half the penetration apart; pinned bodies stay |
| Physics.PhysicsEngine.Kick | src/physics/PhysicsEngine.cpp:273-284 | each free body's velocity changes by ∓ impulse / mass; pinned bodies stay |
| Physics.PhysicsEngine.CalculateAdaptiveTimeStep | src/physics/PhysicsEngine.cpp:288-302 | returns the clamped sqrt(softening / max acceleration), or timeStep when no body accelerates |
| Physics.PhysicsEngine.CalculateEnergyStats | src/physics/PhysicsEngine.cpp:304-327 | returns the kinetic sum, the potential over unordered pairs farther than MIN_DISTANCE, and their total |
| Physics.PhysicsEngine.PotentialRowSum | src/physics/PhysicsEngine.cpp:315-321 | the inner loop subtracts the pair terms for j > i |
| Particles.Particle.Default | include/core/Particle.h:15-21 | the default particle is at rest at the origin with mass 1 |
| Particles.Particle.constructor | src/core/Particle.cpp:5-11 | stores position, velocity and mass, with zero acceleration |
| Particles.Particle.WithAcceleration | src/core/Particle.cpp:13-19 | stores all four fields as given |
| Particles.Particle.SetVelocity | src/core/Particle.cpp:21-23 | changes only the velocity |
| Particles.Particle.SetPosition | src/core/Particle.cpp:25-27 | changes only the position |
| Particles.Particle.SetAcceleration | src/core/Particle.cpp:29-31 | changes only the acceleration |
| Particles.TotalMassConcat | src/core/ParticleSystem.cpp:41-47 | the mass fold is additive over concatenation |
| Particles.TotalMassRemoveAt | src/core/ParticleSystem.cpp:15-19 | removing a particle lowers the total mass by exactly its mass |
| Particles.TotalMassNonNegative | src/core/ParticleSystem.cpp:41-47 | with non-negative masses the total is non-negative |
| Particles.ExtentContains | src/core/ParticleSystem.cpp:59-65 | every particle lies inside the min/max fold |
| Particles.ExtentAttained | src/core/ParticleSystem.cpp:54-65 | each bound of a non-empty fold is attained by some particle |
| Particles.BoundingBoxFacts | src/core/ParticleSystem.cpp:49-68 | an empty system gives (0,0,0,0); otherwise min ≤ every coordinate ≤ max on both axes, with each bound attained |
| Particles.CenterOfMassInBox | src/core/ParticleSystem.cpp:25-39 | with non-negative masses and positive total, the centre of mass lies inside the bounding box |
| Particles.ParticleSystem.constructor | include/core/ParticleSystem.h:16 | a new system is empty |
| Particles.ParticleSystem.AddParticle | src/core/ParticleSystem.cpp:7-9 | appends one copy of the particle; earlier particles are unchanged; the total mass grows by its mass |
| Particles.ParticleSystem.AddNewParticle | src/core/ParticleSystem.cpp:11-13 | appends one particle built from the arguments with zero acceleration |
| Particles.ParticleSystem.RemoveParticle | src/core/ParticleSystem.cpp:15-19 | an out-of-range index is a no-op; otherwise exactly that particle goes, the rest keep their order, and the total mass drops by its mass |
| Particles.ParticleSystem.Clear | src/core/ParticleSystem.cpp:21-23 | empties the system |
| Particles.ParticleSystem.GetTotalMass | src/core/ParticleSystem.cpp:41-47 | the loop returns the sum of all masses |
| Particles.ParticleSystem.GetCenterOfMass | src/core/ParticleSystem.cpp:25-39 | zero when empty or when the total mass is not positive, otherwise the mass-weighted mean position |
| Particles.ParticleSystem.GetBoundingBox | src/core/ParticleSystem.cpp:49-68 | the loop returns the bounding box, laid out as (min_x, min_y, max_x, max_y) |
| Particles.PairForce | src/physics/IParticleSolver.cpp:58-77 | a pair contributes nothing exactly when its softened squared distance is below MIN_DISTANCE² = 0.01 |
| Particles.PairForceAntisymmetric | src/physics/IParticleSolver.cpp:58-77 | the force of B on A is minus the force of A on B, cap included |
| Particles.SelfPairVanishes | src/physics/IParticleSolver.cpp:53-71 | a particle paired with itself would contribute nothing or the zero vector |
| Particles.CappedBound | src/physics/IParticleSolver.cpp:74-77 | the capped force has magnitude at most MAX_FORCE = 1000 |
| Particles.PairForceCapped | src/physics/IParticleSolver.cpp:58-77 | every pair force has magnitude at most MAX_FORCE |
| Particles.AdvancedClosedForm | src/physics/IParticleSolver.cpp:38-44 | velocity first, then position with the new velocity: x' = x + v dt + a dt² |
| Particles.RowForceOfPositions | src/physics/IParticleSolver.cpp:53-80 | a particle's force depends only on positions and masses, so the accelerations written earlier in the loop do not affect later particles |
| Particles.StepIgnoresAccelerations | src/physics/IParticleSolver.cpp:27-30 | the step does not depend on the accelerations found on entry, because they are cleared first |
| Particles.CPUSequentialSolver.constructor | src/physics/IParticleSolver.cpp:16-20 | stores the time step and squared softening; G is 10 |
| Particles.CPUSequentialSolver.UpdateParticlePositions | src/physics/IParticleSolver.cpp:22-45 | a null system is left alone; otherwise the particles end in the state of one step: accelerations cleared, then recomputed from positions, then the velocity-then-position update |
| Particles.CPUSequentialSolver.Step | src/physics/IParticleSolver.cpp:27-44 | the three loops in order give the specified step |
| Particles.CPUSequentialSolver.ClearAccelerations | src/physics/IParticleSolver.cpp:28-30 | every acceleration becomes zero and nothing else changes |
| Particles.CPUSequentialSolver.ComputeForces | src/physics/IParticleSolver.cpp:33-35 | every particle gets its acceleration from the positions alone |
| Particles.CPUSequentialSolver.ComputeGravityForce | src/physics/IParticleSolver.cpp:47-85 | only particle i changes: its acceleration becomes the sum of the capped pair forces over j ≠ i, divided by its mass |
| Particles.CPUSequentialSolver.Integrate | src/physics/IParticleSolver.cpp:38-44 | each particle takes the velocity-then-position step |
| App.PlayPause | src/core/Application.cpp:408-415 | after Space the simulation is always running |
| App.TransitionsStayReachable | src/core/Application.cpp:93-106 | Space, R and the callbacks never give a paused but stopped state |
| App.PlayPauseFlipsStepping | src/core/Application.cpp:93-100 | Space flips whether the physics steps, and R always stops it |
| App.PlayPauseTwice | src/core/Application.cpp:408-415 | pressing Space twice while running restores the state |
| App.WithoutFacts | src/core/Application.cpp:452-465 | removing a body from a list without repeats drops exactly it, keeps every other body, and shortens the list by one iff it was present |
| App.GridCellsDistinct | src/core/Application.cpp:884-887 | with gridSize = ceil(sqrt(count)), distinct indices below count get distinct (row, col) cells inside the grid |
| App.GridPositionInside | src/core/Application.cpp:884-893 | every grid position lies strictly inside the spawn square (-radius, radius)² |
| App.PresetNamed | src/core/Application.cpp:494-508 | a generator is chosen exactly for the seven preset names |
| App.Application.constructor | include/core/Application.h:49-64 | no bodies, stopped and unpaused, no selected or dragged body; the physics engine that Initialize creates (Application.cpp:65) is created here, with the default configuration |
| App.Application.OnPlayPause | src/core/Application.cpp:93-100 | the callback performs the Space transition |
| App.Application.OnReset | src/core/Application.cpp:102-105 | the callback stops and unpauses |
| App.Application.OnKeyboard | src/core/Application.cpp:405-433 | on a press: Space toggles, R stops, C clears, Delete removes the selected body and nulls the selection, Escape requests the window to close; other keys and releases change nothing |
| App.Application.Update | src/core/Application.cpp:215-220 | the physics steps exactly when running and not paused; then the bodies and statistics are those of one engine tick, and an empty list leaves the statistics unchanged |
| App.Application.AddBody | src/core/Application.cpp:440-443 | appends one fresh body built from the arguments; nothing else changes |
| App.Application.IndexOf | src/core/Application.cpp:453-454 | find_if: the first index holding the body, or the list length |
| App.Application.RemoveBody | src/core/Application.cpp:452-465 | an absent body changes nothing; otherwise exactly that body goes, the rest keep their order, and the selected and dragged references are nulled if they referred to it |
| App.Application.ClearBodies | src/core/Application.cpp:467-471 | empties the list and nulls both references |
| App.Application.FindBodyAtPosition | src/core/Application.cpp:473-481 | null iff no body lies within twice its radius of the point; otherwise the first such body in list order |
| App.Application.LoadPreset | src/core/Application.cpp:491-509 | always clears first, so an unknown name leaves the list empty; the generator run is the one the name selects |

## Findings

| source | as written | input that shows it | evidently intended | confidence | as-written member | corrected member |
|---|---|---|---|---|---|---|
| src/core/CircularTrail.cpp:73-74 | when shrinking to a capacity that still holds every point, the head is set to `m_size`, which equals the new capacity when the size is exactly that capacity | a trail of capacity 3 holding two points, then SetCapacity(2): the head becomes 2 in a 2-slot buffer, and the next AddPoint writes `m_points[2]` out of bounds | the head is the next free slot, `m_size % newCapacity` (0 when full), as the shrink-below-size branch already does | high; not executed | Trails.CircularTrail.SetCapacityAsWritten, Trails.ShrinkToSizeLeavesHeadOutside | Trails.CircularTrail.SetCapacity, Trails.ShrinkToSizeKeepsHeadInside |

## Left out

- Floating point: all arithmetic is over `real`. Rounding, overflow to infinity and NaN are not modelled. `sqrt` is a parameter constrained only by its laws, and `pow(x, 1.5)` is `x * sqrt(x)`.
- Integer widths: trail indices, counters and statistics are unbounded integers. The one place where a width matters, the `size_t` comparison with `maxBodiesForDirect`, is modelled with an explicit modulus.
- Bodies.Body.Update: requires a non-zero mass. The constructor does not clamp the mass, and a zero mass would give an IEEE infinity or NaN acceleration, which is not modelled.
- Physics.PhysicsEngine.HandleCollisions: requires every mass to be positive, because the impulse divides by both masses. The same requirement carries to Physics.PhysicsEngine.ResolveCollision, Physics.PhysicsEngine.Update, Physics.PhysicsEngine.ForcesAndCollisions and App.Application.Update when collisions are enabled.
- Particles.CPUSequentialSolver.UpdateParticlePositions: requires non-zero masses, because the acceleration divides by the particle's mass. IEEE division by zero is not modelled.
- Particles.PairForceCapped: proved for an exact square root (`sqrt(x)² = x`). The rounding of `glm::length` is not modelled. The same assumption applies to Particles.CappedBound.
- Particles.BoundingBoxFacts: the "bound attained" half assumes coordinates within the float range, where the fold's ±FLT_MAX starting values are always beaten.
- The quadtree is modelled on values: insertion returns a new node instead of updating linked nodes in place. Identity of the query body (`node->body == &body`) becomes equality of body indices.
- `CalculateForceRecursive` is declared in include/physics/BarnesHut.h but defined nowhere. QuadTree.CalculateForceRecursive is this model's reference definition of the traversal, and the iterative query is proved equal to it.
- The Barnes-Hut force loop runs with `std::execution::par_unseq` in the source. It is modelled as a sequential loop; its per-body writes are independent.
- `Body::ClearForce` is declared but not defined. It is modelled with its evident meaning, setting the force to zero. `SetForce`, `ResetForce` and `SetDensity` are not part of this model.
- The trail counter is a function-level static in the source. It is modelled as an explicit counter object shared by the bodies passed to `Update`.
- Timers and `std::chrono` statistics fields, and the console output of `Initialize`, are left out.
- `IntegrateEuler` and `IntegrateVerlet` are never called by `IntegrateMotion`. `IntegrateMotion` itself is folded into `Update`.
- `BodyArrays::reserve` only pre-allocates vector capacity and has no effect on the contents, so it is not modelled.
- The declared-but-undefined `BenchmarkMethods`, `CalculateForcesOptimized`, `CalculateForcesSpatiallyOptimized` and `ConvertToArrays` are not modelled. `BodyArrays` is modelled as a standalone store.
- The CPU parallel solver, the GPU solver, the renderer, the UI, the initializers and the superseded Barnes-Hut copy are not part of this model.
- Application: GLFW setup, the main loop with its clock and delta-time cap, rendering, the camera, mouse input and dragging in `UpdateUI`, and the static callback routing are left out. The Escape key sets a `windowShouldClose` flag in place of the GLFW call.
- Application: `Initialize` (window, renderer, UI) is not modelled; the physics engine it creates is created by the model's constructor instead, and later configuration changes from the UI are left out.
- Application: the `Create*` preset generators are random and trigonometric scene setup. `LoadPreset` returns which generator the name selects instead of running it.
- `SpawnBodies`: the random, circle and spiral patterns and all velocities use a random generator and trigonometry and are left out. Only the grid layout is modelled, with `gridSize` taken as ceil(sqrt(count)).
- `AddBody`: the density overload depends on `SetDensity`, which is not part of this model. The colour from the UI is a parameter.
