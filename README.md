# Drifting polygon arena

A model of the arena logic of a small Bevy/Rapier playground (`src/main.rs`).
A large circular arena is drawn as a ring of 64 fixed wall segments around a
core marker. Every frame the arena drifts: the core marker carries a drift
velocity that is reflected off the window edges, and the core and every wall
segment are translated by the same displacement, so the ring moves rigidly.

The model has five modules:

- `Geometry` (geometry.dfy): vectors and transforms over `real`.
- `Arena` (geometry.dfy): the constant `Radius` (250), the core marker
  (`Core`: drift velocity and transform), a wall segment (`Segment`: transform
  and collider half-extents), and `State`, which holds every core entity and
  every wall segment.
- `Ring` (ring.dfy): the startup loop that spawns the wall. `BuildRing` is the
  `for i in 0..faces` loop. It is proved to produce `Wall(t)`, which is face `i`
  placed at angle `i * 2pi/64` on the apothem circle, turned a quarter turn,
  with the shared collider `(face_length/2, cuboid_height/2)`. Sine, cosine
  and pi are parameters, carried in a `Trig` record.
- `Drift` (drift.dfy): the per-frame system as pure functions. `Reflected`
  applies the look-ahead reflection rule, `StepCore` moves one core, and
  `Advance` moves the whole state. `Run` chains many frames. The lemmas state
  what one tick and many ticks guarantee.
- `Simulation` (world.dfy): class `World` holds the entities as arrays updated
  in place. The constructor `Setup` spawns the wall and the core marker.
  `Tick(dt, width, height)` runs the two loops of the system and is proved
  equal to `Drift.Advance`.

The engine's query over core entities may yield any number of them. The model
keeps that: every core is stepped, and the edges move by the displacement of
the last core visited, or not at all when there is none.

The model follows the code:

- The ring builder takes no radius or face count: it hard-codes 250 and 64
  and checks neither.
- The reflection uses the constant `Radius` rather than a radius argument.
- Positions are 3-D. The core sits at depth -0.1, and the drift never changes
  any depth.

One property goes beyond what the code states. `Drift.RunKeepsArenaInWindow`
proves that in a window of fixed size, an arena disc that starts inside the
window stays inside for any number of frames. This holds as long as no single
step is longer than the room the disc has on that axis.

## Model

| member | source | states |
|---|---|---|
| `Ring.BuildRing` | src/main.rs:38-58 | The loop spawns exactly 64 segments, in face order. Segment `i` is the face-`i` segment of the wall, and all segments share one collider size. |
| `Ring.SegmentsShareShape` | src/main.rs:40-53 | Every segment's collider equals segment 0's. The 64 face lengths add up to the inscribed polygon's perimeter, and each collider is `cuboid_height` thick. |
| `Ring.AnglesEvenlySpaced` | src/main.rs:45-50 | Face angles start at 0, stay in `[0, 2pi)` and are spaced `2pi/64` apart. Each segment's rotation is its angle plus `pi/2`. |
| `Ring.CentresOnApothemCircle` | src/main.rs:43-49 | When `sin^2 + cos^2 = 1`, every segment centre lies on the circle whose radius is the apothem `cos(pi/64) * 250`, at depth 0. |
| `Simulation.World.Setup` | src/main.rs:38-74 | Startup holds the wall built by the ring loop and one core marker at `(0, 0, -0.1)` with velocity `(100, 125)`. |
| `Simulation.World.Tick` | src/main.rs:93-121 | The arrays after one frame equal `Drift.Advance` of the arrays before it: every core is stepped, and every edge moves by the last core's displacement (zero if there is none). |
| `Drift.ReflectionRule` | src/main.rs:106-113 | `v.x` is negated when the look-ahead `x + v.x*dt`, plus or minus 250, reaches `width/2`, and is kept otherwise. The same holds for `y` against `height/2`. Both may flip in one tick. |
| `Drift.AxesIndependent` | src/main.rs:108-113 | The new `x` velocity depends only on the `x` position, the `x` velocity and the width. The same holds for `y` with the height. |
| `Drift.SignOnlyChange` | src/main.rs:105-112 | Each velocity component keeps its magnitude: it either keeps its sign or changes it. |
| `Drift.StepUsesReflectedVelocity` | src/main.rs:114-116 | The stored velocity is the reflected one. The core moves by the reflected velocity times `dt`, so on a reflected axis (with `dt != 0`) it does not land on its look-ahead. Rotation and depth are unchanged. |
| `Drift.AxisStep` | src/main.rs:106-115 | Along each axis the core lands at its look-ahead, or, when that reaches an edge, at the mirror step back from its current position. |
| `Drift.RigidTranslation` | src/main.rs:114-120 | Every edge moves by exactly the vector the last core moves by. That vector has depth 0. Edge rotations and colliders are untouched. |
| `Drift.NoCoreNoDrift` | src/main.rs:103-120 | With no core entity the state is unchanged: the edges do not move. |
| `Drift.ZeroMotion` | src/main.rs:106-120 | When `dt = 0`, or when every core is at rest, no core or edge transform changes. |
| `Drift.RunAtRest` | src/main.rs:104-120 | Cores at rest leave the whole state unchanged over any number of frames. |
| `Drift.RunKeepsSpeeds` | src/main.rs:105-116 | Over any number of frames, every core keeps the magnitude of each velocity component. |
| `Drift.RunKeepsRingRigid` | src/main.rs:114-120 | Over any number of frames, each edge keeps its offset from the last core, its rotation and its collider. |
| `Drift.StepKeepsArenaInWindow` | src/main.rs:106-115 | Take a disc strictly inside the window whose step is shorter than its room on each axis. After one tick it is still inside. |
| `Drift.StepKeepsSlowEnough` | src/main.rs:105-116 | A tick does not change the size of any core's step in a later frame. |
| `Drift.RunKeepsArenaInWindow` | src/main.rs:104-116 | In a window of fixed size, under the same step bound, the disc stays inside for any number of frames. |
| `Simulation.FirstTick` | src/main.rs:104-120 | From startup, one 1-second frame in an 800x600 window flips `vy` only. The core moves to `(100, -125, -0.1)` and all 64 edges move by `(100, -125, 0)`. |
| `Simulation.WallStaysAroundCore` | src/main.rs:45-120 | After any frames from startup, every edge keeps its spawned offset from the core marker, its rotation and its collider. |

## Left out

- App bootstrap, plugin registration, system scheduling and the clear colour are engine wiring.
- The camera, meshes, materials and colour constants are rendering only.
- The dynamic ball (its collider, restitution and spawn position) is not modelled. The physics engine simulates it, and the arena logic never reads or writes it.
- Registering each segment as a fixed Rapier body with the `BigBall` tag and an identity global transform is not modelled. A segment keeps only its transform and collider half-extents.
- The elapsed time and the window size, which the engine supplies as resources and queries, become the parameters `dt`, `width` and `height`.
- Single-precision floating point is modelled as exact `real` arithmetic, so rounding is not captured.
- Sine, cosine and pi are parameters with no fixed meaning. The claim that adjacent faces meet without gaps rests on trigonometric identities and is not proved.
- A segment's rotation is a single angle about z, and `rotate_z` adds to it. The quaternion representation, and the fact that angles are equal modulo a full turn, are not modelled.
- The engine visits query results in an unspecified order. The model visits cores in array order, so with several cores the edges follow the last one in that order.
- Invalid radius or face count is not rejected, because the code hard-codes both and checks neither.
