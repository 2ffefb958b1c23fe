# Ideal gas in a box: a Dafny model

The simulation keeps noble-gas particles in a rectangular enclosure. The
enclosure is 2500 wide, and its height can change. Each particle has a
species, a display colour, a temperature, a position and a velocity.

The enclosure (`SystemState`) does four things:
- it holds the ambient temperature, the height, the list of particles and a
  counter of wall collisions;
- it adds particles at the ambient temperature;
- it rescales every particle to a new temperature, moving each velocity
  linearly by the ratio of the new to the old temperature;
- it advances every particle by one time step, and puts particles above a
  lowered ceiling on the ceiling.

A particle step (`update_position`) commits a free step when it lands
inside the box. Otherwise the bounce step (`handle_collusion`, spelled
this way in the source) takes over:
- it computes one candidate time per wall, `|dt - (boundary - coordinate) / v|`;
- it moves the particle to the smallest one, taking the first index on a tie;
- it reverses `vx` for index 0 or 1 (the side walls) and `vy` otherwise;
- it counts one collision;
- it steps again with the time that is left.

The project has three modules:

- `Species` (`species.dfy`): the four species and the colour table.
- `Kinematics` (`kinematics.dfy`): pure functions on a `Motion` value
  (position and velocity). They cover the free step, the candidate times,
  their minimum and its first index, the wall it picks, the reflection, and
  the whole bounce chain of one update, `Advance`/`Bounce`. The chain is
  bounded by a fuel count. Lemmas prove containment, the bounce count, fuel
  independence, velocity parity and the rescaling laws.
- `System` (`system.dfy`): the classes `Particle` and `SystemState`. Their
  fields are updated in place by methods with `modifies` clauses. These
  methods are proved against the `Kinematics` functions:
  `Particle.UpdateTemperature`, `Particle.UpdatePosition`,
  `Particle.HandleCollision`, and the three loops of `SystemState`
  (`UpdateTemperatures`, `UpdatePositions`, `UpdateHeight`).
  - `Particle.UpdatePosition` and `Particle.HandleCollision` recurse into
    each other as the source does. `HandleCollision` bumps the enclosure's
    counter through `SystemState.IncrementCollisions`, once per bounce.
  - The loops of `SystemState` carry the invariants that tie every particle
    to its `Advance`, `Rescaled` or `ClampedToHeight` image.

The candidate-time formula is `|dt - (2500 - x) / vx|` (system.py:49), not
the time to reach the wall, and the model keeps it. Take a particle at
(2499, 1000) moving right at 200 and step it by 1:
- the right-wall candidate is 0.995, not the free-flight time 0.005;
- the particle is carried past the wall and bounces twice on the right
  wall;
- `vx` ends at +200.

`OvershootScenario` proves this outcome. It uses `vy` = 1, because the
bounce step divides by `vy`.

## Model

| member | source | states |
|---|---|---|
| `Species.ColorOf` | system.py:12-17 | helium is red, neon green, argon blue, krypton purple, each as an if-and-only-if |
| `Species.ColorIdentifiesSpecies` | system.py:12-17 | the colour table is injective: two species share a colour exactly when they are the same species |
| `Kinematics.InBounds` | system.py:41 | defined by its body, the negation of the out-of-bounds test; used by `AdvanceContained` and `Particle.UpdatePosition` |
| `Kinematics.Moved` | system.py:38-39 | defined by its body, a free flight of time t; specified through `Particle.UpdatePosition`, whose in-bounds commit equals it |
| `Kinematics.CandidateTimes` | system.py:48-53 | exactly four candidates, one per wall in the source's order; defined by its body and specified by `CandidateTimesNonNegative` and `CollisionChoice` |
| `Kinematics.CandidateTimesNonNegative` | system.py:48-53 | each of the four candidate collision times is at least 0 |
| `Kinematics.Minimum` | system.py:54 | defined by its body; specified by `MinimumIsLeast` |
| `Kinematics.MinimumIsLeast` | system.py:54 | `min` of a non-empty list is one of its elements and at most every element |
| `Kinematics.FirstIndex` | system.py:59 | `list.index` returns a position inside the list that holds the value searched for |
| `Kinematics.FirstIndexIsFirst` | system.py:59 | no earlier position holds the value `list.index` found |
| `Kinematics.FirstMinimumIndex` | system.py:54-59 | the first index of the minimum holds a least element, and every earlier element is strictly larger, which is the tie-break |
| `Kinematics.WallAt` | system.py:59-62 | index 0 or 1 selects a side wall and index 2 or 3 the top or bottom, as an if-and-only-if |
| `Kinematics.CollisionTime` | system.py:54 | defined by its body, the minimum of the candidates; specified by `CollisionChoice` |
| `Kinematics.HitWall` | system.py:59-62 | defined by its body, the wall at the first index of the minimum; specified by `CollisionChoice` |
| `Kinematics.CollisionChoice` | system.py:48-62 | the collision time is non-negative, at most every candidate, and equals the candidate at some index i; the wall hit is the one at i, and every candidate before i is strictly larger |
| `Kinematics.Reflected` | system.py:59-62 | the position is kept; a side wall negates `vx` and keeps `vy`; the top or bottom negates `vy` and keeps `vx` |
| `Kinematics.AfterBounce` | system.py:47-63 | after a bounce both velocity components are still non-zero, so the next step's divisions stay defined |
| `Kinematics.Bounce` | system.py:47-65 | defined by its body, one bounce and then `Advance` with the time left; specified by `BounceVelocity` and `Particle.HandleCollision` |
| `Kinematics.Advance` | system.py:34-45 | defined by its body, a free step or a bounce chain of at most fuel bounces; specified by `AdvanceContained`, `AdvanceBounceCount`, `AdvanceFuelIrrelevant` and `AdvanceVelocity` |
| `Kinematics.AdvanceContained` | system.py:34-65 | a position update that reaches its in-bounds branch leaves the particle inside [0, 2500] x [0, height] |
| `Kinematics.AdvanceBounceCount` | system.py:41-65 | an update bounces at most fuel times, and it is left unfinished only after using all of them |
| `Kinematics.AdvanceFuelIrrelevant` | system.py:34-65 | a finished update has the same outcome under any larger fuel bound |
| `Kinematics.AdvanceVelocity` | system.py:34-65 | after an update, `vx` is the old `vx` reversed once per side-wall bounce, and `vy` the old `vy` reversed once per top or bottom bounce |
| `Kinematics.BounceVelocity` | system.py:47-65 | the same parity law for a chain that starts with a bounce |
| `Kinematics.PrependWall` | system.py:59-62 | one more side-wall bounce adds one reversal of `vx`, and one more top or bottom bounce adds one reversal of `vy` |
| `Kinematics.Rescaled` | system.py:28-32 | rescaling keeps the position, and the squared speed scales by the square of the ratio |
| `Kinematics.RescaledCompose` | system.py:28-32 | a temperature change from t0 to t1 followed by t1 to t2 scales the velocity as t0 to t2 does |
| `Kinematics.RescaledRoundTrip` | system.py:28-32 | changing the temperature and changing it back restores the velocity exactly |
| `Kinematics.ClampedToHeight` | system.py:104-106 | the result is at most the height; a particle above it lands on it with `vy` negated; any other particle is unchanged; x and `vx` are always kept |
| `Kinematics.HalfStepScenario` | system.py:34-65 | a particle 100 from the right wall, moving right at 200 and stepped by 1, reflects once and ends at x = 2400 with `vx` = -200 |
| `Kinematics.OvershootScenario` | system.py:47-65 | a particle 1 from the right wall bounces twice on the right wall within one step and ends at x = 2305 with `vx` = +200 |
| `System.Particle.constructor` | system.py:19-26 | species, ambient temperature and owning enclosure as given; the colour is the species' table colour; the given position lies in the box |
| `System.Particle.UpdateTemperature` | system.py:28-32 | the temperature becomes t and the velocity is the old one rescaled by t / old temperature, with the position unchanged |
| `System.Particle.UpdatePosition` | system.py:34-45 | the new state and the collision count equal `Advance` of the old state; an in-bounds free step is committed exactly, with velocity and counter unchanged; a finished update ends inside the box |
| `System.Particle.HandleCollision` | system.py:47-65 | the new state equals `Bounce` from (x, y) with the current velocity; the counter rises by that chain's bounce count, so by at least 1 |
| `System.ParticleBouncesBound` | system.py:94-96 | one update of n particles counts at most n * fuel collisions |
| `System.SystemState.constructor` | system.py:79-84 | temperature 300, height 2500, no particles, counter 0 |
| `System.SystemState.AddParticle` | system.py:86-87 | exactly one fresh particle is appended, with the given species, its colour, the ambient temperature and the given position and velocity; earlier particles and the counter are unchanged |
| `System.SystemState.UpdateTemperatures` | system.py:89-92 | the ambient temperature becomes t; every particle is at t, its velocity rescaled by t / its old temperature; positions, height, the list and the counter are unchanged |
| `System.SystemState.UpdatePositions` | system.py:94-96 | every particle's state is `Advance` of its old state; the counter rises by the total number of bounces; the list, temperatures and height are unchanged; finished particles are inside the box |
| `System.SystemState.IncrementCollisions` | system.py:98-99 | the counter rises by exactly 1 |
| `System.SystemState.UpdateHeight` | system.py:101-106 | the height becomes h; every particle is its `ClampedToHeight` image and lies at or below h; temperatures, the list and the counter are unchanged |

## Left out

- Random sampling (`generate_velocity`, `generate_position`) and the
  masses table it alone uses. The drawn position and velocity are the
  parameters `x`, `y`, `vx` and `vy` of `Particle.constructor` and
  `SystemState.AddParticle`. The draws of speed and angle behind `vx` and
  `vy` are not modelled. The model keeps only the position draw's range
  [0, 2500) x [0, height).
- The visualisation module (figure, sliders, animation loop). It only calls
  the enclosure's methods.
- Floating-point rounding. All quantities are `real`.
- Division by a zero velocity. In the source, `vx` and `vy` are one-element
  numpy arrays, so this division does not raise an error. It yields an
  infinity, or NaN for 0/0.
  - An angle draw of 0 gives exactly `vy` = 0 (system.py:70-73), about 1 in
    360 sampled particles. No other angle draw gives an exact zero: cos 90
    and sin 180 come out near 1e-16.
  - For such a particle with 0 < y < height, both vertical candidates are
    +inf and never the minimum. The source then bounces it off the side
    walls only. At y = 0 or y = height, one candidate is 0/0, which is NaN.
  - The model requires both velocity components to be non-zero whenever a
    step leaves the box (`Kinematics.Defined`). `UpdatePositions` therefore
    does not cover a step in which a particle with a zero component would
    reach a wall. A zero-component particle whose step stays inside the box
    is covered.
- Termination of the bounce chain. The source places no bound of its own on
  the chain, and the time left after a bounce can even be negative.
  - Each bounce costs two Python stack frames (system.py:42, :65). After
    roughly 500 bounces, Python's default recursion limit of 1000 raises
    `RecursionError`.
  - The exception leaves the particle at or after its last bounce point.
    The counter includes every bounce whose `increment_collisions` call
    (system.py:64) ran.
  - Which call reaches the limit decides the rest. If it is the call at
    system.py:64 itself, the last bounce's move and reflection
    (system.py:56-62) stay in place, but that bounce is not counted.
- System.Particle.UpdatePosition: it performs at most fuel bounces per call,
  and its `finished` result reports whether the chain reached an in-bounds
  step.
  - `Kinematics.AdvanceFuelIrrelevant` shows that a finished chain is the
    same under any larger bound.
  - An unfinished chain stops at its last state and returns normally. In the
    source, such a chain either goes on bouncing or ends in
    `RecursionError`.
- System.Particle.HandleCollision: it takes the new position and velocity
  from `Kinematics.AfterBounce` rather than computing the four times, their
  minimum and its index in its own body. That arithmetic is stated and
  proved on the pure function (`CollisionChoice`, `Reflected`).
- System.SystemState.UpdatePositions: it proves containment only for
  particles whose chain finished within the fuel bound.
- System.SystemState.UpdatePositions: it does not model the error path of a
  chain that exceeds the recursion limit.
  - In the source, the `RecursionError` aborts the loop at system.py:95-96,
    so the particles after it in the list are not advanced in that step.
  - In the model, an unfinished particle returns `finished = false`, and the
    loop goes on to advance the remaining particles.
