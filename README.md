# ecosim simulation core in Dafny

This project models the tick logic of **ecosim**, a 2D artificial-life
simulation. It has three parts.

- **The world** (`ecosim/src/world.ts`). It holds the creatures, the foods, a uniform grid of
  50-unit cells, a timer-driven food spawner capped at 5000 foods, transient effects and a
  population history of 3000 samples. Its `update` does the following, in order:
  - empties the grid;
  - updates every creature from the highest index down, splicing out dead ones and inserting
    live ones into their cell;
  - spawns food;
  - ages the effects;
  - records the population.
- **A creature** (`ecosim/src/creature.ts`). In one update it does the following, in order:
  - finds the nearest food by squared distance;
  - steers toward it;
  - eats it within distance 5, gaining 50 energy, and removes it from the shared food array;
  - splits above 150 energy into two halves;
  - moves by `v*dt`, bounces off the walls and drains `5*dt` energy.
- **The simulation controller** (`ecosim/src/simulationController.ts`). It holds the play/pause
  switch and the speed multiplier.

Each part has two layers:

- **Pure specification functions.** They work on values:
  - `Creatures.Step` for one creature update;
  - `Worlds.Sweep` for the whole creature pass;
  - `Worlds.Survivors` and `Worlds.Bucket` for the creature array and the grid after the pass;
  - `Worlds.Spawns`, `Worlds.Remainder`, `Worlds.Added` and `Worlds.Spawned` for the spawner;
  - `Worlds.Aged` for the effects;
  - `Worlds.Push` for the history;
  - `Control.Toggled` and `Control.Retimed` for the controller.

  The lemmas prove their properties.
- **Classes that mutate state in place.** These are `Creatures.Creature`, `Worlds.World` and
  `Control.SimulationController`. Each method is proved against the specification functions. The
  grid is an `array2` of creature sequences. The creature, food, effect and history arrays are
  `seq` fields that the methods reassign.

Randomness and the square-root normalisation are parameters:

- `Steer` maps the offset to a food to the velocity toward it.
- `Draw` holds the four random numbers a newborn creature consumes.
- `draws(j)` is the `Draw` used by the creature at index `j` during a pass.
- `spots(j)` gives the random fractions for the `j`-th food spawned.

Numbers are modelled as mathematical reals.

In several places one might expect different behaviour from a simulation like this one. The model
follows the code:

- **Death.** One might expect a creature to die when its energy runs out. In the code the line that
  sets `dead` is commented out (`creature.ts:81`), so no creature is ever removed.
- **Zero-length direction.** One might expect a guard for a creature standing exactly on a food.
  The code divides by `len` unguarded.
- **Removal.** Removal uses an order-preserving `splice`, not a swap with the last element.
- **Negative `dt`.** The code uses `dt` as given and does not clamp a negative value to zero.
- **Grid extent.** One might expect only creatures inside `[0, width) × [0, height)` to be
  indexed. The grid has `ceil(extent/50)` cells per axis, so it reaches past the world's edge when
  the size is not a multiple of 50. A creature that moved past the edge but not past the grid's far
  edge is still inserted into the last cell (`PastEdgeInLastColumn`).

## Model

| member | source | states |
|---|---|---|
| Seqs.RemoveAt | ecosim/src/creature.ts:59 | `splice(k, 1)`: the length drops by one. The elements before `k` stay at their indices and those after move down one. |
| Seqs.RemoveAtIsSubseq | ecosim/src/creature.ts:59 | Removing one food leaves the others in their original relative order. |
| Foods.SqDist | ecosim/src/creature.ts:37-39 | The squared distance the nearest-food scan compares is never negative. |
| Creatures.InitialVelocity | ecosim/src/creature.ts:16-17 | `(r - 0.5) * 2` lies in `[-1, 1)` for a random number in `[0, 1)`. |
| Creatures.Newborn | ecosim/src/creature.ts:13-17 | Definition: a new creature's state, at the given position with velocity `(r-0.5)*2` per axis, energy 100 and alive. |
| Creatures.NearestIn | ecosim/src/creature.ts:36-44 | Definition of the scan over the first `n` foods: a later food replaces the best so far only when strictly closer. Its contract bounds the index it holds by `n`. Its meaning is proved in `NearestInIsFirstNearest`. |
| Creatures.Heading | ecosim/src/creature.ts:47-54 | Definition: the velocity toward the nearest food, via `Steer`, or the old velocity when there is no food. `NoFoodKeepsHeading` proves the no-food case. |
| Creatures.Fed | ecosim/src/creature.ts:55-57 | Definition: the energy after the eat test, 50 more when the nearest food is within the eat radius. `StepEats` proves it. |
| Creatures.Leftover | ecosim/src/creature.ts:55-60 | Definition: the food array after the eat test, without the eaten food. `StepEats` proves it. |
| Creatures.Kept | ecosim/src/creature.ts:63-64 | Definition: the energy after the split test, halved above 150. `StepSplits` proves it. |
| Creatures.Offspring | ecosim/src/creature.ts:63-68 | Definition: the child born above 150, placed at `parent + random*10 - 5` and holding half the energy. `StepSplits` proves it. |
| Creatures.Integrate | ecosim/src/creature.ts:72-73 | Definition: the explicit Euler step `p + v*dt`. `StepMoves` proves it. |
| Creatures.Bounce | ecosim/src/creature.ts:76-77 | Definition: the velocity negated when the coordinate is outside `[0, bound]`. `StepBounces` proves it. |
| Creatures.Moved | ecosim/src/creature.ts:71-80 | Definition: the state after moving, bouncing and draining `5*dt`. `StepMoves`, `StepBounces` and `StepDrains` prove it. |
| Creatures.Step | ecosim/src/creature.ts:31-88 | Definition: one `update` call on a creature's state. It gives the new state, the food array after it and the child, if any. The `Step*` lemmas prove its properties, and `Creature.Update` is proved equal to it. |
| Creatures.Nearest | ecosim/src/creature.ts:33-44 | The chosen index, if any, is a valid food index. |
| Creatures.NearestInIsFirstNearest | ecosim/src/creature.ts:36-44 | After scanning a prefix of the foods, the scan holds the first food of minimal squared distance in that prefix. It holds nothing only when the prefix is empty. |
| Creatures.NearestIsFirstNearest | ecosim/src/creature.ts:33-44 | The nearest food is the first one at minimal squared distance. There is none exactly when the food array is empty. |
| Creatures.FirstNearestUnique | ecosim/src/creature.ts:40-43 | The strict `<` tie-break means only one index can be the first minimum. |
| Creatures.NearestIsFirstOccurrence | ecosim/src/creature.ts:59 | No earlier food equals the chosen one, so `indexOf(closest)` removes exactly the food the scan chose. |
| Creatures.Eaten | ecosim/src/creature.ts:55-59 | The eaten index, if any, is a valid food index. |
| Creatures.NoFoodKeepsHeading | ecosim/src/creature.ts:47-61 | With no food the velocity is unchanged and nothing is eaten. |
| Creatures.StepEats | ecosim/src/creature.ts:55-60 | The creature eats exactly when its nearest food is within the eat radius. It then gains exactly 50 energy and exactly that food leaves the array, one shorter. Otherwise energy and array are unchanged. Either way the remaining foods keep their order. |
| Creatures.StepSplits | ecosim/src/creature.ts:63-68 | A child is born exactly when the energy after eating exceeds 150. Parent and child each get half, so together they hold all of it. The child is alive and within ±5 of the parent's pre-move position. |
| Creatures.StepMoves | ecosim/src/creature.ts:72-73 | The position advances by the new velocity times `dt`, unclamped. |
| Creatures.StepBounces | ecosim/src/creature.ts:76-77 | A velocity component is negated exactly when the new coordinate lies outside `[0, width]` or `[0, height]`. |
| Creatures.StepDrains | ecosim/src/creature.ts:79-81 | Energy ends at the post-split energy minus `5*dt`. The update never sets the death flag. |
| Creatures.EatSplitDrainExample | ecosim/src/creature.ts:55-80 | A concrete case: energy 140 next to a food eats (190), splits (95 each) and drains to 90. The food is gone. |
| Creatures.Creature.constructor | ecosim/src/creature.ts:13-17 | A new creature is at the given position with velocity `(r-0.5)*2` per axis, energy 100, and is alive. |
| Creatures.Creature.FindNearest | ecosim/src/creature.ts:33-44 | The scan loop returns the first food of minimal squared distance, and none exactly for an empty array. |
| Creatures.Creature.Seek | ecosim/src/creature.ts:46-61 | The velocity becomes the heading toward the nearest food. Energy and food array become the post-eating ones. |
| Creatures.Creature.Reproduce | ecosim/src/creature.ts:63-68 | Energy is halved above 150 and a fresh child holding the other half is returned. Otherwise there is no child. |
| Creatures.Creature.Travel | ecosim/src/creature.ts:71-80 | The creature's new state is the moved, bounced and drained state. |
| Creatures.Creature.Update | ecosim/src/creature.ts:31-88 | The new state, remaining foods and child (a fresh object, or none) are exactly those of `Step` on the old state. |
| Worlds.Ceil | ecosim/src/world.ts:32-33 | Definition: `Math.ceil`. `CeilBounds` proves it. |
| Worlds.CellCount | ecosim/src/world.ts:32-33 | Definition: the number of columns or rows, `ceil(extent/50)`. `CellsCoverExtent` proves it. |
| Worlds.Clamp | ecosim/src/world.ts:34-35 | Definition: the length of an array built by `Array.from` from a possibly negative count, which gives no elements. |
| Worlds.CellIndex | ecosim/src/world.ts:118-119 | Definition: `Math.floor(v/50)`. `CellsCoverExtent` proves it. |
| Worlds.Cell | ecosim/src/world.ts:118-119 | Definition: the cell of a creature state, one index per axis. |
| Worlds.Sweep | ecosim/src/world.ts:177-188 | Definition: the creature pass over the first `i` creatures, highest index first, each updated by `Step` against the food left by those before it. `SweepFacts` proves its properties, and `UpdateCreatures` is proved against it. |
| Worlds.Turn | ecosim/src/world.ts:178-180 | Definition: one turn of `Sweep`, where creature `i-1` updates and its child comes before those of the creatures below it. Its contract keeps the number of states. |
| Worlds.Survivors | ecosim/src/world.ts:181-183 | Definition: the creatures left after splicing out every dead one. `SurvivorsAreLive` proves it. |
| Worlds.Bucket | ecosim/src/world.ts:184-186 | Definition: the creatures the pass inserts into one cell, in insertion order. `BucketContents` proves it. |
| Worlds.Rounds | ecosim/src/world.ts:192-193 | Definition: the closed form `floor(t/I)` of the number of spawn rounds, 0 for negative `t`. |
| Worlds.Spawns | ecosim/src/world.ts:192-194 | Definition: how often the spawn loop runs on an accumulator holding `t`, by repeated subtraction. `SpawnsCount` proves it equal to `Rounds`. |
| Worlds.Remainder | ecosim/src/world.ts:191-194 | Definition: what the spawn loop leaves in the accumulator. `SpawnsCount` and `TimerBounds` prove its value and bounds. |
| Worlds.Added | ecosim/src/world.ts:196-203 | Definition: the number of foods `k` rounds add to an array of `n`, which is `min(k, 5000 - n)` and never negative. `AddedNext` and `AddedRespectsCap` prove it. |
| Worlds.Opacity | ecosim/src/world.ts:136 | Definition: `Math.max(lifetime/0.3, 0)`. `OpacityRange` proves it. |
| Worlds.Fade | ecosim/src/world.ts:135-136 | Definition: an effect with `dt` taken off its lifetime and its opacity recomputed. |
| Worlds.Faded | ecosim/src/world.ts:133-136 | Every effect faded and none removed. Its contract keeps the length. |
| Worlds.Aged | ecosim/src/world.ts:133-140 | Definition: the effects after one tick, each faded and those whose lifetime ran out removed. `AgedKeepsLive` proves it. |
| Worlds.Push | ecosim/src/world.ts:146-149 | Definition: append a sample, then drop the oldest when over 3000. `PushKeepsNewest` proves it. |
| Worlds.Newest | ecosim/src/world.ts:146-149 | The last `k` samples. Its contract bounds the length by `k`. |
| Worlds.PushAll | ecosim/src/world.ts:146-149 | Definition: one push per tick over a sequence of samples. `PushAllKeepsNewest` proves it. |
| Worlds.CeilBounds | ecosim/src/world.ts:32-33 | `Math.ceil` as modelled is the least integer not below its argument. |
| Worlds.CellsCoverExtent | ecosim/src/world.ts:117-123 | Every coordinate in `[0, extent)` falls in one of the `ceil(extent/50)` cells. A negative coordinate, or one past the last cell, falls in none. |
| Worlds.FarEdgeOutsideGrid | ecosim/src/world.ts:118-120 | On a 1200-wide world a creature at exactly `x = 1200` is in column 24 of 24, so it is not inserted. |
| Worlds.PastEdgeInLastColumn | ecosim/src/world.ts:118-121 | On a 1210-wide world there are 25 columns, so a creature that moved past the edge to `x = 1220` is in column 24 and is inserted. |
| Worlds.World.constructor | ecosim/src/world.ts:29-78 | Sets the world's size and a grid of `ceil(w/50)` × `ceil(h/50)` empty cells. Adds 50 fresh creatures at random positions and 200 foods at random positions. The timer starts at 0 and the interval at 0.1. Effects and history are empty. |
| Worlds.World.ClearGrid | ecosim/src/world.ts:109-115 | Every cell is empty afterwards. |
| Worlds.World.InsertToGrid | ecosim/src/world.ts:117-123 | The creature is appended to the cell of `floor(x/50), floor(y/50)` when that cell exists. No other cell changes. |
| Worlds.SweepFacts | ecosim/src/world.ts:177-188 | Over the first `i` creatures the pass leaves all later creatures alone and never sets or clears a death flag. It removes at most one food per creature and keeps the rest in order. It produces at most one child per creature, all alive. |
| Worlds.HighestIndexEatsFirst | ecosim/src/world.ts:178-180 | Two creatures compete for one food: the higher index updates first and eats it, and the other finds no food. |
| Worlds.SurvivorsAreLive | ecosim/src/world.ts:181-186 | A creature survives the pass exactly when its final state is not dead. Survivors keep their relative order. |
| Worlds.NoDeadNoneRemoved | ecosim/src/world.ts:181-186 | With no dead state, the pass splices nothing out. |
| Worlds.PassRemovesNone | ecosim/src/world.ts:177-188 | Starting from live creatures, the pass keeps every original creature in place, and the bucket of each one's final cell lists it. A creature that ended inside the world is in a cell of the grid. Positions are never clamped. A creature at a negative coordinate, or at or beyond `CellCount*50`, is in no grid cell. One between the world's edge and the grid's far edge is still inserted. |
| Worlds.BucketContents | ecosim/src/world.ts:184-186 | A cell receives exactly the live creatures positioned in it, in descending index order. |
| Worlds.SurvivorsThenKids | ecosim/src/world.ts:177-188 | Survivors followed by fresh children contain no creature twice. |
| Worlds.World.Visit | ecosim/src/world.ts:179-186 | One iteration of the pass matches `Step`: the creature's new state, the foods and the appended child. The creature is spliced out if dead, or its cell gains it. |
| Worlds.World.Advance | ecosim/src/world.ts:179-186 | One iteration preserves the pass invariant `Progress`. |
| Worlds.World.Start | ecosim/src/world.ts:178 | The pass invariant holds before the first iteration. |
| Worlds.World.Finish | ecosim/src/world.ts:178-187 | When the loop ends, the pass is complete. The array is the survivors followed by the children. Each cell is its old contents plus the survivors in it. |
| Worlds.World.Run | ecosim/src/world.ts:178-187 | The pass loop establishes everything `Finish` states, for the specified `Sweep`. |
| Worlds.World.UpdateCreatures | ecosim/src/world.ts:177-188 | The original creatures hold the `Sweep` states and the foods are the pass's foods. The array is the survivors in order followed by one fresh creature per child. Each cell gains the survivors in it. No creature is listed twice. |
| Worlds.World.Rebuild | ecosim/src/world.ts:126-127 | After clearing the grid and running the pass, every cell holds exactly the survivors positioned in it. |
| Worlds.World.Update | ecosim/src/world.ts:125-149 | One world tick does three things. First, the creature pass with its grid, as for `Rebuild`. Second, food spawned after the pass's leftovers, capped at 5000, with the timer left at the spawner's remainder. Third, the effects aged and the population count pushed onto the bounded history. |
| Worlds.World.Housekeep | ecosim/src/world.ts:129-149 | Spawns food, ages the effects and records the population, as for `SpawnFood`, `AgeEffects` and `RecordPopulation`. |
| Worlds.World.SpawnFood | ecosim/src/world.ts:190-205 | The timer ends at the spawner's remainder. The foods gain `Added(Spawns(t), n)` foods at the next random spots. |
| Worlds.Spawned | ecosim/src/world.ts:196-203 | Spawning `m` foods yields `m` foods. |
| Worlds.SpawnedNext | ecosim/src/world.ts:197-202 | Each spawned food lands after those spawned before it. |
| Worlds.RoundsShift | ecosim/src/world.ts:192-193 | Subtracting one interval removes exactly one whole interval from the accumulator. |
| Worlds.RoundsLeaveRemainder | ecosim/src/world.ts:192-193 | `t - floor(t/I)*I` lies in `[0, I)` for `t >= 0`. There are no rounds when `t < I`. |
| Worlds.SpawnsCount | ecosim/src/world.ts:191-194 | The subtraction loop runs `floor(t/I)` times (none for negative `t`) and leaves `t - k*I`. |
| Worlds.TimerBounds | ecosim/src/world.ts:191-194 | After the loop the accumulator is below one interval, and not negative when it started non-negative. |
| Worlds.AddedNext | ecosim/src/world.ts:196-203 | One more round adds a food exactly when the array is below 5000. |
| Worlds.AddedRespectsCap | ecosim/src/world.ts:196-203 | The spawner never grows the array past 5000 (or past its size when already over). Below the cap it adds one food per round, and at or above the cap none. |
| Worlds.SpawnOutcome | ecosim/src/world.ts:190-205 | One spawner call combines the round count `floor(t/I)`, the remainder in `[0, I)` and the cap. |
| Worlds.OpacityRange | ecosim/src/world.ts:136 | `max(lifetime/0.3, 0)` is non-negative, zero exactly when the lifetime has run out, and at most 1 in the last 0.3 s. |
| Worlds.AgedKeepsLive | ecosim/src/world.ts:133-140 | Ageing fades every effect by `dt` and keeps, in order, exactly those with a positive remaining lifetime, with the same number of copies of each. Each kept effect has the opacity of its new lifetime. |
| Worlds.AgedExample | ecosim/src/world.ts:133-140 | A concrete case: the effect with more than `dt` left survives with its opacity recomputed, and the other is removed. |
| Worlds.World.AgeEffects | ecosim/src/world.ts:131-141 | The reverse loop with `splice` leaves exactly `Aged` of the old effects. |
| Worlds.PushKeepsNewest | ecosim/src/world.ts:146-149 | One push keeps the newest 3000 samples, ends with the new sample, and on overflow evicts exactly the oldest. |
| Worlds.PushAllKeepsNewest | ecosim/src/world.ts:146-149 | Over any number of ticks the history is the newest 3000 of all samples recorded, first in, first out. |
| Worlds.World.RecordPopulation | ecosim/src/world.ts:146-149 | The history becomes the newest 3000 of the old history plus the current creature count, which is its last entry. The bound is kept. |
| Control.Toggled | ecosim/src/simulationController.ts:6-8 | Toggling flips the running flag and keeps the speed. |
| Control.Retimed | ecosim/src/simulationController.ts:10-12 | Setting the speed sets exactly the speed and keeps the running flag. |
| Control.ToggleTwice | ecosim/src/simulationController.ts:6-8 | Two toggles restore the settings, and one always changes them. |
| Control.RetimeTwice | ecosim/src/simulationController.ts:10-12 | Only the last speed set counts, and setting the current speed changes nothing. |
| Control.SimulationController.constructor | ecosim/src/simulationController.ts:3-4 | A new controller is running at speed 1. |
| Control.SimulationController.TogglePause | ecosim/src/simulationController.ts:6-8 | The settings become `Toggled` of the old ones. |
| Control.SimulationController.SetSpeed | ecosim/src/simulationController.ts:10-12 | The settings become `Retimed` of the old ones with the new multiplier. |
| Control.SimulationController.IsRunning | ecosim/src/simulationController.ts:14-16 | Returns the running flag and changes nothing. |
| Control.SimulationController.GetSpeed | ecosim/src/simulationController.ts:18-20 | Returns the speed multiplier and changes nothing. |

## Left out

- **Rendering.** Sprites, particle containers, tints, `consume` and `removeParticle`, the population text and the population graph (`world.ts:38-47`, `59-67`, `80-94`, `143`, `151-174`; `creature.ts:19-28`, `82-87`) have no effect on the simulation state.
- **The food-interval slider** (`world.ts:96-106`) is DOM wiring. Its effect is that `foodSpawnInterval` is a field any value can be written to, which the model keeps as a plain field.
- **`index.ts`.** The animation loop and the buttons are not part of this model, including how `speed` scales `dt` and how a paused controller skips the tick.
- **`Math.random`.** Random values are parameters: `Draw`, `draws` and `spots`. The sprite's random tint is not modelled.
- **Direction normalisation.** `(dx/len)*50` with `len = sqrt(dx*dx + dy*dy)` is the parameter `Steer`. The model therefore says nothing about NaN velocities when a creature stands exactly on a food (`len = 0`).
- **Floating point.** Numbers are reals, so there is no rounding, overflow, NaN or infinity.
- **The death flag.** `dead` is not a declared field of the source creature. It reads as `undefined`, and the line that would set it is commented out. The model keeps a `dead` flag that the pass honours and that no operation sets, so every creature starts live. `PassRemovesNone` shows the pass then removes nobody.
- **Effects are never created.** Nothing in the modelled code adds an effect. The model ages whatever the array holds, with `alpha` standing for the sprite's opacity. The `if (this.effects)` guard is always true for an array and is not modelled.
- Worlds.World.Update, Worlds.World.Housekeep, Worlds.World.SpawnFood: require `foodSpawnInterval > 0`, because for a zero or negative interval the source's spawn loop never ends once the timer reaches the interval.
- **The creature's `world` parameter.** `Creature.update` pushes its child onto `world.creatures`. The model returns the child and the world appends it at the same point in the pass, which gives the same resulting order.
- **Grid queries.** No part of the core reads the grid. The model maintains its contents but models no neighbour query.
