# Two-block elastic collision demo: the physics of one frame

This project models the physics core of `pixi-collision`, a browser demo in which two
square blocks slide along one horizontal line, bounce off the screen edges and collide
elastically. The model covers what the ticker callback does to the four numbers the demo
updates: the two left-edge positions and the two velocities. It also covers the play/pause
flag that decides whether a callback steps the physics at all.

- `Aabb` (`aabb.dfy`): the x-axis bounding-box overlap test `testAABB`.
- `Elastic` (`elastic.dfy`): the collision response. Both velocities are replaced at once by
  the one-dimensional elastic-collision formula. Lemmas prove that it conserves momentum and
  kinetic energy, swaps the velocities of equal masses, and is its own inverse. A further
  lemma proves it is the only non-trivial change of velocities that conserves both quantities.
- `Physics` (`physics.dfy`): one frame as a pure function `Step` of the masses, the state,
  the screen width and the time step `delta`. The order is integrate, then collision
  response, then wall reflection. `Tick` is the callback with the play flag; `Run` is a
  sequence of callbacks, each with the flag as it was at that moment. It also holds the
  demo's constants: masses 3 and 7, sides ten times the mass, and initial velocities 15
  and -12.
- `Animation` (`animation.dfy`): the class `Simulation`. It holds the same variables the
  source keeps in its closure. `UpdateAnimation` updates them in place, and its contract
  states that the result equals `Physics.Step` of the old state. `PlayAnimation` and
  `PauseAnimation` set the flag.

Quantities are Dafny `real`s. The step only adds, multiplies and divides by the total mass,
so real arithmetic gives the intended result without floating-point rounding. The masses are
parameters, required to be positive; `Physics.Demo` is the source's instance (3 and 7). The
screen width is an input of every frame, because the source reads `app.screen.width` on every
call and the canvas follows the window size. The time step is an input as well.

The wall test compares the sprite's `x` and `width`. These are the position just integrated
and the side, so the model uses those two directly.

## Model

| member | source | states |
|---|---|---|
| `Aabb.OverlapsSymmetric` | src/main.ts:14-19 | the overlap test gives the same answer with its arguments swapped |
| `Aabb.TouchingDoesNotOverlap` | src/main.ts:14-19 | blocks whose edges only touch (on either side) do not overlap: the test is strict |
| `Aabb.OverlapsIffCommonPoint` | src/main.ts:14-19 | for positive widths, the test holds exactly when some point lies strictly inside both blocks |
| `Elastic.Collide` | src/main.ts:82-86 | the new velocities keep the total momentum, and the relative velocity is reversed |
| `Elastic.CollideConservesEnergy` | src/main.ts:82-83 | the response keeps the total kinetic energy |
| `Elastic.CollideEqualMassesSwap` | src/main.ts:82-83 | with equal masses the two blocks exchange velocities |
| `Elastic.CollideInvolution` | src/main.ts:82-83 | applying the response to its own output gives back the incoming velocities |
| `Elastic.CollideUnique` | src/main.ts:82-83 | for positive masses, any velocity pair with the same momentum and energy is either the incoming pair or the response |
| `Elastic.ApproachingBlocksSeparate` | src/main.ts:82-83 | blocks closing on each other move apart afterwards, at the same relative speed |
| `Elastic.DemoCollision` | src/main.ts:82-83 | masses 3 and 7 with velocities 15 and -12 leave the collision at -22.8 and 4.2 |
| `Physics.Demo` | src/main.ts:24-28 | the demo's masses are valid and give sides of 30 and 70 |
| `Physics.Initial` | src/main.ts:30-34 | A starts at the left edge and B with its right edge on the screen's right edge; the velocities are 15 and -12 |
| `Physics.InitialLayout` | src/main.ts:24-34 | on a screen at least as wide as both sides together, the initial blocks neither overlap nor are out of bounds |
| `Physics.ReflectKeepsSpeed` | src/main.ts:92-100 | wall reflection keeps the speed, and it changes a nonzero velocity exactly when the block is out of bounds |
| `Physics.StepNeverClamps` | src/main.ts:72-100 | each new position is the old position plus velocity times delta; neither the collision nor the walls move a block |
| `Physics.StepFreeFlight` | src/main.ts:72-79 | with no overlap and no wall condition, the frame advances both positions and keeps both velocities |
| `Physics.StepCollisionThenWalls` | src/main.ts:81-100 | on overlap, the response uses the velocities from before the frame, and the wall test then flips the responded velocity of a block that is out |
| `Physics.StepWallWithoutCollision` | src/main.ts:92-100 | with no overlap, each block independently reverses when it is out of bounds and otherwise keeps its velocity |
| `Physics.StepConservesEnergy` | src/main.ts:72-100 | every frame keeps the total kinetic energy, whatever the width and the time step |
| `Physics.StepConservesMomentumAwayFromWalls` | src/main.ts:72-90 | a frame in which no block is out of bounds keeps the total momentum |
| `Physics.TickPausedKeepsState` | src/main.ts:172-178 | a callback while paused leaves positions and velocities unchanged |
| `Physics.RunConservesEnergy` | src/main.ts:172-178 | any sequence of callbacks, each played or paused, keeps the total kinetic energy |
| `Physics.DemoFirstFrame` | src/main.ts:72-79 | from the initial state with delta 1 on a screen at least 127 wide, A is at 15 and B at width - 82, with velocities unchanged |
| `Animation.Simulation.constructor` | src/main.ts:22-34 | the simulation starts playing, in the initial state, with sides ten times the masses |
| `Animation.Simulation.UpdateAnimation` | src/main.ts:72-101 | the in-place update leaves the state equal to the pure frame `Physics.Step` of the old state; the play flag is untouched |
| `Animation.Simulation.Tick` | src/main.ts:172-178 | the callback steps the state only while playing, and the kinetic energy is unchanged |
| `Animation.Simulation.PlayAnimation` | src/main.ts:103-110 | the flag is set; positions and velocities are not touched |
| `Animation.Simulation.PauseAnimation` | src/main.ts:112-118 | the flag is cleared; positions and velocities are not touched |

## Left out

- Rendering and layout: the pixi.js application, sprites, texts, containers, asset loading, `createBlock`, `createText`, `createButton`, `recenter` and the buttons' visibility. These are calls into the rendering library and compute nothing about the physics.
- Velocity labels: the code formats `Math.abs(v).toFixed(3)` after every change. The model does not format strings; the labels show the speed |v| of each block.
- Ticker timing: how `time.deltaTime` is derived is host frame timing, so `delta` is an input. `ticker.start()` and `ticker.stop()` are modelled only through the play flag. A stopped ticker makes no callbacks, and a callback while paused changes nothing, so both give the same physics.
- Floating point: JavaScript numbers are IEEE-754 doubles, and the model computes with exact reals. Rounding, overflow and NaN are not modelled.
- Mass validation: the code never checks its masses, and it uses the constants 3 and 7. The model requires positive masses for every frame instead of rejecting bad ones at run time.
- Apply, reset and parameter input: these commands do not exist in the code, so they are not modelled.
- `vite.config.ts`: build configuration with no logic.
