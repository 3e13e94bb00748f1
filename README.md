# Drone patrol agent (DrAmas) — Dafny model

This project models one drone of the DrAmas multi-agent system. Drones patrol a
grid of areas. Each area has a staleness: the number of ticks since a drone last
saw it. Every cycle a drone goes through three phases:

- **Perceive** (`onPerceive`): copy the areas of the 5 × 5 window around the drone
  into its `view` array. An entry is null where the grid has no cell.
- **Decide** (`onDecide`): scan the view in a fixed order, x from -2 to 2 in the
  outer loop and y from -2 to 2 in the inner loop.
  - A visible cell whose staleness equals the running maximum is appended to the
    26-row tie buffer `matrice`, at row `++tmp`.
  - A visible cell that is strictly staler resets `tmp` to 0, becomes the target
    and raises the maximum.
  - At the end, a random index `rand` in [0, tmp] chooses `matrice[rand]` as the
    target whenever `tmp > 0`.
- **Act** (`onAct` / `moveToward`): move one unit per axis toward the target,
  then mark the area reached as seen (its staleness drops to 0).

Modules:

- `Areas` (areas.dfy): the `Area` value, and `World`, the shared grid. A World
  maps coordinates to staleness. `AreaAt` is the grid lookup; it returns `None`
  off the grid.
- `Movement` (movement.dfy): the movement rule as functions (`Step`, `MoveStep`,
  `Moves`). Lemmas show that repeated moves reach a fixed target after exactly
  the Chebyshev distance.
- `Scan` (scan.dfy): the decision rule as a specification over the window, read
  in scan order as a sequence `w` of 25 optional areas.
  - `MaxStaleness`, `Ties`, `Slots`, `TieCount`, `Leader` and `Decide` describe
    what the scan computes.
  - `Sweep` is the scan as a fold over the cells.
  - `SweepSpec` and `SweepDecides` connect the fold to the rule.
- `Drones` (drone.dfy): the `Drone` class.
  - Its fields are `dx`, `dy`, the `view` array, `targetArea` and `currentArea`.
  - Its methods are `OnPerceive`, `OnDecide`, `OnAct`, `MoveToward` and `OnReady`.
  - Its getters are `GetX`, `GetY` and `GetCurrentArea`.
  - The nested scan loop of `onDecide` is `ScanView` (outer loop), `ScanColumn`
    (inner loop) and `ScanCell` (loop body). Each is proved against `Sweep`.

Two behaviours of the source are kept on purpose:

- Row 0 of `matrice` is never written, so it holds offset (0, 0). When there are
  ties and `rand == 0`, the drone targets its own cell, which need not be among
  the most stale (`Scan.RandZeroPicksOwnCell`).
- The running maximum starts at 0. So when every visible cell has staleness 0,
  all of them are ties, and the first one is not the target unless
  `rand` selects it.

A consequence of the first point: "some cell is visible, so the target exists"
does not hold in general. When the drone's own cell is off the grid, ties with
`rand == 0` target that missing cell (`Scan.RandZeroOwnCellOffGrid`). With the
own cell on the grid, an existing area is decided for every `rand`, which is
what `DecideFindsArea` states.

## Model

| member | source | states |
|---|---|---|
| Movement.Step | src/fr/irit/amak/dramas/Drone.java:256-263 | one axis of a move changes the coordinate by at most 1, never passes the target, leaves it unchanged when already there, and otherwise brings it exactly one unit closer |
| Movement.MoveStep | src/fr/irit/amak/dramas/Drone.java:255-263 | a move changes each coordinate by at most 1 (Chebyshev distance at most 1), is the identity at the target, and otherwise lowers the Chebyshev distance to the target by exactly 1 |
| Movement.MovesDistance | src/fr/irit/amak/dramas/Drone.java:248-263 | after n moves toward a fixed target the Chebyshev distance is the initial distance minus n, or 0 once n reaches it |
| Movement.MovesStayAtTarget | src/fr/irit/amak/dramas/Drone.java:255-263 | a drone already at its target stays there whatever the number of moves |
| Movement.ReachesAfterChebyshev | src/fr/irit/amak/dramas/Drone.java:248-263 | moving one area per cycle, a drone is at its fixed target after exactly Chebyshev(start, target) moves and at no earlier move |
| Areas.World.Seen | src/fr/irit/amak/dramas/Drone.java:265 | marking an area seen sets its staleness to 0; every other area and the set of grid cells are unchanged |
| Scan.MaxStalenessIsMax | src/fr/irit/amak/dramas/Drone.java:147-161 | the final running maximum bounds the staleness of every visible cell; when positive, some visible cell has exactly that staleness |
| Scan.TiesSpec | src/fr/irit/amak/dramas/Drone.java:152-157 | the ties at staleness m are exactly the visible cells of staleness m: each is listed, each once, in increasing scan order |
| Scan.SlotsSpec | src/fr/irit/amak/dramas/Drone.java:153-161 | every position in the filled rows of the tie buffer is a visible cell whose staleness is the final maximum, because a strictly staler cell resets the counter |
| Scan.TieCount | src/fr/irit/amak/dramas/Drone.java:148-156 | the final tie counter never exceeds the window size (25), so every write to the 26-row buffer is in bounds |
| Scan.NothingVisible | src/fr/irit/amak/dramas/Drone.java:147-161 | the scan ends with no ties and maximum 0 exactly when no cell of the window is on the grid |
| Scan.LeaderSpec | src/fr/irit/amak/dramas/Drone.java:158-161 | the last cell to raise a positive maximum is the first visible cell at the final maximum; every earlier visible cell is strictly less stale |
| Scan.ScanSkip | src/fr/irit/amak/dramas/Drone.java:152-163 | an absent cell, or one less stale than the running maximum, leaves the maximum, the tie buffer and the target unchanged |
| Scan.ScanTie | src/fr/irit/amak/dramas/Drone.java:153-157 | a cell exactly as stale as the running maximum is appended to the tie buffer; the maximum and the target are unchanged |
| Scan.ScanLead | src/fr/irit/amak/dramas/Drone.java:158-162 | a cell staler than the running maximum empties the tie buffer, becomes the target and raises the maximum to its staleness |
| Scan.SweepNext | src/fr/irit/amak/dramas/Drone.java:150-152 | visiting offset (x, y) advances the scan by exactly the window cell at that offset, in scan order |
| Scan.SweepSpec | src/fr/irit/amak/dramas/Drone.java:147-166 | the scan loop's state after any prefix of the window matches the rule: the maximum is MaxStaleness, the buffer holds the offsets of Slots, and the target is the leader's offset |
| Scan.SweepDecides | src/fr/irit/amak/dramas/Drone.java:167-171 | the scan's final counter is TieCount, and its outcome (buffer row rand when tmp > 0, else the leader, else nothing) is Decide |
| Scan.DecideMaximal | src/fr/irit/amak/dramas/Drone.java:153-171 | unless rand is 0 while ties exist, the chosen offset is a visible cell of maximal staleness over the whole window |
| Scan.DecideTargetVisible | src/fr/irit/amak/dramas/Drone.java:152-171 | when the drone's own cell is visible, the decision always names a target, and that target is a visible window cell |
| Scan.DecideKeeps | src/fr/irit/amak/dramas/Drone.java:152-171 | the old target is kept exactly when no cell of the window is on the grid (both directions) |
| Scan.UniqueMaximum | src/fr/irit/amak/dramas/Drone.java:153-171 | a single strictly positive most stale cell leaves tmp == 0 and is the target, whatever the random index |
| Scan.TieSlotsReach | src/fr/irit/amak/dramas/Drone.java:153-170 | the filled buffer rows hold pairwise different cells; a cell at the maximum is reachable by some rand in 1..tmp exactly when it is not the leader of a positive maximum |
| Scan.RandZeroPicksOwnCell | src/fr/irit/amak/dramas/Drone.java:149-170 | because buffer row 0 is never written, a window with two tied cells and rand == 0 selects the drone's own cell, which is less stale than the maximum |
| Scan.RandZeroOwnCellOffGrid | src/fr/irit/amak/dramas/Drone.java:149-170 | with the drone's own cell off the grid, two tied cells and rand == 0 still decide offset (0, 0), so the target looked up there is absent |
| Drones.Drone.constructor | src/fr/irit/amak/dramas/Drone.java:61-70 | a new drone is at its start coordinates with an empty 5 × 5 view and no target or current area |
| Drones.Drone.OnReady | src/fr/irit/amak/dramas/Drone.java:82-84 | the current area becomes the grid's area at the drone's position |
| Drones.Drone.OnPerceive | src/fr/irit/amak/dramas/Drone.java:121-125 | afterwards, for every offset (x, y) in [-2, 2]², view[y + 2, x + 2] is the grid's area at (dx + x, dy + y), None off the grid |
| Drones.Drone.ScanCell | src/fr/irit/amak/dramas/Drone.java:152-162 | one loop body of the scan advances the scan's progress by the cell at (x, y); it keeps the buffer rows 1..tmp equal to the recorded ties, row 0 at (0, 0), and the target at the grid area of the lead offset |
| Drones.Drone.ScanColumn | src/fr/irit/amak/dramas/Drone.java:151-165 | the inner loop carries the scan from the first cell of column x to the first cell of column x + 1, with the same buffer and target invariant |
| Drones.Drone.ScanView | src/fr/irit/amak/dramas/Drone.java:147-166 | the scan ends in Sweep of the whole window: its maximum and tie counter (at most 25), buffer rows 1..tmp equal to the recorded tie offsets, row 0 at (0, 0), and the target is the grid area at the lead offset, or unchanged when the maximum is 0 |
| Drones.Drone.OnDecide | src/fr/irit/amak/dramas/Drone.java:145-172 | tmp is the scan's final tie count and rand = pick(tmp); the new target is the grid area at the offset the scan's outcome names, or the old target when it names none; by SweepDecides that outcome is Decide(Window(), rand) and tmp is TieCount(Window()) |
| Drones.Drone.DecideFindsArea | src/fr/irit/amak/dramas/Drone.java:152-171 | after perceiving from the current position, and with the drone's own cell on the grid, the decided target is an existing grid area |
| Drones.Drone.DecideFindsMostStale | src/fr/irit/amak/dramas/Drone.java:153-171 | after perceiving from the current position, unless rand is 0 while ties exist, the decided target is a grid area of maximal staleness in the window |
| Drones.Drone.GetX | src/fr/irit/amak/dramas/Drone.java:99-101 | plain read of the x coordinate; no contract |
| Drones.Drone.GetY | src/fr/irit/amak/dramas/Drone.java:109-111 | plain read of the y coordinate; no contract |
| Drones.Drone.GetCurrentArea | src/fr/irit/amak/dramas/Drone.java:273-275 | plain read of the current area; no contract |
| Drones.Drone.MoveToward | src/fr/irit/amak/dramas/Drone.java:255-266 | the position becomes MoveStep(old position, target). The current area becomes the grid's area there. That area is marked seen (staleness 0) when it exists. ok is false exactly when no area exists there (the source dereferences null) |
| Drones.Drone.OnAct | src/fr/irit/amak/dramas/Drone.java:185-189 | without a target, position, current area and grid are unchanged; with one, the drone makes exactly the move of MoveToward |

## Left out

- Rendering (`onRenderingInitialization`, `onUpdateRender`, the drawable) is not modelled. It is user interface only.
- The debug print of `tmp` and `rand` is not modelled. `OnDecide` returns both values instead.
- `Math.random()` is replaced by a parameter `pick`, with `pick(n) <= n`. `OnDecide` calls it as `rand := pick(tmp)`; the floating-point scaling and truncation are not modelled.
- Neighbour perception (`neighborsView`, `getAgentsInArea`, `addNeighbor`, `clearNeighbors`) is left out. It calls an agent framework that is not part of this model, and the decision never reads it.
- `computeCriticality` is left out. It always returns 0 and nothing in the drone uses it.
- `closestDrone`, `distanceTo` and `getAreaImTheClosestTo` are left out. Nothing calls them, and they use floating-point square roots.
- The `Agent` superclass, its `params` array and the scheduler that runs the phases of all drones in lock step are left out. The constructor takes the start coordinates directly.
- World.java and Area.java are not part of this model. `World` is a stand-in: a map from the coordinates of the grid cells to their staleness.
  - `AreaAt` plays the role of `getAreaByPosition`.
  - `Seen` plays the role of `Area.seen`; the model assumes it sets the staleness to 0.
- Staleness is a `double` in the source (`getTimeSinceLastSeen`). Here it is a `nat`, since it counts ticks. Floating-point comparison is not modelled.
- Areas are Java objects shared between the world and the drones. The model stores value snapshots of them (coordinates and staleness at the time of lookup). So the `view` does not follow later staleness changes made by other drones.
- VIEW_RADIUS is a public, non-final static in the source, and its comment speaks of a 20 × 20 square. The model fixes it at 2, its value in Drone.java, so the view is 5 × 5 and the buffer has 26 rows. Other radii are not modelled.
- Coordinates are Java `int`s in the source and unbounded `int`s here. The steps of `moveToward` cannot wrap, since each one moves toward a target coordinate that is itself an `int` and never passes it (`Movement.Step`). The sums `dx + matrice[rand][0]` and `dy + matrice[rand][1]` in `onDecide`, and the window lookups of `perceive`, would wrap near the ends of the `int` range; that wrap-around is not modelled.
- Drones.Drone.DecideFindsArea: requires the drone's own cell to be on the grid. The unconditional "some cell is visible, so the target is not null" does not hold in the source: with ties and `rand == 0` the target is the area at the drone's own position (Drone.java:167-170), which `Scan.RandZeroOwnCellOffGrid` shows can be absent.
- Drones.Drone.MoveToward: the null dereference in `moveToward` when the reached cell is off the grid is modelled as the result `ok == false` rather than as an exception.
- Drones.Drone.OnDecide: its postcondition names the scan's outcome. The identification with `Decide(Window(), rand)`, and the properties of that decision, are stated by `Scan.SweepDecides`, `DecideFindsArea` and `DecideFindsMostStale`, not inside `OnDecide`'s own contract.
- The getters `GetX`, `GetY` and `GetCurrentArea` are modelled as plain field reads and carry no contract.
