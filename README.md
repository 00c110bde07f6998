# Incremental Game of Life engine (LifeGameManager) in Dafny

This project models the simulation core of a Unity Game of Life: the
`LifeGameManager` component that advances Conway's Game of Life (rule B3/S23)
on an unbounded integer grid without rescanning the grid. It keeps a *dirty set*
(`changedTiles`) of the cells that changed in the last generation. Each tick it
evaluates the rule only at those cells and their eight neighbours, reading the
live tilemap and writing a scratch tilemap. It then copies the cells that
changed back and grows a bounding box around everything it has touched. Around
the engine sit the pause flag, the mouse edits accepted while paused, the
initial scan that seeds the dirty set, and the linear map from the speed slider
to the speed label.

A tilemap is modelled as the finite set of its live cells (`set<Pos>`): a cell
that is absent is dead. Cells are `Pos(x, y)`; the source's z coordinate is
always 0.

Files:

- `LifeRules.dfy` (module `LifeRules`): the grid, the neighbour list, neighbour
  counting, the rule as the source writes it (`NextAlive`), the Moore closure of
  a dirty set, the next dirty set (`NextDirty`), the full generation
  (`Generation`), the engine's invariant (`Stable`: every cell the rule would
  change lies in the closure of the dirty set) and the theorems about them.
- `LifeScenarios.dfy` (module `LifeScenarios`): the blinker, computed with the
  model's rule: a vertical row of three turns horizontal and back.
- `GameSpeed.dfy` (module `GameSpeed`): `GetGameSpeedByValue` over reals, with
  its inverse line.
- `LifeGameManager.dfy` (module `Game`): the class `LifeGameManager`, whose
  fields are the source's (`live` for `Tilemap`, `temp` for `TilemapTemp`,
  `changed` for `changedTiles`, `min`/`size` for `tilemapBounds`, `width`,
  `height`, `resume` for `gameResume`, `speed` for `GameSpeed`). Its methods
  update them in place with the source's loops. The module also holds the
  specification functions those methods are proved against.

The central result is `LifeRules.IncrementalIsFull`. Suppose every cell that
the rule would change lies in the Moore closure of the dirty set. Then toggling
the next dirty set gives exactly the full Game of Life generation, and the
invariant holds again for the next dirty set. `Game.LifeGameManager.Tick`
carries this into the class. The invariant is established by the constructor
(the initial scan) when every live cell lies in the scanned area. It is kept
by `Update` (paused edits) and by `OnResetButtonClick`.

Where the code does something one might not expect, the model follows the
code:

- The wait between ticks is the raw slider value. The interpolated value only
  feeds the on-screen label.
- Reset clears only the live grid. It keeps the dirty set and the scratch grid,
  and it toggles pause rather than forcing it. The invariant still holds after a
  reset because nothing changes in an empty grid.
- The bounds box is rebuilt as `(min, max - min + 1)` from Unity's exclusive
  `max`. So after a non-empty update the exclusive max is one past the greatest
  of the old exclusive max and the dirty cells.
  The model states the exact new box and does not claim that it is minimal.
- The initial scan covers `[-width, width] x [-height, height]` around the
  origin, with `width = 36` and `height = 20` at that point. It does not scan
  the bounds box.

## Model

| member | source | states |
|---|---|---|
| `LifeRules.AdjacentPositions` | Assets/Scripts/LifeGameManager.cs:214-227 | exactly eight positions, pairwise distinct, none equal to the centre, each within one step on both axes, and every such cell is among them |
| `LifeRules.CountAlive` | Assets/Scripts/LifeGameManager.cs:200-212 | counting live entries of a list never exceeds its length |
| `LifeRules.AliveAdjacents` | Assets/Scripts/LifeGameManager.cs:200-212 | defines GetNumberOfAliveAdjacents as a value: the live entries among the eight adjacent positions; the result is at most 8 |
| `LifeRules.NextAlive` | Assets/Scripts/LifeGameManager.cs:171-180 | defines the state UseGameRules leaves at a cell, branch by branch as written: a live cell with fewer than 2 or more than 3 live neighbours dies, a dead one with exactly 3 is born, any other keeps its state (no ensures; its meaning is stated by `RuleIsB3S23`) |
| `LifeRules.Closure` | Assets/Scripts/LifeGameManager.cs:187-195 | defines the cells the loop visits: every dirty cell and its eight neighbours (no ensures; its meaning is stated by `ClosureMeaning`) |
| `LifeRules.NextDirty` | Assets/Scripts/LifeGameManager.cs:183-198 | defines the new dirty set: the visited cells whose rule result differs from their state; it never leaves the visited cells |
| `LifeRules.Toggle` | Assets/Scripts/LifeGameManager.cs:119-121 | defines the grid after the copy back: a cell is alive exactly when it was alive or is dirty, but not both |
| `LifeRules.Generation` | Assets/Scripts/LifeGameManager.cs:166-181 | defines the full generation, evaluated over the closure of the live cells; it holds exactly the cells the rule makes alive, anywhere in the plane |
| `LifeRules.Stable` | Assets/Scripts/LifeGameManager.cs:183-198 | defines the engine's invariant (every cell the rule would change lies around a dirty cell); it holds exactly when the next dirty set is the set of all cells the rule changes |
| `LifeRules.BirthsNearLife` | Assets/Scripts/LifeGameManager.cs:176-180 | every cell the rule makes alive lies within one step of a live cell |
| `LifeRules.AliveAdjacentsCounts` | Assets/Scripts/LifeGameManager.cs:200-212 | the live-neighbour count equals the number of live cells in the neighbour set, hence lies in 0..8 |
| `LifeRules.ClosureMeaning` | Assets/Scripts/LifeGameManager.cs:187-195 | the cells visited around a dirty set are exactly the cells within one step of some dirty cell |
| `LifeRules.CountAliveAgree` | Assets/Scripts/LifeGameManager.cs:229-237 | two grids that agree on the listed neighbours give the same count |
| `LifeRules.LocalRule` | Assets/Scripts/LifeGameManager.cs:166-181 | the rule's result at a cell depends only on the 3x3 block around it |
| `LifeRules.RuleIsB3S23` | Assets/Scripts/LifeGameManager.cs:166-181 | the source's branches are rule B3/S23: alive next iff three live neighbours, or alive with two |
| `LifeRules.FarCellStaysDead` | Assets/Scripts/LifeGameManager.cs:176-180 | a cell with no live cell within one step is dead and is not born |
| `LifeRules.GenerationIsB3S23` | Assets/Scripts/LifeGameManager.cs:166-181 | the full generation contains exactly the cells B3/S23 makes alive, over the whole plane |
| `LifeRules.IncrementalIsFull` | Assets/Scripts/LifeGameManager.cs:115-123 | under the invariant, toggling the next dirty set yields the full generation, and the invariant holds for the new grid and the new dirty set |
| `LifeRules.NoDirtyNoChange` | Assets/Scripts/LifeGameManager.cs:183-198 | with an empty dirty set the next dirty set is empty and the grid is unchanged |
| `LifeRules.LiveIsStable` | Assets/Scripts/LifeGameManager.cs:128-138 | a dirty set holding every live cell establishes the invariant |
| `LifeRules.EditPreservesStable` | Assets/Scripts/LifeGameManager.cs:47-57 | toggling one cell and adding it to the dirty set keeps the invariant |
| `LifeRules.CountAliveEmpty` | Assets/Scripts/LifeGameManager.cs:200-212 | no cell counts as alive in an empty grid |
| `LifeRules.EmptyGridStable` | Assets/Scripts/LifeGameManager.cs:81-85 | after the live grid is cleared the invariant holds whatever the dirty set |
| `LifeScenarios.VerticalBlinkerAt` | Assets/Scripts/LifeGameManager.cs:166-181 | around a vertical blinker, the rule makes alive exactly the three cells of the horizontal blinker |
| `LifeScenarios.HorizontalBlinkerAt` | Assets/Scripts/LifeGameManager.cs:166-181 | around a horizontal blinker, the rule makes alive exactly the three cells of the vertical blinker |
| `LifeScenarios.VerticalBlinkerTurns` | Assets/Scripts/LifeGameManager.cs:166-181 | the full generation of the vertical blinker is the horizontal blinker |
| `LifeScenarios.HorizontalBlinkerTurns` | Assets/Scripts/LifeGameManager.cs:166-181 | the full generation of the horizontal blinker is the vertical blinker, so the blinker has period 2 |
| `GameSpeed.GameSpeedByValue` | Assets/Scripts/LifeGameManager.cs:94-103 | an error exactly when the input is below 0.009 or above 0.5; otherwise a value in [1, 10] |
| `GameSpeed.GameSpeedCalibration` | Assets/Scripts/LifeGameManager.cs:26-29 | f(0.009) = 10, f(0.5) = 1, and the midpoint of the range maps to 5.5 |
| `GameSpeed.GameSpeedDecreasing` | Assets/Scripts/LifeGameManager.cs:101 | a larger in-range input gives a strictly smaller result |
| `GameSpeed.GameSpeedRoundTrip` | Assets/Scripts/LifeGameManager.cs:101 | the inverse line recovers every in-range input from its result |
| `GameSpeed.GameSpeedOnto` | Assets/Scripts/LifeGameManager.cs:101 | every value in [1, 10] is the result of some in-range input |
| `Game.Overlay` | Assets/Scripts/LifeGameManager.cs:158-164 | a cell of the copy takes the source's state at the copied keys and keeps the target's state elsewhere |
| `Game.SetTile` | Assets/Scripts/LifeGameManager.cs:173-179 | defines Tilemap.SetTile with the alive tile or null: the cell takes the given state and every other cell keeps its state |
| `Game.RuleWrite` | Assets/Scripts/LifeGameManager.cs:171-180 | defines what UseGameRules writes to the scratch grid: where the rule changes the cell, the cell gets the opposite of its live state; otherwise the grid is unchanged; other cells are never touched |
| `Game.RuleMark` | Assets/Scripts/LifeGameManager.cs:171-180 | defines what UseGameRules adds to the new dirty set: the set only grows, by at most the cell, and contains it afterwards exactly when it was there or the rule changes it |
| `Game.ScanArea` | Assets/Scripts/LifeGameManager.cs:239-248 | defines what the initial scan collects: a cell is collected exactly when it is alive and lies in [-w, w] x [-h, h], both ends included |
| `Game.RuleIdempotent` | Assets/Scripts/LifeGameManager.cs:166-181 | applying the rule's write and mark twice at one position has the effect of applying them once |
| `Game.GrownNeverShrinks` | Assets/Scripts/LifeGameManager.cs:140-156 | the new min is at most the old one, the new exclusive max exceeds the old one, the new box contains the old box and every dirty cell |
| `Game.Grown` | Assets/Scripts/LifeGameManager.cs:140-156 | defines the box UpdateTilemapBounds builds: min is the least of the old min and the dirty cells, the exclusive max is one past the greatest of the old exclusive max and the dirty cells; such a box has a min no larger and an exclusive max larger than the old box's |
| `Game.FoldStep` | Assets/Scripts/LifeGameManager.cs:147-151 | folding one more cell with component-wise min and max keeps min and max the least and greatest of the old box corner and the cells folded so far |
| `Game.GrownFromFold` | Assets/Scripts/LifeGameManager.cs:153-155 | rebuilding the box as (min, max - min + 1) from a finished fold gives the grown box |
| `Game.GrownCovers` | Assets/Scripts/LifeGameManager.cs:140-156 | a grown box still contains every cell the old box contained, plus the dirty cells |
| `Game.RuleStepKeeps` | Assets/Scripts/LifeGameManager.cs:189-194 | one more rule application keeps the scratch grid equal to its old contents, overwritten at each new dirty cell with that cell's new state |
| `Game.FlipsAmongStep` | Assets/Scripts/LifeGameManager.cs:191-194 | visiting one more position adds it to the collected set exactly when the rule changes it |
| `Game.NextDirtyGrows` | Assets/Scripts/LifeGameManager.cs:187-195 | processing one more dirty cell adds exactly the changing cells of its 3x3 block |
| `Game.LifeGameManager.constructor` | Assets/Scripts/LifeGameManager.cs:13-37 | the initial field values, the tilemap's bounds, paused after Start, dirty set = the live cells of [-36, 36] x [-20, 20], and the invariant when every live cell lies there |
| `Game.LifeGameManager.OnPauseButtonClick` | Assets/Scripts/LifeGameManager.cs:63-69 | the run flag is negated |
| `Game.LifeGameManager.OnResetButtonClick` | Assets/Scripts/LifeGameManager.cs:81-85 | the live grid becomes empty, the run flag is negated, dirty set and scratch grid are kept, and the invariant holds |
| `Game.LifeGameManager.OnGameSpeedChange` | Assets/Scripts/LifeGameManager.cs:105-110 | the wait between ticks becomes the raw slider value; the label value is the interpolation, or its error when out of range |
| `Game.LifeGameManager.Update` | Assets/Scripts/LifeGameManager.cs:39-61 | a click while paused toggles the cell, adds it to the dirty set and grows the box; otherwise nothing changes; the invariant and the box cover are kept |
| `Game.LifeGameManager.Tick` | Assets/Scripts/LifeGameManager.cs:115-123 | while paused nothing changes; otherwise the new dirty set is the changing cells of the old closure, the grid changes exactly there, the box grows unless the set is empty, and under the invariant the grid becomes the full generation and the invariant is kept |
| `Game.LifeGameManager.InitializeChangedTiles` | Assets/Scripts/LifeGameManager.cs:128-138 | the scan (LoopInTheTilemap, lines 239-248) adds exactly the live cells of [-width, width] x [-height, height] to the dirty set |
| `Game.LifeGameManager.UpdateTilemapBounds` | Assets/Scripts/LifeGameManager.cs:140-156 | no-op on an empty dirty set; otherwise min is the least of the old min and the dirty cells, the exclusive max is one past the greatest of the old exclusive max and the dirty cells, width and height are the new size |
| `Game.LifeGameManager.CopyTilemapInto` | Assets/Scripts/LifeGameManager.cs:158-164 | the target with every dirty cell set to its state in the source; the other cells of the target are kept |
| `Game.LifeGameManager.UseGameRules` | Assets/Scripts/LifeGameManager.cs:166-181 | reads the live grid only; where the rule changes the cell, its new state is written to the scratch grid and the cell is added to the new set; otherwise neither changes |
| `Game.LifeGameManager.LoopThroughChangedTiles` | Assets/Scripts/LifeGameManager.cs:183-198 | the new dirty set is exactly the cells of the closure of the old one whose rule result differs from their live state, whatever the visiting order; the scratch grid holds their new states |
| `Game.LifeGameManager.GetAdjacentTiles` | Assets/Scripts/LifeGameManager.cs:229-237 | the live state of each of the eight neighbours, in neighbour order |
| `Game.LifeGameManager.GetNumberOfAliveAdjacents` | Assets/Scripts/LifeGameManager.cs:200-212 | the number of live cells among the eight neighbours, at most 8 |

## Left out

- `Assets/Scripts/CameraController.cs` is not part of this model: it pans and zooms the camera with floating-point input handling and has no grid logic.
- `Assets/Scripts/MenuManager.cs` and `OnMenuButtonClick` are not part of this model: they only load scenes and quit.
- `OnNextButtonClick` / `WaitForNextgeneration` are not modelled: how many generations run during the wait depends on frame timing, which the model does not have.
- The `while (true)` loop of `StartGame` and its `WaitForSeconds` are not modelled; `Tick` is one iteration of the loop body.
- Button labels, button visibility, the TextMeshPro speed label text and `EventSystem` calls are left out; `OnGameSpeedChange` returns the value the label would show.
- The screen-to-cell conversion of a click is left out: `Update` takes the clicked cell as a parameter.
- `Tilemap.cellBounds` and the initial contents of both tilemaps come from the Unity scene; the constructor takes them as parameters.
- Every tile is assumed to be the alive tile (the only tile the code ever sets); a foreign tile in the scene, which the rule would treat as neither alive nor dead, is not modelled.
- The z coordinate of positions and of the bounds box is left out; it is always 0 for cells, and the box's depth never affects `width` or `height`.
- 32-bit integer overflow of coordinates, widths and counts is not modelled: integers are unbounded.
- `GameSpeed.GameSpeedByValue`: computes over exact reals, not over `double` with the `float` slider value widened to it, so rounding of the constants and of the result is not modelled. At the lower end this matters: a slider value of `0.009f` widens to the double 0.0089999996..., which is below the double constant 0.009, so the code throws there while the model returns `Ok(10.0)`.
- `Game.LifeGameManager.OnGameSpeedChange`: takes the slider value as an exact real, so it inherits the `GameSpeedByValue` gap above: at `0.009f` it returns `Ok(10.0)` where the code's interpolation throws.
- `Game.LifeGameManager.constructor`: requires a non-negative initial cell-bounds size, as `Tilemap.cellBounds` always has; Unity's `BoundsInt.min` for a negative size is not modelled.
- `HashSet` iteration order is not modelled as a particular order: every loop over a set picks an arbitrary remaining element, so the results hold for every order.
