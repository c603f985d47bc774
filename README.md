# Raycaster controller and WLED LED mapping, in Dafny

This project models the integer core of a pygame raycasting shooter. The game
streams its view to a 16 × 8 WLED LED matrix. Two pieces are modelled, and
their promised properties are proved.

1. **LED addressing and frame ordering.**
   - The game's streamer addresses LEDs in plain row-major order
     (`y * 16 + x`), because the firmware's 2D configuration does the panel
     translation. It lays each downscaled frame out into a 128-slot buffer
     before posting it.
   - The calibration tool uses its own mapping for two 8 × 8 panels with
     horizontal serpentine wiring. Panel 0 starts at the top-left, panel 1 at
     the bottom-right. Its test patterns are laid out into a 128-LED buffer
     that starts black.
   - Both mappings are proved to be bijections from the grid onto `[0, 128)`,
     each with an explicit inverse. The serpentine mapping is also proved to
     split the panels and to chain neighbouring cells. Both buffer fills are
     `array` loops whose invariants say which slots are written, and with what.
2. **The game controller** (`RaycastGame`). It is a class with the source's
   fields: position, heading, shot flag, flash and cooldown timers, and the
   list of bullet impacts. Its methods are the collision-gated moves, firing
   behind the cooldown gate, and the per-tick timer update. Its invariant
   `Valid()` is kept by every method: the player stands in an empty cell, the
   timers stay in range, and every impact is centred with 1..10 ticks left.
   The grid half of the ray caster (first wall cell wins, its parity, the
   `(100, 0)` sentinel on a miss) and the impact radius formula are modelled
   beside the class.

Modules: `Wrappers` (Option), `LedMatrix` (matrix size, colours,
coordinates), `WledStream` (the streamer in `wled_game.py`), `Calibrate`
(`calibrate_wled.py`) and `Raycast` (`RaycastGame` in `wled_game.py`).

How the model stands in for what it leaves out:
- Positions and the heading are exact `real`s, not doubles.
- `int()` on a float is `Trunc` (truncation toward zero).
- The `(cos a, sin a)` of an angle is passed in as a function `unit`, with
  both parts in [-1, 1]. π/2 is the double `1.5707963267948966`.
- `CastRay` is given the grid cells its 200-step march passes through and the
  distance at each step. `Shoot` is given the ray distance.
- The HTTP post is left out. Its status-200 answer is an input bool
  (`accepted`). What the model returns is the LED list that would be posted.

Facts about the code that the model keeps:
- The code hard-codes the two panels of the serpentine layout rather than
  taking a layout configuration. The model hard-codes them too.
- A ray step that lands outside the grid is not a hit, and the march goes on
  to the next step rather than stopping. The model marches on too.
- Timers count down only while positive, so a timer at 0 stays at 0. The
  invariant keeps every timer non-negative.

Python's `%` and Dafny's agree on every operand used here, because each
divisor is positive.

## Model

| member | source | states |
|---|---|---|
| `WledStream.RowMajorIndex` | wled_game.py:34-39 | inside the 16 × 8 grid, the index lies in [0, 128) |
| `WledStream.RowMajorPoint` | wled_game.py:34-39 | every LED index in [0, 128) is the index of some grid cell (surjectivity, via an explicit inverse) |
| `WledStream.RowMajorPointOfIndex` | wled_game.py:34-39 | the inverse gives back the cell, (x, y) → index → (x, y) |
| `WledStream.RowMajorInjective` | wled_game.py:34-39 | distinct cells get distinct LEDs, so the mapping is a bijection onto [0, 128) |
| `WledStream.SendFrameToWled` | wled_game.py:41-68 | a frame is posted exactly when it has every pixel read; then the LED list (the `i` field of the payload) has 128 entries, slot `y*16+x` holds pixel (x, y), and no slot is left empty; otherwise the send fails; the result is true iff posted and accepted |
| `Calibrate.LedIndex` | calibrate_wled.py:16-32 | inside the grid the index lies in [0, 128); it is below 64 iff the cell is on the left panel (x < 8) |
| `Calibrate.LedPoint` | calibrate_wled.py:16-32 | every LED in [0, 128) is lit by the grid cell this inverse returns (that no other cell lights it is `LedIndexInjective`) |
| `Calibrate.LedPointOfIndex` | calibrate_wled.py:16-32 | the inverse gives back the cell for every grid cell |
| `Calibrate.LedIndexInjective` | calibrate_wled.py:16-32 | no two cells share an LED: each LED is addressed exactly once |
| `Calibrate.StrandStarts` | calibrate_wled.py:3-32 | LED 0 is the top-left cell (0, 0) and LED 64, panel 1's first, is the bottom-right cell (15, 7) |
| `Calibrate.SerpentineWiring` | calibrate_wled.py:16-32 | within each panel, consecutive LEDs light neighbouring cells: a horizontal serpentine |
| `Calibrate.ClearMatrix` | calibrate_wled.py:48-51 | exactly 128 entries, all black |
| `Calibrate.PatternFrame` | calibrate_wled.py:53-62 | 128 entries; a cell the pattern colours shows that colour on its LED, and a cell with no colour leaves its LED black |
| `Calibrate.BlankPatternClears` | calibrate_wled.py:48-62 | a pattern that colours nothing produces exactly the clear-matrix buffer |
| `Calibrate.ShowXyPattern` | calibrate_wled.py:53-62 | the row-by-row buffer fill produces exactly `PatternFrame(pattern)` |
| `Raycast.GridShape` | wled_game.py:95-109 | the map is 8 × 8, every border cell is a wall, and the start cell (3, 3) is empty |
| `Raycast.EmptyCellsInterior` | wled_game.py:100-109 | every empty cell lies strictly inside the border (1..6 on both axes) |
| `Raycast.FirstWall` | wled_game.py:137-149 | the step it returns lands on an in-bounds wall cell and no earlier step does; None means no step does |
| `Raycast.CastRay` | wled_game.py:129-151 | the first wall cell of the march gives its distance and the parity `(x+y)%2`, which is 0 or 1; a miss gives exactly (100, 0); when every distance is at most 4, the distance is below 10 iff some wall was hit |
| `Raycast.Trunc` | wled_game.py:141-142 | truncation toward zero: the result is within one of the value, on the side of zero |
| `Raycast.NearStaysInMap` | wled_game.py:268-295 | from an empty cell, a destination at most 0.05 away on each axis still indexes inside the map, so the lookup cannot fail or wrap |
| `Raycast.Commit` | wled_game.py:271-273 | the committed position is the destination or the old position, and its cell is empty |
| `Raycast.MoveIntoWallRejected` | wled_game.py:271-273 | a move into a wall cell leaves the position unchanged |
| `Raycast.MoveIntoEmptyCommitted` | wled_game.py:271-273 | a move into an empty cell is committed |
| `Raycast.Step` | wled_game.py:268-292 | the proposed `new_x`, `new_y` for a (cos, sin) direction is at most 0.05 from the player on each axis, and the backward step is undone by the forward one |
| `Raycast.Move` | wled_game.py:268-273 | whether or not its key is pressed, one move branch leaves the player in an empty cell |
| `Raycast.Steer` | wled_game.py:267-295 | the four move branches in order keep the player in an empty cell |
| `Raycast.CountDown` | wled_game.py:316-322 | a positive timer drops by exactly one, any other timer stays as it is, and a non-negative timer never goes negative |
| `Raycast.TickAll` | wled_game.py:325-327 | the per-impact pass keeps the list's length, each impact's column and place, and drops each positive timer by exactly one while leaving the others as they are |
| `Raycast.Survivors` | wled_game.py:329-330 | the kept impacts are exactly those with a positive timer, and no more than there were |
| `Raycast.SurvivorsAppend` | wled_game.py:329-330 | filtering distributes over concatenation, so the survivors keep their relative order |
| `Raycast.ImpactSize` | wled_game.py:196 | for timers 0..10 the radius `max(2, int(5*timer/10))` lies in [2, 5] |
| `Raycast.ImpactSizeShrinks` | wled_game.py:196 | the radius never grows as the timer runs down |
| `Raycast.RaycastGame.constructor` | wled_game.py:94-127 | the player starts at (3.5, 3.5) facing angle 0, with no shot, timers at 0 and no impacts; the invariant holds |
| `Raycast.RaycastGame.CommitMove` | wled_game.py:271-273 | only the position changes, and it becomes `Commit(old position, destination)`; the invariant is kept |
| `Raycast.RaycastGame.TryStep` | wled_game.py:268-273 | one pressed move key steps 0.05 along the direction and commits or rejects the step |
| `Raycast.RaycastGame.MovePlayer` | wled_game.py:267-295 | the new position is `Steer` of the old one; nothing else changes |
| `Raycast.RaycastGame.Shoot` | wled_game.py:301-312 | sets the shot flag, flash = 5 and cooldown = 10; appends exactly one impact `(160, 10)` iff the distance is below 10, and otherwise leaves the list unchanged |
| `Raycast.RaycastGame.HandleInput` | wled_game.py:257-299 | the heading turns by ±0.05 per pressed rotation key; the position is `Steer` along the new heading; a shot happens iff fire is pressed and the cooldown is 0; the invariant (player cell empty) is kept |
| `Raycast.RaycastGame.UpdateTimers` | wled_game.py:314-330 | the flash and cooldown count down without going negative; the impacts become the survivors of the decremented list, all with timers in 1..9 |
| `Raycast.FireTwiceWithinCooldown` | wled_game.py:298-305 | firing, one tick, then firing again yields exactly one impact, and the cooldown is at 9 |

## Left out

- HTTP posting, the `requests` session, timeouts, status checks and swallowed
  network exceptions (wled_game.py:57-68, calibrate_wled.py:34-46). This is
  network I/O. The device's answer is the input bool `accepted`.
  `ClearMatrix` and `ShowXyPattern` return the buffer they would send.
- The streamer's frame counter and FPS logging, and the 20 Hz / 35 Hz
  wall-clock gating of the main loop. These depend on real time. Because
  `WLEDStreamer` holds only that state, it is not a class here.
- Floating-point geometry: the cos/sin ray step, the sqrt distance,
  ray-angle interpolation, fisheye correction, wall height, distance shading
  and the trigonometry of movement. The model takes their results as inputs,
  and rounding error in double arithmetic is not modelled.
- The JSON wrapper of the payload (`on`, `bri`, `seg`, wled_game.py:51-55
  and calibrate_wled.py:37-41) is not built. The model returns only the LED
  list that goes into its `i` field.
- The Lanczos downscale and transpose (`downscale_surface`). It is a foreign
  image-library call. `SendFrameToWled` takes the downscaled frame as input.
- All pygame drawing (sky, floor, wall strips, impact circles, weapon sprite,
  muzzle-flash art), window setup and event polling. The keyboard snapshot is
  the `Keys` input. Only W and S are absent, as in the code, which handles
  just the arrows, A, D and space.
- The calibration tool's interactive `main` and `ask_question`, which need
  console input and sleeps. test_wled_mapping.py is not part of this model:
  it is an interactive hardware probe.
- `Raycast.CastRay`: its distances are given for each step rather than computed,
  so the bound "a hit is at most 4 cells away" is a hypothesis of its last
  ensures, not something it proves.
- `Raycast.RaycastGame.HandleInput`: the ray distance used when firing is an
  input, not computed from the game's own position and heading.
